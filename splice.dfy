/** Rewriting a number through a redirect. */
module Splice {

  /**
   * Forward: a fresh number made of `prefix` followed by what is left of
   * `num` after its first `position` symbols. Every caller passes a position
   * within `num`.
   */
  method Forward(position: nat, prefix: string, num: string) returns (r: string)
    requires position <= |num|
    ensures |r| == |prefix| + |num| - position
    ensures r == prefix + num[position..]
  {
    var newLength := |prefix| + |num| - position;
    var buf := new char[newLength];
    var i := 0;
    while i < newLength
      invariant 0 <= i <= newLength
      invariant forall j :: 0 <= j < i ==>
        buf[j] == if j < |prefix| then prefix[j] else num[j + position - |prefix|]
    {
      if i < |prefix| {
        buf[i] := prefix[i];
      } else {
        buf[i] := num[i + position - |prefix|];
      }
      i := i + 1;
    }
    r := buf[..];
  }
}
