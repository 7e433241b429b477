/**
 * The 12-symbol alphabet of telephone numbers: the digits '0'..'9', '*' and '#'.
 * A C string argument that may be NULL is an `Option<string>`; the characters
 * before the terminating NUL are the string.
 */
module Alphabet {
  import opened Wrappers

  /** `isdigit` on the ASCII digits. */
  predicate IsDigit(c: char) {
    '0' <= c <= '9'
  }

  predicate IsSymbol(c: char) {
    IsDigit(c) || c == '*' || c == '#'
  }

  /** A well-formed number: non-empty, alphabet symbols only. */
  predicate IsNumber(s: string) {
    |s| > 0 && forall i :: 0 <= i < |s| ==> IsSymbol(s[i])
  }

  /** A possibly NULL argument that is a well-formed number. */
  predicate IsNum(num: Option<string>) {
    num.Some? && IsNumber(num.value)
  }

  /** check_num: NULL and "" are rejected, then every character is checked. */
  method CheckNum(num: Option<string>) returns (ok: bool)
    ensures ok <==> num.Some? && |num.value| > 0
                    && forall i :: 0 <= i < |num.value| ==> IsSymbol(num.value[i])
  {
    if num.None? {
      return false;
    }
    var s := num.value;
    if |s| == 0 {
      return false;
    }
    var i := 0;
    while i < |s|
      invariant 0 <= i <= |s|
      invariant forall j :: 0 <= j < i ==> IsSymbol(s[j])
    {
      if !IsDigit(s[i]) && s[i] != '*' && s[i] != '#' {
        return false;
      }
      i := i + 1;
    }
    return true;
  }

  /** get_digit: the child slot a symbol selects. */
  function GetDigit(c: char): (d: int)
    ensures IsSymbol(c) ==> 0 <= d < 12
    ensures IsDigit(c) ==> d == c as int - '0' as int
    ensures c == '*' ==> d == 10
    ensures c == '#' ==> d == 11
  {
    match c
    case '*' => 10
    case '#' => 11
    case _ => c as int - '0' as int
  }

  /**
   * Distinct symbols select distinct slots, so a trie path of slots is the same
   * as the string of symbols that spells it.
   */
  lemma GetDigitInjective(c1: char, c2: char)
    requires IsSymbol(c1) && IsSymbol(c2)
    requires GetDigit(c1) == GetDigit(c2)
    ensures c1 == c2
  {
  }

  /** A number followed by alphabet symbols is again a number. */
  lemma {:induction false} AppendIsNumber(s: string, t: string)
    requires IsNumber(s)
    requires forall i :: 0 <= i < |t| ==> IsSymbol(t[i])
    ensures IsNumber(s + t)
  {
    forall i | 0 <= i < |s + t|
      ensures IsSymbol((s + t)[i])
    {
      if i < |s| {
        assert (s + t)[i] == s[i];
      } else {
        assert (s + t)[i] == t[i - |s|];
      }
    }
  }
}
