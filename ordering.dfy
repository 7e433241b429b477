/**
 * The order of strcmp_extended: symbol by symbol on character codes, and a
 * strict prefix before its extensions. Result lists are kept strictly
 * ascending in this order, which makes them duplicate-free.
 */
module Ordering {

  /** The three-way comparison strcmp_extended computes: -1, 0 or 1. */
  function Cmp(a: string, b: string): (r: int)
    ensures -1 <= r <= 1
    decreases |a|
  {
    if a == [] then (if b == [] then 0 else -1)
    else if b == [] then 1
    else if a[0] > b[0] then 1
    else if b[0] > a[0] then -1
    else Cmp(a[1..], b[1..])
  }

  /** strcmp_extended: compare the common part, then the lengths. */
  method StrcmpExtended(num1: string, num2: string) returns (r: int)
    ensures r == Cmp(num1, num2)
  {
    var len1, len2 := |num1|, |num2|;
    var minLen := if len1 > len2 then len2 else len1;
    var i := 0;
    while i < minLen
      invariant 0 <= i <= minLen
      invariant Cmp(num1, num2) == Cmp(num1[i..], num2[i..])
    {
      if num1[i] > num2[i] {
        return 1;
      } else if num2[i] > num1[i] {
        return -1;
      }
      assert num1[i..][1..] == num1[i + 1..];
      assert num2[i..][1..] == num2[i + 1..];
      i := i + 1;
    }
    if len1 == len2 {
      return 0;
    } else {
      return if len1 > len2 then 1 else -1;
    }
  }

  lemma {:induction false} CmpZeroIffEqual(a: string, b: string)
    ensures Cmp(a, b) == 0 <==> a == b
    decreases |a|
  {
    if a != [] && b != [] && a[0] == b[0] {
      CmpZeroIffEqual(a[1..], b[1..]);
      assert a == [a[0]] + a[1..];
      assert b == [b[0]] + b[1..];
    }
  }

  /** Swapping the arguments flips the sign. */
  lemma {:induction false} CmpAntisymmetric(a: string, b: string)
    ensures Cmp(b, a) == -Cmp(a, b)
    decreases |a|
  {
    if a != [] && b != [] && a[0] == b[0] {
      CmpAntisymmetric(a[1..], b[1..]);
    }
  }

  lemma {:induction false} CmpTransitive(a: string, b: string, c: string)
    requires Cmp(a, b) < 0 && Cmp(b, c) < 0
    ensures Cmp(a, c) < 0
    decreases |a|
  {
    if a != [] && a[0] == b[0] && b[0] == c[0] {
      CmpTransitive(a[1..], b[1..], c[1..]);
    }
  }

  /** A strict prefix sorts before every extension of it. */
  lemma {:induction false} CmpStrictPrefix(a: string, b: string)
    requires |a| < |b| && b[..|a|] == a
    ensures Cmp(a, b) == -1
    decreases |a|
  {
    if a != [] {
      assert b[1..][..|a| - 1] == a[1..];
      CmpStrictPrefix(a[1..], b[1..]);
    }
  }

  /** The strings of a list, as a set. */
  function Elems(s: seq<string>): set<string> {
    set x | x in s
  }

  /** Strictly ascending in the strcmp_extended order (hence no repeats). */
  ghost predicate StrictlySorted(s: seq<string>) {
    forall i, j :: 0 <= i < j < |s| ==> Cmp(s[i], s[j]) < 0
  }

  lemma SortedNoRepeat(s: seq<string>, i: nat, j: nat)
    requires StrictlySorted(s) && i < j < |s|
    ensures s[i] != s[j]
  {
    CmpZeroIffEqual(s[i], s[i]);
  }

  lemma ElemsEmpty(s: seq<string>)
    ensures s == [] <==> Elems(s) == {}
  {
    if s != [] {
      assert s[0] in Elems(s);
    }
  }

  /** Two strictly sorted lists with the same elements start with the same one. */
  lemma SortedHeads(s: seq<string>, t: seq<string>)
    requires StrictlySorted(s) && StrictlySorted(t) && Elems(s) == Elems(t)
    requires s != [] && t != []
    ensures s[0] == t[0]
  {
    assert t[0] in Elems(s);
    var i :| 0 <= i < |s| && s[i] == t[0];
    assert s[0] in Elems(t);
    var j :| 0 <= j < |t| && t[j] == s[0];
    if i > 0 && j > 0 {
      CmpAntisymmetric(s[0], t[0]);
    }
  }

  /** The tail of a strictly sorted list holds all its elements but the head. */
  lemma SortedTail(s: seq<string>)
    requires StrictlySorted(s) && s != []
    ensures Elems(s[1..]) == Elems(s) - {s[0]}
  {
    forall i | 0 < i < |s|
      ensures s[i] != s[0]
    {
      SortedNoRepeat(s, 0, i);
    }
    assert s == [s[0]] + s[1..];
  }

  /** A strictly sorted list is determined by its set of elements. */
  lemma {:induction false} SortedUnique(s: seq<string>, t: seq<string>)
    requires StrictlySorted(s) && StrictlySorted(t)
    requires Elems(s) == Elems(t)
    ensures s == t
    decreases |s|
  {
    ElemsEmpty(s);
    ElemsEmpty(t);
    if s != [] && t != [] {
      SortedHeads(s, t);
      SortedTail(s);
      SortedTail(t);
      SortedUnique(s[1..], t[1..]);
      assert s == [s[0]] + s[1..];
      assert t == [t[0]] + t[1..];
    }
  }

  lemma {:induction false} InsertKeepsSorted(list: seq<string>, k: nat, x: string)
    requires StrictlySorted(list) && k <= |list|
    requires forall j :: 0 <= j < k ==> Cmp(list[j], x) < 0
    requires k < |list| ==> Cmp(x, list[k]) < 0
    ensures StrictlySorted(list[..k] + [x] + list[k..])
  {
    var r := list[..k] + [x] + list[k..];
    forall i, j | 0 <= i < j < |r|
      ensures Cmp(r[i], r[j]) < 0
    {
      if j < k {
        assert r[i] == list[i] && r[j] == list[j];
      } else if j == k {
        assert r[i] == list[i] && r[j] == x;
      } else if i == k {
        assert r[i] == x && r[j] == list[j - 1];
        if j - 1 > k {
          CmpTransitive(x, list[k], list[j - 1]);
        }
      } else if i < k {
        assert r[i] == list[i] && r[j] == list[j - 1];
      } else {
        assert r[i] == list[i - 1] && r[j] == list[j - 1];
      }
    }
  }

  /** Unlinking one entry keeps a list strictly sorted and drops exactly that entry. */
  lemma UnlinkKeepsSorted(list: seq<string>, k: nat)
    requires StrictlySorted(list) && k < |list|
    ensures StrictlySorted(list[..k] + list[k + 1..])
    ensures Elems(list[..k] + list[k + 1..]) == Elems(list) - {list[k]}
    ensures forall x :: x in list[..k] + list[k + 1..] ==> x in list
  {
    var r := list[..k] + list[k + 1..];
    forall i, j | 0 <= i < j < |r|
      ensures Cmp(r[i], r[j]) < 0
    {
      var i', j' := if i < k then i else i + 1, if j < k then j else j + 1;
      assert r[i] == list[i'] && r[j] == list[j'];
    }
    forall i | 0 <= i < |list| && i != k
      ensures list[i] != list[k]
    {
      if i < k {
        SortedNoRepeat(list, i, k);
      } else {
        SortedNoRepeat(list, k, i);
      }
    }
    assert list == list[..k] + [list[k]] + list[k + 1..];
  }

  /**
   * Ordered insertion into a strictly sorted list: an equal string is not
   * inserted again. The intended behaviour of both list insertions of the
   * module (the prefix-trie list and the query-result list).
   */
  method InsertSorted(list: seq<string>, x: string) returns (r: seq<string>)
    requires StrictlySorted(list)
    ensures StrictlySorted(r)
    ensures Elems(r) == Elems(list) + {x}
  {
    var k := 0;
    var c := -1;
    while k < |list|
      invariant 0 <= k <= |list|
      invariant forall j :: 0 <= j < k ==> Cmp(list[j], x) < 0
    {
      c := StrcmpExtended(list[k], x);
      if c >= 0 {
        break;
      }
      k := k + 1;
    }
    if k < |list| && c == 0 {
      CmpZeroIffEqual(list[k], x);
      r := list;
    } else {
      if k < |list| {
        CmpAntisymmetric(list[k], x);
      }
      InsertKeepsSorted(list, k, x);
      r := list[..k] + [x] + list[k..];
      assert list == list[..k] + list[k..];
    }
  }
}
