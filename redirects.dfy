/**
 * The abstract contents of the two tries and what the queries compute from
 * them. The number trie is a map from redirect origins to destinations (a
 * node holds at most one entry). The prefix trie is a map from destinations
 * to the sorted list of origins redirected there.
 */
module Redirects {
  import opened Alphabet
  import opened Ordering

  predicate IsPrefix(p: string, s: string) {
    |p| <= |s| && s[..|p|] == p
  }

  /** Every stored redirect joins two different well-formed numbers. */
  ghost predicate FwdWellFormed(fwd: map<string, string>) {
    forall o :: o in fwd ==> IsNumber(o) && IsNumber(fwd[o]) && o != fwd[o]
  }

  /** The origin list of a prefix-trie node; a node without a list has none. */
  function RevList(rev: map<string, seq<string>>, d: string): seq<string> {
    if d in rev then rev[d] else []
  }

  /** Stored lists are non-empty, strictly sorted lists of numbers. */
  ghost predicate RevWellFormed(rev: map<string, seq<string>>) {
    forall d :: d in rev ==>
      rev[d] != [] && StrictlySorted(rev[d]) && forall o :: o in rev[d] ==> IsNumber(o)
  }

  /**
   * Every redirect `o -> fwd[o]` with `o` outside `skip` has its mirror `o` in
   * the list of `fwd[o]`, and every list entry mirrors a redirect whose origin
   * is outside `skip`.
   */
  ghost predicate MirroredExcept(fwd: map<string, string>, rev: map<string, seq<string>>, skip: set<string>) {
    && (forall o :: o in fwd && o !in skip ==> o in RevList(rev, fwd[o]))
    && (forall d, o :: o in RevList(rev, d) ==> o !in skip && o in fwd && fwd[o] == d)
  }

  ghost predicate Mirrored(fwd: map<string, string>, rev: map<string, seq<string>>) {
    MirroredExcept(fwd, rev, {})
  }

  /** Storing a well-formed list at a prefix-trie node keeps the lists well formed. */
  lemma RevStore(rev: map<string, seq<string>>, d: string, l: seq<string>)
    requires RevWellFormed(rev)
    requires l != [] && StrictlySorted(l) && forall o :: o in l ==> IsNumber(o)
    ensures RevWellFormed(rev[d := l])
    ensures forall e :: RevList(rev[d := l], e) == (if e == d then l else RevList(rev, e))
  {
    forall e
      ensures RevList(rev[d := l], e) == (if e == d then l else RevList(rev, e))
    {
      if e != d {
        assert (e in rev[d := l]) == (e in rev);
      }
    }
  }

  /**
   * Unlinking entry `k` of the list at `d`: the list that remains, or no list
   * when none remains, keeps the lists well formed and loses that entry only.
   */
  lemma RevUnlink(rev: map<string, seq<string>>, d: string, k: nat, rest: seq<string>)
    requires RevWellFormed(rev) && d in rev && k < |rev[d]|
    requires rest == rev[d][..k] + rev[d][k + 1..]
    ensures rest == [] ==> RevWellFormed(rev - {d})
    ensures rest == [] ==> forall e :: Elems(RevList(rev - {d}, e)) == Elems(RevList(rev, e)) - (if e == d then {rev[d][k]} else {})
    ensures rest != [] ==> RevWellFormed(rev[d := rest])
    ensures rest != [] ==> forall e :: Elems(RevList(rev[d := rest], e)) == Elems(RevList(rev, e)) - (if e == d then {rev[d][k]} else {})
  {
    UnlinkKeepsSorted(rev[d], k);
    if rest == [] {
      ElemsEmpty(rest);
      RevDrop(rev, d);
    } else {
      RevStore(rev, d, rest);
    }
  }

  /** Unlinking the head of the list at `d`, as RevUnlink with the successor as the new head. */
  lemma RevUnlinkHead(rev: map<string, seq<string>>, d: string)
    requires RevWellFormed(rev) && d in rev
    ensures |rev[d]| == 1 ==> RevWellFormed(rev - {d})
    ensures |rev[d]| == 1 ==> forall e :: Elems(RevList(rev - {d}, e)) == Elems(RevList(rev, e)) - (if e == d then {rev[d][0]} else {})
    ensures |rev[d]| > 1 ==> RevWellFormed(rev[d := rev[d][1..]])
    ensures |rev[d]| > 1 ==> forall e :: Elems(RevList(rev[d := rev[d][1..]], e)) == Elems(RevList(rev, e)) - (if e == d then {rev[d][0]} else {})
  {
    assert rev[d][..0] + rev[d][1..] == rev[d][1..];
    RevUnlink(rev, d, 0, rev[d][1..]);
  }

  /** Dropping the list of a prefix-trie node keeps the lists well formed. */
  lemma RevDrop(rev: map<string, seq<string>>, d: string)
    requires RevWellFormed(rev)
    ensures RevWellFormed(rev - {d})
    ensures forall e :: RevList(rev - {d}, e) == (if e == d then [] else RevList(rev, e))
  {
  }

  /** Storing `x` among the origins of `d` keeps the lists well formed and adds `x` there only. */
  lemma RevInsert(rev: map<string, seq<string>>, d: string, l: seq<string>, x: string)
    requires RevWellFormed(rev) && IsNumber(x)
    requires StrictlySorted(l) && Elems(l) == Elems(RevList(rev, d)) + {x}
    ensures RevWellFormed(rev[d := l])
    ensures forall e :: Elems(RevList(rev[d := l], e)) == Elems(RevList(rev, e)) + (if e == d then {x} else {})
  {
    assert x in Elems(l);
    forall o | o in l
      ensures IsNumber(o)
    {
      assert o in Elems(l);
      assert o == x || o in RevList(rev, d);
    }
  }

  /**
   * Storing at the destination `d` of the unmirrored redirect `a` a list
   * holding its old origins and `a` keeps the lists well formed and
   * completes the mirror.
   */
  lemma LinkRedirect(fwd: map<string, string>, rev: map<string, seq<string>>, a: string, d: string, l: seq<string>)
    requires FwdWellFormed(fwd) && RevWellFormed(rev) && MirroredExcept(fwd, rev, {a})
    requires a in fwd && fwd[a] == d
    requires StrictlySorted(l) && Elems(l) == Elems(RevList(rev, d)) + {a}
    ensures RevWellFormed(rev[d := l]) && Mirrored(fwd, rev[d := l])
    ensures forall e :: Elems(RevList(rev[d := l], e)) == Elems(RevList(rev, e)) + (if e == d then {a} else {})
  {
    RevInsert(rev, d, l, a);
    MirrorAfterLink(fwd, rev, rev[d := l], a);
  }

  /** A redirect that is not stored has no mirror. */
  lemma MirrorSkipUnstored(fwd: map<string, string>, rev: map<string, seq<string>>, a: string)
    requires Mirrored(fwd, rev) && a !in fwd
    ensures MirroredExcept(fwd, rev, {a})
    ensures forall d :: a !in Elems(RevList(rev, d))
  {
  }

  /** Dropping the mirror of `o` from the list of its destination leaves `o` unmirrored. */
  lemma MirrorAfterUnlink(fwd: map<string, string>, rev: map<string, seq<string>>, rev': map<string, seq<string>>,
                          skip: set<string>, o: string)
    requires MirroredExcept(fwd, rev, skip) && o in fwd && o !in skip
    requires forall d :: Elems(RevList(rev', d)) == Elems(RevList(rev, d)) - (if d == fwd[o] then {o} else {})
    ensures MirroredExcept(fwd, rev', skip + {o})
  {
    forall x | x in fwd && x !in skip + {o}
      ensures x in RevList(rev', fwd[x])
    {
      assert x in Elems(RevList(rev, fwd[x]));
      assert x in Elems(RevList(rev', fwd[x]));
    }
    forall d, x | x in RevList(rev', d)
      ensures x !in skip + {o} && x in fwd && fwd[x] == d
    {
      assert x in Elems(RevList(rev', d));
      assert x in Elems(RevList(rev, d));
    }
  }

  /** Storing the redirect `a -> b` while `a` is unmirrored keeps every other mirror. */
  lemma MirrorAfterSet(fwd: map<string, string>, rev: map<string, seq<string>>, a: string, b: string)
    requires MirroredExcept(fwd, rev, {a})
    ensures MirroredExcept(fwd[a := b], rev, {a})
  {
  }

  /**
   * Storing the redirect `a -> b`, after the mirror of the redirect it
   * replaces (if any) has left the prefix trie, keeps the number trie well
   * formed, leaves `a` the only unmirrored origin and `a` listed nowhere.
   */
  lemma ReplaceRedirect(fwd: map<string, string>, rev: map<string, seq<string>>, rev': map<string, seq<string>>,
                        a: string, b: string)
    requires FwdWellFormed(fwd) && Mirrored(fwd, rev)
    requires IsNumber(a) && IsNumber(b) && a != b
    requires a in fwd ==> forall d :: Elems(RevList(rev', d)) == Elems(RevList(rev, d)) - (if d == fwd[a] then {a} else {})
    requires a !in fwd ==> rev' == rev
    ensures FwdWellFormed(fwd[a := b])
    ensures MirroredExcept(fwd[a := b], rev', {a})
    ensures forall d :: Elems(RevList(rev', d)) == Elems(RevList(rev, d)) - {a}
  {
    if a in fwd {
      MirrorAfterUnlink(fwd, rev, rev', {}, a);
      UnlinkStep(fwd, rev, rev, rev', {}, a);
      assert {} + {a} == {a};
    } else {
      MirrorSkipUnstored(fwd, rev, a);
    }
    MirrorAfterSet(fwd, rev', a, b);
  }

  /** Adding the mirror of the unmirrored redirect `a` at its destination completes the mirror. */
  lemma MirrorAfterLink(fwd: map<string, string>, rev: map<string, seq<string>>, rev': map<string, seq<string>>, a: string)
    requires MirroredExcept(fwd, rev, {a}) && a in fwd
    requires forall d :: Elems(RevList(rev', d)) == Elems(RevList(rev, d)) + (if d == fwd[a] then {a} else {})
    ensures Mirrored(fwd, rev')
  {
    MirrorLinkedForward(fwd, rev, rev', a);
    MirrorLinkedBackward(fwd, rev, rev', a);
  }

  /** After the link every redirect has its mirror. */
  lemma MirrorLinkedForward(fwd: map<string, string>, rev: map<string, seq<string>>, rev': map<string, seq<string>>, a: string)
    requires MirroredExcept(fwd, rev, {a}) && a in fwd
    requires forall d :: Elems(RevList(rev', d)) == Elems(RevList(rev, d)) + (if d == fwd[a] then {a} else {})
    ensures forall x :: x in fwd ==> x in RevList(rev', fwd[x])
  {
    forall x | x in fwd
      ensures x in RevList(rev', fwd[x])
    {
      var l, l' := RevList(rev, fwd[x]), RevList(rev', fwd[x]);
      assert x != a ==> x in Elems(l);
      assert x in Elems(l');
    }
  }

  /** After the link every list entry mirrors a stored redirect. */
  lemma MirrorLinkedBackward(fwd: map<string, string>, rev: map<string, seq<string>>, rev': map<string, seq<string>>, a: string)
    requires MirroredExcept(fwd, rev, {a}) && a in fwd
    requires forall d :: Elems(RevList(rev', d)) == Elems(RevList(rev, d)) + (if d == fwd[a] then {a} else {})
    ensures forall d, x :: x in RevList(rev', d) ==> x in fwd && fwd[x] == d
  {
    forall d, x | x in RevList(rev', d)
      ensures x in fwd && fwd[x] == d
    {
      var l, l' := RevList(rev, d), RevList(rev', d);
      assert x in Elems(l');
      assert x != a ==> x in Elems(l);
    }
  }

  /** One more unlinked mirror: the lists lose exactly the unlinked origins. */
  lemma UnlinkStep(fwd: map<string, string>, rev0: map<string, seq<string>>, rev: map<string, seq<string>>,
                   rev': map<string, seq<string>>, done: set<string>, o: string)
    requires Mirrored(fwd, rev0) && o in fwd
    requires forall d :: Elems(RevList(rev, d)) == Elems(RevList(rev0, d)) - done
    requires forall d :: Elems(RevList(rev', d)) == Elems(RevList(rev, d)) - (if d == fwd[o] then {o} else {})
    ensures forall d :: Elems(RevList(rev', d)) == Elems(RevList(rev0, d)) - (done + {o})
  {
    forall d | d != fwd[o]
      ensures o !in Elems(RevList(rev0, d))
    {
      assert o in Elems(RevList(rev0, d)) ==> o in RevList(rev0, d);
    }
  }

  /**
   * Unlinking the mirror of one more origin `o`: `o` joins the unmirrored
   * origins and the lists lose exactly the unlinked origins.
   */
  lemma UnlinkOne(fwd: map<string, string>, rev0: map<string, seq<string>>, rev: map<string, seq<string>>,
                  rev': map<string, seq<string>>, done: set<string>, o: string)
    requires Mirrored(fwd, rev0) && MirroredExcept(fwd, rev, done) && o in fwd && o !in done
    requires forall d :: Elems(RevList(rev, d)) == Elems(RevList(rev0, d)) - done
    requires forall d :: Elems(RevList(rev', d)) == Elems(RevList(rev, d)) - (if d == fwd[o] then {o} else {})
    ensures MirroredExcept(fwd, rev', done + {o})
    ensures forall d :: Elems(RevList(rev', d)) == Elems(RevList(rev0, d)) - (done + {o})
  {
    MirrorAfterUnlink(fwd, rev, rev', done, o);
    UnlinkStep(fwd, rev0, rev, rev', done, o);
  }

  /** With the mirror intact, unlinking every origin under `p` leaves exactly the others listed. */
  lemma UnlinkedUnder(fwd: map<string, string>, rev0: map<string, seq<string>>, rev: map<string, seq<string>>,
                      doomed: set<string>, p: string)
    requires Mirrored(fwd, rev0)
    requires doomed == set o | o in fwd && IsPrefix(p, o)
    requires forall d :: Elems(RevList(rev, d)) == Elems(RevList(rev0, d)) - doomed
    ensures forall d :: Elems(RevList(rev, d)) == set o | o in RevList(rev0, d) && !IsPrefix(p, o)
  {
    forall d
      ensures Elems(RevList(rev, d)) == set o | o in RevList(rev0, d) && !IsPrefix(p, o)
    {
      assert Elems(RevList(rev0, d)) - doomed == set o | o in RevList(rev0, d) && !IsPrefix(p, o);
    }
  }

  /** The length of the longest stored origin among the first `k` prefixes of `num`, 0 if none. */
  function LongestMatch(fwd: map<string, string>, num: string, k: nat): nat
    requires k <= |num|
    decreases k
  {
    if k == 0 then 0
    else if num[..k] in fwd then k
    else LongestMatch(fwd, num, k - 1)
  }

  /**
   * LongestMatch finds a stored prefix of `num` no longer than `k` (or none,
   * 0), and no longer stored prefix up to `k` exists.
   */
  lemma {:induction false} LongestMatchSpec(fwd: map<string, string>, num: string, k: nat)
    requires k <= |num|
    ensures LongestMatch(fwd, num, k) <= k
    ensures 0 < LongestMatch(fwd, num, k) ==> num[..LongestMatch(fwd, num, k)] in fwd
    ensures forall j :: LongestMatch(fwd, num, k) < j <= k ==> num[..j] !in fwd
    decreases k
  {
    if k > 0 && num[..k] !in fwd {
      LongestMatchSpec(fwd, num, k - 1);
    }
  }

  /**
   * The number phfwdGet yields for a valid `num`: its longest stored origin
   * replaced by that origin's destination, or `num` itself when none is stored.
   */
  function Resolve(fwd: map<string, string>, num: string): string {
    var k := LongestMatch(fwd, num, |num|);
    LongestMatchSpec(fwd, num, |num|);
    if k == 0 then num else fwd[num[..k]] + num[k..]
  }

  /**
   * Resolve, stated without the search: a number with no stored prefix
   * stays itself; otherwise its longest stored prefix `num[..k]` is replaced
   * by `fwd[num[..k]]`.
   */
  lemma ResolveSpec(fwd: map<string, string>, num: string)
    ensures (forall k :: 0 < k <= |num| ==> num[..k] !in fwd) ==> Resolve(fwd, num) == num
    ensures forall k :: 0 < k <= |num| && num[..k] in fwd
                        && (forall j :: k < j <= |num| ==> num[..j] !in fwd)
                        ==> Resolve(fwd, num) == fwd[num[..k]] + num[k..]
  {
    LongestMatchSpec(fwd, num, |num|);
  }

  /** `phfwdGet(x)` is exactly the number `num`. */
  ghost predicate GetsTo(fwd: map<string, string>, x: string, num: string) {
    IsNumber(x) && Resolve(fwd, x) == num
  }

  /** The number trie after the subtree under `p` is detached. */
  function Unprefixed(fwd: map<string, string>, p: string): map<string, string> {
    map o | o in fwd && !IsPrefix(p, o) :: fwd[o]
  }

  /** A list of origins, each completed by the unmatched rest of the number. */
  function Spliced(origins: seq<string>, suffix: string): set<string> {
    set o | o in origins :: o + suffix
  }

  /**
   * Everything the reverse walk collects from the first `k` nodes on the path
   * of `num` in the prefix trie.
   */
  function Candidates(rev: map<string, seq<string>>, num: string, k: nat): set<string>
    requires k <= |num|
    decreases k
  {
    if k == 0 then {}
    else Candidates(rev, num, k - 1) + Spliced(RevList(rev, num[..k]), num[k..])
  }

  /**
   * The completions `o ++ suffix` of the origins in `origins` that a merge
   * keeps: all of them, or with `onlyPreimages` those phfwdGet sends to `num`.
   */
  ghost function Kept(fwd: map<string, string>, num: string, onlyPreimages: bool, origins: seq<string>, suffix: string): set<string> {
    set x | x in Spliced(origins, suffix) && (!onlyPreimages || GetsTo(fwd, x, num))
  }

  /** The candidates among the first `k` nodes that phfwdGet sends back to `num`. */
  ghost function Preimages(fwd: map<string, string>, rev: map<string, seq<string>>, num: string, k: nat): set<string>
    requires k <= |num|
  {
    set x | x in Candidates(rev, num, k) && GetsTo(fwd, x, num)
  }

  /**
   * Merging the completion of one more origin into a result that holds `base`
   * and the kept completions so far: the result holds the kept completions of
   * one more origin exactly when `kept` is the filter's verdict on it.
   */
  lemma KeptStep(fwd: map<string, string>, num: string, onlyPreimages: bool, origins: seq<string>, k: nat, suffix: string,
                 base: set<string>, before: set<string>, after: set<string>, kept: bool)
    requires k < |origins|
    requires before == base + Kept(fwd, num, onlyPreimages, origins[..k], suffix)
    requires kept <==> !onlyPreimages || GetsTo(fwd, origins[k] + suffix, num)
    requires kept ==> after == before + {origins[k] + suffix}
    requires !kept ==> after == before
    ensures after == base + Kept(fwd, num, onlyPreimages, origins[..k + 1], suffix)
  {
    assert origins[..k + 1] == origins[..k] + [origins[k]];
  }

  /**
   * One step of the reverse walk at node `num[..i+1]`: merging the origins
   * stored there (if any) into the result, unfiltered, extends the
   * candidates by that node's contribution.
   */
  lemma ReverseStep(fwd: map<string, string>, rev: map<string, seq<string>>, num: string, i: nat,
                    base: set<string>, before: set<string>, after: set<string>)
    requires i < |num|
    requires before == base + Candidates(rev, num, i)
    requires num[..i + 1] in rev ==> after == before + Kept(fwd, num, false, rev[num[..i + 1]], num[i + 1..])
    requires num[..i + 1] !in rev ==> after == before
    ensures after == base + Candidates(rev, num, i + 1)
  {
  }

  /**
   * One step of the exact reverse walk at node `num[..i+1]`: merging those
   * origins stored there whose completions phfwdGet sends to `num` extends the
   * preimages found so far by that node's contribution.
   */
  lemma GetReverseStep(fwd: map<string, string>, rev: map<string, seq<string>>, num: string, i: nat,
                       base: set<string>, before: set<string>, after: set<string>)
    requires i < |num|
    requires before == base + Preimages(fwd, rev, num, i)
    requires num[..i + 1] in rev ==> after == before + Kept(fwd, num, true, rev[num[..i + 1]], num[i + 1..])
    requires num[..i + 1] !in rev ==> after == before
    ensures after == base + Preimages(fwd, rev, num, i + 1)
  {
    assert Preimages(fwd, rev, num, i + 1) ==
      Preimages(fwd, rev, num, i) + Kept(fwd, num, true, RevList(rev, num[..i + 1]), num[i + 1..]);
  }

  /**
   * The exact reverse walk, stopped at a node past which no list lies,
   * has found exactly the preimages of `num` under phfwdGet.
   */
  lemma GetReverseExact(fwd: map<string, string>, rev: map<string, seq<string>>, num: string, i: nat, found: set<string>)
    requires FwdWellFormed(fwd) && Mirrored(fwd, rev) && IsNumber(num) && i <= |num|
    requires forall j :: i < j <= |num| ==> num[..j] !in rev
    requires found == (if GetsTo(fwd, num, num) then {num} else {}) + Preimages(fwd, rev, num, i)
    ensures forall x :: x in found <==> GetsTo(fwd, x, num)
  {
    CandidatesStable(rev, num, i, |num|);
    assert Preimages(fwd, rev, num, i) == Preimages(fwd, rev, num, |num|);
    forall x
      ensures x in found <==> GetsTo(fwd, x, num)
    {
      if GetsTo(fwd, x, num) && x != num {
        PreimageIsCandidate(fwd, rev, num, x);
      }
    }
  }

  /**
   * The reverse walk, stopped at a node past which no list lies, has found
   * `num` and every candidate, and so every preimage of `num` under phfwdGet.
   */
  lemma ReverseComplete(fwd: map<string, string>, rev: map<string, seq<string>>, num: string, i: nat, found: set<string>)
    requires FwdWellFormed(fwd) && Mirrored(fwd, rev) && i <= |num|
    requires forall j :: i < j <= |num| ==> num[..j] !in rev
    requires found == {num} + Candidates(rev, num, i)
    ensures found == {num} + Candidates(rev, num, |num|)
    ensures forall x :: GetsTo(fwd, x, num) ==> x in found
  {
    CandidatesStable(rev, num, i, |num|);
    forall x | GetsTo(fwd, x, num)
      ensures x in found
    {
      if x != num {
        PreimageIsCandidate(fwd, rev, num, x);
      }
    }
  }

  lemma {:induction false} LongestMatchAgree(m1: map<string, string>, m2: map<string, string>, num: string, k: nat)
    requires k <= |num|
    requires forall j :: 0 < j <= k ==> (num[..j] in m1 <==> num[..j] in m2)
    ensures LongestMatch(m1, num, k) == LongestMatch(m2, num, k)
    decreases k
  {
    if k > 0 {
      LongestMatchAgree(m1, m2, num, k - 1);
    }
  }

  /** Two number tries that agree on every prefix of `num` resolve it alike. */
  lemma ResolveAgree(m1: map<string, string>, m2: map<string, string>, num: string)
    requires forall j :: 0 < j <= |num| ==> (num[..j] in m1 <==> num[..j] in m2)
    requires forall j :: 0 < j <= |num| && num[..j] in m1 ==> m1[num[..j]] == m2[num[..j]]
    ensures Resolve(m1, num) == Resolve(m2, num)
  {
    LongestMatchAgree(m1, m2, num, |num|);
    LongestMatchSpec(m1, num, |num|);
  }

  /** After `a -> b` is stored, phfwdGet(a) yields exactly `b`. */
  lemma ResolveAfterAdd(fwd: map<string, string>, a: string, b: string)
    requires IsNumber(a)
    ensures Resolve(fwd[a := b], a) == b
  {
    assert a[..|a|] == a;
    assert a[|a|..] == [];
  }

  /** Storing `a -> b` changes the result only for numbers that start with `a`. */
  lemma ResolveAfterAddElsewhere(fwd: map<string, string>, a: string, b: string, x: string)
    requires !IsPrefix(a, x)
    ensures Resolve(fwd[a := b], x) == Resolve(fwd, x)
  {
    ResolveAgree(fwd[a := b], fwd, x);
  }

  lemma PrefixOfPrefix(p: string, x: string, j: nat)
    requires j <= |x|
    ensures IsPrefix(p, x[..j]) ==> IsPrefix(p, x)
  {
    if IsPrefix(p, x[..j]) {
      assert x[..j][..|p|] == x[..|p|];
    }
  }

  /** Removing the redirects under `p` leaves numbers outside `p` resolving as before. */
  lemma ResolveAfterRemoveOutside(fwd: map<string, string>, p: string, x: string)
    requires !IsPrefix(p, x)
    ensures Resolve(Unprefixed(fwd, p), x) == Resolve(fwd, x)
  {
    forall j | 0 < j <= |x|
      ensures !IsPrefix(p, x[..j])
    {
      PrefixOfPrefix(p, x, j);
    }
    ResolveAgree(Unprefixed(fwd, p), fwd, x);
  }

  /**
   * A number under `p` whose every redirect lay under `p` is not redirected
   * once they are removed.
   */
  lemma ResolveAfterRemoveInside(fwd: map<string, string>, p: string, x: string)
    requires forall k :: 0 < k <= |x| && x[..k] in fwd ==> IsPrefix(p, x[..k])
    ensures Resolve(Unprefixed(fwd, p), x) == x
  {
    ResolveSpec(Unprefixed(fwd, p), x);
  }

  lemma {:induction false} CandidatesUpTo(fwd: map<string, string>, rev: map<string, seq<string>>, num: string, k: nat, x: string)
    requires Mirrored(fwd, rev) && k <= |num|
    ensures x in Candidates(rev, num, k) <==>
      exists o :: o in fwd && 0 < |fwd[o]| <= k && IsPrefix(fwd[o], num) && x == o + num[|fwd[o]|..]
    decreases k
  {
    if k > 0 {
      CandidatesUpTo(fwd, rev, num, k - 1, x);
      var d := num[..k];
      if x in Spliced(RevList(rev, d), num[k..]) {
        var o :| o in RevList(rev, d) && x == o + num[k..];
        assert o in fwd && fwd[o] == d;
        assert IsPrefix(fwd[o], num);
      }
      if exists o :: o in fwd && 0 < |fwd[o]| <= k && IsPrefix(fwd[o], num) && x == o + num[|fwd[o]|..] {
        var o :| o in fwd && 0 < |fwd[o]| <= k && IsPrefix(fwd[o], num) && x == o + num[|fwd[o]|..];
        if |fwd[o]| == k {
          assert fwd[o] == d;
          assert o in RevList(rev, d);
          assert x in Spliced(RevList(rev, d), num[k..]);
        }
      }
    }
  }

  /**
   * With the tries mirrored, the reverse walk collects exactly the numbers
   * `o ++ rest` for a stored redirect `o -> d` where `num == d ++ rest`.
   */
  lemma ReverseCandidates(fwd: map<string, string>, rev: map<string, seq<string>>, num: string, x: string)
    requires FwdWellFormed(fwd) && Mirrored(fwd, rev)
    ensures x in Candidates(rev, num, |num|) <==>
      exists o :: o in fwd && IsPrefix(fwd[o], num) && x == o + num[|fwd[o]|..]
  {
    CandidatesUpTo(fwd, rev, num, |num|, x);
  }

  /** A number that phfwdGet changes was changed by its deepest redirect `o`. */
  lemma ResolvedBy(fwd: map<string, string>, x: string, num: string) returns (o: string)
    requires Resolve(fwd, x) == num && x != num
    ensures o in fwd && IsPrefix(fwd[o], num) && x == o + num[|fwd[o]|..]
  {
    var k := LongestMatch(fwd, x, |x|);
    LongestMatchSpec(fwd, x, |x|);
    o := x[..k];
    assert num == fwd[o] + x[k..];
    assert num[..|fwd[o]|] == fwd[o];
    assert num[|fwd[o]|..] == x[k..];
    assert x == o + x[k..];
  }

  /** Every other number that phfwdGet sends to `num` is collected by the reverse walk. */
  lemma PreimageIsCandidate(fwd: map<string, string>, rev: map<string, seq<string>>, num: string, x: string)
    requires FwdWellFormed(fwd) && Mirrored(fwd, rev)
    requires GetsTo(fwd, x, num) && x != num
    ensures x in Candidates(rev, num, |num|)
  {
    var o := ResolvedBy(fwd, x, num);
    ReverseCandidates(fwd, rev, num, x);
  }

  lemma {:induction false} CandidatesAreNumbers(rev: map<string, seq<string>>, num: string, k: nat, x: string)
    requires RevWellFormed(rev) && IsNumber(num) && k <= |num|
    requires x in Candidates(rev, num, k)
    ensures IsNumber(x)
    decreases k
  {
    if x in Candidates(rev, num, k - 1) {
      CandidatesAreNumbers(rev, num, k - 1, x);
    } else {
      var o :| o in RevList(rev, num[..k]) && x == o + num[k..];
      AppendIsNumber(o, num[k..]);
    }
  }

  /** The walk may stop at a node past which no list lies on the path. */
  lemma {:induction false} CandidatesStable(rev: map<string, seq<string>>, num: string, i: nat, k: nat)
    requires i <= k <= |num|
    requires forall j :: i < j <= |num| ==> num[..j] !in rev
    ensures Candidates(rev, num, k) == Candidates(rev, num, i)
    decreases k
  {
    if k > i {
      CandidatesStable(rev, num, i, k - 1);
    }
  }

  /**
   * The prefix trie is a function of the number trie: two well-formed
   * prefix tries that both mirror `fwd` are equal.
   */
  lemma MirrorDeterminesRev(fwd: map<string, string>, rev1: map<string, seq<string>>, rev2: map<string, seq<string>>)
    requires RevWellFormed(rev1) && RevWellFormed(rev2)
    requires Mirrored(fwd, rev1) && Mirrored(fwd, rev2)
    ensures rev1 == rev2
  {
    forall d, o | o in RevList(rev1, d)
      ensures o in RevList(rev2, d)
    {
      assert o in fwd && fwd[o] == d;
    }
    forall d, o | o in RevList(rev2, d)
      ensures o in RevList(rev1, d)
    {
      assert o in fwd && fwd[o] == d;
    }
    forall d | d in rev1
      ensures d in rev2
    {
      assert rev1[d][0] in RevList(rev1, d);
    }
    forall d | d in rev2
      ensures d in rev1
    {
      assert rev2[d][0] in RevList(rev2, d);
    }
    forall d | d in rev1
      ensures rev1[d] == rev2[d]
    {
      assert Elems(rev1[d]) == Elems(rev2[d]) by {
        assert RevList(rev1, d) == rev1[d] && RevList(rev2, d) == rev2[d];
      }
      SortedUnique(rev1[d], rev2[d]);
    }
  }
}
