/**
 * The forwarding database: a root with two tries below it. The number trie
 * (child[0] of the root) holds at most one redirect per node; the prefix trie
 * (child[1]) holds, at the node of each destination, the sorted list of
 * origins redirected there. A trie node is identified by the string of
 * symbols on its path from the trie's root (`[]` is the root itself); the
 * existing nodes are tracked as a set closed under taking prefixes, and the
 * entries and lists stored at nodes as two maps.
 */
module PhoneForwarding {
  import opened Wrappers
  import opened Alphabet
  import opened Ordering
  import opened Splice
  import opened Redirects

  /** A set of trie nodes that contains the root and the parent of every node. */
  ghost predicate PrefixClosed(nodes: set<string>) {
    && [] in nodes
    && forall q, k {:trigger q[..k]} :: q in nodes && 0 <= k <= |q| ==> q[..k] in nodes
  }

  /** The nodes on the path to `s`, root and `s` included. */
  function Prefixes(s: string): set<string> {
    set k | 0 <= k <= |s| :: s[..k]
  }

  /** Every ancestor of an existing node exists. */
  lemma ClosedUnderPrefix(nodes: set<string>, q: string, p: string)
    requires PrefixClosed(nodes) && q in nodes
    ensures IsPrefix(p, q) ==> p in nodes
  {
    if IsPrefix(p, q) {
      assert q[..|p|] == p;
    }
  }

  /** A walk down the path of `n` that misses the node `n[..i+1]` misses every deeper one too. */
  lemma NoDeeperNode(nodes: set<string>, n: string, i: nat)
    requires PrefixClosed(nodes) && i < |n| && n[..i + 1] !in nodes
    ensures forall j :: i < j <= |n| ==> n[..j] !in nodes
  {
    forall j | i < j <= |n|
      ensures n[..j] !in nodes
    {
      assert IsPrefix(n[..i + 1], n[..j]);
      if n[..j] in nodes {
        ClosedUnderPrefix(nodes, n[..j], n[..i + 1]);
      }
    }
  }

  /**
   * A walk down the path of `n` that stops at depth `i`, at the end of `n` or
   * before a missing node, has passed every node that holds contents.
   */
  lemma PathEnd<V>(nodes: set<string>, contents: map<string, V>, n: string, i: nat)
    requires PrefixClosed(nodes) && contents.Keys <= nodes && i <= |n|
    requires i < |n| ==> n[..i + 1] !in nodes
    ensures forall j :: i < j <= |n| ==> n[..j] !in contents
  {
    if i < |n| {
      NoDeeperNode(nodes, n, i);
    }
  }

  /** Below a missing node on the path of `p` lies no node at all. */
  lemma NothingUnderMissing(nodes: set<string>, p: string, k: nat)
    requires PrefixClosed(nodes) && k <= |p| && p[..k] !in nodes
    ensures forall q :: q in nodes ==> !IsPrefix(p, q)
  {
    var missing := p[..k];
    forall q | q in nodes
      ensures !IsPrefix(p, q)
    {
      ClosedUnderPrefix(nodes, q, missing);
    }
  }

  /**
   * One step of the walk down the path of `s`, creating the node `s[..i+1]`
   * when it is missing: the node set stays closed and grows by the path so far.
   */
  lemma PathStep(base: set<string>, before: set<string>, after: set<string>, s: string, i: nat)
    requires PrefixClosed(before) && i < |s|
    requires before == base + set k | 0 <= k <= i :: s[..k]
    requires after == before + {s[..i + 1]}
    ensures PrefixClosed(after)
    ensures after == base + set k | 0 <= k <= i + 1 :: s[..k]
  {
    forall q, k | q in after && 0 <= k <= |q|
      ensures q[..k] in after
    {
      if q == s[..i + 1] {
        assert q[..k] == s[..k];
      }
    }
  }

  /** Moving one element from the pending part of a partition to its done part. */
  lemma MoveDone(all: set<string>, done: set<string>, pending: set<string>, o: string)
    requires all == done + pending && done !! pending && o in pending
    ensures all == (done + {o}) + (pending - {o}) && (done + {o}) !! (pending - {o})
    ensures pending - {o} < pending
  {
  }

  /** Detaching the subtree under a non-root node `p` keeps the node set closed. */
  lemma DetachClosed(nodes: set<string>, p: string)
    requires PrefixClosed(nodes) && |p| > 0
    ensures PrefixClosed(set q | q in nodes && !IsPrefix(p, q))
  {
    var rest := set q | q in nodes && !IsPrefix(p, q);
    forall q, k | q in rest && 0 <= k <= |q|
      ensures q[..k] in rest
    {
      PrefixOfPrefix(p, q, k);
    }
  }

  /** The number of entries in a list, counted by walking it (prefix_size). */
  method PrefixSize(list: seq<string>) returns (n: nat)
    ensures n == |list|
  {
    n := 0;
    var rest := list;
    while rest != []
      invariant n + |rest| == |list|
    {
      rest := rest[1..];
      n := n + 1;
    }
  }

  /** The `idx`-th number of a result list, or none past its end (phnumGet). */
  method PhnumGet(numbers: seq<string>, idx: nat) returns (r: Option<string>)
    ensures idx < |numbers| ==> r == Some(numbers[idx])
    ensures idx >= |numbers| ==> r == None
  {
    if idx >= |numbers| {
      return None;
    }
    var rest := numbers;
    var i := 0;
    while i < idx
      invariant 0 <= i <= idx && rest == numbers[i..]
    {
      rest := rest[1..];
      i := i + 1;
    }
    return Some(rest[0]);
  }

  class PhoneForward {
    /** The entry of each number-trie node that holds one: origin to destination. */
    var fwd: map<string, string>
    /** The list of each prefix-trie node that holds one: destination to origins. */
    var rev: map<string, seq<string>>
    /** The existing nodes of the number trie. */
    var numNodes: set<string>
    /** The existing nodes of the prefix trie. */
    var prefNodes: set<string>

    /** The number-trie nodes form a trie and every stored redirect sits at a node of it. */
    ghost predicate NumberTrie()
      reads this
    {
      PrefixClosed(numNodes) && fwd.Keys <= numNodes
    }

    /** The prefix-trie nodes form a trie and every stored list sits at a node of it. */
    ghost predicate PrefixTrie()
      reads this
    {
      PrefixClosed(prefNodes) && rev.Keys <= prefNodes
    }

    /** The nodes form two tries and every node holds well-formed contents. */
    ghost predicate Shape()
      reads this
    {
      NumberTrie() && PrefixTrie() && FwdWellFormed(fwd) && RevWellFormed(rev)
    }

    /** The database invariant: the prefix trie mirrors the number trie exactly. */
    ghost predicate Valid()
      reads this
    {
      Shape() && Mirrored(fwd, rev)
    }

    /** The node set of the prefix trie or of the number trie. */
    function Trie(prefixSide: bool): set<string>
      reads this
    {
      if prefixSide then prefNodes else numNodes
    }

    /** An empty database: both tries consist of their roots only (phfwdNew). */
    constructor ()
      ensures Valid()
      ensures fwd == map[] && rev == map[]
      ensures numNodes == {[]} && prefNodes == {[]}
    {
      fwd := map[];
      rev := map[];
      numNodes := {[]};
      prefNodes := {[]};
    }

    /**
     * Hangs a new empty child `parent ++ [c]` below an existing node
     * (newChild); the C function overwrites the child slot, so it is only
     * called where that child is missing.
     */
    method NewChild(prefixSide: bool, parent: string, c: char)
      requires parent in Trie(prefixSide) && parent + [c] !in Trie(prefixSide)
      modifies this
      ensures fwd == old(fwd) && rev == old(rev)
      ensures Trie(prefixSide) == old(Trie(prefixSide)) + {parent + [c]}
      ensures Trie(!prefixSide) == old(Trie(!prefixSide))
    {
      if prefixSide {
        prefNodes := prefNodes + {parent + [c]};
      } else {
        numNodes := numNodes + {parent + [c]};
      }
    }

    /**
     * Removes the mirror of the redirect stored at `o` from the list of its
     * destination (prfxDelete). The mirror link of the entry is modelled by
     * the position of `o` in that list.
     */
    method PrfxDelete(o: string)
      requires Shape()
      requires o in fwd && o in RevList(rev, fwd[o])
      modifies this
      ensures Shape()
      ensures fwd == old(fwd) && numNodes == old(numNodes) && prefNodes == old(prefNodes)
      ensures forall d :: Elems(RevList(rev, d)) == Elems(RevList(old(rev), d)) - (if d == fwd[o] then {o} else {})
    {
      var d := fwd[o];
      var list := rev[d];
      var k :| 0 <= k < |list| && list[k] == o;
      if k > 0 {
        // the entry has a predecessor, which is linked past it
        RevUnlink(rev, d, k, list[..k] + list[k + 1..]);
        rev := rev[d := list[..k] + list[k + 1..]];
      } else {
        // the entry heads the list, which now starts at its successor
        RevUnlinkHead(rev, d);
        if |list| == 1 {
          rev := rev - {d};
        } else {
          rev := rev[d := list[1..]];
        }
      }
    }

    /**
     * Stores `num` at the existing node `node` (AddPrefix): in the prefix
     * trie it joins the node's sorted list; in the number trie it becomes
     * the node's redirect, and a redirect it replaces loses its mirror.
     */
    method AddPrefix(node: string, num: string, numsOrPref: bool)
      requires Shape()
      requires !numsOrPref ==> node in numNodes && IsNumber(node) && IsNumber(num) && node != num && Mirrored(fwd, rev)
      requires numsOrPref ==> node in prefNodes && num in fwd && fwd[num] == node && MirroredExcept(fwd, rev, {num})
      modifies this
      ensures Shape()
      ensures numNodes == old(numNodes) && prefNodes == old(prefNodes)
      ensures !numsOrPref ==> fwd == old(fwd)[node := num] && MirroredExcept(fwd, rev, {node})
      ensures !numsOrPref ==> forall d :: Elems(RevList(rev, d)) == Elems(RevList(old(rev), d)) - {node}
      ensures numsOrPref ==> fwd == old(fwd) && Mirrored(fwd, rev)
      ensures numsOrPref ==> forall d :: Elems(RevList(rev, d)) == Elems(RevList(old(rev), d)) + (if d == node then {num} else {})
    {
      if numsOrPref {
        // the node's list with `num` joined in, or a new one-entry list
        var list := [num];
        if node in rev {
          list := InsertSorted(rev[node], num);
        } else {
          ElemsEmpty(RevList(rev, node));
        }
        LinkRedirect(fwd, rev, num, node, list);
        rev := rev[node := list];
      } else {
        ghost var before := rev;
        if node in fwd {
          // the replaced redirect's mirror leaves its destination's list
          PrfxDelete(node);
        }
        ReplaceRedirect(fwd, before, rev, node, num);
        fwd := fwd[node := num];
      }
    }

    /**
     * Validates both numbers, walks (creating nodes as needed) to the node of
     * `num1` in the chosen trie and stores `num2` there (phfwdAdd_divider).
     */
    method AddDivider(num1: Option<string>, num2: Option<string>, numOrPref: bool) returns (ok: bool)
      requires Shape()
      requires !numOrPref ==> Mirrored(fwd, rev)
      requires numOrPref ==> IsNum(num2) && num1.Some? && num2.value in fwd && fwd[num2.value] == num1.value
                             && MirroredExcept(fwd, rev, {num2.value})
      modifies this
      ensures ok <==> IsNum(num1) && IsNum(num2) && num1.value != num2.value
      ensures !ok ==> fwd == old(fwd) && rev == old(rev) && numNodes == old(numNodes) && prefNodes == old(prefNodes)
      ensures ok ==> Shape()
      ensures ok ==> Trie(numOrPref) == old(Trie(numOrPref)) + Prefixes(num1.value)
      ensures ok ==> Trie(!numOrPref) == old(Trie(!numOrPref))
      ensures ok && !numOrPref ==> fwd == old(fwd)[num1.value := num2.value]
      ensures ok && !numOrPref ==> MirroredExcept(fwd, rev, {num1.value})
      ensures ok && !numOrPref ==> forall d :: Elems(RevList(rev, d)) == Elems(RevList(old(rev), d)) - {num1.value}
      ensures ok && numOrPref ==> fwd == old(fwd) && Mirrored(fwd, rev)
      ensures ok && numOrPref ==> forall d ::
        Elems(RevList(rev, d)) == Elems(RevList(old(rev), d)) + (if d == num1.value then {num2.value} else {})
    {
      if num1.None? || num2.None? {
        return false;
      }
      var valid1 := CheckNum(num1);
      var valid2 := CheckNum(num2);
      if !(valid1 && valid2) {
        return false;
      }
      var s1, s2 := num1.value, num2.value;
      var c := StrcmpExtended(s1, s2);
      CmpZeroIffEqual(s1, s2);
      if c == 0 {
        return false;
      }
      var i := 0;
      while i < |s1|
        invariant 0 <= i <= |s1|
        invariant fwd == old(fwd) && rev == old(rev)
        invariant Trie(!numOrPref) == old(Trie(!numOrPref))
        invariant Trie(numOrPref) == old(Trie(numOrPref)) + set k | 0 <= k <= i :: s1[..k]
        invariant PrefixClosed(Trie(numOrPref))
      {
        ghost var before := Trie(numOrPref);
        assert s1[..i] + [s1[i]] == s1[..i + 1];
        if s1[..i + 1] !in Trie(numOrPref) {
          NewChild(numOrPref, s1[..i], s1[i]);
        }
        PathStep(old(Trie(numOrPref)), before, Trie(numOrPref), s1, i);
        i := i + 1;
      }
      assert s1 in Trie(numOrPref) by {
        assert s1[..i] == s1;
      }
      AddPrefix(s1, s2, numOrPref);
      ok := true;
    }

    /**
     * Adds the redirect of every number with prefix `num1` to the same number
     * with that prefix replaced by `num2`, replacing a redirect stored for
     * `num1` before (phfwdAdd). Fails, changing nothing, unless both are
     * numbers and differ.
     */
    method Add(num1: Option<string>, num2: Option<string>) returns (ok: bool)
      requires Valid()
      modifies this
      ensures Valid()
      ensures ok <==> IsNum(num1) && IsNum(num2) && num1.value != num2.value
      ensures !ok ==> fwd == old(fwd) && rev == old(rev) && numNodes == old(numNodes) && prefNodes == old(prefNodes)
      ensures ok ==> fwd == old(fwd)[num1.value := num2.value]
      ensures ok ==> numNodes == old(numNodes) + Prefixes(num1.value)
      ensures ok ==> prefNodes == old(prefNodes) + Prefixes(num2.value)
      ensures ok ==> forall d ::
        Elems(RevList(rev, d)) == Elems(RevList(old(rev), d)) - {num1.value} + (if d == num2.value then {num1.value} else {})
    {
      var nums := AddDivider(num1, num2, false);
      if !nums {
        return false;
      }
      ok := AddDivider(num2, num1, true);
    }

    /**
     * Removes the mirror of every redirect stored in the number-trie subtree
     * under `p` (prfxDeleteHelp). The recursive walk over the subtree visits
     * each such redirect once; the model visits them in an arbitrary order.
     */
    method PrfxDeleteHelp(p: string)
      requires Valid()
      modifies this
      ensures Shape()
      ensures fwd == old(fwd) && numNodes == old(numNodes) && prefNodes == old(prefNodes)
      ensures MirroredExcept(fwd, rev, set o | o in fwd && IsPrefix(p, o))
      ensures forall d :: Elems(RevList(rev, d)) == set o | o in RevList(old(rev), d) && !IsPrefix(p, o)
    {
      var pending := set o | o in fwd && IsPrefix(p, o);
      ghost var doomed := pending;
      ghost var done: set<string> := {};
      while pending != {}
        invariant doomed <= fwd.Keys
        invariant doomed == done + pending && done !! pending
        invariant Shape() && Mirrored(fwd, old(rev))
        invariant fwd == old(fwd) && numNodes == old(numNodes) && prefNodes == old(prefNodes)
        invariant MirroredExcept(fwd, rev, done)
        invariant forall d :: Elems(RevList(rev, d)) == Elems(RevList(old(rev), d)) - done
        decreases pending
      {
        var o :| o in pending;
        ghost var before := rev;
        PrfxDelete(o);
        UnlinkOne(fwd, old(rev), before, rev, done, o);
        MoveDone(doomed, done, pending, o);
        done := done + {o};
        pending := pending - {o};
      }
      assert done == doomed;
      UnlinkedUnder(fwd, old(rev), rev, doomed, p);
    }

    /**
     * Removes every redirect whose origin has prefix `num`, together with
     * the number-trie subtree under `num` (phfwdRemove). Does nothing when
     * `num` is not a number or has no node.
     */
    method Remove(num: Option<string>)
      requires Valid()
      modifies this
      ensures Valid()
      ensures prefNodes == old(prefNodes)
      ensures !IsNum(num) ==> fwd == old(fwd) && rev == old(rev) && numNodes == old(numNodes)
      ensures IsNum(num) ==> fwd == Unprefixed(old(fwd), num.value)
      ensures IsNum(num) ==> numNodes == set q | q in old(numNodes) && !IsPrefix(num.value, q)
      ensures IsNum(num) ==> forall d :: Elems(RevList(rev, d)) == set o | o in RevList(old(rev), d) && !IsPrefix(num.value, o)
    {
      var valid := CheckNum(num);
      if !valid {
        return;
      }
      var p := num.value;
      var i := 0;
      while i < |p|
        invariant 0 <= i <= |p| && p[..i] in numNodes
      {
        if p[..i + 1] !in numNodes {
          // no node for `num`: no origin has it as a prefix
          NothingUnderMissing(numNodes, p, i + 1);
          assert fwd == Unprefixed(fwd, p);
          assert numNodes == set q | q in numNodes && !IsPrefix(p, q);
          forall d
            ensures Elems(RevList(rev, d)) == set o | o in RevList(rev, d) && !IsPrefix(p, o)
          {
          }
          return;
        }
        i := i + 1;
      }
      PrfxDeleteHelp(p);
      fwd := Unprefixed(fwd, p);
      DetachClosed(numNodes, p);
      numNodes := set q | q in numNodes && !IsPrefix(p, q);
    }

    /**
     * The number `num` is redirected to (phfwdGet): the destination of the
     * deepest redirect on the path of `num` followed by the rest of `num`,
     * or `num` itself; an empty result when `num` is not a number.
     */
    method Get(num: Option<string>) returns (r: seq<string>)
      requires NumberTrie()
      ensures !IsNum(num) ==> r == []
      ensures IsNum(num) ==> r == [Resolve(fwd, num.value)]
    {
      var valid := CheckNum(num);
      if !valid {
        return [];
      }
      var n := num.value;
      var i := 0;
      while i < |n| && n[..i + 1] in numNodes
        invariant 0 <= i <= |n|
      {
        i := i + 1;
      }
      if i < |n| {
        NoDeeperNode(numNodes, n, i);
      }
      ResolveSpec(fwd, n);
      ghost var depth := i;
      while 0 < i && n[..i] !in fwd
        invariant 0 <= i <= depth
        invariant forall j :: i < j <= |n| ==> n[..j] !in fwd
      {
        i := i - 1;
      }
      if i == 0 {
        r := [n];
      } else {
        var newnum := Forward(i, fwd[n[..i]], n);
        r := [newnum];
      }
    }

    /**
     * Merges into the sorted result `acc` every origin of `prefixList`
     * completed by the rest of `num` after `position` (getPrefix). With
     * `isGet`, only the completions that phfwdGet sends back to `num` are kept.
     */
    method GetPrefix(num: string, prefixList: seq<string>, position: nat, isGet: bool, acc: seq<string>)
      returns (r: seq<string>)
      requires NumberTrie()
      requires position < |num|
      requires StrictlySorted(acc)
      ensures StrictlySorted(r)
      ensures Elems(r) == Elems(acc) + Kept(fwd, num, isGet, prefixList, num[position + 1..])
    {
      var len := PrefixSize(prefixList);
      var suffix := num[position + 1..];
      r := acc;
      var k := 0;
      while k < len
        invariant 0 <= k <= len == |prefixList|
        invariant StrictlySorted(r)
        invariant Elems(r) == Elems(acc) + Kept(fwd, num, isGet, prefixList[..k], suffix)
      {
        ghost var before := Elems(r);
        var candidate := Forward(position + 1, prefixList[k], num);
        var keep := true;
        if isGet {
          var got := Get(Some(candidate));
          var first := PhnumGet(got, 0);
          if first.None? {
            keep := false;
          } else {
            var c := StrcmpExtended(first.value, num);
            CmpZeroIffEqual(first.value, num);
            keep := c == 0;
          }
        }
        if keep {
          r := InsertSorted(r, candidate);
        }
        KeptStep(fwd, num, isGet, prefixList, k, suffix, Elems(acc), before, Elems(r), keep);
        k := k + 1;
      }
      assert prefixList[..k] == prefixList;
    }

    /**
     * The numbers that may be redirected to `num` (phfwdReverse): `num`
     * itself and every `o ++ rest` for a redirect `o -> d` with
     * `num == d ++ rest`, sorted and without repetitions; an empty result
     * when `num` is not a number.
     */
    method Reverse(num: Option<string>) returns (r: seq<string>)
      requires NumberTrie() && PrefixTrie() && FwdWellFormed(fwd) && Mirrored(fwd, rev)
      ensures !IsNum(num) ==> r == []
      ensures IsNum(num) ==> StrictlySorted(r)
      ensures IsNum(num) ==> Elems(r) == {num.value} + Candidates(rev, num.value, |num.value|)
      ensures IsNum(num) ==> forall x :: GetsTo(fwd, x, num.value) ==> x in r
    {
      var valid := CheckNum(num);
      if !valid {
        return [];
      }
      var n := num.value;
      r := [n];
      var i := 0;
      while i < |n| && n[..i + 1] in prefNodes
        invariant 0 <= i <= |n|
        invariant StrictlySorted(r)
        invariant Elems(r) == {n} + Candidates(rev, n, i)
      {
        ghost var before := Elems(r);
        if n[..i + 1] in rev {
          r := GetPrefix(n, rev[n[..i + 1]], i, false, r);
        }
        ReverseStep(fwd, rev, n, i, {n}, before, Elems(r));
        i := i + 1;
      }
      PathEnd(prefNodes, rev, n, i);
      ReverseComplete(fwd, rev, n, i, Elems(r));
    }

    /**
     * Exactly the numbers that phfwdGet sends to `num`, sorted and without
     * repetitions (phfwdGetReverse); an empty result when `num` is not a
     * number.
     */
    method GetReverse(num: Option<string>) returns (r: seq<string>)
      requires NumberTrie() && PrefixTrie() && FwdWellFormed(fwd) && Mirrored(fwd, rev)
      ensures !IsNum(num) ==> r == []
      ensures IsNum(num) ==> StrictlySorted(r)
      ensures IsNum(num) ==> forall x :: x in r <==> GetsTo(fwd, x, num.value)
    {
      var valid := CheckNum(num);
      if !valid {
        return [];
      }
      var n := num.value;
      var got := Get(num);
      var first := PhnumGet(got, 0);
      var c := StrcmpExtended(first.value, n);
      CmpZeroIffEqual(first.value, n);
      if c == 0 {
        r := [n];
      } else {
        r := [];
      }
      ghost var self := if GetsTo(fwd, n, n) then {n} else {};
      var i := 0;
      while i < |n| && n[..i + 1] in prefNodes
        invariant 0 <= i <= |n|
        invariant StrictlySorted(r)
        invariant Elems(r) == self + Preimages(fwd, rev, n, i)
      {
        ghost var before := Elems(r);
        if n[..i + 1] in rev {
          r := GetPrefix(n, rev[n[..i + 1]], i, true, r);
        }
        GetReverseStep(fwd, rev, n, i, self, before, Elems(r));
        i := i + 1;
      }
      PathEnd(prefNodes, rev, n, i);
      GetReverseExact(fwd, rev, n, i, Elems(r));
      assert forall x :: x in r <==> x in Elems(r);
    }
  }
}
