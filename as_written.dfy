/**
 * Four list updates of phone_forward.c exactly as they are written, each
 * with an input on which it departs from the intended behaviour that the
 * rest of the model implements (Ordering.InsertSorted for both list
 * insertions, PhoneForwarding.PhoneForward.Add for replacing a redirect,
 * PhoneForwarding.PhoneForward.PrfxDelete for unlinking an origin), and the
 * inputs on which it does agree with it.
 */
module AsWritten {
  import opened Wrappers
  import opened Alphabet
  import opened Ordering
  import opened Redirects

  /**
   * The entry the insertion of AddPrefix stops at: starting from index `h`,
   * it moves on while `x` sorts strictly after the next entry.
   */
  function AdvanceHead(l: seq<string>, x: string, h: nat): (r: nat)
    requires h < |l|
    ensures h <= r < |l|
    decreases |l| - h
  {
    if h + 1 < |l| && Cmp(x, l[h + 1]) == 1 then AdvanceHead(l, x, h + 1) else h
  }

  /** Where the walk stops: `x` sorts after every entry passed, and not after the next one. */
  lemma {:induction false} AdvanceHeadSpec(l: seq<string>, x: string, h: nat)
    requires h < |l|
    ensures forall j :: h < j <= AdvanceHead(l, x, h) ==> Cmp(x, l[j]) == 1
    ensures AdvanceHead(l, x, h) + 1 < |l| ==> Cmp(x, l[AdvanceHead(l, x, h) + 1]) < 1
    decreases |l| - h
  {
    if h + 1 < |l| && Cmp(x, l[h + 1]) == 1 {
      AdvanceHeadSpec(l, x, h + 1);
    }
  }

  /**
   * The insertion of AddPrefix into a non-empty prefix-trie list as written:
   * `x` always goes after the head, and the walk stops before the first later
   * entry that `x` does not sort strictly after, so an equal entry stops it
   * too and `x` is linked in beside it.
   */
  function AddPrefixListInsert(l: seq<string>, x: string): (r: seq<string>)
    requires l != []
    ensures |r| == |l| + 1 && r[0] == l[0]
  {
    var h := AdvanceHead(l, x, 0);
    l[..h + 1] + [x] + l[h + 1..]
  }

  /** A new origin sorting before the head is put second: the list is no longer sorted. */
  lemma AddPrefixMissesHead()
    ensures AddPrefixListInsert(["5"], "3") == ["5", "3"]
    ensures !StrictlySorted(["5", "3"])
  {
    assert AdvanceHead(["5"], "3", 0) == 0;
    assert ["5"][..1] + ["3"] + ["5"][1..] == ["5", "3"];
    assert Cmp("5", "3") == 1;
    OutOfOrder(["5", "3"], 0, 1);
  }

  /** An origin already in the list is inserted a second time. */
  lemma AddPrefixRepeats()
    ensures AddPrefixListInsert(["5"], "5") == ["5", "5"]
    ensures !StrictlySorted(["5", "5"])
  {
    assert AdvanceHead(["5"], "5", 0) == 0;
    assert ["5"][..1] + ["5"] + ["5"][1..] == ["5", "5"];
    CmpZeroIffEqual("5", "5");
    OutOfOrder(["5", "5"], 0, 1);
  }

  /** Two entries out of strict order make a list unsorted. */
  lemma OutOfOrder(s: seq<string>, i: nat, j: nat)
    requires i < j < |s| && Cmp(s[i], s[j]) >= 0
    ensures !StrictlySorted(s)
  {
  }

  /**
   * Away from those two inputs the insertion as written is the intended
   * one: for a new origin sorting after the head, the list stays strictly
   * sorted and gains exactly that origin.
   */
  lemma AddPrefixListInsertPastHead(l: seq<string>, x: string)
    requires StrictlySorted(l) && l != [] && Cmp(l[0], x) < 0 && x !in l
    ensures StrictlySorted(AddPrefixListInsert(l, x))
    ensures Elems(AddPrefixListInsert(l, x)) == Elems(l) + {x}
  {
    var h := AdvanceHead(l, x, 0);
    PassedBefore(l, x);
    InsertKeepsSorted(l, h + 1, x);
    InsertElems(l, h + 1, x);
  }

  /**
   * A new origin sorting after the head sorts after every entry the
   * insertion walk passes, and before the entry it stops at.
   */
  lemma PassedBefore(l: seq<string>, x: string)
    requires StrictlySorted(l) && l != [] && Cmp(l[0], x) < 0 && x !in l
    ensures forall j :: 0 <= j < AdvanceHead(l, x, 0) + 1 ==> Cmp(l[j], x) < 0
    ensures AdvanceHead(l, x, 0) + 1 < |l| ==> Cmp(x, l[AdvanceHead(l, x, 0) + 1]) < 0
  {
    var h := AdvanceHead(l, x, 0);
    AdvanceHeadSpec(l, x, 0);
    forall j | 0 < j <= h
      ensures Cmp(l[j], x) < 0
    {
      CmpAntisymmetric(x, l[j]);
    }
    if h + 1 < |l| {
      assert l[h + 1] in l;
      CmpZeroIffEqual(x, l[h + 1]);
    }
  }

  lemma InsertElems(l: seq<string>, k: nat, x: string)
    requires k <= |l|
    ensures Elems(l[..k] + [x] + l[k..]) == Elems(l) + {x}
  {
    assert l == l[..k] + l[k..];
  }

  /**
   * The merge of getPrefix as written, for one candidate `c` that passed
   * the filter, into the result list `res` whose announced length is `len`:
   * a one-entry list is handled apart; a longer one is walked from the start.
   */
  function GetPrefixInsert(res: seq<string>, len: int, c: string): (r: (seq<string>, int))
    ensures |r.0| == |res| + 1 || (r.0 == res && r.1 == len - 1)
  {
    if res == [] then ([c], len)
    else if |res| == 1 then
      if Cmp(res[0], c) == -1 then (res + [c], len)
      else if Cmp(res[0], c) == 1 then ([c] + res, len)
      else (res, len - 1)
    else WalkTo(res, len, c, 0)
  }

  /**
   * The walk of the merge from entry `t`: an entry equal to `c` lowers the
   * announced length but leaves `c` to be linked in before it all the same.
   */
  function WalkTo(res: seq<string>, len: int, c: string, t: nat): (r: (seq<string>, int))
    requires t < |res|
    ensures |r.0| == |res| + 1
    decreases |res| - t
  {
    if Cmp(res[t], c) < 1 then
      if Cmp(res[t], c) == 0 then (res[..t] + [c] + res[t..], len - 1)
      else if t == |res| - 1 then (res + [c], len)
      else WalkTo(res, len, c, t + 1)
    else (res[..t] + [c] + res[t..], len)
  }

  /** The numbers phnumGet shows of a list whose announced length is `len`. */
  function Shown(res: seq<string>, len: int): (r: seq<string>)
    ensures |r| <= |res| && r == res[..|r|]
  {
    if len <= 0 then [] else if len >= |res| then res else res[..len]
  }

  /**
   * After add("3", "1"), add("32", "12") and add("5", "12"), phfwdReverse("12")
   * merges "32" (from the list of node "1") into ["12"], then "32" and "5"
   * (from the list of node "12", announced length 4): the duplicate "32" is
   * linked in and counted out, so the shown result repeats "32" and loses "5".
   */
  lemma ReverseMergeRepeats()
    ensures GetPrefixInsert(["12"], 2, "32") == (["12", "32"], 2)
    ensures GetPrefixInsert(["12", "32"], 4, "32") == (["12", "32", "32"], 3)
    ensures GetPrefixInsert(["12", "32", "32"], 3, "5") == (["12", "32", "32", "5"], 3)
    ensures Shown(["12", "32", "32", "5"], 3) == ["12", "32", "32"]
    ensures !StrictlySorted(["12", "32", "32"]) && "5" !in ["12", "32", "32"]
  {
    assert Cmp("12", "32") == -1;
    assert Cmp("12", "5") == -1 && Cmp("32", "5") == -1;
    CmpZeroIffEqual("32", "32");
    assert ["12", "32"][..1] + ["32"] + ["12", "32"][1..] == ["12", "32", "32"];
    var l := ["12", "32", "32"];
    assert WalkTo(l, 3, "5", 2) == (l + ["5"], 3);
    assert WalkTo(l, 3, "5", 1) == WalkTo(l, 3, "5", 2);
    assert WalkTo(l, 3, "5", 0) == WalkTo(l, 3, "5", 1);
    assert l + ["5"] == ["12", "32", "32", "5"];
    assert ["12"] + ["32"] == ["12", "32"];
    OutOfOrder(l, 1, 2);
  }

  /** The walk from `t` when every entry before `t` sorts before a new candidate `c`. */
  lemma {:induction false} WalkToNew(res: seq<string>, len: int, c: string, t: nat)
    requires StrictlySorted(res) && t < |res| && c !in res
    requires forall j :: 0 <= j < t ==> Cmp(res[j], c) < 0
    ensures StrictlySorted(WalkTo(res, len, c, t).0)
    ensures Elems(WalkTo(res, len, c, t).0) == Elems(res) + {c}
    ensures WalkTo(res, len, c, t).1 == len
    decreases |res| - t
  {
    CmpZeroIffEqual(res[t], c);
    if Cmp(res[t], c) < 1 {
      if t == |res| - 1 {
        InsertKeepsSorted(res, |res|, c);
        assert res[..|res|] + [c] + res[|res|..] == res + [c];
      } else {
        WalkToNew(res, len, c, t + 1);
      }
    } else {
      CmpAntisymmetric(res[t], c);
      InsertKeepsSorted(res, t, c);
      assert res == res[..t] + res[t..];
    }
  }

  /**
   * Away from repeated candidates the merge as written is the intended one:
   * a new candidate keeps the list strictly sorted, joins it, and leaves the
   * announced length as it was.
   */
  lemma GetPrefixInsertNew(res: seq<string>, len: int, c: string)
    requires StrictlySorted(res) && c !in res
    ensures StrictlySorted(GetPrefixInsert(res, len, c).0)
    ensures Elems(GetPrefixInsert(res, len, c).0) == Elems(res) + {c}
    ensures GetPrefixInsert(res, len, c).1 == len
  {
    if |res| == 1 {
      CmpZeroIffEqual(res[0], c);
      CmpAntisymmetric(res[0], c);
      if Cmp(res[0], c) == -1 {
        InsertKeepsSorted(res, 1, c);
        assert res[..1] + [c] + res[1..] == res + [c];
      } else {
        InsertKeepsSorted(res, 0, c);
        assert res[..0] + [c] + res[0..] == [c] + res;
      }
    } else if |res| > 1 {
      WalkToNew(res, len, c, 0);
    }
  }

  /**
   * phfwdAdd as written, on the two tries: the number trie takes the new
   * redirect `a -> b`, and `a` joins the list of `b`; a redirect it replaces
   * keeps its mirror in the list of its old destination.
   */
  function AddAsWritten(fwd: map<string, string>, rev: map<string, seq<string>>, a: string, b: string)
    : (r: (map<string, string>, map<string, seq<string>>))
    ensures r.0.Keys == fwd.Keys + {a} && r.0[a] == b
    ensures r.1.Keys == rev.Keys + {b} && a in r.1[b]
    ensures forall d :: d in rev && d != b ==> r.1[d] == rev[d]
  {
    (fwd[a := b], rev[b := if b in rev && rev[b] != [] then AddPrefixListInsert(rev[b], a) else [a]])
  }

  /**
   * add("1", "2") then add("1", "3") leaves "1" in the list of "2": the
   * prefix trie no longer mirrors the number trie, and phfwdReverse("2")
   * would still offer "1", which is now redirected to "3".
   */
  lemma ReplaceLeavesStaleMirror()
    ensures AddAsWritten(map[], map[], "1", "2") == (map["1" := "2"], map["2" := ["1"]])
    ensures AddAsWritten(map["1" := "2"], map["2" := ["1"]], "1", "3")
      == (map["1" := "3"], map["2" := ["1"], "3" := ["1"]])
    ensures !Mirrored(map["1" := "3"], map["2" := ["1"], "3" := ["1"]])
  {
    assert map["1" := "2"]["1" := "3"] == map["1" := "3"];
    var rev := map["2" := ["1"], "3" := ["1"]];
    assert "1" in RevList(rev, "2");
  }

  /**
   * A node of a prefix-trie list: `id` stands for its address, unique
   * within the list, and `parent` is the address of the node it records as
   * its predecessor (`None` for NULL).
   */
  datatype Cell = Cell(id: nat, origin: string, parent: Option<nat>)

  function Origins(l: seq<Cell>): (r: seq<string>)
    ensures |r| == |l| && forall i :: 0 <= i < |l| ==> r[i] == l[i].origin
  {
    seq(|l|, i requires 0 <= i < |l| => l[i].origin)
  }

  function Ids(l: seq<Cell>): set<nat> {
    set i | 0 <= i < |l| :: l[i].id
  }

  /** No two nodes of the list share an address. */
  predicate UniqueIds(l: seq<Cell>) {
    forall i, j :: 0 <= i < j < |l| ==> l[i].id != l[j].id
  }

  /** Every node records the node before it, and the head records none. */
  predicate Linked(l: seq<Cell>) {
    (l != [] ==> l[0].parent == None)
    && forall i :: 0 < i < |l| ==> l[i].parent == Some(l[i - 1].id)
  }

  /**
   * The insertion of AddPrefix with its links as written, for a new node at
   * the fresh address `id`: a new list is a head without parent; otherwise
   * the new node records the entry the walk stopped at, and the node that
   * followed that entry keeps the parent it had.
   */
  function InsertLinked(l: seq<Cell>, x: string, id: nat): (r: seq<Cell>)
    requires id !in Ids(l)
    ensures l == [] ==> r == [Cell(id, x, None)]
    ensures l != [] ==> Origins(r) == AddPrefixListInsert(Origins(l), x)
    ensures forall i :: 0 <= i < |l| ==> l[i] in r
    ensures Ids(r) == Ids(l) + {id}
    ensures UniqueIds(l) ==> UniqueIds(r)
  {
    if l == [] then
      var r := [Cell(id, x, None)];
      assert r[0].id == id;
      r
    else
      var h := AdvanceHead(Origins(l), x, 0);
      CellInsert(l, h + 1, Cell(id, x, Some(l[h].id)));
      l[..h + 1] + [Cell(id, x, Some(l[h].id))] + l[h + 1..]
  }

  /** Linking cell `c` in at index `k`, as a list of cells. */
  lemma CellInsert(l: seq<Cell>, k: nat, c: Cell)
    requires k <= |l| && c.id !in Ids(l)
    ensures Origins(l[..k] + [c] + l[k..]) == Origins(l)[..k] + [c.origin] + Origins(l)[k..]
    ensures forall i :: 0 <= i < |l| ==> l[i] in l[..k] + [c] + l[k..]
    ensures Ids(l[..k] + [c] + l[k..]) == Ids(l) + {c.id}
    ensures UniqueIds(l) ==> UniqueIds(l[..k] + [c] + l[k..])
  {
    CellInsertOrigins(l, k, c);
    CellInsertKeeps(l, k, c);
    CellInsertIds(l, k, c);
    if UniqueIds(l) {
      CellInsertUnique(l, k, c);
    }
  }

  lemma CellInsertOrigins(l: seq<Cell>, k: nat, c: Cell)
    requires k <= |l|
    ensures Origins(l[..k] + [c] + l[k..]) == Origins(l)[..k] + [c.origin] + Origins(l)[k..]
  {
    CellAt(l, k, c);
  }

  lemma CellInsertKeeps(l: seq<Cell>, k: nat, c: Cell)
    requires k <= |l|
    ensures forall i :: 0 <= i < |l| ==> l[i] in l[..k] + [c] + l[k..]
  {
    var r := l[..k] + [c] + l[k..];
    CellAt(l, k, c);
    forall i | 0 <= i < |l|
      ensures l[i] in r
    {
      assert l[i] == r[if i < k then i else i + 1];
    }
  }

  lemma CellInsertUnique(l: seq<Cell>, k: nat, c: Cell)
    requires k <= |l| && c.id !in Ids(l) && UniqueIds(l)
    ensures UniqueIds(l[..k] + [c] + l[k..])
  {
    var r := l[..k] + [c] + l[k..];
    forall i, j | 0 <= i < j < |r|
      ensures r[i].id != r[j].id
    {
      var i' := if i < k then i else i - 1;
      var j' := if j < k then j else j - 1;
      CellAt(l, k, c);
      if i == k {
        assert r[j] == l[j'] && l[j'].id in Ids(l);
      } else if j == k {
        assert r[i] == l[i'] && l[i'].id in Ids(l);
      } else {
        assert r[i] == l[i'] && r[j] == l[j'] && i' < j';
      }
    }
  }

  /** Where each cell of `l[..k] + [c] + l[k..]` comes from. */
  lemma CellAt(l: seq<Cell>, k: nat, c: Cell)
    requires k <= |l|
    ensures forall i :: 0 <= i < |l[..k] + [c] + l[k..]| ==>
      (l[..k] + [c] + l[k..])[i] == (if i < k then l[i] else if i == k then c else l[i - 1])
  {
  }

  lemma CellInsertIds(l: seq<Cell>, k: nat, c: Cell)
    requires k <= |l|
    ensures Ids(l[..k] + [c] + l[k..]) == Ids(l) + {c.id}
  {
    var r := l[..k] + [c] + l[k..];
    CellAt(l, k, c);
    forall n | n in Ids(l) + {c.id}
      ensures n in Ids(r)
    {
      if n == c.id {
        assert r[k].id == n;
      } else {
        var i :| 0 <= i < |l| && l[i].id == n;
        assert r[if i < k then i else i + 1].id == n;
      }
    }
    forall n | n in Ids(r)
      ensures n in Ids(l) + {c.id}
    {
      var i :| 0 <= i < |r| && r[i].id == n;
      if i < k {
        assert l[i].id == n;
      } else if i > k {
        assert l[i - 1].id == n;
      }
    }
  }

  /** The last node before index `k` at address `p`, if any. */
  function FindBefore(l: seq<Cell>, p: nat, k: nat): (r: Option<nat>)
    requires k <= |l|
    ensures r.Some? ==> r.value < k && l[r.value].id == p
                        && forall j :: r.value < j < k ==> l[j].id != p
    ensures r.None? ==> forall j :: 0 <= j < k ==> l[j].id != p
    decreases k
  {
    if k == 0 then None
    else if l[k - 1].id == p then Some(k - 1)
    else FindBefore(l, p, k - 1)
  }

  /** A list whose first node now records `p` as its parent. */
  function Relink(l: seq<Cell>, p: Option<nat>): (r: seq<Cell>)
    ensures Origins(r) == Origins(l)
    ensures r != [] ==> r[0].parent == p && r[0].id == l[0].id && r[1..] == l[1..]
  {
    if l == [] then [] else [Cell(l[0].id, l[0].origin, p)] + l[1..]
  }

  /**
   * prfxDelete as written, unlinking the node at index `k`: a node without
   * parent is the head, and the list restarts at its successor; otherwise
   * the node at the recorded address is made to skip to the successor, so
   * every node between the two goes with it. `None` when no node before `k`
   * has that address (the C code then writes through a link to a freed
   * node).
   */
  function UnlinkLinked(l: seq<Cell>, k: nat): (r: Option<seq<Cell>>)
    requires k < |l|
    ensures l[k].parent == None ==> r == Some(Relink(l[k + 1..], None))
    ensures r.Some? ==> |r.value| < |l|
    ensures r.Some? ==> var n := |r.value| - (|l| - k - 1);
              0 <= n <= k && Origins(r.value) == Origins(l)[..n] + Origins(l)[k + 1..]
  {
    match l[k].parent
    case None =>
      CutOrigins(l, 0, k, None);
      Some(Relink(l[k + 1..], None))
    case Some(p) =>
      match FindBefore(l, p, k)
      case None => None
      case Some(j) =>
        CutOrigins(l, j + 1, k, Some(p));
        Some(l[..j + 1] + Relink(l[k + 1..], Some(p)))
  }

  /** Keeping the first `n` nodes and those after `k`, the first of them relinked to `p`. */
  lemma CutOrigins(l: seq<Cell>, n: nat, k: nat, p: Option<nat>)
    requires n <= k < |l|
    ensures |l[..n] + Relink(l[k + 1..], p)| == n + (|l| - k - 1)
    ensures Origins(l[..n] + Relink(l[k + 1..], p)) == Origins(l)[..n] + Origins(l)[k + 1..]
  {
    var rest := Relink(l[k + 1..], p);
    assert Origins(l[..n] + rest) == Origins(l[..n]) + Origins(rest);
    assert Origins(l[..n]) == Origins(l)[..n];
    assert Origins(l[k + 1..]) == Origins(l)[k + 1..];
  }

  /**
   * While every node records its true predecessor, the unlinking as written
   * is the intended one: exactly the node at `k` leaves, and the links stay
   * true.
   */
  lemma UnlinkLinkedAgrees(l: seq<Cell>, k: nat)
    requires Linked(l) && k < |l|
    ensures UnlinkLinked(l, k).Some?
    ensures Origins(UnlinkLinked(l, k).value) == Origins(l)[..k] + Origins(l)[k + 1..]
    ensures Linked(UnlinkLinked(l, k).value)
  {
    if k == 0 {
      assert Origins(l)[..0] + Origins(l)[1..] == Origins(l[1..]);
    } else {
      assert FindBefore(l, l[k - 1].id, k) == Some(k - 1);
      UnlinkInner(l, k);
    }
  }

  /** Cutting out the node at `k > 0` and making its successor record the node before. */
  lemma UnlinkInner(l: seq<Cell>, k: nat)
    requires Linked(l) && 0 < k < |l|
    ensures Origins(l[..k] + Relink(l[k + 1..], Some(l[k - 1].id))) == Origins(l)[..k] + Origins(l)[k + 1..]
    ensures Linked(l[..k] + Relink(l[k + 1..], Some(l[k - 1].id)))
  {
    var rest := Relink(l[k + 1..], Some(l[k - 1].id));
    var r := l[..k] + rest;
    assert Origins(r) == Origins(l[..k]) + Origins(rest);
    assert Origins(l[..k]) == Origins(l)[..k] && Origins(l[k + 1..]) == Origins(l)[k + 1..];
    forall i | 0 < i < |r|
      ensures r[i].parent == Some(r[i - 1].id)
    {
      if i > k {
        assert r[i] == l[i + 1] && r[i - 1].id == l[i].id;
      } else if i < k {
        assert r[i] == l[i] && r[i - 1] == l[i - 1];
      }
    }
  }

  /** add("1", "9") then add("3", "9"): "3" goes after the head "1". */
  lemma StaleParentFirstInserts()
    ensures InsertLinked([], "1", 0) == [Cell(0, "1", None)]
    ensures InsertLinked([Cell(0, "1", None)], "3", 1) == [Cell(0, "1", None), Cell(1, "3", Some(0))]
  {
    var l1 := [Cell(0, "1", None)];
    assert Origins(l1) == ["1"];
    assert AdvanceHead(["1"], "3", 0) == 0;
    assert l1[..1] + [Cell(1, "3", Some(0))] + l1[1..] == [Cell(0, "1", None), Cell(1, "3", Some(0))];
  }

  /** add("2", "9") next: "2" goes between "1" and "3", and "3" keeps "1" as its parent. */
  lemma StaleParentMiddleInsert()
    ensures InsertLinked([Cell(0, "1", None), Cell(1, "3", Some(0))], "2", 2)
      == [Cell(0, "1", None), Cell(2, "2", Some(0)), Cell(1, "3", Some(0))]
    ensures !Linked([Cell(0, "1", None), Cell(2, "2", Some(0)), Cell(1, "3", Some(0))])
  {
    var l2 := [Cell(0, "1", None), Cell(1, "3", Some(0))];
    assert Origins(l2) == ["1", "3"];
    assert Cmp("2", "3") == -1;
    assert AdvanceHead(["1", "3"], "2", 0) == 0;
    assert l2[..1] + [Cell(2, "2", Some(0))] + l2[1..]
      == [Cell(0, "1", None), Cell(2, "2", Some(0)), Cell(1, "3", Some(0))];
    var l3 := [Cell(0, "1", None), Cell(2, "2", Some(0)), Cell(1, "3", Some(0))];
    assert l3[2].parent != Some(l3[1].id);
  }

  /** remove("3") then: "1" skips to what follows "3", and "2" goes with "3". */
  lemma StaleParentUnlink()
    ensures UnlinkLinked([Cell(0, "1", None), Cell(2, "2", Some(0)), Cell(1, "3", Some(0))], 2)
      == Some([Cell(0, "1", None)])
  {
    var l3 := [Cell(0, "1", None), Cell(2, "2", Some(0)), Cell(1, "3", Some(0))];
    assert FindBefore(l3, 0, 2) == Some(0);
    assert l3[..1] + Relink(l3[3..], Some(0)) == [Cell(0, "1", None)];
  }

  /** "2" is still redirected to "9" once "3" is removed. */
  lemma StaleParentStillRedirected()
    ensures GetsTo(map["1" := "9", "2" := "9"], "2", "9")
  {
    var fwd := map["1" := "9", "2" := "9"];
    assert "2"[..1] == "2";
    assert LongestMatch(fwd, "2", 1) == 1;
    assert IsSymbol("2"[0]);
  }

  /** The three insertions run one after the other from an empty list. */
  lemma StaleParentBuild()
    ensures InsertLinked(InsertLinked(InsertLinked([], "1", 0), "3", 1), "2", 2)
      == [Cell(0, "1", None), Cell(2, "2", Some(0)), Cell(1, "3", Some(0))]
  {
    assert Ids([]) == {};
    var l1 := InsertLinked([], "1", 0);
    assert Ids(l1) == {0};
    var l2 := InsertLinked(l1, "3", 1);
    StaleParentFirstInserts();
    assert l2 == [Cell(0, "1", None), Cell(1, "3", Some(0))];
    assert Ids(l2) == {0, 1};
    StaleParentMiddleInsert();
  }

  /**
   * add("1", "9"), add("3", "9"), add("2", "9") build the list of "9" as
   * "1", "2", "3", but "3" still records "1" as its parent. remove("3") then
   * makes "1" skip to what follows "3", so "2" leaves the list too, although
   * "2" is still redirected to "9": phfwdReverse("9") and
   * phfwdGetReverse("9") no longer find it.
   */
  lemma StaleParentLosesEntry()
    ensures Origins(UnlinkLinked(InsertLinked(InsertLinked(InsertLinked([], "1", 0), "3", 1), "2", 2), 2).value)
      == ["1"]
    ensures GetsTo(map["1" := "9", "2" := "9"], "2", "9")
  {
    StaleParentBuild();
    StaleParentUnlink();
    StaleParentStillRedirected();
    assert Origins([Cell(0, "1", None)]) == ["1"];
  }

  /**
   * With a repeated origin: add("5", "9"), add("7", "9"), add("5", "9")
   * link a second "5" after the first, and "7" still records the first "5".
   * remove("7") makes that first node skip past "7", leaving only it: the
   * unlink follows the recorded node, not the nearest node with its origin.
   */
  lemma StaleParentRepeatedOrigin()
    ensures InsertLinked([Cell(0, "5", None), Cell(1, "7", Some(0))], "5", 2)
      == [Cell(0, "5", None), Cell(2, "5", Some(0)), Cell(1, "7", Some(0))]
    ensures UnlinkLinked([Cell(0, "5", None), Cell(2, "5", Some(0)), Cell(1, "7", Some(0))], 2)
      == Some([Cell(0, "5", None)])
  {
    var l2 := [Cell(0, "5", None), Cell(1, "7", Some(0))];
    assert Origins(l2) == ["5", "7"];
    assert Cmp("5", "7") == -1;
    assert AdvanceHead(["5", "7"], "5", 0) == 0;
    assert l2[..1] + [Cell(2, "5", Some(0))] + l2[1..]
      == [Cell(0, "5", None), Cell(2, "5", Some(0)), Cell(1, "7", Some(0))];
    var l3 := [Cell(0, "5", None), Cell(2, "5", Some(0)), Cell(1, "7", Some(0))];
    assert FindBefore(l3, 0, 2) == Some(0);
    assert l3[..1] + Relink(l3[3..], Some(0)) == [Cell(0, "5", None)];
  }
}
