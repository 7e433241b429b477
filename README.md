# Telephone-number forwarding dictionary, modelled in Dafny

`phone_forward.c` keeps a dictionary of prefix redirects between telephone
numbers. Numbers are strings over the twelve symbols `0`..`9`, `*` and `#`. A
redirect `a -> b` rewrites every number that starts with `a`: the prefix `a`
is replaced by `b`. The structure has two tries under one root:

- the **number trie**, keyed by redirect origins. Each node holds at most one
  destination.
- the **prefix trie**, keyed by destinations. Each node holds the list of
  origins redirected there, sorted by `strcmp_extended`.

Every redirect has a mirror entry in the prefix trie. The queries are:
- `phfwdGet`: the longest-prefix rewrite of a number.
- `phfwdReverse`: every number that might be rewritten to a given one.
- `phfwdGetReverse`: exactly the numbers that are rewritten to it.

The model, module by module:

- `Alphabet`: symbol and number validation (`check_num`, `get_digit`). A C
  string that may be `NULL` is an `Option<string>`.
- `Ordering`: the order of `strcmp_extended` (`Cmp`), strictly sorted lists,
  and ordered insertion into them (`InsertSorted`).
- `Splice`: `Forward`, which rewrites a number through a redirect.
- `Redirects`: the abstract contents of the two tries, as values. The number
  trie is `fwd: map<string, string>`. The prefix trie is
  `rev: map<string, seq<string>>`. This module states what the mirror
  invariant is (`Mirrored`), what `phfwdGet` computes (`Resolve`), and what
  the reverse walks collect (`Candidates`, `Preimages`). Its lemmas tie those
  together.
- `PhoneForwarding`: the database as a class `PhoneForward`. It has:
  - the two maps, plus the node sets `numNodes` and `prefNodes` of both
    tries;
  - one method per C function, each proved against the functions of
    `Redirects`.

  `Valid()` is the database invariant: both node sets are prefix-closed and
  contain the root, every entry sits at an existing node, the lists are
  strictly sorted, and the two tries mirror each other exactly. The two
  public mutators, `Add` and `Remove`, keep `Valid()`. The internal steps
  `AddPrefix`, `AddDivider`, `PrfxDelete` and `PrfxDeleteHelp` keep
  `Shape()`, which is `Valid()` without the mirror, and state exactly how
  each list changes. `PrfxDeleteHelp` leaves the tries mirrored except for
  the redirects under its prefix (`MirroredExcept`). The number side of
  `AddPrefix` and `AddDivider` leaves them mirrored except for the redirect
  being stored. Their prefix side restores the full mirror. `NewChild` only
  adds a node and states that nothing else changes.
- `AsWritten`: four list updates as the C code performs them, with
  the inputs on which they go wrong (see Findings).

A trie node is identified with the string that spells its path. `get_digit` is
injective on the alphabet (`GetDigitInjective`), so a path of child slots and
the string of its symbols determine each other.

In four places the code departs from the behaviour that the documented query
results require, and the model implements that behaviour. These are listed
under Findings. In each case the exact code as written is modelled in
`AsWritten`, together with the input that shows the departure. No doc comment
of `AddPrefix`, `prfxDelete` or `phfwdAdd` states how the lists are to be
kept. Each intended behaviour is derived as follows:

- Ordered insertion into the lists of `AddPrefix`. `AddPrefix` walks the
  list with `strcmp_extended` to find its insertion point
  (phone_forward.c:222), so it is meant to insert in order.
- No repeats, in the lists and in the merge of `getPrefix`. The result of
  `phfwdReverse` is documented to hold no repeats (phone_forward.c:585). The
  merge as written lets a repeated candidate through (phone_forward.c:537-556),
  and it also lowers `arr_length` when it meets one, which shows that the
  repeat was meant to be dropped.
- Removal of the mirror of a replaced redirect. The mirror link is stored in
  the number-trie entry (phone_forward.c:289) so that `prfxDelete` can find
  and unlink that mirror (phone_forward.c:300). When a redirect is replaced,
  line 236 frees the entry that holds this link, and the mirror stays in the
  list of the old destination. Re-adding the same redirect then lists the
  origin twice (phone_forward.c:222). The merge shows that repeat
  (phone_forward.c:537-556), against the "no repeats" of line 585.
- Unlinking that removes exactly one origin. Every number `x` that
  `phfwdGet` sends to `num` belongs to the result of `phfwdReverse`
  (phone_forward.c:581-583) and of `phfwdGetReverse`
  (phone_forward.c:636-637). Both walks find origins only in these lists, so
  an unlink must lose no other origin. When the merge of `getPrefix` links a
  node in, it also makes the next node record it as `parent`
  (phone_forward.c:555). That is the link discipline that `AddPrefix` omits.

## Model

| member | source | states |
|---|---|---|
| Alphabet.CheckNum | phone_forward.c:141-152 | accepts exactly the non-NULL, non-empty strings whose every character is a digit, `*` or `#` |
| Alphabet.GetDigit | phone_forward.c:159-165 | maps each symbol to a slot in 0..11: the digits to their value, `*` to 10, `#` to 11 |
| Alphabet.GetDigitInjective | phone_forward.c:159-165 | different symbols select different child slots |
| Ordering.Cmp | phone_forward.c:194-205 | the comparison yields -1, 0 or 1 |
| Ordering.StrcmpExtended | phone_forward.c:194-205 | the loop over the common part, then the length comparison, computes `Cmp` |
| Ordering.CmpZeroIffEqual | phone_forward.c:194-205 | the comparison is 0 exactly when the strings are equal |
| Ordering.CmpAntisymmetric | phone_forward.c:194-205 | swapping the arguments flips the sign |
| Ordering.CmpTransitive | phone_forward.c:194-205 | the strict order is transitive |
| Ordering.CmpStrictPrefix | phone_forward.c:194-205 | a strict prefix compares less than its extension |
| Ordering.SortedUnique | phone_forward.c:221-233 | two strictly sorted lists with the same elements are equal |
| Ordering.InsertSorted | phone_forward.c:221-233 | ordered insertion keeps a list strictly sorted, and the list gains exactly the new string; an equal string is not added twice |
| Ordering.UnlinkKeepsSorted | phone_forward.c:302-315 | unlinking one entry keeps the list strictly sorted and removes exactly that entry |
| Splice.Forward | phone_forward.c:364-377 | the result is `prefix` followed by `num` after `position`, so its length is that of `prefix` plus that of `num` minus `position` |
| Redirects.LongestMatchSpec | phone_forward.c:413-432 | the climb finds the longest stored origin among the prefixes of the number, or none |
| Redirects.ResolveSpec | phone_forward.c:413-436 | a number with no stored prefix comes back unchanged; otherwise its longest stored prefix is replaced by that prefix's destination |
| Redirects.ResolveAfterAdd | phone_forward.c:236-246 | after `a -> b` is stored, phfwdGet(a) yields exactly `b`, whatever was stored for `a` before |
| Redirects.ResolveAfterAddElsewhere | phone_forward.c:282-291 | storing `a -> b` leaves the rewrite of every number not starting with `a` unchanged |
| Redirects.ResolveAfterRemoveOutside | phone_forward.c:340-354 | removing the redirects under `p` leaves the rewrite of every number outside `p` unchanged |
| Redirects.ResolveAfterRemoveInside | phone_forward.c:340-354 | a number whose stored prefixes all lay under `p` is no longer rewritten once they are removed |
| Redirects.LinkRedirect | phone_forward.c:221-233 | linking origin `a` into the list of its destination completes the mirror; the lists stay well formed and that list gains exactly `a` |
| Redirects.ReplaceRedirect | phone_forward.c:235-246 | replacing the redirect of `a`, after its old mirror is unlinked, leaves the tries mirrored except for `a`, with `a` gone from every list |
| Redirects.UnlinkedUnder | phone_forward.c:325-330 | after unlinking the mirrors of all redirects under `p`, each list holds exactly its old entries outside `p` |
| Redirects.KeptStep | phone_forward.c:528-573 | merging one more candidate, kept exactly when the filter admits it, extends the merged set by that candidate's completion |
| Redirects.ReverseCandidates | phone_forward.c:611-630 | with the tries mirrored, the walk down the prefix trie collects exactly the numbers `o ++ rest` for a redirect `o -> d` with `num == d ++ rest` |
| Redirects.CandidatesAreNumbers | phone_forward.c:611-630 | every collected candidate is a well-formed number |
| Redirects.PreimageIsCandidate | phone_forward.c:611-630 | every number other than `num` that phfwdGet sends to `num` is among the candidates |
| Redirects.ReverseComplete | phone_forward.c:593-632 | the walk that stops at a missing node has found `num`, all the candidates and every preimage of `num` |
| Redirects.GetReverseExact | phone_forward.c:643-697 | the filtered walk finds exactly the numbers that phfwdGet sends to `num` |
| Redirects.MirrorDeterminesRev | phone_forward.c:282-291 | the prefix trie is determined by the number trie: two well-formed prefix tries that mirror the same redirects are equal |
| PhoneForwarding.NoDeeperNode | phone_forward.c:413-418 | a descent that misses a child would miss every deeper node on that path |
| PhoneForwarding.PathEnd | phone_forward.c:622-626 | a descent that stops at a missing child has passed every node on the path that holds contents |
| PhoneForwarding.PrefixSize | phone_forward.c:444-451 | counting the list by walking it yields its length |
| PhoneForwarding.PhnumGet | phone_forward.c:481-490 | the `idx`-th number of a result, or none past its end |
| PhoneForwarding.PhoneForward.constructor | phone_forward.c:56-87 | a new database has two tries made of bare roots, holds no redirect and is valid |
| PhoneForwarding.PhoneForward.NewChild | phone_forward.c:174-186 | the chosen trie gains exactly the new child; nothing else changes |
| PhoneForwarding.PhoneForward.PrfxDelete | phone_forward.c:299-317 | unlinks the mirror of the redirect of `o`, at the head of its list or after a predecessor; that list loses exactly `o` and nothing else changes |
| PhoneForwarding.PhoneForward.AddPrefix | phone_forward.c:218-248 | prefix side: the origin joins the destination's list, which stays sorted, and the mirror is complete. Number side: the node's redirect becomes the new one, and the replaced redirect's mirror is unlinked |
| PhoneForwarding.PhoneForward.AddDivider | phone_forward.c:263-280 | fails, changing nothing, unless both arguments are numbers and differ. Otherwise it creates exactly the missing nodes on the path and stores there |
| PhoneForwarding.PhoneForward.Add | phone_forward.c:282-291 | keeps the database valid. Succeeds exactly when both are numbers and differ; on failure nothing changes. On success `fwd` becomes `old(fwd)[a := b]`, both paths exist, and `a` moves to the list of `b` |
| PhoneForwarding.PhoneForward.PrfxDeleteHelp | phone_forward.c:325-330 | unlinks the mirror of exactly the redirects stored under `p`; every list keeps its other entries |
| PhoneForwarding.PhoneForward.Remove | phone_forward.c:340-354 | keeps the database valid. For a number `p`: deletes exactly the redirects whose origin starts with `p`, their mirrors and the nodes under `p`. Does nothing for a non-number or a missing node |
| PhoneForwarding.PhoneForward.Get | phone_forward.c:391-437 | empty for a non-number; otherwise exactly one number, the longest-prefix rewrite `Resolve` |
| PhoneForwarding.PhoneForward.GetPrefix | phone_forward.c:502-578 | merges the completions of a list of origins, optionally only those that phfwdGet sends back to `num`, into a strictly sorted, repetition-free result |
| PhoneForwarding.PhoneForward.Reverse | phone_forward.c:593-632 | empty for a non-number. Otherwise strictly sorted, exactly `num` and all candidates, so it contains every number that phfwdGet sends to `num` |
| PhoneForwarding.PhoneForward.GetReverse | phone_forward.c:643-697 | empty for a non-number. Otherwise strictly sorted, and holds exactly the numbers that phfwdGet sends to `num` |
| AsWritten.AdvanceHead | phone_forward.c:222 | the insertion walk stops at an entry at or after its starting one, inside the list |
| AsWritten.AdvanceHeadSpec | phone_forward.c:222 | the insertion walk of AddPrefix passes exactly the entries after the head that the new origin sorts after |
| AsWritten.AddPrefixListInsert | phone_forward.c:221-233 | the code-as-written insertion always keeps the old head first and lengthens the list by one |
| AsWritten.AddPrefixMissesHead | phone_forward.c:222 | an origin sorting before the head is placed second, leaving the list unsorted |
| AsWritten.AddPrefixRepeats | phone_forward.c:222 | an origin already in the list is inserted again |
| AsWritten.AddPrefixListInsertPastHead | phone_forward.c:221-233 | for a new origin sorting after the head, the as-written insertion agrees with ordered insertion |
| AsWritten.GetPrefixInsert | phone_forward.c:528-573 | the code-as-written merge either links the candidate in, or leaves the list and lowers the announced length |
| AsWritten.WalkTo | phone_forward.c:537-557 | the walk over a list of two or more entries always links the candidate in, even when it lowers the announced length |
| AsWritten.Shown | phone_forward.c:481-490 | phnumGet shows a prefix of the list, cut at the announced length |
| AsWritten.ReverseMergeRepeats | phone_forward.c:537-556 | the duplicate "32" is linked in while the count drops, so phfwdReverse("12") shows "32" twice and loses "5" |
| AsWritten.GetPrefixInsertNew | phone_forward.c:528-573 | for a candidate not yet in the list, the as-written merge agrees with ordered insertion and keeps the announced length |
| AsWritten.AddAsWritten | phone_forward.c:235-246 | the code-as-written phfwdAdd stores the redirect and links the origin into the new destination's list only |
| AsWritten.ReplaceLeavesStaleMirror | phone_forward.c:236 | add("1","2") then add("1","3") leaves "1" in the list of "2", so the tries are no longer mirrored |
| AsWritten.InsertLinked | phone_forward.c:221-245 | with links as written, a new list is a parentless head; otherwise the origins are those of the as-written insertion, and every old node, its recorded parent included, stays as it was. The new node takes a fresh address, so addresses stay unique |
| AsWritten.FindBefore | phone_forward.c:302-303 | finds the node before the given index at the address recorded as parent, or reports that there is none |
| AsWritten.UnlinkLinked | phone_forward.c:299-316 | unlinking as written: a parentless node makes its successor the head; otherwise the result is shorter and drops one contiguous block that ends at the unlinked node |
| AsWritten.UnlinkLinkedAgrees | phone_forward.c:299-316 | while every node records its true predecessor, unlinking as written removes exactly the chosen node and keeps the links true |
| AsWritten.StaleParentMiddleInsert | phone_forward.c:230-231 | inserting "2" between "1" and "3" leaves "3" recording "1" as its parent, so the links are no longer true |
| AsWritten.StaleParentUnlink | phone_forward.c:302-304 | unlinking "3" from that list leaves only "1" |
| AsWritten.StaleParentRepeatedOrigin | phone_forward.c:302-304 | after add("5","9"), add("7","9"), add("5","9"), remove("7") only the first "5" remains: the unlink follows the recorded node, not the nearest node with the same origin |
| AsWritten.StaleParentLosesEntry | phone_forward.c:230-231 | after add("1","9"), add("3","9"), add("2","9") and remove("3") the list of "9" is ["1"], while phfwdGet("2") is still "9" |

## Left out

- Memory management is not modelled: `malloc`/`free`, the out-of-memory return paths, `phnumDelete` and the freeing walk of `phfwdDelete`. The NULL `pnum` branch of `phnumGet` (phone_forward.c:482-483) is left out too, because a NULL result arises only when an allocation in `phfwdGet` fails (phone_forward.c:394-395, 402-403). On those paths the code returns NULL or false, sometimes after a partial update that is not rolled back. A `phfwdAdd` whose prefix-side insert fails leaves its number-side insert in place. The model has no allocation failure.
- Links between nodes are not modelled. The mirror of a redirect is the relation between `fwd` and `rev` (`Mirrored`), not the `next` field of the number-trie entry. Outside `AsWritten`, list links and `parent` back-links are list order in a `seq`, so every entry's predecessor is the one before it, as intended. The stale `parent` that `AddPrefix` leaves behind is modelled only in `AsWritten`, as lists of `Cell`s whose `id` stands for the node's address (see Findings). The corrected model does not carry it into `PrfxDelete`.
- PhoneForwarding.PhoneForward.PrfxDelete: it finds the mirror by its position in the destination's list instead of following the stored mirror link. That position is the same entry, because the list holds no repeats.
- PhoneForwarding.PhoneForward.PrfxDeleteHelp: the recursive walk of the subtree is modelled as a loop over the set of origins under `p`, in arbitrary order. The result does not depend on the order.
- A `NULL` database argument is not modelled; the methods act on an existing object. `isdigit` is taken to accept exactly the ASCII digits, with no locale. The signedness of `char` in comparisons is not modelled, because `Cmp` compares character codes directly.
- The `arr_length` field of a result is not modelled outside `AsWritten`. Results are sequences of their numbers. The uninitialised `arr_length` of `phfwdGet` on an invalid number is modelled as the empty result.
- The second "NULL or empty" test of the reverse queries (phone_forward.c:605-609) is not modelled, because `check_num` has already rejected both cases.
- The tries are keyed by symbol strings, not by child-slot indices. `GetDigitInjective` justifies this.
- `phfwdDelete` and the rest of the public API outside the named functions are not part of this model.

## Findings

| source | as written | input that shows it | evidently intended | confidence | as-written member | corrected member |
|---|---|---|---|---|---|---|
| phone_forward.c:222 | the walk starts at the head and always inserts after it. It moves on only while the new origin sorts strictly after the next entry, so it stops before the first later entry it does not sort strictly after, an equal entry included | list ["5"] and origin "3" give ["5","3"]; list ["5"] and origin "5" give ["5","5"] | ordered insertion into a strictly sorted list, an equal origin not inserted again | high (not executed) | AsWritten.AddPrefixListInsert | Ordering.InsertSorted |
| phone_forward.c:537-556 | on meeting an entry equal to the candidate, `arr_length` is decremented but `flag` stays true, so the candidate is linked in anyway | add("3","1"), add("32","12"), add("5","12"), phfwdReverse("12"): the list becomes ["12","32","32","5"] with length 3, so ["12","32","32"] is shown and "5" is lost | a repeated candidate is neither linked nor counted | high (not executed) | AsWritten.GetPrefixInsert | Ordering.InsertSorted |
| phone_forward.c:236 | a replaced number-trie entry is freed, but its mirror entry stays in the list of its old destination | add("1","2") then add("1","3") leaves "1" in the list of "2" | replacing a redirect also unlinks its old mirror, keeping the tries mirrored | high (not executed) | AsWritten.AddAsWritten | PhoneForwarding.PhoneForward.Add |
| phone_forward.c:230-231 | a node linked in between two entries records its predecessor as `parent`, but the entry after it keeps its own `parent`, which still names that predecessor. `prfxDelete` (phone_forward.c:302-304) later unlinks that entry by making its recorded `parent` skip past it, and so drops the inserted node as well | add("1","9"), add("3","9"), add("2","9"), then remove("3"): the list of "9" becomes ["1"] while "2" is still redirected to "9", so phfwdReverse("9") and phfwdGetReverse("9") miss "2" | linking a node in also makes the next entry record it as `parent`, so unlinking an origin removes exactly that origin | high (not executed) | AsWritten.StaleParentLosesEntry | PhoneForwarding.PhoneForward.PrfxDelete |
