/** rebuild_index: collect the rows, sort them by key and record id, build the
    index bottom-up, and read it back. */
module IndexRebuild {
  import opened BTreeShape
  import opened BTreeDescent
  import opened BTreePreorder
  import opened BTreeCut
  import opened BTreeGrown
  import opened BTreeFar
  import opened BTreeOrder
  import opened BTreeScan
  import opened BPlusTrees
  import opened VectorSort

  predicate RidBefore(a: Rid, b: Rid) {
    if a.page != b.page then a.page < b.page else a.slot < b.slot
  }

  // The comparator handed to sort
  predicate EntryBefore(a: Entry, b: Entry) {
    if a.key != b.key then a.key < b.key else RidBefore(a.rid, b.rid)
  }

  // The rows whose keys fit
  ghost function Fitting(rows: seq<Entry>, space: int): (r: seq<Entry>)
    ensures AllFit(r, space) && |r| <= |rows|
    ensures forall e :: e in r <==> e in rows && 0 <= e.key < space
  {
    if rows == [] then []
    else
      var last := rows[|rows| - 1];
      Fitting(rows[..|rows| - 1], space) + if 0 <= last.key < space then [last] else []
  }

  // Collect the rows whose keys fit
  method Collect(space: int, rows: seq<Entry>) returns (entries: array<Entry>)
    ensures fresh(entries) && entries[..] == Fitting(rows, space)
  {
    var fit: seq<Entry> := [];
    for i := 0 to |rows|
      invariant fit == Fitting(rows[..i], space)
    {
      assert rows[..i + 1][..i] == rows[..i];
      if 0 <= rows[i].key < space { fit := fit + [rows[i]]; }
    }
    assert rows[..|rows|] == rows;
    entries := new Entry[|fit|](i requires 0 <= i < |fit| => fit[i]);
  }

  method CollectSorted(space: int, rows: seq<Entry>) returns (entries: seq<Entry>)
    ensures multiset(entries) == multiset(Fitting(rows, space)) && Ascending(entries)
    ensures |entries| == |Fitting(rows, space)| && (forall e :: e in entries <==> e in Fitting(rows, space))
    ensures AllFit(entries, space) && Sorted(entries) && (Keyed(Fitting(rows, space)) ==> StrictlySorted(entries))
  {
    var a := Collect(space, rows);
    Sort(a, EntryBefore);
    entries := a[..];
    OrderedSorted(entries);
    SameMembers(entries, Fitting(rows, space));
    if Keyed(Fitting(rows, space)) { KeyedSorted(entries, Fitting(rows, space)); }
  }

  // Collect and sort the rows and bulk-load them into a new index, which cannot fail then
  method Rebuild(space: int, rows: seq<Entry>) returns (tree: BPlusTree, ghost h: nat, ghost leaves: seq<PageId>)
    requires space > 0
    ensures fresh(tree) && tree.Numbered() && NULL_PAGE !in tree.pages && tree.root != NULL_PAGE
    ensures Readable(tree.pages, tree.root, h, leaves)
    ensures multiset(Flatten(tree.pages, leaves)) == multiset(Fitting(rows, space))
    ensures Ascending(Flatten(tree.pages, leaves))
    ensures var n := |Fitting(rows, space)|; |leaves| == if n == 0 then 1 else (n + MAX_KEYS - 1) / MAX_KEYS
    ensures Shrunk(1, h, |leaves|) && FullLeaves(tree.pages, leaves)
    ensures Contents(tree.pages) == (set e | e in Fitting(rows, space)) && tree.space == space
    ensures Keyed(Fitting(rows, space)) ==> tree.Valid()
  {
    var entries := CollectSorted(space, rows);
    tree := new BPlusTree(space);
    var ok;
    ok, h, leaves := tree.BulkLoadSorted(entries);
  }

  // Different rows have different keys
  ghost predicate Keyed(es: seq<Entry>) {
    forall i, j :: 0 <= i < j < |es| ==> es[i].key != es[j].key
  }

  lemma SameMembers(xs: seq<Entry>, ys: seq<Entry>)
    requires multiset(xs) == multiset(ys)
    ensures forall e :: e in xs <==> e in ys
  {
    forall e ensures e in xs <==> e in ys { assert e in xs <==> e in multiset(xs); }
  }

  // Twice the same key would mean two rows, or one row twice
  lemma KeyedSorted(xs: seq<Entry>, ys: seq<Entry>)
    requires multiset(xs) == multiset(ys) && Keyed(ys) && Sorted(xs)
    ensures StrictlySorted(xs)
  {
    SameMembers(xs, ys);
    forall i, j | 0 <= i < j < |xs| ensures xs[i].key < xs[j].key {
      assert xs[i] in ys && xs[j] in ys;
      if xs[i] == xs[j] {
        TwiceThere(xs, i, j);
        OnceOnly(ys, xs[i]);
      }
    }
  }

  lemma TwiceThere(xs: seq<Entry>, i: nat, j: nat)
    requires i < j < |xs| && xs[i] == xs[j]
    ensures multiset(xs)[xs[i]] >= 2
  {
    assert xs == xs[..j] + [xs[j]] + xs[j + 1..];
    assert xs[i] in xs[..j];
    assert multiset(xs) == multiset(xs[..j]) + multiset{xs[j]} + multiset(xs[j + 1..]);
  }

  lemma {:induction false} OnceOnly(ys: seq<Entry>, e: Entry)
    requires forall i, j :: 0 <= i < j < |ys| ==> ys[i].key != ys[j].key
    ensures multiset(ys)[e] <= 1
  {
    if ys != [] {
      var t := ys[..|ys| - 1];
      OnceOnly(t, e);
      assert ys == t + [ys[|ys| - 1]];
      assert e == ys[|ys| - 1] ==> e !in t;
    }
  }

  // A rebuilt index over distinct keys takes inserts like any other
  method RebuildThenInsert(space: int, rows: seq<Entry>, pairs: seq<Entry>) returns (tree: BPlusTree, done: nat)
    requires space > 0 && Keyed(Fitting(rows, space)) && Keyed(pairs) && AllFit(pairs, space)
    requires forall e, i :: e in Fitting(rows, space) && 0 <= i < |pairs| ==> e.key != pairs[i].key
    ensures tree.Valid() && done <= |pairs|
    ensures done < |pairs| ==> tree.Misses(pairs[done].key) || tree.nextPage + INSERT_PAGES > PAGE_NUMBERS
    ensures Contents(tree.pages) == (set e | e in Fitting(rows, space)) + (set e | e in pairs[..done])
  {
    ghost var h, leaves;
    tree, h, leaves := Rebuild(space, rows);
    done := tree.InsertAll(pairs);
  }

  // By key, then page, then slot, all ascending
  ghost predicate Ascending(es: seq<Entry>) {
    forall i, j :: 0 <= i < j < |es| ==>
      || es[i].key < es[j].key
      || (es[i].key == es[j].key && es[i].rid.page < es[j].rid.page)
      || (es[i].key == es[j].key && es[i].rid.page == es[j].rid.page && es[i].rid.slot <= es[j].rid.slot)
  }

  lemma OrderedSorted(es: seq<Entry>)
    requires Ordered(es, EntryBefore)
    ensures Sorted(es) && Ascending(es)
  {
    forall i, j | 0 <= i < j < |es| ensures es[i].key <= es[j].key {
      assert !EntryBefore(es[j], es[i]);
    }
    assert forall i, j :: 0 <= i < j < |es| ==> !EntryBefore(es[j], es[i]);
  }

  // Taking out one entry takes out its record id, if it is selected
  lemma MatchingWithout(es: seq<Entry>, k: nat, rest: seq<Entry>, lo: int, hi: int)
    requires k < |es| && rest == es[..k] + es[k + 1..]
    ensures multiset(es) == multiset(rest) + multiset{es[k]}
    ensures multiset(Matching(es, lo, hi)) == multiset(Matching(rest, lo, hi)) + multiset(Selected(es[k], lo, hi))
  {
    var front, back := es[..k], es[k + 1..];
    assert es == front + ([es[k]] + back);
    MatchingAppend(front, [es[k]] + back, lo, hi);
    MatchingAppend([es[k]], back, lo, hi);
    MatchingAppend(front, back, lo, hi);
    assert Matching([es[k]], lo, hi) == Selected(es[k], lo, hi);
  }

  ghost function Selected(e: Entry, lo: int, hi: int): seq<Rid> {
    if lo <= e.key <= hi then [e.rid] else []
  }

  // Selection commutes with rearranging
  lemma {:induction false} MatchingRearranged(xs: seq<Entry>, ys: seq<Entry>, lo: int, hi: int)
    requires multiset(xs) == multiset(ys)
    ensures multiset(Matching(xs, lo, hi)) == multiset(Matching(ys, lo, hi))
    decreases |xs|
  {
    assert |multiset(xs)| == |xs| && |multiset(ys)| == |ys|;
    if xs != [] {
      var k := Located(xs[0], xs, ys);
      var xr, yr := xs[1..], ys[..k] + ys[k + 1..];
      assert xs[..0] + xs[1..] == xr;
      MatchingWithout(xs, 0, xr, lo, hi);
      MatchingWithout(ys, k, yr, lo, hi);
      SameRest(multiset(xr), multiset(yr), multiset{xs[0]});
      MatchingRearranged(xr, yr, lo, hi);
    }
  }

  lemma Located(e: Entry, xs: seq<Entry>, ys: seq<Entry>) returns (k: nat)
    requires e in xs && multiset(xs) == multiset(ys)
    ensures k < |ys| && ys[k] == e
  {
    assert e in multiset(xs) && e in multiset(ys);
    k :| 0 <= k < |ys| && ys[k] == e;
  }

  lemma SameRest(a: multiset<Entry>, b: multiset<Entry>, c: multiset<Entry>)
    requires a + c == b + c
    ensures a == b
  {
    assert a == (a + c) - c && b == (b + c) - c;
  }

  lemma {:induction false} MatchingMembers(es: seq<Entry>, key: int, r: Rid)
    ensures r in Matching(es, key, key) <==> Entry(key, r) in es
  {
    if es != [] {
      MatchingMembers(es[1..], key, r);
      assert es == [es[0]] + es[1..];
    }
  }

  // What follows an entry under the same key has no smaller record id
  lemma HeadFirst(es: seq<Entry>, key: int, r: Rid)
    requires es != [] && Ascending(es) && es[0].key == key && r in Matching(es[1..], key, key)
    ensures es[0].rid.page < r.page || (es[0].rid.page == r.page && es[0].rid.slot <= r.slot)
  {
    MatchingMembers(es[1..], key, r);
    var k :| 0 <= k < |es[1..]| && es[1..][k] == Entry(key, r);
    assert es[k + 1] == Entry(key, r);
  }

  ghost predicate NotAfter(a: Rid, b: Rid) {
    a.page < b.page || (a.page == b.page && a.slot <= b.slot)
  }

  ghost predicate RidsAscend(rs: seq<Rid>) {
    forall i, j :: 0 <= i < j < |rs| ==> NotAfter(rs[i], rs[j])
  }

  lemma AscendCons(r: Rid, rs: seq<Rid>)
    requires RidsAscend(rs) && forall j :: 0 <= j < |rs| ==> NotAfter(r, rs[j])
    ensures RidsAscend([r] + rs)
  {
  }

  lemma FrontAscends(found: seq<Rid>, rs: seq<Rid>)
    requires RidsAscend(rs) && found <= rs
    ensures forall i, j :: 0 <= i < j < |found| ==>
              found[i].page < found[j].page || (found[i].page == found[j].page && found[i].slot <= found[j].slot)
  {
    forall i, j | 0 <= i < j < |found| ensures NotAfter(found[i], found[j]) {
      assert found[i] == rs[i] && found[j] == rs[j];
    }
  }

  lemma TailAscending(es: seq<Entry>)
    requires es != [] && Ascending(es)
    ensures Ascending(es[1..])
  {
  }

  // Under one key the record ids ascend by page and slot
  lemma {:induction false} MatchingOrdered(es: seq<Entry>, key: int)
    requires Ascending(es)
    ensures RidsAscend(Matching(es, key, key))
  {
    if es != [] {
      var rest := Matching(es[1..], key, key);
      TailAscending(es);
      MatchingOrdered(es[1..], key);
      if es[0].key == key {
        forall j | 0 <= j < |rest| ensures NotAfter(es[0].rid, rest[j]) { HeadFirst(es, key, rest[j]); }
        AscendCons(es[0].rid, rest);
      } else {
        assert Matching(es, key, key) == rest;
      }
    }
  }

  // Vector sizes have 32 bits, so no rebuilt index is deeper than a descent can go
  lemma DepthWithin(h: nat, n: nat)
    requires n < 0x1_0000_0000 && Shrunk(1, h, n)
    ensures h <= MAX_HOPS
  {
    assert Pow2(32) == 0x1_0000_0000 by {
      assert Pow2(8) == 256 && Pow2(16) == 256 * Pow2(8);
      assert Pow2(24) == 256 * Pow2(16) && Pow2(32) == 256 * Pow2(24);
    }
    ShrunkDepth(1, h, n);
    if h > 32 { Pow2Monotone(32, h - 1); }
  }

  lemma {:induction false} AllMatch(es: seq<Entry>, lo: int, hi: int)
    requires forall i :: 0 <= i < |es| ==> lo <= es[i].key <= hi
    ensures |Matching(es, lo, hi)| == |es|
  {
    if es != [] { AllMatch(es[1..], lo, hi); }
  }

  // What a scan over the first n leaves misses comes after all it finds
  lemma MatchingFront(pages: Pages, leaves: seq<PageId>, n: nat, lo: int, hi: int)
    requires n <= |leaves|
    ensures Matching(Flatten(pages, leaves), lo, hi) ==
            Matching(Flatten(pages, leaves[..n]), lo, hi) + Matching(Flatten(pages, leaves[n..]), lo, hi)
  {
    FlattenSplit(pages, leaves, n);
    MatchingAppend(Flatten(pages, leaves[..n]), Flatten(pages, leaves[n..]), lo, hi);
  }

  // Full leaves from a to n list MAX_KEYS entries each
  lemma {:induction false} FullMiddle(pages: Pages, leaves: seq<PageId>, a: nat, n: nat)
    requires FullLeaves(pages, leaves) && a <= n < |leaves|
    ensures |Flatten(pages, leaves[a..n])| == MAX_KEYS * (n - a)
    decreases n - a
  {
    if a < n {
      FullMiddle(pages, leaves, a + 1, n);
      assert leaves[a..n] == [leaves[a]] + leaves[a + 1..n];
    }
  }

  // In between lie only matches, if something matches later on
  lemma MiddleMatches(pages: Pages, leaves: seq<PageId>, j: nat, n: nat, lo: int, hi: int)
    requires IsChain(pages, leaves) && Sorted(Flatten(pages, leaves)) && 0 < j < n < |leaves|
    requires BeginsAt(pages, leaves, j, lo) && Matching(Flatten(pages, leaves[n..]), lo, hi) != []
    ensures var es := Flatten(pages, leaves[j..n]); forall i :: 0 <= i < |es| ==> lo <= es[i].key <= hi
  {
    var front, es, back := Flatten(pages, leaves[..j]), Flatten(pages, leaves[j..n]), Flatten(pages, leaves[n..]);
    assert leaves[..n] == leaves[..j] + leaves[j..n];
    FlattenAppend(pages, leaves[..j], leaves[j..n]);
    FlattenSplit(pages, leaves, n);
    assert Flatten(pages, leaves) == front + es + back;
    FlattenAt(pages, leaves, j);
    var m := SomeMatch(back, lo, hi);
    assert leaves[j..n] == [leaves[j]] + leaves[j + 1..n];
    forall i | 0 <= i < |es| ensures lo <= es[i].key <= hi {
      BetweenKeys(front, es, back, i, m);
    }
  }

  lemma BetweenKeys(front: seq<Entry>, es: seq<Entry>, back: seq<Entry>, i: nat, m: nat)
    requires Sorted(front + es + back) && i < |es| && m < |back|
    ensures es[0].key <= es[i].key <= back[m].key
  {
    var all := front + es + back;
    assert all[|front|] == es[0] && all[|front| + i] == es[i] && all[|front| + |es| + m] == back[m];
  }

  lemma {:induction false} SomeMatch(es: seq<Entry>, lo: int, hi: int) returns (m: nat)
    requires Matching(es, lo, hi) != []
    ensures m < |es| && lo <= es[m].key <= hi
  {
    if lo <= es[0].key <= hi {
      m := 0;
    } else {
      m := SomeMatch(es[1..], lo, hi);
      m := m + 1;
    }
  }

  // A scan that misses something has found the contents of all leaves but its first
  lemma MissesLate(pages: Pages, root: PageId, h: nat, leaves: seq<PageId>, start: nat, n: nat, lo: int, hi: int)
    requires Readable(pages, root, h, leaves) && FullLeaves(pages, leaves) && LandsAt(pages, root, h, leaves, lo, start)
    requires start + 1 < n < |leaves| && Matching(Flatten(pages, leaves[n..]), lo, hi) != []
    ensures |Matching(Flatten(pages, leaves[..n]), lo, hi)| >= MAX_KEYS * (n - start - 1)
  {
    var es := Flatten(pages, leaves[start + 1..n]);
    MiddleMatches(pages, leaves, start + 1, n, lo, hi);
    FullMiddle(pages, leaves, start + 1, n);
    AllMatch(es, lo, hi);
    assert leaves[..n] == leaves[..start + 1] + leaves[start + 1..n];
    FlattenAppend(pages, leaves[..start + 1], leaves[start + 1..n]);
    MatchingAppend(Flatten(pages, leaves[..start + 1]), es, lo, hi);
  }

  // What a scan of a rebuilt index yields: the matches from the first on, and all of them if they are not very many
  ghost predicate FoundOf(found: seq<Rid>, all: seq<Rid>) {
    && found <= all
    && (|all| <= MAX_KEYS * (MAX_HOPS - 1) ==> found == all)
    && (found != all ==> |found| >= MAX_KEYS * (MAX_HOPS - 1))
  }

  lemma ScanFinds(pages: Pages, root: PageId, h: nat, leaves: seq<PageId>, start: nat, lo: int, hi: int,
                  found: seq<Rid>)
    requires Readable(pages, root, h, leaves) && FullLeaves(pages, leaves) && LandsAt(pages, root, h, leaves, lo, start)
    requires found == Matching(Flatten(pages, leaves[..BPlusTree.Reach(leaves, start)]), lo, hi)
    ensures FoundOf(found, Matching(Flatten(pages, leaves), lo, hi))
  {
    var n := BPlusTree.Reach(leaves, start);
    MatchingFront(pages, leaves, n, lo, hi);
    var late := Matching(Flatten(pages, leaves[n..]), lo, hi);
    assert n == |leaves| ==> leaves[n..] == [];
    if late != [] {
      MissesLate(pages, root, h, leaves, start, n, lo, hi);
    }
  }

  // After a rebuild a point read yields the record ids stored under the key, as often as they were given, in record-id
  // order: all of them unless more than 57 * 999,999 rows have that key, and then at least that many
  method RebuildThenSearch(space: int, rows: seq<Entry>, key: int) returns (found: seq<Rid>, ghost ordered: seq<Entry>)
    requires space > 0 && |rows| < 0x1_0000_0000
    ensures Ascending(ordered) && multiset(ordered) == multiset(Fitting(rows, space))
    ensures FoundOf(found, Matching(ordered, key, key))
    ensures |rows| <= MAX_KEYS * MAX_HOPS ==> found == Matching(ordered, key, key)
    ensures forall i, j :: 0 <= i < j < |found| ==>
              found[i].page < found[j].page || (found[i].page == found[j].page && found[i].slot <= found[j].slot)
    ensures multiset(Matching(ordered, key, key)) == multiset(Matching(Fitting(rows, space), key, key))
  {
    var tree, h, leaves := Rebuild(space, rows);
    DepthWithin(h, |leaves|);
    ordered := Flatten(tree.pages, leaves);
    ghost var start;
    found, start := tree.Search(key, h, leaves);
    ScanFinds(tree.pages, tree.root, h, leaves, start, key, key, found);
    MatchingRearranged(ordered, Fitting(rows, space), key, key);
    MatchingOrdered(ordered, key);
    FrontAscends(found, Matching(ordered, key, key));
  }

  // And a range read the record ids under keys of the range, ordered by key and record id
  method RebuildThenRangeSearch(space: int, rows: seq<Entry>, low: int, high: int)
    returns (found: seq<Rid>, ghost ordered: seq<Entry>)
    requires space > 0 && |rows| < 0x1_0000_0000
    ensures Ascending(ordered) && multiset(ordered) == multiset(Fitting(rows, space))
    ensures FoundOf(found, Matching(ordered, low, high))
    ensures |rows| <= MAX_KEYS * MAX_HOPS ==> found == Matching(ordered, low, high)
    ensures multiset(Matching(ordered, low, high)) == multiset(Matching(Fitting(rows, space), low, high))
  {
    var tree, h, leaves := Rebuild(space, rows);
    DepthWithin(h, |leaves|);
    ordered := Flatten(tree.pages, leaves);
    ghost var start;
    found, start := tree.RangeSearch(low, high, h, leaves);
    ScanFinds(tree.pages, tree.root, h, leaves, start, low, high, found);
    MatchingRearranged(ordered, Fitting(rows, space), low, high);
  }

  // ---------------------------------------------------------------------------
  // An insert that cuts the index off
  // ---------------------------------------------------------------------------

  // Enough rows for a leaf that a million and 58 * 58 leaves come before, and some more behind it
  const FAR: nat := MAX_HOPS + 3400
  const ROWS: nat := MAX_KEYS * (FAR + 100)

  // Rows with even keys
  ghost predicate EvenRows(es: seq<Entry>) {
    forall i :: 0 <= i < |es| ==> es[i].key == 2 * i
  }

  lemma EvenSorted(es: seq<Entry>)
    requires EvenRows(es)
    ensures StrictlySorted(es) && Sorted(es) && forall e :: e in es ==> 0 <= e.key < 2 * |es| && e.key % 2 == 0
  {
    forall i, j | 0 <= i < j < |es| ensures es[i].key < es[j].key {
      assert es[i].key == 2 * i && es[j].key == 2 * j;
    }
  }

  // Full leaves list MAX_KEYS entries each
  lemma {:induction false} FullFront(pages: Pages, leaves: seq<PageId>, n: nat)
    requires IsChain(pages, leaves) && n <= |leaves|
    requires forall i :: 0 <= i < n ==> leaves[i] in pages && pages[leaves[i]].Leaf? && IsFull(pages[leaves[i]])
    ensures |Flatten(pages, leaves[..n])| == MAX_KEYS * n
  {
    if n > 0 {
      FullFront(pages, leaves, n - 1);
      FlattenAt(pages, leaves, n - 1);
    }
  }

  // The range of leaf i in a packed index over even rows
  lemma EvenLeaf(pages: Pages, spans: Spans, root: PageId, space: int, leaves: seq<PageId>, es: seq<Entry>, i: nat)
    requires SearchTree(pages, spans, root, space) && Packed(pages, spans, space) && IsChain(pages, leaves)
    requires Flatten(pages, leaves) == es && EvenRows(es) && i + 1 < |leaves|
    ensures leaves[i] in pages && pages[leaves[i]].Leaf? && leaves[i] in spans && |pages[leaves[i]].entries| == MAX_KEYS
    ensures pages[leaves[i]].entries[0].key == 2 * (MAX_KEYS * i) && spans[leaves[i]].lo <= 2 * (MAX_KEYS * i)
    ensures spans[leaves[i]].hi > 2 * (MAX_KEYS * i) + 1
  {
    forall j | 0 <= j < i + 1 ensures leaves[j] in pages && pages[leaves[j]].Leaf? && IsFull(pages[leaves[j]]) {
      assert ChainLink(pages, leaves, j);
      ChainStep(pages, spans, root, space, leaves, j);
    }
    FullFront(pages, leaves, i);
    FlattenAt(pages, leaves, i);
    var leaf := pages[leaves[i]];
    assert NodeOk(leaves[i], pages, spans, spans, space, NULL_PAGE);
    assert es[MAX_KEYS * i] == leaf.entries[0] && es[MAX_KEYS * i + 1] == leaf.entries[1];
  }

  // An index over that many even keys, loaded in one go
  method FarIndex() returns (tree: BPlusTree, ghost leaves: seq<PageId>, ghost es: seq<Entry>)
    ensures fresh(tree) && tree.Valid() && tree.root != NULL_PAGE && tree.space == 2 * ROWS
    ensures Packed(tree.pages, tree.spans, tree.space) && IsChain(tree.pages, leaves) && |leaves| == FAR + 100
    ensures |es| == ROWS && EvenRows(es) && Flatten(tree.pages, leaves) == es
    ensures Contents(tree.pages) == (set e | e in es)
    ensures tree.nextPage + INSERT_PAGES <= PAGE_NUMBERS
  {
    var entries := seq(ROWS, (i: nat) => Entry(2 * i, Rid(0, i)));
    es := entries;
    EvenSorted(es);
    tree := new BPlusTree(2 * ROWS);
    var ok;
    ghost var h;
    ok, h, leaves := tree.BulkLoadSorted(entries);
  }

  lemma FarKeyMisses(tree: BPlusTree, leaves: seq<PageId>, es: seq<Entry>, key: int) returns (range: Span)
    requires tree.Valid() && tree.root != NULL_PAGE && tree.space == 2 * ROWS && key == 2 * (MAX_KEYS * FAR) + 1
    requires Packed(tree.pages, tree.spans, tree.space) && IsChain(tree.pages, leaves) && |leaves| == FAR + 100
    requires EvenRows(es) && Flatten(tree.pages, leaves) == es
    ensures tree.Misses(key) && tree.ParentOf(key) in tree.spans && range == tree.spans[tree.ParentOf(key)]
    ensures range.lo > 0
  {
    var pages, spans, root, space := tree.pages, tree.spans, tree.root, tree.space;
    EvenLeaf(pages, spans, root, space, leaves, es, FAR);
    var leaf := leaves[FAR];
    ChainStep(pages, spans, root, space, leaves, FAR);
    var parent := ParentAbove(pages, spans, root, space, leaf, key);
    FarMisses(pages, spans, root, space, leaves, FAR, parent);
    tree.LeafAndParent(key, leaf, parent);
    NotRoot(pages, spans, root, space, NULL_PAGE, parent, leaf);
    range := spans[parent];
  }

  // A leaf that is not the root has a parent, and the descent finds both
  lemma ParentAbove(pages: Pages, spans: Spans, root: PageId, space: int, leaf: PageId, key: int)
    returns (parent: PageId)
    requires SearchTree(pages, spans, root, space) && leaf in pages && pages[leaf].Leaf? && Covers(spans[leaf], key)
    requires spans[leaf].hi < space
    ensures HasKid(pages, parent, leaf) && Descend(pages, root, NULL_PAGE, key, spans[root].height) == (leaf, parent)
  {
    var k := ParentListed(pages, spans, root, space, NULL_PAGE, leaf);
    parent := Visits(pages, spans, root)[k];
    assert RangeOk(spans[leaf], spans[root], space);
    DescendReaches(pages, spans, root, space, NULL_PAGE, root, NULL_PAGE, key, leaf, parent);
  }

  // One insert into the leaf FAR: leaf and parent are full, the page above the parent is not found, and the two
  // halves of the parent become the whole index
  method IndexIsCutOff() returns (tree: BPlusTree, ghost range: Span, ghost held: set<Entry>)
    ensures !tree.Valid() && CutOff(tree.pages, tree.spans, tree.root, tree.space, range)
    // the entry with key 0 is in some leaf, and no leaf reached from the root holds it
    ensures range.lo > 0 && held <= Contents(tree.pages) && exists e :: e in held && e.key == 0
  {
    ghost var leaves, es;
    tree, leaves, es := FarIndex();
    held := Contents(tree.pages);
    var key := 2 * (MAX_KEYS * FAR) + 1;
    EvenSorted(es);
    range := FarKeyMisses(tree, leaves, es, key);
    assert es[0] in held && es[0].key == 0;
    var ok := tree.Insert(key, Rid(1, 0));
  }
}
