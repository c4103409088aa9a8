/** A bulk-loaded index with distinct keys is a tree that inserts can go on with: key ranges for the pages of every
    level, built up as the levels are. */
module BTreeGrown {
  import opened BTreeShape
  import opened BTreeOrder
  import opened BTreeScan
  import opened BTreeBulk

  // Where the range of the i-th page of a level begins, and the one before it ends; `end` is where the level ends
  ghost function LowEnd(level: seq<LevelEntry>, end: int, i: nat): int {
    if i == 0 then 0 else if i < |level| then level[i].first else end
  }

  ghost predicate EntrySpan(spans: Spans, level: seq<LevelEntry>, h: nat, end: int, i: nat)
    requires i < |level|
  {
    level[i].page in spans && spans[level[i].page] == Span(h, LowEnd(level, end, i), LowEnd(level, end, i + 1))
  }

  ghost predicate LevelSpans(spans: Spans, level: seq<LevelEntry>, h: nat, end: int) {
    forall i {:trigger EntrySpan(spans, level, h, end, i)} :: 0 <= i < |level| ==> EntrySpan(spans, level, h, end, i)
  }

  // Every page but the last of its level is full
  ghost predicate Packed(pages: Pages, spans: Spans, space: int) {
    forall p {:trigger pages[p]} :: p in pages && p in spans && spans[p].hi < space ==> IsFull(pages[p])
  }

  ghost predicate IsFull(n: Node) {
    match n
    case Leaf(entries, _) => |entries| == MAX_KEYS
    case Internal(keys, _) => |keys| == MAX_KEYS
  }

  // Every leaf but the last is full
  ghost predicate FullLeaves(pages: Pages, leaves: seq<PageId>) {
    forall i :: 0 <= i < |leaves| - 1 ==> leaves[i] in pages && pages[leaves[i]].Leaf? && IsFull(pages[leaves[i]])
  }

  // Leaves filled one after the other
  ghost predicate LeavesFilled(pages: Pages, level: seq<LevelEntry>, leaves: seq<PageId>) {
    && LeafLevel(pages, level, leaves) && FullLeaves(pages, leaves)
    && forall i :: 0 <= i < |leaves| ==> |pages[leaves[i]].entries| <= MAX_KEYS
  }

  lemma ChainedFills(pages: Pages, level: seq<LevelEntry>, leaves: seq<PageId>, id: PageId, chunk: seq<Entry>)
    requires IsChain(pages, leaves) && LeavesFilled(pages, level, leaves) && id !in leaves && 0 < |chunk| <= MAX_KEYS
    requires leaves != [] ==> IsFull(pages[leaves[|leaves| - 1]])
    ensures LeavesFilled(Chained(pages, leaves, id, chunk), level + [LevelEntry(id, chunk[0].key)], leaves + [id])
  {
    var pages', leaves' := Chained(pages, leaves, id, chunk), leaves + [id];
    forall i | 0 <= i < |leaves'|
      ensures leaves'[i] in pages' && pages'[leaves'[i]].Leaf?
      ensures pages'[leaves'[i]].entries == if i < |leaves| then pages[leaves[i]].entries else chunk
    {
      if i < |leaves| { assert leaves'[i] in leaves; }
    }
  }

  // All pages up to height h are in order
  ghost predicate Grown(pages: Pages, spans: Spans, h: nat, space: int) {
    && spans.Keys == pages.Keys && NULL_PAGE !in pages
    && (forall p {:trigger RangeOk(spans[p], Span(h, 0, space), space)} :: p in spans ==>
          RangeOk(spans[p], Span(h, 0, space), space))
    && AllDisjoint(spans) && Packed(pages, spans, space)
    && (forall p {:trigger NodeOk(p, pages, spans, spans, space, NULL_PAGE)} :: p in pages ==>
          NodeOk(p, pages, spans, spans, space, NULL_PAGE))
  }

  // The pages of height h end before `end`
  ghost predicate EndsBefore(spans: Spans, h: nat, end: int) {
    forall p {:trigger spans[p]} :: p in spans && spans[p].height == h ==> spans[p].hi <= end
  }

  // A level is finished up to entry i of the level below
  ghost predicate Growing(pages: Pages, spans: Spans, level: seq<LevelEntry>, next: seq<LevelEntry>, h: nat, space: int,
                          i: nat) {
    && Grown(pages, spans, h + 1, space) && LevelSpans(spans, level, h, space)
    && LevelSpans(spans, next, h + 1, LowEnd(level, space, i)) && EndsBefore(spans, h + 1, LowEnd(level, space, i))
    && (i == 0 ==> next == [])
  }

  lemma {:induction false} LowEndsRise(pages: Pages, spans: Spans, level: seq<LevelEntry>, h: nat, k: nat, space: int,
                                       i: nat, j: nat)
    requires Grown(pages, spans, k, space) && LevelSpans(spans, level, h, space) && i < j <= |level|
    ensures LowEnd(level, space, i) < LowEnd(level, space, j)
    decreases j - i
  {
    assert EntrySpan(spans, level, h, space, i);
    assert RangeOk(spans[level[i].page], Span(k, 0, space), space);
    if i + 1 < j { LowEndsRise(pages, spans, level, h, k, space, i + 1, j); }
  }

  // ---------------------------------------------------------------------------
  // The leaves
  // ---------------------------------------------------------------------------

  // The ranges of the first n pages of a level
  ghost function SpansOf(level: seq<LevelEntry>, h: nat, end: int, n: nat): Spans
    requires n <= |level|
  {
    if n == 0 then map[]
    else SpansOf(level, h, end, n - 1)[level[n - 1].page := Span(h, LowEnd(level, end, n - 1), LowEnd(level, end, n))]
  }

  ghost predicate DistinctPages(level: seq<LevelEntry>) {
    forall i, j :: 0 <= i < j < |level| ==> level[i].page != level[j].page
  }

  lemma {:induction false} SpansOfAre(level: seq<LevelEntry>, h: nat, end: int, n: nat)
    requires n <= |level| && DistinctPages(level)
    ensures forall i {:trigger EntrySpan(SpansOf(level, h, end, n), level, h, end, i)} :: 0 <= i < n ==>
              EntrySpan(SpansOf(level, h, end, n), level, h, end, i)
    ensures forall p :: p in SpansOf(level, h, end, n) <==> exists i :: 0 <= i < n && level[i].page == p
  {
    if n > 0 {
      SpansOfAre(level, h, end, n - 1);
      var before, after := SpansOf(level, h, end, n - 1), SpansOf(level, h, end, n);
      forall i | 0 <= i < n ensures EntrySpan(after, level, h, end, i) {
        if i < n - 1 { assert EntrySpan(before, level, h, end, i); }
      }
    }
  }

  // Leaves that hold at most MAX_KEYS entries each, all in all sorted entries with distinct keys
  ghost predicate LeavesFit(pages: Pages, level: seq<LevelEntry>, leaves: seq<PageId>, space: int) {
    && IsChain(pages, leaves) && LeafLevel(pages, level, leaves) && StrictlySorted(Flatten(pages, leaves))
    && (forall e :: e in Flatten(pages, leaves) ==> 0 <= e.key < space)
    && (forall i :: 0 <= i < |leaves| ==> |pages[leaves[i]].entries| <= MAX_KEYS)
    && (forall i :: 0 <= i < |leaves| - 1 ==> IsFull(pages[leaves[i]]))
    && (forall p :: p in pages <==> p in leaves)
  }

  // Where an entry of leaf i stands in the listing
  lemma PlaceOf(pages: Pages, leaves: seq<PageId>, i: nat, a: nat) returns (x: nat)
    requires IsChain(pages, leaves) && AllLeaves(pages, leaves) && i < |leaves| && a < |pages[leaves[i]].entries|
    ensures x == |Flatten(pages, leaves[..i])| + a < |Flatten(pages, leaves)|
    ensures Flatten(pages, leaves)[x] == pages[leaves[i]].entries[a]
  {
    FlattenAt(pages, leaves, i);
    x := |Flatten(pages, leaves[..i])| + a;
  }

  lemma PlacesRise(pages: Pages, leaves: seq<PageId>, i: nat, j: nat)
    requires IsChain(pages, leaves) && AllLeaves(pages, leaves) && i < j < |leaves|
    ensures |Flatten(pages, leaves[..i])| + |pages[leaves[i]].entries| <= |Flatten(pages, leaves[..j])|
  {
    FlattenAt(pages, leaves, i);
    assert leaves[..j] == leaves[..i + 1] + leaves[i + 1..j];
    FlattenAppend(pages, leaves[..i + 1], leaves[i + 1..j]);
  }

  // Entries of earlier leaves come first
  lemma LeafBefore(pages: Pages, leaves: seq<PageId>, i: nat, a: nat, j: nat, b: nat)
    requires IsChain(pages, leaves) && AllLeaves(pages, leaves) && StrictlySorted(Flatten(pages, leaves))
    requires i < j < |leaves| && a < |pages[leaves[i]].entries| && b < |pages[leaves[j]].entries|
    ensures pages[leaves[i]].entries[a].key < pages[leaves[j]].entries[b].key
  {
    var x := PlaceOf(pages, leaves, i, a);
    var y := PlaceOf(pages, leaves, j, b);
    PlacesRise(pages, leaves, i, j);
  }

  lemma LeafEntries(pages: Pages, leaves: seq<PageId>, i: nat, space: int)
    requires IsChain(pages, leaves) && AllLeaves(pages, leaves) && StrictlySorted(Flatten(pages, leaves))
    requires i < |leaves|
    requires forall e :: e in Flatten(pages, leaves) ==> 0 <= e.key < space
    ensures StrictlySorted(pages[leaves[i]].entries)
    ensures forall a :: 0 <= a < |pages[leaves[i]].entries| ==> 0 <= pages[leaves[i]].entries[a].key < space
  {
    FlattenAt(pages, leaves, i);
    var all, es, n := Flatten(pages, leaves), pages[leaves[i]].entries, |Flatten(pages, leaves[..i])|;
    assert forall a :: 0 <= a < |es| ==> all[n + a] == es[a];
    forall a | 0 <= a < |es| ensures 0 <= es[a].key < space { assert all[n + a] in all; }
    forall a, b | 0 <= a < b < |es| ensures es[a].key < es[b].key { assert all[n + a].key < all[n + b].key; }
  }

  lemma LeafInRange(pages: Pages, level: seq<LevelEntry>, leaves: seq<PageId>, space: int, i: nat)
    requires LeavesFit(pages, level, leaves, space) && i < |leaves|
    ensures 0 <= LowEnd(level, space, i) < LowEnd(level, space, i + 1) <= space
    ensures StrictlySorted(pages[leaves[i]].entries)
    ensures forall a :: 0 <= a < |pages[leaves[i]].entries| ==>
              LowEnd(level, space, i) <= pages[leaves[i]].entries[a].key < LowEnd(level, space, i + 1)
  {
    LeafEntries(pages, leaves, i, space);
    var es := pages[leaves[i]].entries;
    if i + 1 < |leaves| {
      LeafEntries(pages, leaves, i + 1, space);
      forall a | 0 <= a < |es| ensures es[a].key < level[i + 1].first { LeafBefore(pages, leaves, i, a, i + 1, 0); }
    }
    assert es[0].key <= es[0].key;
  }

  lemma LeafEndsRise(pages: Pages, level: seq<LevelEntry>, leaves: seq<PageId>, space: int, i: nat, j: nat)
    requires LeavesFit(pages, level, leaves, space) && i <= j <= |leaves|
    ensures LowEnd(level, space, i) <= LowEnd(level, space, j)
    decreases j - i
  {
    if i < j {
      LeafInRange(pages, level, leaves, space, i);
      LeafEndsRise(pages, level, leaves, space, i + 1, j);
    }
  }

  lemma LeafNodeOk(pages: Pages, spans: Spans, level: seq<LevelEntry>, leaves: seq<PageId>, space: int, i: nat)
    requires LeavesFit(pages, level, leaves, space) && LevelSpans(spans, level, 0, space) && i < |leaves|
    ensures leaves[i] in spans && NodeOk(leaves[i], pages, spans, spans, space, NULL_PAGE)
    ensures RangeOk(spans[leaves[i]], Span(0, 0, space), space)
    ensures spans[leaves[i]].hi < space ==> IsFull(pages[leaves[i]])
  {
    assert EntrySpan(spans, level, 0, space, i) && ChainLink(pages, leaves, i);
    LeafInRange(pages, level, leaves, space, i);
    if i + 1 < |leaves| {
      assert EntrySpan(spans, level, 0, space, i + 1);
      LeafInRange(pages, level, leaves, space, i + 1);
    }
  }

  lemma LeafPages(pages: Pages, level: seq<LevelEntry>, leaves: seq<PageId>, space: int) returns (spans: Spans)
    requires LeavesFit(pages, level, leaves, space)
    ensures LevelSpans(spans, level, 0, space) && spans.Keys == pages.Keys
  {
    forall i, j | 0 <= i < j < |level| ensures level[i].page != level[j].page {
      assert ChainLink(pages, leaves, j);
      assert leaves[i] == leaves[..j][i];
    }
    SpansOfAre(level, 0, space, |level|);
    spans := SpansOf(level, 0, space, |level|);
    forall p ensures p in spans <==> p in leaves {
      if p in leaves {
        var i :| 0 <= i < |leaves| && leaves[i] == p;
        assert level[i].page == p;
      }
    }
  }

  // The leaf level stands
  lemma LeavesGrown(pages: Pages, level: seq<LevelEntry>, leaves: seq<PageId>, space: int) returns (spans: Spans)
    requires LeavesFit(pages, level, leaves, space) && NULL_PAGE !in pages
    ensures Grown(pages, spans, 0, space) && LevelSpans(spans, level, 0, space)
  {
    spans := LeafPages(pages, level, leaves, space);
    forall p | p in pages
      ensures NodeOk(p, pages, spans, spans, space, NULL_PAGE) && RangeOk(spans[p], Span(0, 0, space), space)
      ensures spans[p].hi < space ==> IsFull(pages[p])
    {
      var i :| 0 <= i < |leaves| && leaves[i] == p;
      LeafNodeOk(pages, spans, level, leaves, space, i);
    }
    forall p, q | p in spans && q in spans && p != q ensures Disjoint(spans[p], spans[q]) {
      var i :| 0 <= i < |leaves| && leaves[i] == p;
      var j :| 0 <= j < |leaves| && leaves[j] == q;
      LeavesApart(pages, spans, level, leaves, space, i, j);
    }
  }

  lemma LeavesApart(pages: Pages, spans: Spans, level: seq<LevelEntry>, leaves: seq<PageId>, space: int, i: nat, j: nat)
    requires LeavesFit(pages, level, leaves, space) && LevelSpans(spans, level, 0, space) && i < |leaves|
    requires j < |leaves| && i != j
    ensures leaves[i] in spans && leaves[j] in spans && Disjoint(spans[leaves[i]], spans[leaves[j]])
  {
    assert EntrySpan(spans, level, 0, space, i) && EntrySpan(spans, level, 0, space, j);
    if i < j {
      LeafEndsRise(pages, level, leaves, space, i + 1, j);
    } else {
      LeafEndsRise(pages, level, leaves, space, j + 1, i);
    }
  }

  // ---------------------------------------------------------------------------
  // One level more
  // ---------------------------------------------------------------------------

  lemma LevelStarts(pages: Pages, spans: Spans, level: seq<LevelEntry>, h: nat, space: int)
    requires Grown(pages, spans, h, space) && LevelSpans(spans, level, h, space)
    ensures Growing(pages, spans, level, [], h, space, 0)
  {
    forall p | p in spans ensures RangeOk(spans[p], Span(h + 1, 0, space), space) && spans[p].height <= h {
      assert RangeOk(spans[p], Span(h, 0, space), space);
    }
  }

  // The range of the page over entries i to j of a level
  ghost function GroupSpan(level: seq<LevelEntry>, h: nat, space: int, i: nat, j: nat): Span {
    Span(h + 1, LowEnd(level, space, i), LowEnd(level, space, j))
  }

  lemma GroupInternalOk(pages: Pages, spans: Spans, level: seq<LevelEntry>, h: nat, space: int, i: nat, count: nat)
    requires Grown(pages, spans, h + 1, space) && LevelSpans(spans, level, h, space)
    requires 0 < count <= MAX_KEYS + 1 && i + count <= |level|
    ensures InternalOk(GroupNode(level[i..i + count]), GroupSpan(level, h, space, i, i + count), spans, MAX_KEYS)
  {
    var n, s := GroupNode(level[i..i + count]), GroupSpan(level, h, space, i, i + count);
    forall a, b | 0 <= a < b < |n.keys| ensures n.keys[a] < n.keys[b] {
      LowEndsRise(pages, spans, level, h, h + 1, space, i + a + 1, i + b + 1);
    }
    forall a | 0 <= a < |n.keys| ensures s.lo < n.keys[a] < s.hi {
      LowEndsRise(pages, spans, level, h, h + 1, space, i, i + a + 1);
      LowEndsRise(pages, spans, level, h, h + 1, space, i + a + 1, i + count);
    }
    forall k | 0 <= k < |n.kids| ensures KidOk(n, s, spans, k) {
      assert EntrySpan(spans, level, h, space, i + k);
    }
  }

  // A page nobody knows yet does not disturb the others
  lemma NodeFrame(pages: Pages, spans: Spans, space: int, p: PageId, node: PageId, n: Node, s: Span)
    requires spans.Keys == pages.Keys && p in pages && node !in pages
    requires NodeOk(p, pages, spans, spans, space, NULL_PAGE)
    ensures NodeOk(p, pages[node := n], spans[node := s], spans[node := s], space, NULL_PAGE)
  {
    var spans' := spans[node := s];
    if pages[p].Internal? {
      forall k | 0 <= k < |pages[p].kids| ensures KidOk(pages[p], spans[p], spans', k) {
        assert KidOk(pages[p], spans[p], spans, k);
      }
    }
  }

  lemma GroupGrown(pages: Pages, spans: Spans, level: seq<LevelEntry>, h: nat, space: int, i: nat, count: nat,
                   node: PageId)
    requires Grown(pages, spans, h + 1, space) && LevelSpans(spans, level, h, space)
    requires EndsBefore(spans, h + 1, LowEnd(level, space, i))
    requires 0 < count <= MAX_KEYS + 1 && i + count <= |level| && |level| > 1 && node !in pages && node != NULL_PAGE
    requires (count == 1 ==> i > 0 && i + 1 == |level|) && (i + count < |level| ==> count == MAX_KEYS + 1)
    ensures var s := GroupSpan(level, h, space, i, i + count);
            Grown(pages[node := GroupNode(level[i..i + count])], spans[node := s], h + 1, space)
  {
    var n, s := GroupNode(level[i..i + count]), GroupSpan(level, h, space, i, i + count);
    var pages', spans' := pages[node := n], spans[node := s];
    GroupInternalOk(pages, spans, level, h, space, i, count);
    LowEndsRise(pages, spans, level, h, h + 1, space, i, i + count);
    if i > 0 { LowEndsRise(pages, spans, level, h, h + 1, space, 0, i); }
    if i + count < |level| { LowEndsRise(pages, spans, level, h, h + 1, space, i + count, |level|); }
    assert NodeOk(node, pages', spans', spans', space, NULL_PAGE) by {
      forall k | 0 <= k < |n.kids| ensures KidOk(n, s, spans', k) { assert KidOk(n, s, spans, k); }
    }
    forall p | p in pages' ensures NodeOk(p, pages', spans', spans', space, NULL_PAGE) {
      if p != node {
        assert NodeOk(p, pages, spans, spans, space, NULL_PAGE);
        NodeFrame(pages, spans, space, p, node, n, s);
      }
    }
    forall p | p in spans' ensures RangeOk(spans'[p], Span(h + 1, 0, space), space) {
      if p != node { assert RangeOk(spans[p], Span(h + 1, 0, space), space); }
    }
    forall p, q | p in spans' && q in spans' && p != q ensures Disjoint(spans'[p], spans'[q]) {
      if p != node && q != node { assert Disjoint(spans[p], spans[q]); }
    }
  }

  // The level above gets one page more
  lemma GroupGrows(pages: Pages, spans: Spans, level: seq<LevelEntry>, next: seq<LevelEntry>, h: nat, space: int,
                   i: nat, count: nat, node: PageId)
    requires Growing(pages, spans, level, next, h, space, i)
    requires 0 < count <= MAX_KEYS + 1 && i + count <= |level| && |level| > 1 && node !in pages && node != NULL_PAGE
    requires (count == 1 ==> i > 0 && i + 1 == |level|) && (i + count < |level| ==> count == MAX_KEYS + 1)
    requires i > 0 ==> next != []
    ensures Growing(pages[node := GroupNode(level[i..i + count])],
              spans[node := GroupSpan(level, h, space, i, i + count)],
                    level, next + [LevelEntry(node, level[i].first)], h, space, i + count)
  {
    var spans', next' := spans[node := GroupSpan(level, h, space, i, i + count)],
        next + [LevelEntry(node, level[i].first)];
    GroupGrown(pages, spans, level, h, space, i, count, node);
    forall k | 0 <= k < |level|
      ensures EntrySpan(spans', level, h, space, k)
    {
      assert EntrySpan(spans, level, h, space, k);
    }
    var end, end', up := LowEnd(level, space, i), LowEnd(level, space, i + count), h + 1;
    LowEndsRise(pages, spans, level, h, h + 1, space, i, i + count);
    forall k | 0 <= k < |next'| ensures EntrySpan(spans', next', up, end', k) {
      if k < |next| {
        assert EntrySpan(spans, next, up, end, k);
        assert next'[k] == next[k];
      }
    }
  }

  // The last level is the root
  lemma GrownTree(pages: Pages, spans: Spans, level: seq<LevelEntry>, h: nat, space: int)
    requires Grown(pages, spans, h, space) && LevelSpans(spans, level, h, space) && |level| == 1
    ensures SearchTree(pages, spans, level[0].page, space) && Packed(pages, spans, space)
  {
    assert EntrySpan(spans, level, h, space, 0);
    forall p | p in spans ensures RangeOk(spans[p], spans[level[0].page], space) {
      assert RangeOk(spans[p], Span(h, 0, space), space);
    }
  }
}
