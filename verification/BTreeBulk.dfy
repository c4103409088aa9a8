/** Building an index bottom-up from sorted entries, level by level. */
module BTreeBulk {
  import opened BTreeShape
  import opened BTreeOrder
  import opened BTreeScan

  // A page of the level under construction and the smallest key below it
  datatype LevelEntry = LevelEntry(page: PageId, first: int)

  // ---------------------------------------------------------------------------
  // New pages leave the finished part of the tree as it is
  // ---------------------------------------------------------------------------

  ghost predicate Extends(pages: Pages, pages': Pages) {
    forall q :: q in pages ==> q in pages' && pages'[q] == pages[q]
  }

  lemma {:induction false} LevelledFrame(pages: Pages, pages': Pages, p: PageId, h: nat)
    requires Extends(pages, pages') && Levelled(pages, p, h)
    ensures Levelled(pages', p, h)
    decreases h
  {
    if pages[p].Internal? {
      forall i | 0 <= i < |pages[p].kids| ensures Levelled(pages', pages[p].kids[i], h - 1) {
        LevelledFrame(pages, pages', pages[p].kids[i], h - 1);
      }
    }
  }

  lemma {:induction false} LowerLeafFrame(pages: Pages, pages': Pages, p: PageId, key: int, h: nat)
    requires Extends(pages, pages') && Levelled(pages, p, h)
    ensures LowerLeaf(pages', p, key, h) == LowerLeaf(pages, p, key, h)
    decreases h
  {
    if pages[p].Internal? {
      LowerLeafFrame(pages, pages', pages[p].kids[LowerIndex(pages[p].keys, key)], key, h - 1);
    }
  }

  ghost predicate AllLeaves(pages: Pages, leaves: seq<PageId>) {
    forall i :: 0 <= i < |leaves| ==> leaves[i] in pages && pages[leaves[i]].Leaf?
  }

  lemma ChainLeaves(pages: Pages, leaves: seq<PageId>)
    requires IsChain(pages, leaves)
    ensures AllLeaves(pages, leaves)
  {
    forall i | 0 <= i < |leaves| ensures leaves[i] in pages && pages[leaves[i]].Leaf? {
      assert ChainLink(pages, leaves, i);
    }
  }

  // Flatten looks at entries only, not at next pointers
  ghost predicate SameEntries(pages: Pages, pages': Pages, leaves: seq<PageId>) {
    && AllLeaves(pages, leaves) && AllLeaves(pages', leaves)
    && forall i :: 0 <= i < |leaves| ==> pages'[leaves[i]].entries == pages[leaves[i]].entries
  }

  lemma {:induction false} FlattenFrame(pages: Pages, pages': Pages, leaves: seq<PageId>)
    requires SameEntries(pages, pages', leaves)
    ensures Flatten(pages', leaves) == Flatten(pages, leaves)
  {
    if leaves != [] { FlattenFrame(pages, pages', leaves[1..]); }
  }

  lemma ChainFrame(pages: Pages, pages': Pages, leaves: seq<PageId>)
    requires Extends(pages, pages') && IsChain(pages, leaves) && AllLeaves(pages, leaves)
    ensures IsChain(pages', leaves) && Flatten(pages', leaves) == Flatten(pages, leaves)
  {
    forall i | 0 <= i < |leaves| ensures ChainLink(pages', leaves, i) {
      assert ChainLink(pages, leaves, i);
    }
    FlattenFrame(pages, pages', leaves);
  }

  // An index holding nothing on its only page
  lemma EmptyReadable(pages: Pages, spans: Spans, root: PageId, space: int)
    requires SearchTree(pages, spans, root, space) && pages.Keys == {root} && Contents(pages) == {}
    ensures Readable(pages, root, 0, [root]) && Flatten(pages, [root]) == []
  {
    assert NodeOk(root, pages, spans, spans, space, NULL_PAGE);
    assert pages[root].Internal? ==> KidOk(pages[root], spans[root], spans, 0);
    var es := pages[root].entries;
    if es != [] { InContents(pages, root, es[0]); }
    assert Flatten(pages, [root]) == es + Flatten(pages, []);
    assert ChainLink(pages, [root], 0);
    forall key ensures Lands(pages, root, 0, [root], key) {
      assert LandsAt(pages, root, 0, [root], key, 0);
    }
  }

  // ---------------------------------------------------------------------------
  // The leaf level
  // ---------------------------------------------------------------------------

  // Appending a leaf and pointing its predecessor at it
  ghost function Chained(pages: Pages, leaves: seq<PageId>, id: PageId, chunk: seq<Entry>): Pages
    requires AllLeaves(pages, leaves)
  {
    var pages1 := pages[id := Leaf(chunk, NULL_PAGE)];
    if leaves == [] then pages1
    else var prev := leaves[|leaves| - 1]; pages1[prev := Leaf(pages[prev].entries, id)]
  }

  lemma ChainedIsChain(pages: Pages, leaves: seq<PageId>, id: PageId, chunk: seq<Entry>)
    requires IsChain(pages, leaves) && AllLeaves(pages, leaves) && id !in leaves
    ensures IsChain(Chained(pages, leaves, id, chunk), leaves + [id])
  {
    var pages', leaves' := Chained(pages, leaves, id, chunk), leaves + [id];
    forall i | 0 <= i < |leaves'| ensures ChainLink(pages', leaves', i) {
      assert leaves'[..i] == leaves[..i];
      if i < |leaves| {
        assert ChainLink(pages, leaves, i);
        if i < |leaves| - 1 {
          assert ChainLink(pages, leaves, |leaves| - 1);
          assert leaves[i] != leaves[|leaves| - 1];
        }
      }
    }
  }

  lemma ChainedFlatten(pages: Pages, leaves: seq<PageId>, id: PageId, chunk: seq<Entry>)
    requires IsChain(pages, leaves) && AllLeaves(pages, leaves) && id !in leaves
    ensures Flatten(Chained(pages, leaves, id, chunk), leaves + [id]) == Flatten(pages, leaves) + chunk
  {
    var pages' := Chained(pages, leaves, id, chunk);
    FlattenAppend(pages', leaves, [id]);
    assert Flatten(pages', [id]) == pages'[id].entries + Flatten(pages', []);
    FlattenFrame(pages, pages', leaves);
  }

  // ---------------------------------------------------------------------------
  // Levels
  // ---------------------------------------------------------------------------

  // Whatever lies before leaf a is already known to be smaller, and leaf b not to be: the descent lands in time
  ghost predicate Guides(pages: Pages, p: PageId, h: nat, leaves: seq<PageId>, a: nat, b: nat)
    requires a <= |leaves|
  {
    forall key {:trigger Lands(pages, p, h, leaves, key)} ::
      AllBelow(Flatten(pages, leaves[..a]), key) && BeginsAt(pages, leaves, b, key) ==> Lands(pages, p, h, leaves, key)
  }

  ghost predicate FirstKeyAt(pages: Pages, leaves: seq<PageId>, a: nat, key: int) {
    && a < |leaves| && leaves[a] in pages && pages[leaves[a]].Leaf?
    && pages[leaves[a]].entries != [] && pages[leaves[a]].entries[0].key == key
  }

  // A finished page of height h whose subtree begins at leaf a and ends before leaf b
  ghost predicate EntryOk(pages: Pages, e: LevelEntry, h: nat, leaves: seq<PageId>, a: nat, b: nat) {
    && FirstKeyAt(pages, leaves, a, e.first)
    && Levelled(pages, e.page, h)
    && Guides(pages, e.page, h, leaves, a, b)
  }

  // Where entry i of a level begins; the level ends before leaf `end`
  ghost function StartAt(starts: seq<nat>, end: nat, i: nat): nat {
    if i < |starts| then starts[i] else end
  }

  ghost predicate LevelEntryOk(pages: Pages, level: seq<LevelEntry>, h: nat, leaves: seq<PageId>, starts: seq<nat>,
                               end: nat, i: nat)
    requires i < |level| == |starts|
  {
    EntryOk(pages, level[i], h, leaves, starts[i], StartAt(starts, end, i + 1))
  }

  ghost predicate LevelOk(pages: Pages, level: seq<LevelEntry>, h: nat, leaves: seq<PageId>, starts: seq<nat>,
                          end: nat) {
    && |level| == |starts|
    && (forall i, j :: 0 <= i < j < |level| ==> level[i].first <= level[j].first)
    && (forall i {:trigger LevelEntryOk(pages, level, h, leaves, starts, end, i)} ::
          0 <= i < |level| ==> LevelEntryOk(pages, level, h, leaves, starts, end, i))
  }

  lemma LeafEntryOk(pages: Pages, leaves: seq<PageId>, a: nat)
    requires IsChain(pages, leaves) && a < |leaves|
    requires leaves[a] in pages && pages[leaves[a]].Leaf? && pages[leaves[a]].entries != []
    ensures EntryOk(pages, LevelEntry(leaves[a], pages[leaves[a]].entries[0].key), 0, leaves, a, a + 1)
  {
    forall key | AllBelow(Flatten(pages, leaves[..a]), key) && BeginsAt(pages, leaves, a + 1, key)
      ensures Lands(pages, leaves[a], 0, leaves, key)
    {
      assert LandsAt(pages, leaves[a], 0, leaves, key, a);
    }
  }

  lemma EntryFrame(pages: Pages, pages': Pages, e: LevelEntry, h: nat, leaves: seq<PageId>, a: nat, b: nat)
    requires Extends(pages, pages') && AllLeaves(pages, leaves)
    requires EntryOk(pages, e, h, leaves, a, b)
    ensures EntryOk(pages', e, h, leaves, a, b)
  {
    LevelledFrame(pages, pages', e.page, h);
    forall key | AllBelow(Flatten(pages', leaves[..a]), key) && BeginsAt(pages', leaves, b, key)
      ensures Lands(pages', e.page, h, leaves, key)
    {
      FlattenFrame(pages, pages', leaves[..a]);
      assert Lands(pages, e.page, h, leaves, key);
      var j: nat :| LandsAt(pages, e.page, h, leaves, key, j);
      FlattenFrame(pages, pages', leaves[..j]);
      LowerLeafFrame(pages, pages', e.page, key, h);
      assert LandsAt(pages', e.page, h, leaves, key, j);
    }
  }

  lemma LevelFrame(pages: Pages, pages': Pages, level: seq<LevelEntry>, h: nat, leaves: seq<PageId>, starts: seq<nat>,
                   end: nat)
    requires Extends(pages, pages') && AllLeaves(pages, leaves)
    requires LevelOk(pages, level, h, leaves, starts, end)
    ensures LevelOk(pages', level, h, leaves, starts, end)
  {
    forall i | 0 <= i < |level| ensures LevelEntryOk(pages', level, h, leaves, starts, end, i) {
      assert LevelEntryOk(pages, level, h, leaves, starts, end, i);
      EntryFrame(pages, pages', level[i], h, leaves, starts[i], StartAt(starts, end, i + 1));
    }
  }

  // The internal page built over a group of consecutive level entries
  function GroupNode(group: seq<LevelEntry>): Node
    requires group != []
  {
    Internal(seq(|group| - 1, i requires 0 <= i < |group| - 1 => group[i + 1].first),
             seq(|group|, i requires 0 <= i < |group| => group[i].page))
  }

  lemma LevelSlice(pages: Pages, level: seq<LevelEntry>, h: nat, leaves: seq<PageId>, starts: seq<nat>, end: nat,
                   i: nat, j: nat)
    requires LevelOk(pages, level, h, leaves, starts, end) && i <= j <= |level|
    ensures LevelOk(pages, level[i..j], h, leaves, starts[i..j], StartAt(starts, end, j))
  {
    var level', starts', end' := level[i..j], starts[i..j], StartAt(starts, end, j);
    forall k | 0 <= k < j - i ensures LevelEntryOk(pages, level', h, leaves, starts', end', k) {
      assert LevelEntryOk(pages, level, h, leaves, starts, end, i + k);
    }
  }

  lemma LevelAppend(pages: Pages, level: seq<LevelEntry>, h: nat, leaves: seq<PageId>, starts: seq<nat>, e: LevelEntry,
                    a: nat, b: nat)
    requires LevelOk(pages, level, h, leaves, starts, a) && EntryOk(pages, e, h, leaves, a, b)
    requires forall k :: 0 <= k < |level| ==> level[k].first <= e.first
    ensures LevelOk(pages, level + [e], h, leaves, starts + [a], b)
  {
    var level', starts' := level + [e], starts + [a];
    forall k | 0 <= k < |level'| ensures LevelEntryOk(pages, level', h, leaves, starts', b, k) {
      if k < |level| { assert LevelEntryOk(pages, level, h, leaves, starts, a, k); }
    }
  }

  // The leaves themselves form the lowest level
  ghost predicate LeafLevel(pages: Pages, level: seq<LevelEntry>, leaves: seq<PageId>) {
    && AllLeaves(pages, leaves) && |level| == |leaves|
    && forall i :: 0 <= i < |leaves| ==>
         pages[leaves[i]].entries != [] && level[i] == LevelEntry(leaves[i], pages[leaves[i]].entries[0].key)
  }

  lemma LeafLevelOk(pages: Pages, level: seq<LevelEntry>, leaves: seq<PageId>)
    requires IsChain(pages, leaves) && Sorted(Flatten(pages, leaves)) && LeafLevel(pages, level, leaves)
    ensures LevelOk(pages, level, 0, leaves, seq(|level|, i => i), |leaves|)
  {
    var starts: seq<nat> := seq(|level|, i => i);
    var end := |leaves|;
    forall i | 0 <= i < |level| ensures LevelEntryOk(pages, level, 0, leaves, starts, end, i) {
      LeafEntryOk(pages, leaves, i);
    }
    forall i, j | 0 <= i < j < |level| ensures level[i].first <= level[j].first {
      assert leaves[..j] == leaves[..i + 1] + leaves[i + 1..j];
      FlattenAppend(pages, leaves[..i + 1], leaves[i + 1..j]);
      FlattenAt(pages, leaves, i);
      var pre := Flatten(pages, leaves[..j]);
      assert pre[|Flatten(pages, leaves[..i])|] == pages[leaves[i]].entries[0];
      if level[i].first > level[j].first { BelowFirst(pages, leaves, j, level[j].first, level[i].first); }
    }
  }

  // Everything before a leaf is at most that leaf's first key
  lemma BelowFirst(pages: Pages, leaves: seq<PageId>, a: nat, first: int, key: int)
    requires IsChain(pages, leaves) && Sorted(Flatten(pages, leaves))
    requires FirstKeyAt(pages, leaves, a, first) && first < key
    ensures AllBelow(Flatten(pages, leaves[..a]), key)
  {
    FlattenAt(pages, leaves, a);
    var all, pre := Flatten(pages, leaves), Flatten(pages, leaves[..a]);
    forall i | 0 <= i < |pre| ensures pre[i].key < key {
      assert all[i] == pre[i] && all[|pre|] == pages[leaves[a]].entries[0];
    }
  }

  lemma GroupEntryOk(pages: Pages, node: PageId, group: seq<LevelEntry>, h: nat, leaves: seq<PageId>, starts: seq<nat>,
                     end: nat)
    requires IsChain(pages, leaves) && Sorted(Flatten(pages, leaves))
    requires group != [] && LevelOk(pages, group, h, leaves, starts, end)
    requires node in pages && pages[node] == GroupNode(group)
    ensures EntryOk(pages, LevelEntry(node, group[0].first), h + 1, leaves, starts[0], end)
  {
    var n := pages[node];
    assert LevelEntryOk(pages, group, h, leaves, starts, end, 0);
    forall i | 0 <= i < |n.kids| ensures Levelled(pages, n.kids[i], h) {
      assert LevelEntryOk(pages, group, h, leaves, starts, end, i);
    }
    forall key | AllBelow(Flatten(pages, leaves[..starts[0]]), key) && BeginsAt(pages, leaves, end, key)
      ensures Lands(pages, node, h + 1, leaves, key)
    {
      GroupLands(pages, node, group, h, leaves, starts, end, key);
    }
  }

  lemma GroupLands(pages: Pages, node: PageId, group: seq<LevelEntry>, h: nat, leaves: seq<PageId>, starts: seq<nat>,
                   end: nat, key: int)
    requires IsChain(pages, leaves) && Sorted(Flatten(pages, leaves))
    requires group != [] && LevelOk(pages, group, h, leaves, starts, end)
    requires node in pages && pages[node] == GroupNode(group)
    requires starts[0] <= |leaves| && AllBelow(Flatten(pages, leaves[..starts[0]]), key)
    requires BeginsAt(pages, leaves, end, key)
    ensures Lands(pages, node, h + 1, leaves, key)
  {
    var n := pages[node];
    var i := LowerIndex(n.keys, key);
    LowerIndexBelow(n.keys, key);
    assert LevelEntryOk(pages, group, h, leaves, starts, end, i);
    if i > 0 { BelowFirst(pages, leaves, starts[i], group[i].first, key); }
    if i + 1 < |group| { assert LevelEntryOk(pages, group, h, leaves, starts, end, i + 1); }
    assert BeginsAt(pages, leaves, StartAt(starts, end, i + 1), key);
    assert Lands(pages, n.kids[i], h, leaves, key);
    var j: nat :| LandsAt(pages, n.kids[i], h, leaves, key, j);
    assert LandsAt(pages, node, h + 1, leaves, key, j);
  }

  lemma TopReadable(pages: Pages, e: LevelEntry, h: nat, leaves: seq<PageId>, starts: seq<nat>)
    requires IsChain(pages, leaves) && Sorted(Flatten(pages, leaves))
    requires LevelOk(pages, [e], h, leaves, starts, |leaves|) && starts[0] == 0
    ensures Readable(pages, e.page, h, leaves)
  {
    assert LevelEntryOk(pages, [e], h, leaves, starts, |leaves|, 0);
    assert leaves[..0] == [];
    forall key ensures Lands(pages, e.page, h, leaves, key) {
      assert AllBelow(Flatten(pages, leaves[..0]), key);
    }
  }

  // A page over the next group of a level: everything built so far stays, and the upper level gets one entry more
  lemma GroupAdded(pages0: Pages, pages: Pages, node: PageId, level: seq<LevelEntry>, h: nat, leaves: seq<PageId>,
                   starts: seq<nat>, next: seq<LevelEntry>, starts': seq<nat>, i: nat, count: nat)
    requires IsChain(pages0, leaves) && Sorted(Flatten(pages0, leaves))
    requires LevelOk(pages0, level, h, leaves, starts, |leaves|) && i < |level|
    requires LevelOk(pages0, next, h + 1, leaves, starts', starts[i])
    requires 0 < count && i + count <= |level| && node !in pages0
    requires pages == pages0[node := GroupNode(level[i..i + count])]
    requires forall k :: 0 <= k < |next| ==> next[k].first <= level[i].first
    ensures IsChain(pages, leaves) && Flatten(pages, leaves) == Flatten(pages0, leaves)
    ensures LevelOk(pages, level, h, leaves, starts, |leaves|)
    ensures LevelOk(pages, next + [LevelEntry(node, level[i].first)], h + 1, leaves, starts' + [starts[i]],
                    StartAt(starts, |leaves|, i + count))
  {
    var group, end := level[i..i + count], StartAt(starts, |leaves|, i + count);
    ChainLeaves(pages0, leaves);
    ChainFrame(pages0, pages, leaves);
    LevelFrame(pages0, pages, level, h, leaves, starts, |leaves|);
    LevelFrame(pages0, pages, next, h + 1, leaves, starts', starts[i]);
    LevelSlice(pages, level, h, leaves, starts, |leaves|, i, i + count);
    GroupEntryOk(pages, node, group, h, leaves, starts[i..i + count], end);
    LevelAppend(pages, next, h + 1, leaves, starts', LevelEntry(node, group[0].first), starts[i], end);
  }
}
