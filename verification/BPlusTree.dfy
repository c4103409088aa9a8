/** The index object: pages changed in place by insert and its splits. */
module BPlusTrees {
  import opened BTreeShape
  import opened BTreeDescent
  import opened BTreePreorder
  import opened BTreeCut
  import opened BTreeOrder
  import opened BTreeScan
  import opened BTreeBulk
  import opened BTreeGrown
  import opened Options

  // Page numbers within an index have 32 bits
  const PAGE_NUMBERS: nat := 0x1_0000_0000
  // What one insert can take of them: one for each of 32 levels, and a new root
  const INSERT_PAGES: nat := 33

  // First position whose key is above the given one
  method FirstAbove(keys: seq<int>, key: int) returns (pos: nat)
    requires forall i, j :: 0 <= i < j < |keys| ==> keys[i] < keys[j]
    ensures pos <= |keys|
    ensures forall i :: 0 <= i < pos ==> keys[i] <= key
    ensures forall i :: pos <= i < |keys| ==> key < keys[i]
  {
    var lo, hi := 0, |keys|;
    while lo < hi
      invariant 0 <= lo <= hi <= |keys|
      invariant forall i :: 0 <= i < lo ==> keys[i] <= key
      invariant forall i :: hi <= i < |keys| ==> key < keys[i]
    {
      var mid := lo + (hi - lo) / 2;
      if keys[mid] > key {
        hi := mid;
      } else {
        lo := mid + 1;
      }
    }
    pos := lo;
  }

  // First position whose key is not below the given one
  method FirstAtLeast(keys: seq<int>, key: int) returns (pos: nat)
    requires SortedKeys(keys)
    ensures pos == LowerIndex(keys, key)
  {
    var lo, hi := 0, |keys|;
    while lo < hi
      invariant 0 <= lo <= hi <= |keys|
      invariant forall i :: 0 <= i < lo ==> keys[i] < key
      invariant forall i :: hi <= i < |keys| ==> key <= keys[i]
    {
      var mid := lo + (hi - lo) / 2;
      if keys[mid] >= key {
        hi := mid;
      } else {
        lo := mid + 1;
      }
    }
    LowerIndexUnique(keys, key, lo);
    pos := lo;
  }

  // The same search over leaf entries
  method FirstEntryAbove(es: seq<Entry>, key: int) returns (pos: nat)
    requires StrictlySorted(es)
    ensures pos <= |es|
    ensures forall i :: 0 <= i < pos ==> es[i].key <= key
    ensures forall i :: pos <= i < |es| ==> key < es[i].key
  {
    pos := |es|;
    if |es| > 0 && es[|es| - 1].key > key {
      var lo, hi := 0, |es|;
      while lo < hi
        invariant 0 <= lo <= hi <= |es|
        invariant forall i :: 0 <= i < lo ==> es[i].key <= key
        invariant forall i :: hi <= i < |es| ==> key < es[i].key
      {
        var mid := lo + (hi - lo) / 2;
        if es[mid].key > key {
          hi := mid;
        } else {
          lo := mid + 1;
        }
      }
      pos := lo;
    }
  }

  class BPlusTree {
    const space: int

    var pages: Pages
    var root: PageId
    var nextPage: nat

    // the leaf of the last insert that did not split, its first key and its parent
    var hotLeaf: PageId
    var hotFirst: Option<int>
    var hotParent: PageId

    // key range and height of every page
    ghost var spans: Spans

    ghost predicate Numbered()
      reads this
    {
      nextPage >= 1 && forall p :: p in pages ==> p < nextPage
    }

    ghost predicate HotValid()
      reads this
    {
      hotLeaf != NULL_PAGE ==>
        && hotLeaf in pages && pages[hotLeaf].Leaf?
        && pages[hotLeaf].entries != [] && hotFirst == Some(pages[hotLeaf].entries[0].key)
        && IsParent(pages, root, hotParent, hotLeaf)
    }

    ghost predicate Valid()
      reads this
    {
      && space > 0
      && Numbered()
      && HotValid()
      && (root == NULL_PAGE ==> pages == map[])
      && (root != NULL_PAGE ==> SearchTree(pages, spans, root, space))
    }

    // Levels below the root
    ghost function Depth(): nat
      reads this
    {
      if root in spans then spans[root].height else 0
    }

    constructor (space: int)
      requires space > 0
      ensures Valid() && this.space == space && root == NULL_PAGE && Contents(pages) == {} && nextPage == 1
    {
      this.space := space;
      pages := map[];
      root := NULL_PAGE;
      nextPage := 1;
      hotLeaf := NULL_PAGE;
      hotFirst := None;
      hotParent := NULL_PAGE;
      spans := map[];
    }

    method AllocPage() returns (p: PageId)
      requires Numbered()
      modifies this`nextPage
      ensures p == old(nextPage) && nextPage == p + 1
      ensures p !in pages && p != NULL_PAGE && Numbered()
    {
      p := nextPage;
      nextPage := nextPage + 1;
    }

    method Create()
      requires Valid() && root == NULL_PAGE
      modifies this`pages, this`root, this`nextPage, this`spans
      ensures Valid() && root != NULL_PAGE && Contents(pages) == {}
      ensures nextPage == 2 && Depth() == 0
    {
      nextPage := 1;
      var id := AllocPage();
      pages := pages[id := Leaf([], NULL_PAGE)];
      root := id;
      spans := map[id := Span(0, 0, space)];
      assert pages.Keys == {id};
      assert NodeOk(id, pages, spans, spans, space, NULL_PAGE);
    }

    method FindLeafWithParent(key: int) returns (leaf: PageId, parent: PageId)
      requires Valid() && root != NULL_PAGE && 0 <= key < space
      requires Depth() < MAX_HOPS
      ensures leaf in pages && pages[leaf].Leaf? && Covers(spans[leaf], key)
      ensures IsParent(pages, root, parent, leaf)
      ensures (leaf, parent) == Descend(pages, root, NULL_PAGE, key, Depth())
    {
      var current := root;
      parent := NULL_PAGE;
      var visited: set<PageId> := {};
      var hops := 0;
      assert NodeOk(root, pages, spans, spans, space, NULL_PAGE);
      while current != NULL_PAGE && hops < MAX_HOPS
        invariant current in pages && Covers(spans[current], key)
        invariant IsParent(pages, root, parent, current)
        invariant hops + spans[current].height == Depth()
        invariant forall v :: v in visited ==> v in pages && spans[v].height > spans[current].height
        decreases spans[current].height
      {
        if current in visited { break; }
        visited := visited + {current};
        hops := hops + 1;
        assert NodeOk(current, pages, spans, spans, space, NULL_PAGE);
        if pages[current].Leaf? {
          leaf := current;
          DescendReaches(pages, spans, root, space, NULL_PAGE, root, NULL_PAGE, key, leaf, parent);
          return;
        }
        var lo := FirstAbove(pages[current].keys, key);
        KidCovers(pages, spans, root, space, NULL_PAGE, current, key, lo);
        parent := current;
        current := pages[current].kids[lo];
      }
      assert false;
      leaf := current;
    }

    // Depth-first search for the page that holds a child pointer. Pages are visited in preorder, and the parent is
    // found exactly if fewer than MAX_HOPS pages come before it.
    method FindParent(child: PageId, ghost over: PageId) returns (parent: PageId)
      requires Numbered() && Tree(pages, spans, spans, root, space, over) && child in pages
      ensures root == child ==> parent == NULL_PAGE
      ensures root != child ==>
                exists k :: 0 <= k < |Visits(pages, spans, root)| && HasKid(pages, Visits(pages, spans, root)[k], child)
      ensures forall k ::
                0 <= k < |Visits(pages, spans, root)| && HasKid(pages, Visits(pages, spans, root)[k], child) ==>
                parent == if k < MAX_HOPS then Visits(pages, spans, root)[k] else NULL_PAGE
      ensures nextPage <= MAX_HOPS ==> IsParent(pages, root, parent, child)
    {
      if root == child {
        NoParentOfRoot(pages, spans, root, space, over);
        return NULL_PAGE;
      }
      ghost var all, hops := Visits(pages, spans, root), 0;
      ghost var at := ParentListed(pages, spans, root, space, over, child);
      VisitCount(pages, spans, root, space, over, nextPage);
      FoundAt(pages, spans, root, space, over, child, at);
      VisitedOnce(pages, spans, root, space, over, root);
      SearchStarts(pages, spans, root, space, over, child);
      parent, hops := SearchParent(child, over, all);
    }

    // The search itself: it stops at the parent, or has seen everything there is or as much as it may
    method SearchParent(child: PageId, ghost over: PageId, ghost all: seq<PageId>)
      returns (parent: PageId, ghost hops: nat)
      requires Tree(pages, spans, spans, root, space, over) && Distinct(all)
      requires Searching(pages, spans, all, [root], {}, 0, child)
      ensures SearchEnded(pages, all, child, parent, hops)
    {
      var stack, visited, count := [root], {}, 0;
      hops := 0;
      while |stack| > 0 && count < MAX_HOPS
        invariant Searching(pages, spans, all, stack, visited, hops, child) && count == hops <= MAX_HOPS
        decreases |all| - hops
      {
        var current, rest := stack[|stack| - 1], stack[..|stack| - 1];
        SearchTop(pages, spans, all, stack, visited, hops, child, current, rest);
        if current in visited { continue; }
        var more := [];
        if !pages[current].Leaf? {
          var subs := pages[current].kids;
          if child in subs { return current, hops; }
          more := PushReversed(subs);
        }
        SearchStep(pages, spans, root, space, over, all, stack, visited, hops, child, current, rest, more);
        visited := visited + {current};
        count, hops := count + 1, hops + 1;
        stack := rest + more;
      }
      parent := NULL_PAGE;
    }

    // The children in the order they are stacked: last child first
    method PushReversed(subs: seq<PageId>) returns (more: seq<PageId>)
      ensures |more| == |subs|
      ensures forall k :: 0 <= k < |subs| ==> more[k] == subs[|subs| - 1 - k]
    {
      more := [];
      var i := |subs|;
      while i > 0
        invariant 0 <= i <= |subs| && |more| == |subs| - i
        invariant forall k :: 0 <= k < |more| ==> more[k] == subs[|subs| - 1 - k]
      {
        i := i - 1;
        more := more + [subs[i]];
      }
    }

    // A parent that is full and not the root can be split too, because the page above it is found
    ghost predicate CanOverflow(before: Pages, below: Spans, parent: PageId)
      reads this
    {
      parent != NULL_PAGE && parent in before && before[parent].Internal? && parent != root &&
      |before[parent].keys| >= MAX_KEYS ==>
        ParentReached(before, below, root, parent)
    }

    // Hang `right`, split off from `left` at `key`, into the tree above them. `before` is the tree before that split.
    // Without a parent the code takes `left` for the root: if it is not, the rest of the index is cut off.
    method InsertIntoParent(parent: PageId, key: int, left: PageId, right: PageId, ghost before: Pages,
                            ghost below: Spans)
      requires Numbered() && Unlinked(pages, spans, below, root, space, key, left, right)
      requires Tree(before, below, below, root, space, left) && SameBut(before, pages, {left})
      requires parent == NULL_PAGE || IsParent(before, root, parent, left)
      modifies this`pages, this`spans, this`root, this`nextPage
      ensures Numbered() && root != NULL_PAGE && Contents(pages) == old(Contents(pages))
      ensures old(IsParent(before, root, parent, left) && CanOverflow(before, below, parent)) ==>
                SearchTree(pages, spans, root, space)
      ensures !old(IsParent(before, root, parent, left)) ==> CutOff(pages, spans, root, space, below[left])
      ensures old(IsParent(before, root, parent, left) && !CanOverflow(before, below, parent)) ==>
                CutOff(pages, spans, root, space, below[parent])
      ensures nextPage <= old(nextPage) + below[old(root)].height - below[left].height + 1
      ensures KeptBut(old(pages), pages, root)
      decreases below[root].height - below[left].height, 0
    {
      assert RangeOk(below[left], below[root], space);
      if parent == NULL_PAGE {
        AddRoot(key, left, right, before, below);
        return;
      }
      NotRoot(before, below, root, space, left, parent, left);
      ghost var pages0 := pages;
      var n := LinkInto(parent, key, left, right, below);
      ghost var pages1 := pages;
      assert RangeOk(spans[parent], spans[root], space);
      if n > MAX_KEYS {
        if parent != root {
          ReachedSame(before, pages, below, spans, root, space, left, parent, parent, left);
        }
        SplitInternal(parent);
        KeptTwice(pages0, pages1, pages, root);
      } else {
        WithinLimit(pages, spans, root, space, parent);
      }
    }

    // The separator and the new page go in where `left` hangs
    method LinkInto(parent: PageId, key: int, left: PageId, right: PageId, ghost below: Spans) returns (n: nat)
      requires Numbered() && Unlinked(pages, spans, below, root, space, key, left, right) && HasKid(pages, parent, left)
      modifies this`pages
      ensures Numbered() && Tree(pages, spans, spans, root, space, parent) && Contents(pages) == old(Contents(pages))
      ensures parent in pages && pages[parent].Internal? && n == |pages[parent].keys| == |old(pages)[parent].keys| + 1
      ensures n <= MAX_KEYS + 1 && SameBut(old(pages), pages, {parent}) && Kept(old(pages), pages)
    {
      var keys, kids := pages[parent].keys, pages[parent].kids;
      ghost var i :| 0 <= i < |kids| && kids[i] == left;
      LinkPosition(pages, spans, below, root, space, key, left, right, parent, i);
      n := |keys|;
      var pos := n;
      for k := 0 to n
        invariant pos == n && k <= i
      {
        if keys[k] > key {
          pos := k;
          break;
        }
      }
      assert pos == i;
      LinkKeepsTree(pages, spans, below, root, space, key, left, right, parent, i);
      InternalUpdateKeepsContents(pages, parent, Linked(pages[parent], i, key, right));
      pages := pages[parent := Internal(InsertAt(keys, pos, key), InsertAt(kids, pos + 1, right))];
      assert NodeOk(parent, pages, spans, spans, space, parent);
      n := n + 1;
    }

    // A new root over the two halves
    method AddRoot(key: int, left: PageId, right: PageId, ghost before: Pages, ghost below: Spans)
      requires Numbered() && Unlinked(pages, spans, below, root, space, key, left, right)
      requires Tree(before, below, below, root, space, left) && SameBut(before, pages, {left})
      modifies this`pages, this`spans, this`root, this`nextPage
      ensures Numbered() && root != NULL_PAGE && Contents(pages) == old(Contents(pages))
      ensures left == old(root) ==> SearchTree(pages, spans, root, space)
      ensures left != old(root) ==> CutOff(pages, spans, root, space, below[left])
      ensures nextPage == old(nextPage) + 1 && KeptBut(old(pages), pages, root)
    {
      var newRoot := AllocPage();
      if left == root {
        NewRootKeepsTree(pages, spans, below, root, space, key, right, newRoot);
      } else {
        ghost var k := ParentListed(before, below, root, space, left, left);
        ghost var above := Visits(before, below, root)[k];
        NotRoot(before, below, root, space, left, above, left);
        NewRootCuts(pages, spans, below, root, space, key, left, right, above, newRoot);
      }
      InternalUpdateKeepsContents(pages, newRoot, Internal([key], [left, right]));
      spans := spans[newRoot := below[left].(height := below[left].height + 1)];
      pages := pages[newRoot := Internal([key], [left, right])];
      root := newRoot;
    }

    // Splits an overfull internal page; all is well exactly if it is the root or the page above it is found
    method SplitInternal(node: PageId)
      requires Numbered() && Tree(pages, spans, spans, root, space, node)
      requires node in pages && pages[node].Internal? && |pages[node].keys| == MAX_KEYS + 1
      modifies this`pages, this`spans, this`root, this`nextPage
      ensures Numbered() && root != NULL_PAGE && Contents(pages) == old(Contents(pages))
      ensures old(node == root || ParentReached(pages, spans, root, node)) ==> SearchTree(pages, spans, root, space)
      ensures old(node != root && !ParentReached(pages, spans, root, node)) ==>
                CutOff(pages, spans, root, space, old(spans)[node])
      ensures nextPage <= old(nextPage) + old(spans[root].height - spans[node].height) + 2
      ensures KeptBut(old(pages), pages, root)
      decreases spans[root].height - spans[node].height, 1
    {
      var parent := FindParent(node, node);
      ghost var before, below := pages, spans;
      if parent != NULL_PAGE && parent != root {
        ReachedAbove(before, before, below, below, root, space, node, parent, node);
      }
      assert RangeOk(spans[node], spans[root], space);
      var pushKey, newId := HalveInternal(node);
      ghost var halved := pages;
      InsertIntoParent(parent, pushKey, node, newId, before, below);
      KeptTwice(before, halved, pages, root);
    }

    // The right half of an overfull internal page moves to a new page, its middle key up
    method HalveInternal(node: PageId) returns (pushKey: int, newId: PageId)
      requires Numbered() && Tree(pages, spans, spans, root, space, node)
      requires node in pages && pages[node].Internal? && |pages[node].keys| == MAX_KEYS + 1
      modifies this`pages, this`spans, this`nextPage
      ensures Numbered() && Unlinked(pages, spans, old(spans), root, space, pushKey, node, newId)
      ensures Contents(pages) == old(Contents(pages)) && SameBut(old(pages), pages, {node})
      ensures nextPage == old(nextPage) + 1 && Kept(old(pages), pages)
    {
      assert NodeOk(node, pages, spans, spans, space, node);
      var keys, kids := pages[node].keys, pages[node].kids;
      var mid := |keys| / 2;
      pushKey := keys[mid];
      newId := AllocPage();
      SplitInternalKeepsTree(pages, spans, root, space, node, newId);
      InternalUpdateKeepsContents(pages, node, Internal(keys[..mid], kids[..mid + 1]));
      InternalUpdateKeepsContents(pages[node := Internal(keys[..mid], kids[..mid + 1])], newId,
                                  Internal(keys[mid + 1..], kids[mid + 1..]));
      spans := CutSpan(spans, node, pushKey, newId);
      pages := pages[node := Internal(keys[..mid], kids[..mid + 1])]
                    [newId := Internal(keys[mid + 1..], kids[mid + 1..])];
    }

    // Splits an overfull leaf whose parent the descent has found
    method SplitLeaf(leaf: PageId, parent: PageId)
      requires Numbered() && Tree(pages, spans, spans, root, space, leaf)
      requires leaf in pages && pages[leaf].Leaf? && |pages[leaf].entries| == MAX_KEYS + 1
      requires IsParent(pages, root, parent, leaf)
      modifies this`pages, this`spans, this`root, this`nextPage
      ensures Numbered() && root != NULL_PAGE && Contents(pages) == old(Contents(pages))
      ensures old(CanOverflow(pages, spans, parent)) ==> SearchTree(pages, spans, root, space)
      ensures !old(CanOverflow(pages, spans, parent)) ==> CutOff(pages, spans, root, space, old(spans)[parent])
      ensures nextPage <= old(nextPage) + old(spans[root].height) + 2
      ensures KeptBut(old(pages), pages, root)
    {
      assert NodeOk(leaf, pages, spans, spans, space, leaf);
      var es, next := pages[leaf].entries, pages[leaf].next;
      var mid := |es| / 2;
      var newId := AllocPage();
      var pushKey := es[mid].key;
      SplitLeafKeepsTree(pages, spans, root, space, leaf, newId);
      SplitLeafKeepsContents(pages, leaf, newId, mid);
      if parent != NULL_PAGE { NotRoot(pages, spans, root, space, leaf, parent, leaf); }
      ghost var before, below := pages, spans;
      spans := CutSpan(spans, leaf, pushKey, newId);
      pages := pages[leaf := Leaf(es[..mid], newId)][newId := Leaf(es[mid..], next)];
      ghost var halved := pages;
      InsertIntoParent(parent, pushKey, leaf, newId, before, below);
      KeptTwice(before, halved, pages, root);
    }

    // The key goes behind everything in the hot leaf and before everything in the next
    ghost predicate GoesLast(key: int)
      reads this
    {
      && hotLeaf != NULL_PAGE && hotLeaf in pages && pages[hotLeaf].Leaf? && pages[hotLeaf].entries != []
      && (forall e :: e in pages[hotLeaf].entries ==> e.key <= key)
      && var next := pages[hotLeaf].next;
         next != NULL_PAGE ==>
           next in pages && pages[next].Leaf? && forall e :: e in pages[next].entries ==> key < e.key
    }

    // The leaf the hot-leaf cache offers for a key, or NULL_PAGE
    method HotLeafFor(key: int) returns (leaf: PageId)
      requires Valid() && root != NULL_PAGE && 0 <= key < space
      ensures leaf == if GoesLast(key) then hotLeaf else NULL_PAGE
      ensures leaf != NULL_PAGE ==>
                && leaf == hotLeaf && Covers(spans[leaf], key)
                && (leaf, hotParent) == Descend(pages, root, NULL_PAGE, key, Depth())
    {
      leaf := NULL_PAGE;
      if hotLeaf != NULL_PAGE && hotFirst.Some? && key >= hotFirst.value {
        var page := pages[hotLeaf];
        assert NodeOk(hotLeaf, pages, spans, spans, space, NULL_PAGE) && RangeOk(spans[hotLeaf], spans[root], space);
        var usable := page.Leaf?;
        if usable {
          var n := |page.entries|;
          if n == 0 {
            usable := false;
          } else if page.entries[n - 1].key > key {
            usable := false;
          }
          if page.next != NULL_PAGE && n > 0 {
            var nextPage := pages[page.next];
            assert NodeOk(page.next, pages, spans, spans, space, NULL_PAGE);
            assert RangeOk(spans[page.next], spans[root], space);
            if nextPage.entries[0].key <= key { usable := false; }
          }
        }
        if usable {
          leaf := hotLeaf;
          DescendReaches(pages, spans, root, space, NULL_PAGE, root, NULL_PAGE, key, leaf, hotParent);
        }
      }
    }

    method InsertIntoLeaf(leaf: PageId, key: int, rid: Rid) returns (numKeys: nat)
      requires Numbered() && SearchTree(pages, spans, root, space)
      requires leaf in pages && pages[leaf].Leaf? && Covers(spans[leaf], key)
      requires forall e :: e in Contents(pages) ==> e.key != key
      modifies this`pages
      ensures Numbered() && Tree(pages, spans, spans, root, space, leaf)
      ensures Contents(pages) == old(Contents(pages)) + {Entry(key, rid)}
      ensures leaf in pages && pages[leaf].Leaf? && numKeys == |pages[leaf].entries| == |old(pages)[leaf].entries| + 1
      ensures SameBut(old(pages), pages, {leaf}) && Kept(old(pages), pages)
      ensures forall p :: IsParent(old(pages), root, p, leaf) ==> IsParent(pages, root, p, leaf)
    {
      assert NodeOk(leaf, pages, spans, spans, space, NULL_PAGE);
      var es := pages[leaf].entries;
      var pos := FirstEntryAbove(es, key);
      forall i | 0 <= i < |es| ensures es[i].key != key { InContents(pages, leaf, es[i]); }
      InsertIntoLeafKeepsTree(pages, spans, root, space, leaf, pos, Entry(key, rid));
      LeafInsertContents(pages, leaf, pos, Entry(key, rid));
      pages := pages[leaf := pages[leaf].(entries := InsertAt(es, pos, Entry(key, rid)))];
      numKeys := |es| + 1;
    }

    // The page above the leaf for a key
    ghost function ParentOf(key: int): PageId
      reads this
    {
      Descend(pages, root, NULL_PAGE, key, Depth()).1
    }

    // An insert of this key goes wrong: its leaf is full, the page above the leaf is full too and not the root, and a
    // million pages come before the page above that
    ghost predicate Misses(key: int)
      reads this
    {
      var leaf, parent := Descend(pages, root, NULL_PAGE, key, Depth()).0, ParentOf(key);
      && 0 <= key < space && leaf in pages && pages[leaf].Leaf? && |pages[leaf].entries| >= MAX_KEYS
      && !CanOverflow(pages, spans, parent)
    }

    method Insert(key: int, rid: Rid) returns (ok: bool)
      requires Valid() && nextPage + INSERT_PAGES <= PAGE_NUMBERS
      requires forall e :: e in Contents(pages) ==> e.key != key
      modifies this`pages, this`spans, this`root, this`nextPage, this`hotLeaf, this`hotFirst, this`hotParent
      ensures ok <==> 0 <= key < space
      ensures Contents(pages) == old(Contents(pages)) + (if ok then {Entry(key, rid)} else {})
      ensures Valid() <==> !old(Misses(key))
      ensures old(Misses(key)) ==>
                old(ParentOf(key) in spans) && CutOff(pages, spans, root, space, old(spans[ParentOf(key)]))
      ensures nextPage <= old(nextPage) + INSERT_PAGES
      // no page but a root is left less than half full that was not before
      ensures KeptBut(old(pages), pages, root)
    {
      if !(0 <= key < space) { return false; }
      if root == NULL_PAGE { Create(); }
      DepthWithin();

      var leaf := HotLeafFor(key);
      var parent := hotParent;
      if leaf == NULL_PAGE {
        leaf, parent := FindLeafWithParent(key);
      }
      LeafAndParent(key, leaf, parent);
      InsertHere(leaf, parent, key, rid);
      return true;
    }

    lemma DepthWithin()
      requires Valid() && root != NULL_PAGE && nextPage <= PAGE_NUMBERS
      ensures Depth() <= 32 && (nextPage < PAGE_NUMBERS ==> Depth() < 32)
    {
      DepthBound(pages, spans, root, space, nextPage);
      Pow2Of32();
      if spans[root].height >= 32 { Pow2Monotone(32, spans[root].height); }
      if spans[root].height > 32 { Pow2Monotone(33, spans[root].height); }
    }

    lemma LeafAndParent(key: int, leaf: PageId, parent: PageId)
      requires Valid() && root != NULL_PAGE && 0 <= key < space
      requires (leaf, parent) == Descend(pages, root, NULL_PAGE, key, Depth())
      requires leaf in pages && pages[leaf].Leaf?
      ensures Misses(key) <==> |pages[leaf].entries| >= MAX_KEYS && !CanOverflow(pages, spans, parent)
    {
    }

    // Insert into a leaf found, split it if need be, and note or forget the hot leaf
    method InsertHere(leaf: PageId, parent: PageId, key: int, rid: Rid)
      requires Valid() && root != NULL_PAGE
      requires leaf in pages && pages[leaf].Leaf? && Covers(spans[leaf], key) && IsParent(pages, root, parent, leaf)
      requires forall e :: e in Contents(pages) ==> e.key != key
      modifies this`pages, this`spans, this`root, this`nextPage, this`hotLeaf, this`hotFirst, this`hotParent
      ensures Contents(pages) == old(Contents(pages)) + {Entry(key, rid)}
      ensures Valid() <==> old(|pages[leaf].entries| < MAX_KEYS || CanOverflow(pages, spans, parent))
      ensures !Valid() ==> parent in old(spans) && CutOff(pages, spans, root, space, old(spans)[parent])
      ensures nextPage <= old(nextPage) + old(Depth()) + 2 && KeptBut(old(pages), pages, root)
      ensures if old(|pages[leaf].entries|) < MAX_KEYS then
                leaf in pages && pages[leaf].Leaf? && pages[leaf].entries != [] &&
                (hotLeaf, hotFirst, hotParent) == (leaf, Some(pages[leaf].entries[0].key), parent)
              else hotLeaf == NULL_PAGE
    {
      ghost var before := pages;
      var numKeys := InsertIntoLeaf(leaf, key, rid);
      if numKeys > MAX_KEYS {
        hotLeaf, hotFirst, hotParent := NULL_PAGE, None, NULL_PAGE;
        OverFull(leaf);
        SameOverflow(before, leaf, parent);
        ghost var filled := pages;
        SplitLeaf(leaf, parent);
        KeptTwice(before, filled, pages, root);
      } else {
        WithinLimit(pages, spans, root, space, leaf);
        hotLeaf, hotParent := leaf, parent;
        hotFirst := Some(pages[leaf].entries[0].key);
      }
    }

    // Filling the leaf does not change which parents are found
    lemma SameOverflow(before: Pages, leaf: PageId, parent: PageId)
      requires SearchTree(before, spans, root, space) && Tree(pages, spans, spans, root, space, leaf)
      requires leaf in before && SameBut(before, pages, {leaf}) && IsParent(before, root, parent, leaf)
      ensures CanOverflow(pages, spans, parent) <==> CanOverflow(before, spans, parent)
    {
      if parent != NULL_PAGE {
        NotRoot(before, spans, root, space, NULL_PAGE, parent, leaf);
        if parent != root {
          ReachedSame(before, pages, spans, spans, root, space, NULL_PAGE, leaf, parent, leaf);
        }
      }
    }

    // What a caller could look up before an insert
    method MissesParent(key: int) returns (missed: bool)
      requires Valid() && nextPage + INSERT_PAGES <= PAGE_NUMBERS
      ensures missed <==> Misses(key)
    {
      if !(0 <= key < space) || root == NULL_PAGE { return false; }
      DepthWithin();
      var leaf, parent := FindLeafWithParent(key);
      if |pages[leaf].entries| < MAX_KEYS || parent == NULL_PAGE || parent == root || |pages[parent].keys| < MAX_KEYS {
        return false;
      }
      var above := FindParent(parent, NULL_PAGE);
      return above == NULL_PAGE;
    }

    // A leaf over its limit is over it by one
    lemma OverFull(leaf: PageId)
      requires Tree(pages, spans, spans, root, space, leaf) && leaf in pages && pages[leaf].Leaf?
      requires |pages[leaf].entries| > MAX_KEYS
      ensures |pages[leaf].entries| == MAX_KEYS + 1
    {
      assert NodeOk(leaf, pages, spans, spans, space, leaf);
    }

    // A run of inserts up to the first one that would miss a parent: the index holds exactly what it held and the pairs
    // inserted so far
    method InsertAll(pairs: seq<Entry>) returns (done: nat)
      requires Valid()
      requires forall i :: 0 <= i < |pairs| ==> 0 <= pairs[i].key < space
      requires forall i, j :: 0 <= i < j < |pairs| ==> pairs[i].key != pairs[j].key
      requires forall e, i :: e in Contents(pages) && 0 <= i < |pairs| ==> e.key != pairs[i].key
      modifies this`pages, this`spans, this`root, this`nextPage, this`hotLeaf, this`hotFirst, this`hotParent
      ensures Valid() && done <= |pairs|
      ensures Contents(pages) == old(Contents(pages)) + (set e | e in pairs[..done])
      ensures old(nextPage) <= PAGE_NUMBERS ==> nextPage <= PAGE_NUMBERS
      ensures done < |pairs| ==> Misses(pairs[done].key) || nextPage + INSERT_PAGES > PAGE_NUMBERS
    {
      done := 0;
      while done < |pairs|
        invariant done <= |pairs| && Valid()
        invariant Contents(pages) == old(Contents(pages)) + (set e | e in pairs[..done])
        invariant old(nextPage) <= PAGE_NUMBERS ==> nextPage <= PAGE_NUMBERS
      {
        if nextPage + INSERT_PAGES > PAGE_NUMBERS { return; }
        var missed := MissesParent(pairs[done].key);
        if missed { return; }
        forall e | e in Contents(pages) ensures e.key != pairs[done].key {
          if e !in old(Contents(pages)) { var i :| 0 <= i < done && pairs[i] == e; }
        }
        var ok := Insert(pairs[done].key, pairs[done].rid);
        assert pairs[..done + 1] == pairs[..done] + [pairs[done]];
        done := done + 1;
      }
    }

    // The leaf where a scan starts. The hop limit is reached first exactly in a tree of more than MAX_HOPS levels below
    // its root, and then the page is not a leaf.
    method FindLeafLowerBound(key: int, ghost h: nat) returns (leaf: PageId)
      requires NULL_PAGE !in pages && Levelled(pages, root, h)
      ensures h <= MAX_HOPS ==> leaf == LowerLeaf(pages, root, key, h) && Levelled(pages, leaf, 0)
      ensures h > MAX_HOPS ==> Levelled(pages, leaf, h - MAX_HOPS)
    {
      var current, visited, hops := root, {}, 0;
      ghost var g := h;
      while current != NULL_PAGE && hops < MAX_HOPS
        invariant Levelled(pages, current, g) && hops + g == h && hops <= MAX_HOPS
        invariant LowerLeaf(pages, current, key, g) == LowerLeaf(pages, root, key, h)
        invariant forall v :: v in visited ==> HigherThan(pages, v, g)
        decreases g
      {
        NotHigher(pages, current, g);
        if current in visited { break; }
        visited := visited + {current};
        hops := hops + 1;
        if pages[current].Leaf? {
          return current;
        }
        var lo := FirstAtLeast(pages[current].keys, key);
        assert Levelled(pages, pages[current].kids[lo], g - 1);
        current := pages[current].kids[lo];
        g := g - 1;
      }
      NotHigher(pages, current, g);
      leaf := current;
    }

    // One leaf of a scan: collect the matches, stop at the first key past the range
    static method ScanLeaf(es: seq<Entry>, low: int, high: int) returns (found: seq<Rid>, stop: bool, i: nat)
      ensures i <= |es| && found == Matching(es[..i], low, high)
      ensures if stop then i < |es| && es[i].key > high else es[..i] == es
    {
      found, i := [], 0;
      while i < |es|
        invariant i <= |es| && found == Matching(es[..i], low, high)
      {
        MatchingStep(es, i, low, high);
        if es[i].key > high { return found, true, i; }
        if low <= es[i].key { found := found + [es[i].rid]; }
        i := i + 1;
      }
      stop := false;
    }

    // The first n leaves of the chain that a walk from leaf `start` on gets to see
    static ghost function Reach(leaves: seq<PageId>, start: nat): (n: nat)
      ensures n <= |leaves|
    {
      if start + MAX_HOPS < |leaves| then start + MAX_HOPS else |leaves|
    }

    // Walk the chain from one of its leaves, collecting the matches in the leaves within the hop limit
    method ScanChain(first: PageId, low: int, high: int, ghost leaves: seq<PageId>, ghost start: nat)
      returns (results: seq<Rid>)
      requires NULL_PAGE !in pages
      requires ChainPosition(pages, leaves, start, first, {}) && Sorted(Flatten(pages, leaves))
      requires AllBelow(Flatten(pages, leaves[..start]), low)
      ensures results == Matching(Flatten(pages, leaves[..Reach(leaves, start)]), low, high)
    {
      results := [];
      var leaf, visited, hops := first, {}, 0;
      ghost var j := start;
      MatchingOutside(Flatten(pages, leaves[..j]), low, high);
      while leaf != NULL_PAGE && hops < MAX_HOPS
        invariant ChainPosition(pages, leaves, j, leaf, visited) && j == start + hops && hops <= MAX_HOPS
        invariant results == Matching(Flatten(pages, leaves[..j]), low, high)
        decreases |leaves| - j
      {
        ScanAdvance(pages, leaves, j, leaf, visited, low, high);
        if leaf in visited { break; }
        visited := visited + {leaf};
        hops := hops + 1;
        var found, stop, i := ScanLeaf(pages[leaf].entries, low, high);
        results := results + found;
        if stop {
          StopEarly(pages, leaves, j, i, low, high, Reach(leaves, start));
          return;
        }
        leaf := pages[leaf].next;
        j := j + 1;
      }
      assert j < |leaves| ==> ChainLink(pages, leaves, j);
    }

    // Complete exactly up to the hop limit: every match in the MAX_HOPS leaves from the first one that can hold any
    method RangeSearch(low: int, high: int, ghost h: nat, ghost leaves: seq<PageId>)
      returns (results: seq<Rid>, ghost start: nat)
      requires NULL_PAGE !in pages && h <= MAX_HOPS
      requires if root == NULL_PAGE then leaves == [] else Readable(pages, root, h, leaves)
      ensures root != NULL_PAGE ==> LandsAt(pages, root, h, leaves, low, start)
      ensures results == Matching(Flatten(pages, leaves[..Reach(leaves, start)]), low, high)
      ensures |leaves| <= MAX_HOPS ==> results == Matching(Flatten(pages, leaves), low, high)
    {
      start := 0;
      if root == NULL_PAGE {
        assert leaves[..Reach(leaves, start)] == leaves;
        return [], 0;
      }
      var leaf := FindLeafLowerBound(low, h);
      assert Lands(pages, root, h, leaves, low);
      start :| LandsAt(pages, root, h, leaves, low, start);
      results := ScanChain(leaf, low, high, leaves, start);
      assert |leaves| <= MAX_HOPS ==> leaves[..Reach(leaves, start)] == leaves;
    }

    method Search(key: int, ghost h: nat, ghost leaves: seq<PageId>) returns (results: seq<Rid>, ghost start: nat)
      requires NULL_PAGE !in pages && h <= MAX_HOPS
      requires if root == NULL_PAGE then leaves == [] else Readable(pages, root, h, leaves)
      ensures root != NULL_PAGE ==> LandsAt(pages, root, h, leaves, key, start)
      ensures results == Matching(Flatten(pages, leaves[..Reach(leaves, start)]), key, key)
      ensures |leaves| <= MAX_HOPS ==> results == Matching(Flatten(pages, leaves), key, key)
    {
      results, start := RangeSearch(key, key, h, leaves);
    }

    // The leaves built so far hold the entries listed so far and are all the pages there are
    ghost predicate Filled(level: seq<LevelEntry>, leaves: seq<PageId>, entries: seq<Entry>)
      reads this
    {
      && Numbered() && NULL_PAGE !in pages && root in pages
      && IsChain(pages, leaves) && Flatten(pages, leaves) == entries && LeavesFilled(pages, level, leaves)
      && (forall p :: p in pages <==> p in leaves || p == root) && (leaves != [] ==> leaves[0] == root)
    }

    // One more leaf, the first one on the old root page
    method BuildLeaf(prevLeaf: PageId, chunk: seq<Entry>, ghost level: seq<LevelEntry>, ghost leaves: seq<PageId>,
                     ghost entries: seq<Entry>)
      returns (leaf: PageId)
      requires Filled(level, leaves, entries) && prevLeaf == (if leaves == [] then NULL_PAGE else leaves[|leaves| - 1])
      requires 0 < |chunk| <= MAX_KEYS && (leaves != [] ==> IsFull(pages[leaves[|leaves| - 1]]))
      modifies this`pages, this`nextPage
      ensures leaf in pages && pages[leaf] == Leaf(chunk, NULL_PAGE) && nextPage <= old(nextPage) + 1
      ensures Filled(level + [LevelEntry(leaf, chunk[0].key)], leaves + [leaf], entries + chunk)
    {
      leaf := root;
      if prevLeaf != NULL_PAGE { leaf := AllocPage(); }
      assert leaf !in leaves;
      ChainedIsChain(pages, leaves, leaf, chunk);
      ChainedFlatten(pages, leaves, leaf, chunk);
      ChainedFills(pages, level, leaves, leaf, chunk);
      ghost var pages0 := pages;
      pages := pages[leaf := Leaf(chunk, NULL_PAGE)];
      if prevLeaf != NULL_PAGE {
        pages := pages[prevLeaf := Leaf(pages[prevLeaf].entries, leaf)];
      }
      assert pages == Chained(pages0, leaves, leaf, chunk);
    }

    method AllSet(chunk: seq<Entry>) returns (ok: bool)
      ensures ok <==> AllFit(chunk, space)
    {
      for i := 0 to |chunk|
        invariant AllFit(chunk[..i], space)
      {
        if !(0 <= chunk[i].key < space) { return false; }
      }
      return true;
    }

    // A leaf with a key that does not fit is left empty and out of the chain
    method AbandonLeaf(prevLeaf: PageId, ghost level: seq<LevelEntry>, ghost leaves: seq<PageId>,
                       ghost entries: seq<Entry>)
      requires Filled(level, leaves, entries) && prevLeaf == (if leaves == [] then NULL_PAGE else leaves[|leaves| - 1])
      modifies this`pages, this`nextPage
      ensures Contents(pages) == (set e | e in entries)
    {
      var leaf := root;
      if prevLeaf != NULL_PAGE {
        LeavesHold(pages, leaves);
        leaf := AllocPage();
      }
      EmptyLeafHolds(pages, leaf);
      pages := pages[leaf := Leaf([], NULL_PAGE)];
    }

    // The next leaf, unless one of its keys does not fit
    method NextLeaf(entries: seq<Entry>, pos: nat, prevLeaf: PageId, ghost level: seq<LevelEntry>,
                    ghost leaves: seq<PageId>)
      returns (ok: bool, leaf: PageId, count: nat)
      requires pos < |entries| && pos == MAX_KEYS * |leaves| && Filled(level, leaves, entries[..pos])
      requires prevLeaf == (if leaves == [] then NULL_PAGE else leaves[|leaves| - 1])
      requires AllFit(entries[..pos], space) && (leaves != [] ==> IsFull(pages[leaves[|leaves| - 1]]))
      modifies this`pages, this`nextPage
      ensures count == if |entries| - pos < MAX_KEYS then |entries| - pos else MAX_KEYS
      ensures if ok then AllFit(entries[..pos + count], space) else !AllFit(entries, space)
      ensures !ok ==> Contents(pages) == (set e | e in FitLeaves(entries, space))
      ensures ok ==> leaf in pages && pages[leaf] == Leaf(entries[pos..pos + count], NULL_PAGE)
      ensures ok ==> nextPage <= old(nextPage) + 1
      ensures ok ==> Filled(level + [LevelEntry(leaf, entries[pos].key)], leaves + [leaf], entries[..pos + count])
    {
      count := if |entries| - pos < MAX_KEYS then |entries| - pos else MAX_KEYS;
      var chunk := entries[pos..pos + count];
      assert entries[..pos + count] == entries[..pos] + chunk;
      ok := AllSet(chunk);
      if ok {
        leaf := BuildLeaf(prevLeaf, chunk, level, leaves, entries[..pos]);
      } else {
        leaf := NULL_PAGE;
        StopsWithin(entries, space, pos, count);
        AbandonLeaf(prevLeaf, level, leaves, entries[..pos]);
      }
    }

    // Fill leaves of at most MAX_KEYS entries, left to right, chaining them, up to a key that does not fit
    method BuildLeaves(entries: seq<Entry>) returns (ok: bool, level: seq<LevelEntry>, ghost leaves: seq<PageId>)
      requires Numbered() && NULL_PAGE !in pages && pages.Keys == {root}
      requires entries != []
      modifies this`pages, this`nextPage
      ensures ok <==> AllFit(entries, space)
      ensures ok ==> Filled(level, leaves, entries) && level != [] && nextPage <= old(nextPage) + |leaves|
      ensures ok ==> |leaves| == (|entries| + MAX_KEYS - 1) / MAX_KEYS
      ensures !ok ==> Contents(pages) == (set e | e in FitLeaves(entries, space))
    {
      level, leaves := [], [];
      var pos, prevLeaf := 0, NULL_PAGE;
      while pos < |entries|
        invariant pos <= |entries| && Filled(level, leaves, entries[..pos]) && nextPage <= old(nextPage) + |leaves|
        invariant prevLeaf == (if leaves == [] then NULL_PAGE else leaves[|leaves| - 1])
        invariant pos > 0 ==> level != []
        invariant pos < |entries| && leaves != [] ==> IsFull(pages[leaves[|leaves| - 1]])
        invariant pos < |entries| ==> pos == MAX_KEYS * |leaves|
        invariant MAX_KEYS * |leaves| < pos + MAX_KEYS && pos <= MAX_KEYS * |leaves|
        invariant AllFit(entries[..pos], space)
      {
        var leaf, count;
        ok, leaf, count := NextLeaf(entries, pos, prevLeaf, level, leaves);
        if !ok { return; }
        leaves := leaves + [leaf];
        level := level + [LevelEntry(leaf, entries[pos].key)];
        prevLeaf := leaf;
        pos := pos + count;
      }
      assert entries[..pos] == entries;
      ok := true;
    }

    // The leaf level with its key ranges
    method LoadLeaves(entries: seq<Entry>, ghost fit: bool)
      returns (ok: bool, level: seq<LevelEntry>, ghost leaves: seq<PageId>)
      requires Numbered() && NULL_PAGE !in pages && pages.Keys == {root}
      requires entries != [] && (fit ==> StrictlySorted(entries))
      modifies this`pages, this`nextPage, this`spans
      ensures ok <==> AllFit(entries, space)
      ensures ok ==> Numbered() && NULL_PAGE !in pages && IsChain(pages, leaves) && Flatten(pages, leaves) == entries
      ensures ok ==> LeafLevel(pages, level, leaves) && level != [] && Contents(pages) == (set e | e in entries)
      ensures ok ==> FullLeaves(pages, leaves)
      ensures ok && fit ==> Grown(pages, spans, 0, space) && LevelSpans(spans, level, 0, space)
      ensures ok ==> |leaves| == (|entries| + MAX_KEYS - 1) / MAX_KEYS && nextPage <= old(nextPage) + |leaves|
      ensures !ok ==> Contents(pages) == (set e | e in FitLeaves(entries, space))
    {
      ok, level, leaves := BuildLeaves(entries);
      if !ok { return; }
      LeavesHold(pages, leaves);
      if fit { spans := LeavesGrown(pages, level, leaves, space); }
    }

    // A level under construction: `next` stands over the first i entries of `level`
    ghost predicate Rising(level: seq<LevelEntry>, h: nat, leaves: seq<PageId>, starts: seq<nat>,
                           next: seq<LevelEntry>, starts': seq<nat>, i: nat, fit: bool)
      reads this
    {
      && Numbered() && NULL_PAGE !in pages && IsChain(pages, leaves) && Sorted(Flatten(pages, leaves))
      && LevelOk(pages, level, h, leaves, starts, |leaves|)
      && LevelOk(pages, next, h + 1, leaves, starts', StartAt(starts, |leaves|, i))
      && (forall k, x :: 0 <= k < |next| && i <= x < |level| ==> next[k].first <= level[x].first)
      && (fit ==> Growing(pages, spans, level, next, h, space, i))
    }

    // One internal level over a level of more than one page: strictly fewer pages. With `fit`, a level of a tree that
    // inserts can go on with.
    method BuildLevel(level: seq<LevelEntry>, ghost h: nat, ghost leaves: seq<PageId>, ghost starts: seq<nat>,
                      ghost fit: bool)
      returns (next: seq<LevelEntry>, ghost starts': seq<nat>)
      requires Rising(level, h, leaves, starts, [], [], 0, fit) && |level| > 1
      modifies this`pages, this`nextPage, this`spans
      ensures Rising(level, h, leaves, starts, next, starts', |level|, fit)
      ensures Contents(pages) == old(Contents(pages)) && Flatten(pages, leaves) == old(Flatten(pages, leaves))
      ensures |next| == PagesOver(|level|) && nextPage == old(nextPage) + |next| && Extends(old(pages), pages)
      ensures starts' != [] && starts != [] && starts'[0] == starts[0]
    {
      next, starts' := [], [];
      var i := 0;
      while i < |level|
        invariant i <= |level| && Rising(level, h, leaves, starts, next, starts', i, fit)
        invariant Contents(pages) == old(Contents(pages)) && Flatten(pages, leaves) == old(Flatten(pages, leaves))
        invariant i < |level| ==> i == (MAX_KEYS + 1) * |next|
        invariant i <= (MAX_KEYS + 1) * |next| <= i + MAX_KEYS && |starts'| == |next| && |starts| == |level|
        invariant nextPage == old(nextPage) + |next| && Extends(old(pages), pages)
        invariant i > 0 ==> next != [] && starts'[0] == starts[0]
      {
        var remaining := |level| - i;
        var count := if remaining > MAX_KEYS + 1 then MAX_KEYS + 1 else remaining;
        var node := BuildGroup(level, h, leaves, starts, next, starts', i, count, fit);
        next := next + [LevelEntry(node, level[i].first)];
        starts' := starts' + [starts[i]];
        i := i + count;
      }
    }

    // The page over one group of a level
    method BuildGroup(level: seq<LevelEntry>, ghost h: nat, ghost leaves: seq<PageId>, ghost starts: seq<nat>,
                      ghost next: seq<LevelEntry>, ghost starts': seq<nat>, i: nat, count: nat, ghost fit: bool)
      returns (node: PageId)
      requires Rising(level, h, leaves, starts, next, starts', i, fit) && |level| > 1 && i < |level| == |starts|
      requires 0 < count <= MAX_KEYS + 1 && i + count <= |level| && (i + count < |level| ==> count == MAX_KEYS + 1)
      requires (count == 1 ==> i > 0 && i + 1 == |level|) && (i > 0 ==> next != [])
      modifies this`pages, this`nextPage, this`spans
      ensures Rising(level, h, leaves, starts, next + [LevelEntry(node, level[i].first)], starts' + [starts[i]],
                i + count, fit)
      ensures Contents(pages) == old(Contents(pages)) && Flatten(pages, leaves) == old(Flatten(pages, leaves))
      ensures nextPage == old(nextPage) + 1 && Extends(old(pages), pages)
    {
      var group := level[i..i + count];
      node := AllocPage();
      ghost var pages0 := pages;
      if fit { GroupGrows(pages, spans, level, next, h, space, i, count, node); }
      InternalUpdateKeepsContents(pages, node, GroupNode(group));
      spans := spans[node := GroupSpan(level, h, space, i, i + count)];
      pages := pages[node := GroupNode(group)];
      GroupAdded(pages0, pages, node, level, h, leaves, starts, next, starts', i, count);
    }

    // A level over the leaves, h levels up; with `fit` one of a tree that inserts can go on with
    ghost predicate Stands(level: seq<LevelEntry>, h: nat, leaves: seq<PageId>, starts: seq<nat>, fit: bool)
      reads this
    {
      && Numbered() && NULL_PAGE !in pages && IsChain(pages, leaves) && Sorted(Flatten(pages, leaves))
      && level != [] && LevelOk(pages, level, h, leaves, starts, |leaves|) && starts[0] == 0
      && Shrunk(|level|, h, |leaves|)
      && (fit ==> Grown(pages, spans, h, space) && LevelSpans(spans, level, h, space))
    }

    method NextLevel(level: seq<LevelEntry>, ghost h: nat, ghost leaves: seq<PageId>, ghost starts: seq<nat>,
                     ghost fit: bool)
      returns (next: seq<LevelEntry>, ghost starts': seq<nat>)
      requires Stands(level, h, leaves, starts, fit) && |level| > 1
      modifies this`pages, this`nextPage, this`spans
      ensures Stands(next, h + 1, leaves, starts', fit) && |next| < |level|
      ensures nextPage + |next| <= old(nextPage) + |level|
      ensures Contents(pages) == old(Contents(pages)) && Flatten(pages, leaves) == old(Flatten(pages, leaves))
      ensures Extends(old(pages), pages)
    {
      if fit { LevelStarts(pages, spans, level, h, space); }
      next, starts' := BuildLevel(level, h, leaves, starts, fit);
      assert |next| == PagesOver(|level|);
    }

    lemma LeavesStand(level: seq<LevelEntry>, leaves: seq<PageId>, starts: seq<nat>, fit: bool)
      requires Numbered() && NULL_PAGE !in pages && level != [] && starts == seq(|level|, i => i)
      requires IsChain(pages, leaves) && Sorted(Flatten(pages, leaves)) && LeafLevel(pages, level, leaves)
      requires fit ==> Grown(pages, spans, 0, space) && LevelSpans(spans, level, 0, space)
      ensures Stands(level, 0, leaves, starts, fit)
    {
      LeafLevelOk(pages, level, leaves);
    }

    // Level upon level until one page is left
    method BuildLevels(leafLevel: seq<LevelEntry>, ghost leaves: seq<PageId>, ghost fit: bool)
      returns (top: PageId, ghost h: nat)
      requires Numbered() && NULL_PAGE !in pages && leafLevel != []
      requires IsChain(pages, leaves) && Sorted(Flatten(pages, leaves)) && LeafLevel(pages, leafLevel, leaves)
      requires fit ==> Grown(pages, spans, 0, space) && LevelSpans(spans, leafLevel, 0, space)
      modifies this`pages, this`nextPage, this`spans
      ensures Numbered() && NULL_PAGE !in pages && top in pages && Contents(pages) == old(Contents(pages))
      ensures Readable(pages, top, h, leaves) && Flatten(pages, leaves) == old(Flatten(pages, leaves))
      ensures fit ==> SearchTree(pages, spans, top, space) && Packed(pages, spans, space)
      ensures Shrunk(1, h, |leaves|) && nextPage <= old(nextPage) + |leafLevel| && Extends(old(pages), pages)
    {
      var level := leafLevel;
      ghost var starts: seq<nat> := seq(|level|, i => i);
      h := 0;
      LeavesStand(level, leaves, starts, fit);
      while |level| > 1
        invariant Stands(level, h, leaves, starts, fit) && nextPage + |level| <= old(nextPage) + |leafLevel|
        invariant Contents(pages) == old(Contents(pages)) && Flatten(pages, leaves) == old(Flatten(pages, leaves))
        invariant Extends(old(pages), pages)
        decreases |level|
      {
        level, starts := NextLevel(level, h, leaves, starts, fit);
        h := h + 1;
      }
      top := level[0].page;
      TopStands(level, h, leaves, starts, fit);
    }

    lemma TopStands(level: seq<LevelEntry>, h: nat, leaves: seq<PageId>, starts: seq<nat>, fit: bool)
      requires Stands(level, h, leaves, starts, fit) && |level| == 1
      ensures level[0].page in pages && Readable(pages, level[0].page, h, leaves)
      ensures fit ==> SearchTree(pages, spans, level[0].page, space) && Packed(pages, spans, space)
    {
      assert level == [level[0]];
      TopReadable(pages, level[0], h, leaves, starts);
      if fit { GrownTree(pages, spans, level, h, space); }
    }

    // Replace the one page of an empty index by an index over sorted entries
    method LoadSorted(entries: seq<Entry>, ghost fit: bool) returns (ok: bool, ghost h: nat, ghost leaves: seq<PageId>)
      requires Numbered() && NULL_PAGE !in pages && pages.Keys == {root} && entries != [] && Sorted(entries)
      requires fit ==> StrictlySorted(entries)
      modifies this`pages, this`nextPage, this`spans, this`root
      ensures ok <==> AllFit(entries, space)
      ensures !ok ==> Contents(pages) == (set e | e in FitLeaves(entries, space))
      ensures ok ==> Numbered() && NULL_PAGE !in pages && root != NULL_PAGE && Contents(pages) == (set e | e in entries)
      ensures ok ==> Readable(pages, root, h, leaves) && Flatten(pages, leaves) == entries
      ensures ok && fit ==> SearchTree(pages, spans, root, space) && Packed(pages, spans, space)
      ensures ok ==> |leaves| == (|entries| + MAX_KEYS - 1) / MAX_KEYS && Shrunk(1, h, |leaves|)
      ensures ok ==> nextPage <= old(nextPage) + 2 * |leaves| && FullLeaves(pages, leaves)
    {
      var level, top;
      ok, level, leaves := LoadLeaves(entries, fit);
      h := 0;
      if !ok { return; }
      top, h := BuildLevels(level, leaves, fit);
      root := top;
    }

    // Fails exactly at a key that does not fit; the leaves before it are then on their pages, and no more. Keys may
    // repeat. If they do not, inserts can go on.
    method BulkLoadSorted(entries: seq<Entry>) returns (ok: bool, ghost h: nat, ghost leaves: seq<PageId>)
      requires Valid() && Contents(pages) == {} && (root == NULL_PAGE || pages.Keys == {root})
      requires Sorted(entries)
      modifies this
      ensures ok <==> AllFit(entries, space)
      ensures !ok ==> Contents(pages) == (set e | e in FitLeaves(entries, space))
      ensures ok ==> Numbered() && NULL_PAGE !in pages && root != NULL_PAGE && Contents(pages) == (set e | e in entries)
      ensures ok ==> Readable(pages, root, h, leaves) && Flatten(pages, leaves) == entries
      ensures ok && StrictlySorted(entries) ==> Valid() && (entries != [] ==> Packed(pages, spans, space))
      ensures ok ==> |leaves| == if entries == [] then 1 else (|entries| + MAX_KEYS - 1) / MAX_KEYS
      ensures ok ==> nextPage <= old(nextPage) + 2 * |leaves| + 1 && FullLeaves(pages, leaves) && Shrunk(1, h, |leaves|)
    {
      if root == NULL_PAGE { Create(); }
      hotLeaf, hotFirst, hotParent := NULL_PAGE, None, NULL_PAGE;
      if |entries| == 0 {
        h, leaves := 0, [root];
        EmptyReadable(pages, spans, root, space);
        return true, h, leaves;
      }
      ok, h, leaves := LoadSorted(entries, StrictlySorted(entries));
    }
  }

  ghost predicate AllFit(entries: seq<Entry>, space: int) {
    forall i :: 0 <= i < |entries| ==> 0 <= entries[i].key < space
  }

  // How many fit before the first that does not
  ghost function FitFront(entries: seq<Entry>, space: int): (n: nat)
    ensures n <= |entries| && AllFit(entries[..n], space)
    ensures n < |entries| ==> !(0 <= entries[n].key < space)
  {
    if entries == [] || !(0 <= entries[0].key < space) then 0
    else
      var n := FitFront(entries[1..], space) + 1;
      assert entries[..n] == [entries[0]] + entries[1..][..n - 1];
      n
  }

  // The leaves that are finished before the first key that does not fit
  ghost function FitLeaves(entries: seq<Entry>, space: int): seq<Entry> {
    var n := FitFront(entries, space);
    assert n / MAX_KEYS * MAX_KEYS <= n;
    entries[..n / MAX_KEYS * MAX_KEYS]
  }

  lemma StopsWithin(entries: seq<Entry>, space: int, pos: nat, count: nat)
    requires pos + count <= |entries| && count <= MAX_KEYS && pos % MAX_KEYS == 0
    requires AllFit(entries[..pos], space) && !AllFit(entries[pos..pos + count], space)
    ensures FitLeaves(entries, space) == entries[..pos]
  {
    var n := FitFront(entries, space);
    var i :| 0 <= i < count && !(0 <= entries[pos..pos + count][i].key < space);
    assert entries[pos + i] == entries[pos..pos + count][i];
    assert pos <= n <= pos + i;
  }

  lemma EmptyLeafHolds(pages: Pages, leaf: PageId)
    requires leaf in pages ==> pages.Keys == {leaf}
    ensures Contents(pages[leaf := Leaf([], NULL_PAGE)]) == if leaf in pages then {} else Contents(pages)
  {
    var pages' := pages[leaf := Leaf([], NULL_PAGE)];
    forall e | leaf !in pages ensures e in Contents(pages') <==> e in Contents(pages) {
      if e in Contents(pages) {
        var q :| q in pages && pages[q].Leaf? && e in pages[q].entries;
        InContents(pages', q, e);
      }
    }
  }

  // Half of what overflows: 58 entries are split 29 and 29, 58 keys 29 and 28
  ghost predicate HalfFull(n: Node) {
    if n.Leaf? then |n.entries| >= 29 else |n.keys| >= 28
  }

  ghost predicate NoSmaller(n: Node, n': Node) {
    n.Leaf? == n'.Leaf? && if n.Leaf? then |n'.entries| >= |n.entries| else |n'.keys| >= |n.keys|
  }

  // Every page but one is at least half full, or no smaller than it was
  ghost predicate KeptBut(pages: Pages, pages': Pages, but: PageId) {
    forall p :: p in pages' && p != but ==> HalfFull(pages'[p]) || (p in pages && NoSmaller(pages[p], pages'[p]))
  }

  ghost predicate Kept(pages: Pages, pages': Pages) {
    forall p :: p in pages' ==> HalfFull(pages'[p]) || (p in pages && NoSmaller(pages[p], pages'[p]))
  }

  lemma KeptTwice(a: Pages, b: Pages, c: Pages, but: PageId)
    requires Kept(a, b) && KeptBut(b, c, but)
    ensures KeptBut(a, c, but)
  {
  }

  // What is listed from the leaves is what the index holds
  lemma LeavesHold(pages: Pages, leaves: seq<PageId>)
    requires IsChain(pages, leaves) && forall p :: p in pages <==> p in leaves
    ensures forall e :: e in Contents(pages) <==> e in Flatten(pages, leaves)
  {
    ChainLeaves(pages, leaves);
    forall e ensures e in Contents(pages) <==> e in Flatten(pages, leaves) {
      if e in Flatten(pages, leaves) {
        var j := FlattenOrigin(pages, leaves, e);
        InContents(pages, leaves[j], e);
      }
      if e in Contents(pages) {
        var p :| p in pages && pages[p].Leaf? && e in pages[p].entries;
        var j :| 0 <= j < |leaves| && leaves[j] == p;
        FlattenAt(pages, leaves, j);
      }
    }
  }

  // A level of n pages, h levels up from `all` leaves
  ghost predicate Shrunk(n: nat, h: nat, all: nat)
    decreases h
  {
    if h == 0 then n == all
    else exists m: nat {:trigger PagesOver(m)} :: m > 1 && n == PagesOver(m) && Shrunk(m, h - 1, all)
  }

  // How many pages a level of m pages gets above it
  function PagesOver(m: nat): nat {
    (m + MAX_KEYS) / (MAX_KEYS + 1)
  }

  // There are few levels
  lemma {:induction false} ShrunkDepth(n: nat, h: nat, all: nat)
    requires Shrunk(n, h, all) && n >= 1
    ensures (n - 1) * Pow2(h) < all && (h == 0 || Pow2(h - 1) < all)
    decreases h
  {
    if h > 0 {
      var m: nat :| m > 1 && n == PagesOver(m) && Shrunk(m, h - 1, all);
      ShrunkDepth(m, h - 1, all);
      FewerPages(m, n, Pow2(h - 1), all);
    }
  }

  // One level up there is at most half of what there was besides the first page
  lemma FewerPages(n: nat, m: nat, p: nat, all: nat)
    requires 1 < n && m == (n + MAX_KEYS) / (MAX_KEYS + 1) && (n - 1) * p < all
    ensures p < all && (m - 1) * (2 * p) < all
  {
    assert 2 * (m - 1) <= n - 1;
    Times(1, n - 1, p);
    Times(2 * (m - 1), n - 1, p);
    assert (m - 1) * (2 * p) == 2 * (m - 1) * p;
  }

  lemma Times(a: int, b: int, c: nat)
    requires a <= b
    ensures a * c <= b * c
  {
  }
}
