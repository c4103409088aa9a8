/** Finding a leaf or a parent in a well-formed page graph. */
module BTreeDescent {
  import opened BTreeShape
  import opened Arithmetic

  ghost predicate IsParent(pages: Pages, root: PageId, parent: PageId, child: PageId) {
    if parent == NULL_PAGE then child == root
    else parent in pages && pages[parent].Internal? && child in pages[parent].kids
  }

  // Number of separators, from the left, that are not above the key
  function UpperIndex(keys: seq<int>, key: int): (i: nat)
    ensures i <= |keys|
  {
    if keys == [] || keys[0] > key then 0 else 1 + UpperIndex(keys[1..], key)
  }

  lemma {:induction false} UpperIndexUnique(keys: seq<int>, key: int, i: nat)
    requires i <= |keys|
    requires forall j :: 0 <= j < i ==> keys[j] <= key
    requires i < |keys| ==> key < keys[i]
    ensures UpperIndex(keys, key) == i
  {
    if i > 0 { UpperIndexUnique(keys[1..], key, i - 1); }
  }

  // A full descent of h levels from page p: the page reached and the page above it
  function Descend(pages: Pages, p: PageId, parent: PageId, key: int, h: nat): (PageId, PageId)
    decreases h
  {
    if h == 0 || p !in pages || pages[p].Leaf? || |pages[p].kids| != |pages[p].keys| + 1 then (p, parent)
    else Descend(pages, pages[p].kids[UpperIndex(pages[p].keys, key)], p, key, h - 1)
  }

  // Descending past the separators that are not above the key stays on the key
  lemma KidCovers(pages: Pages, spans: Spans, root: PageId, space: int, over: PageId, p: PageId, key: int, i: nat)
    requires Tree(pages, spans, spans, root, space, over)
    requires p in pages && pages[p].Internal? && Covers(spans[p], key)
    requires i <= |pages[p].keys|
    requires forall j :: 0 <= j < i ==> pages[p].keys[j] <= key
    requires forall j :: i <= j < |pages[p].keys| ==> key < pages[p].keys[j]
    ensures i < |pages[p].kids|
    ensures var kid := pages[p].kids[i];
            kid in pages && spans[kid].height + 1 == spans[p].height && Covers(spans[kid], key)
  {
    assert NodeOk(p, pages, spans, spans, space, over);
    assert KidOk(pages[p], spans[p], spans, i);
  }

  // Two pages of one height on the same key are one page
  lemma SamePage(pages: Pages, spans: Spans, root: PageId, space: int, over: PageId, p: PageId, q: PageId, key: int)
    requires Tree(pages, spans, spans, root, space, over)
    requires p in pages && q in pages && spans[p].height == spans[q].height
    requires Covers(spans[p], key) && Covers(spans[q], key)
    ensures p == q
  {
    assert p == q || Disjoint(spans[p], spans[q]);
  }

  // The leaf and the parent a key leads to are unique
  lemma OneParentId(pages: Pages, spans: Spans, root: PageId, space: int, over: PageId,
                    child: PageId, p: PageId, q: PageId)
    requires Tree(pages, spans, spans, root, space, over)
    requires child in pages
    requires IsParent(pages, root, p, child) && IsParent(pages, root, q, child)
    ensures p == q
  {
    if p != NULL_PAGE { NotRoot(pages, spans, root, space, over, p, child); }
    if q != NULL_PAGE { NotRoot(pages, spans, root, space, over, q, child); }
    if p != NULL_PAGE && q != NULL_PAGE {
      var i :| 0 <= i < |pages[p].kids| && pages[p].kids[i] == child;
      var j :| 0 <= j < |pages[q].kids| && pages[q].kids[j] == child;
      OneParent(pages, spans, spans, root, space, over, p, i, q, j);
    }
  }

  lemma NotRoot(pages: Pages, spans: Spans, root: PageId, space: int, over: PageId, p: PageId, child: PageId)
    requires Tree(pages, spans, spans, root, space, over)
    requires p in pages && pages[p].Internal? && child in pages[p].kids
    ensures child != root && child in pages && spans[p].height == spans[child].height + 1
    ensures spans[p].lo <= spans[child].lo < spans[child].hi <= spans[p].hi
  {
    var i :| 0 <= i < |pages[p].kids| && pages[p].kids[i] == child;
    assert NodeOk(p, pages, spans, spans, space, over) && RangeOk(spans[p], spans[root], space);
    assert KidOk(pages[p], spans[p], spans, i);
    assert RangeOk(spans[child], spans[root], space);
  }

  // Where a key belongs does not depend on how the leaf was found
  lemma DescendReaches(pages: Pages, spans: Spans, root: PageId, space: int, over: PageId,
                       p: PageId, parent: PageId, key: int, leaf: PageId, above: PageId)
    requires Tree(pages, spans, spans, root, space, over)
    requires p in pages && Covers(spans[p], key) && IsParent(pages, root, parent, p)
    requires leaf in pages && pages[leaf].Leaf? && Covers(spans[leaf], key) && IsParent(pages, root, above, leaf)
    ensures Descend(pages, p, parent, key, spans[p].height) == (leaf, above)
    decreases spans[p].height
  {
    assert NodeOk(p, pages, spans, spans, space, over) && NodeOk(leaf, pages, spans, spans, space, over);
    if pages[p].Leaf? {
      SamePage(pages, spans, root, space, over, p, leaf, key);
      OneParentId(pages, spans, root, space, over, leaf, parent, above);
    } else {
      var i := 0;
      while i < |pages[p].keys| && pages[p].keys[i] <= key
        invariant i <= |pages[p].keys| && forall j :: 0 <= j < i ==> pages[p].keys[j] <= key
      {
        i := i + 1;
      }
      UpperIndexUnique(pages[p].keys, key, i);
      KidCovers(pages, spans, root, space, over, p, key, i);
      DescendReaches(pages, spans, root, space, over, pages[p].kids[i], p, key, leaf, above);
    }
  }

  // ---------------------------------------------------------------------------
  // The path from the root to a page
  // ---------------------------------------------------------------------------

  // q lies strictly above `child` on the path from the root
  ghost predicate Above(spans: Spans, q: PageId, child: PageId)
    requires child in spans
  {
    q in spans && spans[q].height > spans[child].height && Covers(spans[q], spans[child].lo)
  }

  lemma RootAbove(pages: Pages, spans: Spans, root: PageId, space: int, over: PageId, child: PageId)
    requires Tree(pages, spans, spans, root, space, over) && child in pages && child != root
    ensures Above(spans, root, child)
  {
    assert RangeOk(spans[child], spans[root], space) && Disjoint(spans[child], spans[root]);
  }

  // The one child on the path: either the target itself or the next page above it
  lemma KidOnPath(pages: Pages, spans: Spans, root: PageId, space: int, over: PageId, q: PageId, child: PageId)
    returns (i: nat)
    requires Tree(pages, spans, spans, root, space, over)
    requires child in pages && q in pages && Above(spans, q, child)
    ensures pages[q].Internal? && |pages[q].kids| == |pages[q].keys| + 1
    ensures i < |pages[q].kids| && (pages[q].kids[i] == child || Above(spans, pages[q].kids[i], child))
    ensures forall k :: 0 <= k < |pages[q].kids| ==>
              pages[q].kids[k] in pages && spans[pages[q].kids[k]].height < spans[q].height
    ensures forall k :: 0 <= k < |pages[q].kids| && k != i ==> !Above(spans, pages[q].kids[k], child)
  {
    assert NodeOk(q, pages, spans, spans, space, over);
    var n, key := pages[q], spans[child].lo;
    i := 0;
    while i < |n.keys| && n.keys[i] <= key
      invariant i <= |n.keys| && forall j :: 0 <= j < i ==> n.keys[j] <= key
    {
      i := i + 1;
    }
    KidCovers(pages, spans, root, space, over, q, key, i);
    if spans[n.kids[i]].height == spans[child].height {
      assert RangeOk(spans[child], spans[root], space);
      SamePage(pages, spans, root, space, over, n.kids[i], child, key);
    }
    forall k | 0 <= k < |n.kids|
      ensures n.kids[k] in pages && spans[n.kids[k]].height < spans[q].height
      ensures k != i ==> !Above(spans, n.kids[k], child)
    {
      assert KidOk(n, spans[q], spans, k) && KidOk(n, spans[q], spans, i);
    }
  }

  // ---------------------------------------------------------------------------
  // Depth: internal pages away from the right edge have at least two subtrees
  // ---------------------------------------------------------------------------

  ghost function Pow2(n: nat): nat {
    if n == 0 then 1 else 2 * Pow2(n - 1)
  }

  lemma Pow2Monotone(a: nat, b: nat)
    requires a <= b
    ensures Pow2(a) <= Pow2(b)
    decreases b
  {
    if a < b { Pow2Monotone(a, b - 1); }
  }

  // The pages of the subtree below p
  ghost function Under(spans: Spans, p: PageId): set<PageId>
    requires p in spans
  {
    set q | q in spans && spans[q].height <= spans[p].height && spans[p].lo <= spans[q].lo && spans[q].hi <= spans[p].hi
  }

  // Away from the right edge every internal page has at least two children
  lemma SubtreeSize(pages: Pages, spans: Spans, root: PageId, space: int, p: PageId)
    requires SearchTree(pages, spans, root, space) && p in pages && spans[p].hi < space
    ensures Pow2(spans[p].height + 1) <= |Under(spans, p)| + 1
    decreases spans[p].height
  {
    if pages[p].Leaf? {
      LeafSize(pages, spans, root, space, p);
    } else {
      KidsApart(pages, spans, root, space, p);
      var k0, k1 := pages[p].kids[0], pages[p].kids[1];
      SubtreeSize(pages, spans, root, space, k0);
      SubtreeSize(pages, spans, root, space, k1);
      TwoAndOne(Under(spans, k0), Under(spans, k1), p, Under(spans, p));
    }
  }

  lemma LeafSize(pages: Pages, spans: Spans, root: PageId, space: int, p: PageId)
    requires SearchTree(pages, spans, root, space) && p in pages && pages[p].Leaf?
    ensures p in spans && spans[p].height == 0 && |Under(spans, p)| >= 1
  {
    assert NodeOk(p, pages, spans, spans, space, NULL_PAGE);
    SubsetSize({p}, Under(spans, p));
  }

  lemma TwoAndOne(a: set<PageId>, b: set<PageId>, p: PageId, all: set<PageId>)
    requires a !! b && p !in a + b && a + b + {p} <= all
    ensures |a| + |b| + 1 <= |all|
  {
    SubsetSize(a + b + {p}, all);
    assert |a + b + {p}| == |a| + |b| + 1;
  }

  // The first two children have separate pages under them
  lemma KidsApart(pages: Pages, spans: Spans, root: PageId, space: int, p: PageId)
    requires SearchTree(pages, spans, root, space) && p in pages && pages[p].Internal? && spans[p].hi < space
    ensures |pages[p].kids| >= 2 && pages[p].kids[0] in pages && pages[p].kids[1] in pages
    ensures p in spans && pages[p].kids[0] in spans && pages[p].kids[1] in spans
    ensures spans[pages[p].kids[0]].height == spans[pages[p].kids[1]].height == spans[p].height - 1
    ensures spans[pages[p].kids[0]].hi < space && spans[pages[p].kids[1]].hi < space
    ensures var a, b := Under(spans, pages[p].kids[0]), Under(spans, pages[p].kids[1]);
            a !! b && p !in a + b && a + b + {p} <= Under(spans, p)
  {
    assert NodeOk(p, pages, spans, spans, space, NULL_PAGE);
    var n := pages[p];
    assert KidOk(n, spans[p], spans, 0) && KidOk(n, spans[p], spans, 1);
    var a, b := Under(spans, n.kids[0]), Under(spans, n.kids[1]);
    forall q | q in a ensures q !in b { assert RangeOk(spans[q], spans[root], space); }
  }

  // A tree with h levels below its root has at least 2^h - 1 pages: the root has a child that does not lie on the right
  // edge
  lemma DepthBound(pages: Pages, spans: Spans, root: PageId, space: int, count: nat)
    requires SearchTree(pages, spans, root, space)
    requires forall p :: p in pages ==> p < count
    ensures Pow2(spans[root].height) <= count
  {
    assert NodeOk(root, pages, spans, spans, space, NULL_PAGE);
    if spans[root].height > 0 {
      assert KidOk(pages[root], spans[root], spans, 0);
      var kid := pages[root].kids[0];
      SubtreeSize(pages, spans, root, space, kid);
      SubsetSize(Under(spans, kid), pages.Keys);
      PageCount(pages.Keys, count - 1);
    }
  }

  lemma Pow2Of32()
    ensures Pow2(32) == 0x1_0000_0000 && Pow2(33) == 2 * Pow2(32)
  {
    assert Pow2(8) == 256;
    Pow2Of8(8);
    Pow2Of8(16);
    Pow2Of8(24);
  }

  lemma Pow2Of8(n: nat)
    ensures Pow2(n + 8) == 256 * Pow2(n)
  {
    assert Pow2(n + 8) == 2 * Pow2(n + 7) == 4 * Pow2(n + 6) == 8 * Pow2(n + 5) == 16 * Pow2(n + 4);
    assert Pow2(n + 4) == 2 * Pow2(n + 3) == 4 * Pow2(n + 2) == 8 * Pow2(n + 1) == 16 * Pow2(n);
  }

  lemma PageCount(ids: set<nat>, n: nat)
    requires forall p :: p in ids ==> 1 <= p <= n
    ensures |ids| <= n
    decreases n
  {
    if n == 0 {
      assert ids == {};
    } else {
      PageCount(ids - {n}, n - 1);
      assert n in ids ==> |ids| == |ids - {n}| + 1;
      assert n !in ids ==> ids == ids - {n};
    }
  }
}
