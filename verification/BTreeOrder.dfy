/** What a well-formed page graph means to a reader of the index: an in-order walk
    and the leaf chain both list every entry once, in key order. */
module BTreeOrder {
  import opened BTreeShape
  import opened BTreeDescent

  // In-order walk of the subtree of height h at p
  ghost function InOrder(pages: Pages, p: PageId, h: nat): seq<Entry>
    decreases h, 0
  {
    if p !in pages then []
    else match pages[p]
      case Leaf(es, _) => es
      case Internal(_, kids) => if h == 0 then [] else InOrderAll(pages, kids, h - 1)
  }

  ghost function InOrderAll(pages: Pages, kids: seq<PageId>, h: nat): seq<Entry>
    decreases h, |kids| + 1
  {
    if kids == [] then [] else InOrder(pages, kids[0], h) + InOrderAll(pages, kids[1..], h)
  }

  // The listing is strictly sorted and holds exactly the entries with keys in [lo, hi)
  ghost predicate Lists(pages: Pages, es: seq<Entry>, lo: int, hi: int) {
    && StrictlySorted(es)
    && (forall e :: e in es <==> e in Contents(pages) && lo <= e.key < hi)
    && (lo > 0 && lo < hi ==> es != [] && es[0].key == lo)
  }

  lemma ListsAppend(pages: Pages, xs: seq<Entry>, ys: seq<Entry>, lo: int, mid: int, hi: int)
    requires lo < mid <= hi && Lists(pages, xs, lo, mid) && Lists(pages, ys, mid, hi)
    ensures Lists(pages, xs + ys, lo, hi)
  {
    var zs := xs + ys;
    forall i, j | 0 <= i < j < |zs| ensures zs[i].key < zs[j].key {
      if i < |xs| <= j {
        assert zs[i] in xs && zs[j] in ys;
      }
    }
    assert forall e :: e in zs <==> e in xs || e in ys;
  }

  lemma ListsNothing(pages: Pages, at: int)
    ensures Lists(pages, [], at, at)
  {
  }

  // A leaf holds every entry of its range
  lemma LeafLists(pages: Pages, spans: Spans, root: PageId, space: int, p: PageId)
    requires SearchTree(pages, spans, root, space) && p in pages && pages[p].Leaf?
    ensures Lists(pages, pages[p].entries, spans[p].lo, spans[p].hi)
  {
    assert NodeOk(p, pages, spans, spans, space, NULL_PAGE);
    var es := pages[p].entries;
    forall e | e in es ensures e in Contents(pages) && Covers(spans[p], e.key) {
      InContents(pages, p, e);
    }
    forall e | e in Contents(pages) && Covers(spans[p], e.key) ensures e in es {
      var q :| q in pages && pages[q].Leaf? && e in pages[q].entries;
      assert NodeOk(q, pages, spans, spans, space, NULL_PAGE);
      SamePage(pages, spans, root, space, NULL_PAGE, p, q, e.key);
    }
  }

  lemma InOrderLists(pages: Pages, spans: Spans, root: PageId, space: int, p: PageId)
    requires SearchTree(pages, spans, root, space) && p in pages
    ensures Lists(pages, InOrder(pages, p, spans[p].height), spans[p].lo, spans[p].hi)
    decreases spans[p].height, MAX_KEYS + 2
  {
    assert NodeOk(p, pages, spans, spans, space, NULL_PAGE);
    if pages[p].Leaf? {
      LeafLists(pages, spans, root, space, p);
    } else {
      InOrderKidsLists(pages, spans, root, space, p, 0);
      assert pages[p].kids[0..] == pages[p].kids;
    }
  }

  lemma InOrderKidsLists(pages: Pages, spans: Spans, root: PageId, space: int, p: PageId, i: nat)
    requires SearchTree(pages, spans, root, space) && p in pages && pages[p].Internal?
    requires InternalOk(pages[p], spans[p], spans, MAX_KEYS) && i <= |pages[p].kids|
    ensures Lists(pages, InOrderAll(pages, pages[p].kids[i..], spans[p].height - 1),
                  Boundary(pages[p].keys, spans[p], i), spans[p].hi)
    decreases spans[p].height, |pages[p].kids| - i
  {
    var n, s := pages[p], spans[p];
    if i == |n.kids| {
      ListsNothing(pages, s.hi);
    } else {
      assert KidOk(n, s, spans, i) && RangeOk(spans[n.kids[i]], spans[root], space);
      InOrderLists(pages, spans, root, space, n.kids[i]);
      InOrderKidsLists(pages, spans, root, space, p, i + 1);
      assert n.kids[i..][1..] == n.kids[i + 1..];
      ListsAppend(pages, InOrder(pages, n.kids[i], s.height - 1), InOrderAll(pages, n.kids[i + 1..], s.height - 1),
                  Boundary(n.keys, s, i), Boundary(n.keys, s, i + 1), s.hi);
    }
  }

  // A listing is determined by what it lists
  lemma {:induction false} ListsUnique(pages: Pages, xs: seq<Entry>, ys: seq<Entry>, lo: int, hi: int)
    requires Lists(pages, xs, lo, hi) && Lists(pages, ys, lo, hi)
    ensures xs == ys
  {
    SortedUnique(xs, ys);
  }

  lemma {:induction false} SortedUnique(xs: seq<Entry>, ys: seq<Entry>)
    requires StrictlySorted(xs) && StrictlySorted(ys)
    requires forall e :: e in xs <==> e in ys
    ensures xs == ys
  {
    assert (xs != [] ==> xs[0] in ys) && (ys != [] ==> ys[0] in xs);
    if xs != [] && ys != [] {
      forall e ensures e in xs[1..] <==> e in ys[1..] {
        if e in xs[1..] { assert e in xs && e in ys && e.key > xs[0].key; }
        if e in ys[1..] { assert e in ys && e in xs && e.key > ys[0].key; }
      }
      SortedUnique(xs[1..], ys[1..]);
    }
  }

  // ---------------------------------------------------------------------------
  // The leaf chain
  // ---------------------------------------------------------------------------

  // Leaf i of the chain points to leaf i + 1, the last one to nothing, and none repeats
  ghost predicate ChainLink(pages: Pages, leaves: seq<PageId>, i: nat)
    requires i < |leaves|
  {
    && leaves[i] in pages && pages[leaves[i]].Leaf?
    && pages[leaves[i]].next == (if i + 1 < |leaves| then leaves[i + 1] else NULL_PAGE)
    && leaves[i] !in leaves[..i]
  }

  // The pages reached from the first one by following next pointers to the end
  ghost predicate IsChain(pages: Pages, leaves: seq<PageId>) {
    forall i {:trigger ChainLink(pages, leaves, i)} :: 0 <= i < |leaves| ==> ChainLink(pages, leaves, i)
  }

  ghost function Flatten(pages: Pages, leaves: seq<PageId>): seq<Entry> {
    if leaves == [] then []
    else (if leaves[0] in pages && pages[leaves[0]].Leaf? then pages[leaves[0]].entries else [])
         + Flatten(pages, leaves[1..])
  }

  // One leaf in front of a chain
  lemma ChainCons(pages: Pages, p: PageId, rest: seq<PageId>)
    requires p in pages && pages[p].Leaf? && rest != [] && IsChain(pages, rest)
    requires pages[p].next == rest[0] && p !in rest
    ensures IsChain(pages, [p] + rest) && Flatten(pages, [p] + rest) == pages[p].entries + Flatten(pages, rest)
  {
    var leaves := [p] + rest;
    assert leaves[1..] == rest;
    forall i | 0 <= i < |leaves| ensures ChainLink(pages, leaves, i) {
      if i > 0 {
        assert ChainLink(pages, rest, i - 1);
        assert leaves[..i] == [p] + rest[..i - 1];
      }
    }
  }

  lemma ChainLists(pages: Pages, spans: Spans, root: PageId, space: int, p: PageId) returns (leaves: seq<PageId>)
    requires SearchTree(pages, spans, root, space) && p in pages && pages[p].Leaf?
    ensures leaves != [] && leaves[0] == p && IsChain(pages, leaves)
    ensures Lists(pages, Flatten(pages, leaves), spans[p].lo, space)
    ensures forall i :: 0 <= i < |leaves| ==> leaves[i] in pages && spans[leaves[i]].lo >= spans[p].lo
    decreases space - spans[p].lo
  {
    assert NodeOk(p, pages, spans, spans, space, NULL_PAGE) && RangeOk(spans[p], spans[root], space);
    LeafLists(pages, spans, root, space, p);
    if spans[p].hi == space {
      leaves := [p];
      assert ChainLink(pages, leaves, 0);
      assert Flatten(pages, leaves) == pages[p].entries + Flatten(pages, []);
      assert pages[p].entries + [] == pages[p].entries;
    } else {
      var next := pages[p].next;
      assert NodeOk(next, pages, spans, spans, space, NULL_PAGE) && RangeOk(spans[next], spans[root], space);
      var rest := ChainLists(pages, spans, root, space, next);
      leaves := [p] + rest;
      ChainCons(pages, p, rest);
      ListsAppend(pages, pages[p].entries, Flatten(pages, rest), spans[p].lo, spans[p].hi, space);
    }
  }

  // The leftmost leaf, where every chain scan from the start begins
  lemma LeftmostLeaf(pages: Pages, spans: Spans, root: PageId, space: int, p: PageId) returns (leaf: PageId)
    requires SearchTree(pages, spans, root, space) && p in pages && spans[p].lo == 0
    ensures leaf in pages && pages[leaf].Leaf? && spans[leaf].lo == 0
    ensures leaf == Leftmost(pages, p, spans[p].height)
    decreases spans[p].height
  {
    assert NodeOk(p, pages, spans, spans, space, NULL_PAGE);
    if pages[p].Leaf? {
      leaf := p;
    } else {
      assert KidOk(pages[p], spans[p], spans, 0);
      leaf := LeftmostLeaf(pages, spans, root, space, pages[p].kids[0]);
    }
  }

  ghost function Leftmost(pages: Pages, p: PageId, h: nat): PageId
    decreases h
  {
    if h == 0 || p !in pages || pages[p].Leaf? || pages[p].kids == [] then p
    else Leftmost(pages, pages[p].kids[0], h - 1)
  }

  // ---------------------------------------------------------------------------
  // The whole picture
  // ---------------------------------------------------------------------------

  // All leaves h levels below p, no page over its limit, each separator the smallest key to its right, and at least
  // two children everywhere but on the last page of a level; `last` says that p is one, `top` that it is the root
  ghost predicate Balanced(pages: Pages, p: PageId, h: nat, last: bool, top: bool)
    decreases h
  {
    p in pages &&
    match pages[p]
    case Leaf(es, _) => h == 0 && |es| <= MAX_KEYS
    case Internal(keys, kids) =>
      && h > 0
      && (|keys| >= 1 || (last && !top)) && |keys| <= MAX_KEYS && |kids| == |keys| + 1
      && (forall i :: 0 <= i < |kids| ==> Balanced(pages, kids[i], h - 1, last && i == |kids| - 1, false))
      && (forall i :: 0 <= i < |keys| ==> StartsWith(InOrder(pages, kids[i + 1], h - 1), keys[i]))
  }

  ghost predicate StartsWith(es: seq<Entry>, key: int) {
    es != [] && es[0].key == key
  }

  lemma SearchTreeBalanced(pages: Pages, spans: Spans, root: PageId, space: int, p: PageId)
    requires SearchTree(pages, spans, root, space) && p in pages
    ensures Balanced(pages, p, spans[p].height, spans[p].hi == space, spans[p].lo == 0 && spans[p].hi == space)
    ensures Balanced(pages, p, spans[p].height, spans[p].hi == space, false)
    decreases spans[p].height
  {
    assert NodeOk(p, pages, spans, spans, space, NULL_PAGE);
    if pages[p].Internal? {
      var n, s := pages[p], spans[p];
      forall i | 0 <= i < |n.kids|
        ensures Balanced(pages, n.kids[i], s.height - 1, s.hi == space && i == |n.kids| - 1, false)
      {
        assert KidOk(n, s, spans, i) && RangeOk(s, spans[root], space);
        SearchTreeBalanced(pages, spans, root, space, n.kids[i]);
      }
      forall i | 0 <= i < |n.keys|
        ensures StartsWith(InOrder(pages, n.kids[i + 1], s.height - 1), n.keys[i])
      {
        assert KidOk(n, s, spans, i + 1) && RangeOk(s, spans[root], space);
        assert RangeOk(spans[n.kids[i + 1]], spans[root], space);
        InOrderLists(pages, spans, root, space, n.kids[i + 1]);
      }
    }
  }

  // An index in order: balanced, and both the in-order walk and the leaf chain list
  // exactly its contents in strictly ascending key order
  lemma SearchTreeMeaning(pages: Pages, spans: Spans, root: PageId, space: int) returns (leaves: seq<PageId>)
    requires SearchTree(pages, spans, root, space)
    ensures Balanced(pages, root, spans[root].height, true, true)
    ensures leaves != [] && leaves[0] == Leftmost(pages, root, spans[root].height) && IsChain(pages, leaves)
    ensures Flatten(pages, leaves) == InOrder(pages, root, spans[root].height)
    ensures StrictlySorted(Flatten(pages, leaves))
    ensures forall e :: e in Flatten(pages, leaves) <==> e in Contents(pages)
  {
    SearchTreeBalanced(pages, spans, root, space, root);
    var first := LeftmostLeaf(pages, spans, root, space, root);
    leaves := ChainLists(pages, spans, root, space, first);
    InOrderLists(pages, spans, root, space, root);
    ListsUnique(pages, Flatten(pages, leaves), InOrder(pages, root, spans[root].height), 0, space);
    forall e | e in Contents(pages) ensures 0 <= e.key < space {
      var p :| p in pages && pages[p].Leaf? && e in pages[p].entries;
      assert NodeOk(p, pages, spans, spans, space, NULL_PAGE) && RangeOk(spans[p], spans[root], space);
    }
  }
}
