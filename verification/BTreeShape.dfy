/** The page graph of the B+ tree index, and what every structural step keeps.

    A key stands for its rank among the keys that fit an index slot: a slot holds
    128 bytes, so these are finitely many, and the tree only ever compares them.
    `space` is their number; 0 <= key < space. */
module BTreeShape {

  type PageId = nat

  // kNullPageId; page number 0 is the meta page and never a node
  const NULL_PAGE: PageId := 0

  // kIndexMaxKeys: one less than the number of slots an 8 KB page can hold
  const MAX_KEYS: nat := 57

  // kMaxPageChainHops
  const MAX_HOPS: nat := 1_000_000

  datatype Rid = Rid(page: nat, slot: nat)

  datatype Entry = Entry(key: int, rid: Rid)

  datatype Node =
    | Leaf(entries: seq<Entry>, next: PageId)
    | Internal(keys: seq<int>, kids: seq<PageId>)

  // The subtree below a page: its height above the leaves and its key range [lo, hi)
  datatype Span = Span(height: nat, lo: int, hi: int)

  type Pages = map<PageId, Node>
  type Spans = map<PageId, Span>

  ghost predicate StrictlySorted(es: seq<Entry>) {
    forall i, j :: 0 <= i < j < |es| ==> es[i].key < es[j].key
  }

  // The i-th boundary of an internal node with separators `keys` and range `s`
  ghost function Boundary(keys: seq<int>, s: Span, i: int): int
    requires 0 <= i <= |keys| + 1
  {
    if i == 0 then s.lo else if i == |keys| + 1 then s.hi else keys[i - 1]
  }

  ghost predicate LeafOk(n: Node, s: Span, spans: Spans, space: int, cap: nat)
    requires n.Leaf?
  {
    && s.height == 0
    && |n.entries| <= cap
    && StrictlySorted(n.entries)
    && (forall i :: 0 <= i < |n.entries| ==> s.lo <= n.entries[i].key < s.hi)
    && (s.lo > 0 ==> |n.entries| > 0 && n.entries[0].key == s.lo)
    && (s.hi == space ==> n.next == NULL_PAGE)
    && (s.hi < space ==> n.next in spans && spans[n.next].height == 0 && spans[n.next].lo == s.hi)
  }

  // Child i lives between boundaries i and i + 1, one level down
  ghost predicate KidOk(n: Node, s: Span, below: Spans, i: nat)
    requires n.Internal? && |n.kids| == |n.keys| + 1 && i < |n.kids| && s.height > 0
  {
    && n.kids[i] in below
    && below[n.kids[i]] == Span(s.height - 1, Boundary(n.keys, s, i), Boundary(n.keys, s, i + 1))
  }

  // `below` gives the ranges the node attributes to its children
  ghost predicate InternalOk(n: Node, s: Span, below: Spans, cap: nat)
    requires n.Internal?
  {
    && s.height > 0
    && |n.keys| <= cap
    && |n.kids| == |n.keys| + 1
    && (forall i, j :: 0 <= i < j < |n.keys| ==> n.keys[i] < n.keys[j])
    && (forall i :: 0 <= i < |n.keys| ==> s.lo < n.keys[i] < s.hi)
    && (forall i {:trigger KidOk(n, s, below, i)} :: 0 <= i < |n.kids| ==> KidOk(n, s, below, i))
  }

  // Only the last page of a level that is not the root may have a single child; bulk loading leaves such pages
  ghost predicate Branches(n: Node, s: Span, space: int)
    requires n.Internal?
  {
    |n.keys| >= 1 || (s.lo > 0 && s.hi == space)
  }

  ghost predicate NodeOk(p: PageId, pages: Pages, spans: Spans, below: Spans, space: int, over: PageId)
    requires p in pages && p in spans
  {
    var cap := if p == over then MAX_KEYS + 1 else MAX_KEYS;
    match pages[p]
    case Leaf(_, _) => LeafOk(pages[p], spans[p], spans, space, cap)
    case Internal(_, _) => InternalOk(pages[p], spans[p], below, cap) && Branches(pages[p], spans[p], space)
  }

  ghost predicate Disjoint(s: Span, t: Span) {
    s.height == t.height ==> s.hi <= t.lo || t.hi <= s.lo
  }

  ghost predicate AllDisjoint(spans: Spans) {
    forall p, q {:trigger Disjoint(spans[p], spans[q])} :: p in spans && q in spans && p != q ==>
      Disjoint(spans[p], spans[q])
  }

  ghost predicate RangeOk(s: Span, top: Span, space: int) {
    0 <= s.lo < s.hi <= space && s.height <= top.height
  }

  // The pages form a balanced search tree with a leaf chain. `below` differs from
  // `spans` only while a split page is not yet linked from its parent; `over` is
  // the page allowed to hold one key too many, or NULL_PAGE.
  ghost predicate Tree(pages: Pages, spans: Spans, below: Spans, root: PageId, space: int, over: PageId) {
    && spans.Keys == pages.Keys
    && NULL_PAGE !in pages
    && root in below && root in pages
    && below[root].lo == 0 && below[root].hi == space
    && below.Keys <= pages.Keys
    && (forall p {:trigger RangeOk(spans[p], below[root], space)} :: p in spans ==>
          RangeOk(spans[p], below[root], space))
    && AllDisjoint(spans)
    && (forall p {:trigger NodeOk(p, pages, spans, below, space, over)} :: p in pages ==>
          NodeOk(p, pages, spans, below, space, over))
  }

  // The tree between two calls: every page within its limit, every child linked
  ghost predicate SearchTree(pages: Pages, spans: Spans, root: PageId, space: int) {
    Tree(pages, spans, spans, root, space, NULL_PAGE)
  }

  // What the index holds
  ghost function Contents(pages: Pages): set<Entry> {
    set p, e | p in pages && pages[p].Leaf? && e in pages[p].entries :: e
  }

  lemma InContents(pages: Pages, p: PageId, e: Entry)
    requires p in pages && pages[p].Leaf? && e in pages[p].entries
    ensures e in Contents(pages)
  {
  }

  ghost predicate Covers(s: Span, key: int) {
    s.lo <= key < s.hi
  }

  // The page after `left` was split at `key` is not yet linked: above the split
  // the old range of `left` is still in force.
  ghost predicate Unlinked(pages: Pages, spans: Spans, below: Spans, root: PageId, space: int,
                           key: int, left: PageId, right: PageId)
  {
    && Tree(pages, spans, below, root, space, NULL_PAGE)
    && left in below && right in spans && right !in below && left != right && right != root
    && below.Keys == pages.Keys - {right}
    && spans[left] == below[left].(hi := key)
    && spans[right] == below[left].(lo := key)
    && (forall p :: p in below && p != left ==> spans[p] == below[p])
  }

  // ---------------------------------------------------------------------------
  // insert_into_leaf
  // ---------------------------------------------------------------------------

  function InsertAt<T>(s: seq<T>, i: nat, x: T): seq<T>
    requires i <= |s|
  {
    s[..i] + [x] + s[i..]
  }

  lemma LeafInsertOk(n: Node, s: Span, spans: Spans, space: int, pos: nat, e: Entry)
    requires n.Leaf? && LeafOk(n, s, spans, space, MAX_KEYS) && Covers(s, e.key)
    requires pos <= |n.entries|
    requires forall i :: 0 <= i < pos ==> n.entries[i].key < e.key
    requires forall i :: pos <= i < |n.entries| ==> e.key < n.entries[i].key
    ensures LeafOk(n.(entries := InsertAt(n.entries, pos, e)), s, spans, space, MAX_KEYS + 1)
  {
    var es' := InsertAt(n.entries, pos, e);
    assert forall i :: 0 <= i < |es'| ==>
      es'[i] == if i < pos then n.entries[i] else if i == pos then e else n.entries[i - 1];
  }

  lemma LeafInsertContents(pages: Pages, leaf: PageId, pos: nat, e: Entry)
    requires leaf in pages && pages[leaf].Leaf? && pos <= |pages[leaf].entries|
    ensures Contents(pages[leaf := pages[leaf].(entries := InsertAt(pages[leaf].entries, pos, e))])
            == Contents(pages) + {e}
  {
    var es := pages[leaf].entries;
    var es' := InsertAt(es, pos, e);
    var pages' := pages[leaf := pages[leaf].(entries := es')];
    assert es == es[..pos] + es[pos..];
    assert forall x :: x in es' <==> x in es || x == e;
    forall x ensures x in Contents(pages') <==> x in Contents(pages) + {e} {
      if x in Contents(pages) {
        var p :| p in pages && pages[p].Leaf? && x in pages[p].entries;
        assert p in pages' && pages'[p].Leaf? && x in pages'[p].entries;
      }
      if x == e { assert leaf in pages' && pages'[leaf].Leaf? && x in pages'[leaf].entries; }
      if x in Contents(pages') {
        var p :| p in pages' && pages'[p].Leaf? && x in pages'[p].entries;
        if p == leaf && x != e { assert x in pages[leaf].entries; }
      }
    }
  }

  lemma InsertIntoLeafKeepsTree(pages: Pages, spans: Spans, root: PageId, space: int,
                                leaf: PageId, pos: nat, e: Entry)
    requires SearchTree(pages, spans, root, space)
    requires leaf in pages && pages[leaf].Leaf? && Covers(spans[leaf], e.key)
    requires pos <= |pages[leaf].entries|
    requires forall i :: 0 <= i < pos ==> pages[leaf].entries[i].key < e.key
    requires forall i :: pos <= i < |pages[leaf].entries| ==> e.key < pages[leaf].entries[i].key
    ensures var pages' := pages[leaf := pages[leaf].(entries := InsertAt(pages[leaf].entries, pos, e))];
            Tree(pages', spans, spans, root, space, leaf)
  {
    var pages' := pages[leaf := pages[leaf].(entries := InsertAt(pages[leaf].entries, pos, e))];
    assert NodeOk(leaf, pages, spans, spans, space, NULL_PAGE);
    LeafInsertOk(pages[leaf], spans[leaf], spans, space, pos, e);
    forall p | p in pages' ensures NodeOk(p, pages', spans, spans, space, leaf) {
      if p != leaf { assert NodeOk(p, pages, spans, spans, space, NULL_PAGE); }
    }
  }

  // ---------------------------------------------------------------------------
  // split_leaf
  // ---------------------------------------------------------------------------

  // Cutting the range of `p` at `key` and giving the upper part to a new page
  ghost function CutSpan(spans: Spans, p: PageId, key: int, newId: PageId): Spans
    requires p in spans
  {
    spans[p := spans[p].(hi := key)][newId := spans[p].(lo := key)]
  }

  lemma CutSpanKeepsDisjoint(spans: Spans, p: PageId, key: int, newId: PageId)
    requires p in spans && newId !in spans && spans[p].lo < key < spans[p].hi
    requires AllDisjoint(spans)
    ensures AllDisjoint(CutSpan(spans, p, key, newId))
  {
    var spans' := CutSpan(spans, p, key, newId);
    forall a, b | a in spans' && b in spans' && a != b ensures Disjoint(spans'[a], spans'[b]) {
      var a0 := if a == newId then p else a;
      var b0 := if b == newId then p else b;
      if a0 != b0 { assert Disjoint(spans[a0], spans[b0]); }
    }
  }

  lemma CutSpanKeepsRanges(spans: Spans, p: PageId, key: int, newId: PageId, top: Span, space: int)
    requires p in spans && newId !in spans && spans[p].lo < key < spans[p].hi
    requires forall q {:trigger RangeOk(spans[q], top, space)} :: q in spans ==> RangeOk(spans[q], top, space)
    ensures var spans' := CutSpan(spans, p, key, newId);
            forall q {:trigger RangeOk(spans'[q], top, space)} :: q in spans' ==> RangeOk(spans'[q], top, space)
  {
    var spans' := CutSpan(spans, p, key, newId);
    assert RangeOk(spans[p], top, space);
    forall q | q in spans' ensures RangeOk(spans'[q], top, space) {
      if q in spans { assert RangeOk(spans[q], top, space); }
    }
  }

  lemma LeafSplitOk(n: Node, s: Span, spans: Spans, space: int, mid: nat, p: PageId, newId: PageId)
    requires n.Leaf? && LeafOk(n, s, spans, space, MAX_KEYS + 1)
    requires 0 < mid < |n.entries| && mid == |n.entries| / 2
    requires p in spans && spans[p] == s && s.hi <= space && newId !in spans
    ensures var key := n.entries[mid].key;
            var spans' := CutSpan(spans, p, key, newId);
            && s.lo < key < s.hi
            && LeafOk(Leaf(n.entries[..mid], newId), s.(hi := key), spans', space, MAX_KEYS)
            && LeafOk(Leaf(n.entries[mid..], n.next), s.(lo := key), spans', space, MAX_KEYS)
  {
    assert n.entries[0].key < n.entries[mid].key;
  }

  // A page that was not touched stays in order: cutting a range moves no lower bound
  lemma CutSpanFrame(p: PageId, pages: Pages, pages': Pages, spans: Spans, cut: PageId, key: int,
                     newId: PageId, space: int, over: PageId)
    requires p in pages && p in pages' && pages[p] == pages'[p]
    requires p in spans && cut in spans && newId !in spans && p != cut && p != over
    requires NodeOk(p, pages, spans, spans, space, over)
    ensures NodeOk(p, pages', CutSpan(spans, cut, key, newId), spans, space, NULL_PAGE)
  {
  }

  lemma SplitLeafKeepsTree(pages: Pages, spans: Spans, root: PageId, space: int,
                           leaf: PageId, newId: PageId)
    requires Tree(pages, spans, spans, root, space, leaf)
    requires leaf in pages && pages[leaf].Leaf? && |pages[leaf].entries| == MAX_KEYS + 1
    requires newId !in pages && newId != NULL_PAGE
    ensures var es, mid := pages[leaf].entries, |pages[leaf].entries| / 2;
            var key := es[mid].key;
            var pages' := pages[leaf := Leaf(es[..mid], newId)][newId := Leaf(es[mid..], pages[leaf].next)];
            Unlinked(pages', CutSpan(spans, leaf, key, newId), spans, root, space, key, leaf, newId)
  {
    var es, mid := pages[leaf].entries, |pages[leaf].entries| / 2;
    var key := es[mid].key;
    var pages' := pages[leaf := Leaf(es[..mid], newId)][newId := Leaf(es[mid..], pages[leaf].next)];
    var spans' := CutSpan(spans, leaf, key, newId);
    assert NodeOk(leaf, pages, spans, spans, space, leaf) && RangeOk(spans[leaf], spans[root], space);
    LeafSplitOk(pages[leaf], spans[leaf], spans, space, mid, leaf, newId);
    CutSpanKeepsDisjoint(spans, leaf, key, newId);
    CutSpanKeepsRanges(spans, leaf, key, newId, spans[root], space);
    forall p | p in pages' ensures NodeOk(p, pages', spans', spans, space, NULL_PAGE) {
      if p != leaf && p != newId { CutSpanFrame(p, pages, pages', spans, leaf, key, newId, space, leaf); }
    }
  }

  lemma SplitLeafKeepsContents(pages: Pages, leaf: PageId, newId: PageId, mid: nat)
    requires leaf in pages && pages[leaf].Leaf? && mid <= |pages[leaf].entries|
    requires newId !in pages
    ensures var es := pages[leaf].entries;
            Contents(pages[leaf := Leaf(es[..mid], newId)][newId := Leaf(es[mid..], pages[leaf].next)])
              == Contents(pages)
  {
    var es := pages[leaf].entries;
    var pages' := pages[leaf := Leaf(es[..mid], newId)][newId := Leaf(es[mid..], pages[leaf].next)];
    assert es == es[..mid] + es[mid..];
    forall x ensures x in Contents(pages') <==> x in Contents(pages) {
      if x in Contents(pages) {
        var p :| p in pages && pages[p].Leaf? && x in pages[p].entries;
        var q := if p == leaf && x !in es[..mid] then newId else p;
        assert q in pages' && pages'[q].Leaf? && x in pages'[q].entries;
      }
      if x in Contents(pages') {
        var p :| p in pages' && pages'[p].Leaf? && x in pages'[p].entries;
        var q := if p == newId then leaf else p;
        assert q in pages && pages[q].Leaf? && x in pages[q].entries;
      }
    }
  }

  // ---------------------------------------------------------------------------
  // insert_into_parent
  // ---------------------------------------------------------------------------

  // No parent: the split page was the root and a new root is put above the two halves
  lemma NewRootKeepsTree(pages: Pages, spans: Spans, below: Spans, root: PageId, space: int,
                         key: int, right: PageId, newId: PageId)
    requires Unlinked(pages, spans, below, root, space, key, root, right)
    requires newId !in pages && newId != NULL_PAGE
    ensures SearchTree(pages[newId := Internal([key], [root, right])],
                       spans[newId := Span(below[root].height + 1, 0, space)], newId, space)
  {
    var n := Internal([key], [root, right]);
    var top := Span(below[root].height + 1, 0, space);
    var pages' := pages[newId := n];
    var spans' := spans[newId := top];
    assert RangeOk(spans[root], below[root], space) && RangeOk(spans[right], below[root], space);
    assert InternalOk(n, top, spans', MAX_KEYS) by {
      assert KidOk(n, top, spans', 0) && KidOk(n, top, spans', 1);
    }
    forall p | p in pages' ensures NodeOk(p, pages', spans', spans', space, NULL_PAGE) {
      if p != newId { UnderNewRootFrame(p, pages, spans, below, root, space, key, right, newId); }
    }
    forall p | p in spans' ensures RangeOk(spans'[p], top, space) {
      if p != newId { assert RangeOk(spans[p], below[root], space); }
    }
    forall p, q | p in spans' && q in spans' && p != q ensures Disjoint(spans'[p], spans'[q]) {
      if p != newId { assert RangeOk(spans[p], below[root], space); }
      if q != newId { assert RangeOk(spans[q], below[root], space); }
      if p != newId && q != newId { assert Disjoint(spans[p], spans[q]); }
    }
  }

  lemma UnderNewRootFrame(p: PageId, pages: Pages, spans: Spans, below: Spans, root: PageId, space: int,
                          key: int, right: PageId, newId: PageId)
    requires Unlinked(pages, spans, below, root, space, key, root, right)
    requires newId !in pages && p in pages
    ensures var pages' := pages[newId := Internal([key], [root, right])];
            var spans' := spans[newId := Span(below[root].height + 1, 0, space)];
            NodeOk(p, pages', spans', spans', space, NULL_PAGE)
  {
    assert NodeOk(p, pages, spans, below, space, NULL_PAGE) && RangeOk(spans[p], below[root], space);
    if pages[p].Internal? {
      var n, spans' := pages[p], spans[newId := Span(below[root].height + 1, 0, space)];
      forall i | 0 <= i < |n.kids| ensures KidOk(n, spans[p], spans', i) {
        assert KidOk(n, spans[p], below, i);
      }
    }
  }

  // A parent that has room: the separator goes where `left` hangs, the new page right after it
  ghost function Linked(n: Node, i: nat, key: int, right: PageId): Node
    requires n.Internal? && i <= |n.keys| && i + 1 <= |n.kids|
  {
    Internal(InsertAt(n.keys, i, key), InsertAt(n.kids, i + 1, right))
  }

  lemma LinkedKeysSorted(n: Node, s: Span, below: Spans, i: nat, key: int)
    requires n.Internal? && InternalOk(n, s, below, MAX_KEYS)
    requires i < |n.kids|
    requires Boundary(n.keys, s, i) < key < Boundary(n.keys, s, i + 1)
    ensures forall a, b :: 0 <= a < b < |InsertAt(n.keys, i, key)| ==>
              InsertAt(n.keys, i, key)[a] < InsertAt(n.keys, i, key)[b]
    ensures forall a :: 0 <= a < |InsertAt(n.keys, i, key)| ==> s.lo < InsertAt(n.keys, i, key)[a] < s.hi
  {
    var keys' := InsertAt(n.keys, i, key);
    assert forall k :: 0 <= k < |keys'| ==>
      keys'[k] == if k < i then n.keys[k] else if k == i then key else n.keys[k - 1];
  }

  lemma LinkedKidOk(n: Node, s: Span, spans: Spans, below: Spans, i: nat, key: int, right: PageId, k: nat)
    requires n.Internal? && InternalOk(n, s, below, MAX_KEYS)
    requires i < |n.kids| && k <= |n.kids|
    requires Boundary(n.keys, s, i) < key < Boundary(n.keys, s, i + 1)
    requires n.kids[i] in below && n.kids[i] in spans && right in spans && right !in below
    requires spans[n.kids[i]] == below[n.kids[i]].(hi := key) && spans[right] == below[n.kids[i]].(lo := key)
    requires forall p :: p in below && p != n.kids[i] ==> p in spans && spans[p] == below[p]
    ensures KidOk(Linked(n, i, key, right), s, spans, k)
  {
    var n' := Linked(n, i, key, right);
    assert KidOk(n, s, below, i);
    assert forall j :: 0 <= j < |n'.keys| ==>
      n'.keys[j] == if j < i then n.keys[j] else if j == i then key else n.keys[j - 1];
    if k < i {
      assert n'.kids[k] == n.kids[k] && KidOk(n, s, below, k);
    } else if k > i + 1 {
      assert n'.kids[k] == n.kids[k - 1] && KidOk(n, s, below, k - 1);
    }
  }

  lemma LinkedOk(n: Node, s: Span, spans: Spans, below: Spans, i: nat, key: int, right: PageId)
    requires n.Internal? && InternalOk(n, s, below, MAX_KEYS)
    requires i < |n.kids|
    requires n.kids[i] in below && n.kids[i] in spans && right in spans && right !in below
    requires below[n.kids[i]].lo < key < below[n.kids[i]].hi
    requires spans[n.kids[i]] == below[n.kids[i]].(hi := key) && spans[right] == below[n.kids[i]].(lo := key)
    requires forall p :: p in below && p != n.kids[i] ==> p in spans && spans[p] == below[p]
    ensures InternalOk(Linked(n, i, key, right), s, spans, MAX_KEYS + 1)
  {
    assert KidOk(n, s, below, i);
    LinkedKeysSorted(n, s, below, i, key);
    forall k | 0 <= k < |n.kids| + 1 ensures KidOk(Linked(n, i, key, right), s, spans, k) {
      LinkedKidOk(n, s, spans, below, i, key, right, k);
    }
  }

  // Only the parent of `left` looks at it
  lemma OneParent(pages: Pages, spans: Spans, below: Spans, root: PageId, space: int, over: PageId,
                  p: PageId, i: nat, q: PageId, j: nat)
    requires Tree(pages, spans, below, root, space, over)
    requires p in pages && pages[p].Internal? && i < |pages[p].kids|
    requires q in pages && pages[q].Internal? && j < |pages[q].kids|
    requires pages[p].kids[i] == pages[q].kids[j]
    ensures p == q && i == j
  {
    assert NodeOk(p, pages, spans, below, space, over) && NodeOk(q, pages, spans, below, space, over);
    assert KidOk(pages[p], spans[p], below, i) && KidOk(pages[q], spans[q], below, j);
    assert RangeOk(spans[p], below[root], space) && RangeOk(spans[q], below[root], space);
    assert Disjoint(spans[p], spans[q]) || p == q;
  }

  lemma LinkFrame(p: PageId, pages: Pages, pages': Pages, spans: Spans, below: Spans, root: PageId, space: int,
                  key: int, left: PageId, right: PageId, parent: PageId, i: nat)
    requires Unlinked(pages, spans, below, root, space, key, left, right)
    requires parent in pages && pages[parent].Internal? && i < |pages[parent].kids| && pages[parent].kids[i] == left
    requires p in pages && p in pages' && p != parent && pages'[p] == pages[p]
    ensures NodeOk(p, pages', spans, spans, space, parent)
  {
    assert NodeOk(p, pages, spans, below, space, NULL_PAGE);
    if pages[p].Internal? {
      forall j | 0 <= j < |pages[p].kids| ensures KidOk(pages[p], spans[p], spans, j) {
        assert KidOk(pages[p], spans[p], below, j);
        if pages[p].kids[j] == left { OneParent(pages, spans, below, root, space, NULL_PAGE, p, j, parent, i); }
      }
    }
  }

  lemma LinkKeepsTree(pages: Pages, spans: Spans, below: Spans, root: PageId, space: int,
                      key: int, left: PageId, right: PageId, parent: PageId, i: nat)
    requires Unlinked(pages, spans, below, root, space, key, left, right)
    requires parent in pages && pages[parent].Internal? && i < |pages[parent].kids| && pages[parent].kids[i] == left
    ensures i <= |pages[parent].keys| && i + 1 <= |pages[parent].kids|
    ensures Tree(pages[parent := Linked(pages[parent], i, key, right)], spans, spans, root, space, parent)
  {
    assert NodeOk(parent, pages, spans, below, space, NULL_PAGE);
    assert RangeOk(spans[left], below[root], space) && RangeOk(spans[right], below[root], space);
    LinkedOk(pages[parent], spans[parent], spans, below, i, key, right);
    var pages' := pages[parent := Linked(pages[parent], i, key, right)];
    forall p | p in pages' ensures NodeOk(p, pages', spans, spans, space, parent) {
      if p != parent { LinkFrame(p, pages, pages', spans, below, root, space, key, left, right, parent, i); }
    }
    assert KidOk(pages[parent], spans[parent], below, i) && RangeOk(spans[parent], below[root], space);
    assert root != left;
    forall p | p in spans ensures RangeOk(spans[p], spans[root], space) {
      assert RangeOk(spans[p], below[root], space);
    }
  }

  // The scan for the first separator above `key` stops exactly where `left` hangs
  lemma LinkPosition(pages: Pages, spans: Spans, below: Spans, root: PageId, space: int,
                     key: int, left: PageId, right: PageId, parent: PageId, i: nat)
    requires Unlinked(pages, spans, below, root, space, key, left, right)
    requires parent in pages && pages[parent].Internal? && i < |pages[parent].kids| && pages[parent].kids[i] == left
    ensures i <= |pages[parent].keys|
    ensures forall k :: 0 <= k < i ==> pages[parent].keys[k] < key
    ensures forall k :: i <= k < |pages[parent].keys| ==> key < pages[parent].keys[k]
    ensures |pages[parent].keys| <= MAX_KEYS
    ensures spans[parent].height == below[left].height + 1
    ensures below[root].height >= spans[parent].height && spans[root].height == below[root].height
  {
    assert NodeOk(parent, pages, spans, below, space, NULL_PAGE);
    assert KidOk(pages[parent], spans[parent], below, i);
    assert RangeOk(spans[left], below[root], space) && RangeOk(spans[right], below[root], space);
    assert RangeOk(spans[parent], below[root], space);
  }

  lemma WithinLimit(pages: Pages, spans: Spans, root: PageId, space: int, p: PageId)
    requires Tree(pages, spans, spans, root, space, p)
    requires p in pages
    requires match pages[p] case Leaf(es, _) => |es| <= MAX_KEYS case Internal(keys, _) => |keys| <= MAX_KEYS
    ensures SearchTree(pages, spans, root, space)
  {
    forall q | q in pages ensures NodeOk(q, pages, spans, spans, space, NULL_PAGE) {
      assert NodeOk(q, pages, spans, spans, space, p);
    }
  }

  // ---------------------------------------------------------------------------
  // split_internal
  // ---------------------------------------------------------------------------

  lemma InternalSplitOk(n: Node, s: Span, below: Spans, mid: nat)
    requires n.Internal? && InternalOk(n, s, below, MAX_KEYS + 1)
    requires 0 < mid < |n.keys| - 1 && |n.keys| == MAX_KEYS + 1
    ensures var key := n.keys[mid];
            && s.lo < key < s.hi
            && InternalOk(Internal(n.keys[..mid], n.kids[..mid + 1]), s.(hi := key), below, MAX_KEYS)
            && InternalOk(Internal(n.keys[mid + 1..], n.kids[mid + 1..]), s.(lo := key), below, MAX_KEYS)
  {
    var key := n.keys[mid];
    var ls, rs := s.(hi := key), s.(lo := key);
    var l, r := Internal(n.keys[..mid], n.kids[..mid + 1]), Internal(n.keys[mid + 1..], n.kids[mid + 1..]);
    forall k | 0 <= k < |l.kids| ensures KidOk(l, ls, below, k) {
      assert KidOk(n, s, below, k);
    }
    forall k | 0 <= k < |r.kids| ensures KidOk(r, rs, below, k) {
      assert r.kids[k] == n.kids[mid + 1 + k] && KidOk(n, s, below, mid + 1 + k);
    }
  }

  lemma SplitInternalKeepsTree(pages: Pages, spans: Spans, root: PageId, space: int,
                               node: PageId, newId: PageId)
    requires Tree(pages, spans, spans, root, space, node)
    requires node in pages && pages[node].Internal? && |pages[node].keys| == MAX_KEYS + 1
    requires |pages[node].kids| == |pages[node].keys| + 1
    requires newId !in pages && newId != NULL_PAGE
    ensures var n, mid := pages[node], |pages[node].keys| / 2;
            var pages' := pages[node := Internal(n.keys[..mid], n.kids[..mid + 1])]
                               [newId := Internal(n.keys[mid + 1..], n.kids[mid + 1..])];
            Unlinked(pages', CutSpan(spans, node, n.keys[mid], newId), spans, root, space, n.keys[mid], node, newId)
  {
    var n, mid := pages[node], |pages[node].keys| / 2;
    var key := n.keys[mid];
    var pages' := pages[node := Internal(n.keys[..mid], n.kids[..mid + 1])]
                       [newId := Internal(n.keys[mid + 1..], n.kids[mid + 1..])];
    var spans' := CutSpan(spans, node, key, newId);
    assert NodeOk(node, pages, spans, spans, space, node);
    InternalSplitOk(n, spans[node], spans, mid);
    CutSpanKeepsDisjoint(spans, node, key, newId);
    CutSpanKeepsRanges(spans, node, key, newId, spans[root], space);
    forall p | p in pages' ensures NodeOk(p, pages', spans', spans, space, NULL_PAGE) {
      if p != node && p != newId { CutSpanFrame(p, pages, pages', spans, node, key, newId, space, node); }
    }
  }

  lemma InternalUpdateKeepsContents(pages: Pages, p: PageId, n: Node)
    requires n.Internal? && (p in pages ==> pages[p].Internal?)
    ensures Contents(pages[p := n]) == Contents(pages)
  {
    var pages' := pages[p := n];
    forall x ensures x in Contents(pages') <==> x in Contents(pages) {
      if x in Contents(pages) {
        var q :| q in pages && pages[q].Leaf? && x in pages[q].entries;
        assert q in pages' && pages'[q].Leaf? && x in pages'[q].entries;
      }
      if x in Contents(pages') {
        var q :| q in pages' && pages'[q].Leaf? && x in pages'[q].entries;
        assert q in pages && pages[q].Leaf? && x in pages[q].entries;
      }
    }
  }
}
