/** What a split above the leaves leaves behind when the search for the parent gives up, and that one split does not
    change which parents later searches find. */
module BTreeCut {
  import opened BTreeShape
  import opened BTreeDescent
  import opened BTreePreorder

  // A change of a page and one of its children keeps the list up to the page
  lemma FrontOfParent(pages: Pages, pages': Pages, spans: Spans, root: PageId, space: int, over: PageId,
                      parent: PageId, child: PageId) returns (j: nat)
    requires Tree(pages, spans, spans, root, space, over)
    requires HasKid(pages, parent, child) && SameBut(pages, pages', {parent, child})
    ensures var all, all' := Visits(pages, spans, root), Preorder(pages', root, spans[root].height);
            && j < |all| && j < |all'| && all[j] == parent && all[..j + 1] == all'[..j + 1]
            && forall i :: 0 <= i < j ==> all[i] != parent && all[i] != child
  {
    var all, h := Visits(pages, spans, root), spans[root].height;
    NotRoot(pages, spans, root, space, over, parent, child);
    forall x | x in all ensures x in pages { Inside(pages, spans, root, space, over, root, x); }
    var found, k := FrontKept(pages, pages', {parent, child}, root, h);
    if parent != root { RootAbove(pages, spans, root, space, over, parent); }
    Listed(pages, spans, root, space, over, root, parent);
    j := k - 1;
    if all[j] != parent {
      var i := EarlierParent(pages, root, h, j);
      OneParentId(pages, spans, root, space, over, child, all[i], parent);
    }
  }

  // Whether the search finds the parent of that page does not depend on such a change
  lemma ReachedSame(pages: Pages, pages': Pages, spans: Spans, spans': Spans, root: PageId, space: int,
                    over: PageId, over': PageId, parent: PageId, child: PageId)
    requires Tree(pages, spans, spans, root, space, over) && Tree(pages', spans', spans', root, space, over')
    requires spans'[root].height == spans[root].height && parent != root
    requires HasKid(pages, parent, child) && SameBut(pages, pages', {parent, child})
    ensures ParentReached(pages, spans, root, parent) <==> ParentReached(pages', spans', root, parent)
  {
    var all, all', h := Visits(pages, spans, root), Visits(pages', spans', root), spans[root].height;
    var j := FrontOfParent(pages, pages', spans, root, space, over, parent, child);
    assert all[j] == all[..j + 1][j] && all'[j] == all'[..j + 1][j];
    assert j > 0 by { assert all[0] == root; }
    var i := EarlierParent(pages, root, h, j);
    assert all[i] == all[..j + 1][i] && all'[i] == all'[..j + 1][i];
    assert HasKid(pages', all'[i], parent);
    NotRoot(pages', spans', root, space, over', all'[i], parent);
    FoundAt(pages, spans, root, space, over, parent, i);
    FoundAt(pages', spans', root, space, over', parent, i);
  }

  // A page reached by the search is followed by the search for its own parent
  lemma ReachedAbove(pages: Pages, pages': Pages, spans: Spans, spans': Spans, root: PageId, space: int,
                     over: PageId, parent: PageId, child: PageId)
    requires Tree(pages, spans, spans, root, space, over) && parent != root
    requires root in spans' && spans'[root].height == spans[root].height
    requires HasKid(pages, parent, child) && SameBut(pages, pages', {parent, child})
    requires ParentReached(pages, spans, root, child)
    ensures ParentReached(pages', spans', root, parent)
  {
    var all, all' := Visits(pages, spans, root), Visits(pages', spans', root);
    var j := FrontOfParent(pages, pages', spans, root, space, over, parent, child);
    assert all'[j] == all'[..j + 1][j] == all[..j + 1][j] == parent;
    var k :| 0 <= k < |all| && k < MAX_HOPS && HasKid(pages, all[k], child);
    NotRoot(pages, spans, root, space, over, parent, child);
    FoundAt(pages, spans, root, space, over, child, k);
    AncestorReached(pages', spans', root, parent, j);
  }

  // ---------------------------------------------------------------------------
  // The parent was not found: the halves of a page that is not the root get a new root
  // ---------------------------------------------------------------------------

  // Two pages then lead to the left half, so no key ranges make this a tree
  lemma NoTree(pages: Pages, spans: Spans, root: PageId, space: int, parent: PageId, left: PageId)
    requires HasKid(pages, parent, left) && HasKid(pages, root, left) && parent != root
    ensures !SearchTree(pages, spans, root, space)
  {
    if SearchTree(pages, spans, root, space) {
      NotRoot(pages, spans, root, space, NULL_PAGE, parent, left);
      OneParentId(pages, spans, root, space, NULL_PAGE, left, parent, root);
    }
  }

  // Children lie in the ranges of the pages above them
  ghost predicate Nested(pages: Pages, spans: Spans, p: PageId) {
    p in spans &&
    (p in pages && pages[p].Internal? ==>
       forall k :: k in pages[p].kids ==> k in spans && spans[p].lo <= spans[k].lo && spans[k].hi <= spans[p].hi)
  }

  ghost predicate AllNested(pages: Pages, spans: Spans) {
    forall p {:trigger Nested(pages, spans, p)} :: p in pages ==> Nested(pages, spans, p)
  }

  lemma UnlinkedNested(pages: Pages, spans: Spans, below: Spans, root: PageId, space: int,
                       key: int, left: PageId, right: PageId)
    requires Unlinked(pages, spans, below, root, space, key, left, right)
    ensures AllNested(pages, spans)
  {
    forall p | p in pages ensures Nested(pages, spans, p) {
      assert NodeOk(p, pages, spans, below, space, NULL_PAGE) && RangeOk(spans[p], below[root], space);
      if pages[p].Internal? {
        forall k | k in pages[p].kids
          ensures k in spans && spans[p].lo <= spans[k].lo && spans[k].hi <= spans[p].hi
        {
          var i :| 0 <= i < |pages[p].kids| && pages[p].kids[i] == k;
          assert KidOk(pages[p], spans[p], below, i);
          if k == left { assert RangeOk(spans[left], below[root], space) && RangeOk(spans[right], below[root], space); }
        }
      }
    }
  }

  lemma {:induction false} NestedBelow(pages: Pages, spans: Spans, p: PageId, h: nat, x: PageId)
    requires AllNested(pages, spans) && p in spans && x in Preorder(pages, p, h)
    ensures x in spans && spans[p].lo <= spans[x].lo && spans[x].hi <= spans[p].hi
    decreases h
  {
    if x != p {
      assert Nested(pages, spans, p);
      var i := BelowOne(pages, pages[p].kids, h - 1, x);
      NestedBelow(pages, spans, pages[p].kids[i], h - 1, x);
    }
  }

  // No tree any more, and the leaves reached from the root hold keys of the given range only: what the index holds
  // elsewhere is lost to every descent
  ghost predicate CutOff(pages: Pages, spans: Spans, root: PageId, space: int, range: Span) {
    && (forall s {:trigger SearchTree(pages, s, root, space)} :: !SearchTree(pages, s, root, space))
    && forall x :: x in Visits(pages, spans, root) ==> HoldsWithin(pages, x, range)
  }

  ghost predicate HoldsWithin(pages: Pages, x: PageId, range: Span) {
    x in pages && pages[x].Leaf? ==> forall e :: e in pages[x].entries ==> Covers(range, e.key)
  }

  // A root over the halves of a page that has a parent
  lemma NewRootCuts(pages: Pages, spans: Spans, below: Spans, root: PageId, space: int,
                    key: int, left: PageId, right: PageId, parent: PageId, newId: PageId)
    requires Unlinked(pages, spans, below, root, space, key, left, right) && HasKid(pages, parent, left)
    requires newId !in pages && newId != NULL_PAGE
    ensures var top := below[left].(height := below[left].height + 1);
            CutOff(pages[newId := Internal([key], [left, right])], spans[newId := top], newId, space, below[left])
  {
    var top := below[left].(height := below[left].height + 1);
    var pages', spans' := pages[newId := Internal([key], [left, right])], spans[newId := top];
    forall s ensures !SearchTree(pages', s, newId, space) { NoTree(pages', s, newId, space, parent, left); }
    UnlinkedNested(pages, spans, below, root, space, key, left, right);
    assert RangeOk(spans[left], below[root], space) && RangeOk(spans[right], below[root], space);
    forall p | p in pages' ensures Nested(pages', spans', p) { if p != newId { assert Nested(pages, spans, p); } }
    forall x | x in Visits(pages', spans', newId) ensures HoldsWithin(pages', x, below[left]) {
      NestedBelow(pages', spans', newId, top.height, x);
      if x in pages { assert NodeOk(x, pages, spans, below, space, NULL_PAGE); }
    }
  }
}
