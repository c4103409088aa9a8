/** The order in which the search for a parent visits the pages, and when the hop limit lets it miss. */
module BTreePreorder {
  import opened BTreeShape
  import opened BTreeDescent

  // A page, then everything below its children from left to right
  ghost function Preorder(pages: Pages, p: PageId, h: nat): seq<PageId>
    decreases h, 0
  {
    [p] + if h > 0 && p in pages && pages[p].Internal? then PreorderAll(pages, pages[p].kids, h - 1) else []
  }

  ghost function PreorderAll(pages: Pages, ps: seq<PageId>, h: nat): seq<PageId>
    decreases h, |ps| + 1
  {
    if ps == [] then [] else Preorder(pages, ps[0], h) + PreorderAll(pages, ps[1..], h)
  }

  // All pages from the root on
  ghost function Visits(pages: Pages, spans: Spans, root: PageId): seq<PageId> {
    Preorder(pages, root, if root in spans then spans[root].height else 0)
  }

  ghost predicate Distinct(s: seq<PageId>) {
    forall i, j :: 0 <= i < j < |s| ==> s[i] != s[j]
  }

  lemma DistinctConcat(a: seq<PageId>, b: seq<PageId>)
    requires Distinct(a) && Distinct(b) && forall x :: x in a ==> x !in b
    ensures Distinct(a + b)
  {
    var s := a + b;
    forall i, j | 0 <= i < j < |s| ensures s[i] != s[j] {
      if i < |a| && j >= |a| { assert s[i] in a && s[j] in b; }
    }
  }

  lemma {:induction false} BelowOne(pages: Pages, ps: seq<PageId>, h: nat, x: PageId) returns (i: nat)
    requires x in PreorderAll(pages, ps, h)
    ensures i < |ps| && x in Preorder(pages, ps[i], h)
  {
    if x in Preorder(pages, ps[0], h) {
      i := 0;
    } else {
      i := BelowOne(pages, ps[1..], h, x);
      i := i + 1;
    }
  }

  lemma {:induction false} BelowAll(pages: Pages, ps: seq<PageId>, h: nat, i: nat, x: PageId)
    requires i < |ps| && x in Preorder(pages, ps[i], h)
    ensures x in PreorderAll(pages, ps, h)
  {
    if i > 0 { BelowAll(pages, ps[1..], h, i - 1, x); }
  }

  // What is listed below a page lies in its range
  lemma {:induction false} Inside(pages: Pages, spans: Spans, root: PageId, space: int, over: PageId, p: PageId,
                                  x: PageId)
    requires Tree(pages, spans, spans, root, space, over) && p in pages && x in Preorder(pages, p, spans[p].height)
    ensures x in pages && spans[p].lo <= spans[x].lo < spans[x].hi <= spans[p].hi
    ensures x != p ==> spans[x].height < spans[p].height
    decreases spans[p].height
  {
    assert RangeOk(spans[p], spans[root], space);
    if x != p {
      var i := BelowOne(pages, pages[p].kids, spans[p].height - 1, x);
      var kid := pages[p].kids[i];
      NotRoot(pages, spans, root, space, over, p, kid);
      Inside(pages, spans, root, space, over, kid, x);
    }
  }

  lemma {:induction false} VisitedOnce(pages: Pages, spans: Spans, root: PageId, space: int, over: PageId, p: PageId)
    requires Tree(pages, spans, spans, root, space, over) && p in pages
    ensures Distinct(Preorder(pages, p, spans[p].height))
    decreases spans[p].height, 1, 0
  {
    if spans[p].height > 0 && pages[p].Internal? {
      var kids, h := pages[p].kids, spans[p].height - 1;
      KidsOnce(pages, spans, root, space, over, p, 0);
      assert kids[0..] == kids;
      forall x | x in PreorderAll(pages, kids, h) ensures x != p {
        var i := BelowOne(pages, kids, h, x);
        NotRoot(pages, spans, root, space, over, p, kids[i]);
        Inside(pages, spans, root, space, over, kids[i], x);
      }
      DistinctConcat([p], PreorderAll(pages, kids, h));
    }
  }

  // The children from i on
  lemma {:induction false} KidsOnce(pages: Pages, spans: Spans, root: PageId, space: int, over: PageId, p: PageId,
                                    i: nat)
    requires Tree(pages, spans, spans, root, space, over) && p in pages && pages[p].Internal? && spans[p].height > 0
    requires i <= |pages[p].kids|
    ensures Distinct(PreorderAll(pages, pages[p].kids[i..], spans[p].height - 1))
    decreases spans[p].height, 0, |pages[p].kids| - i
  {
    var kids, h := pages[p].kids, spans[p].height - 1;
    if i < |kids| {
      NotRoot(pages, spans, root, space, over, p, kids[i]);
      VisitedOnce(pages, spans, root, space, over, kids[i]);
      KidsOnce(pages, spans, root, space, over, p, i + 1);
      assert kids[i..][1..] == kids[i + 1..];
      forall x | x in Preorder(pages, kids[i], h) ensures x !in PreorderAll(pages, kids[i + 1..], h) {
        if x in PreorderAll(pages, kids[i + 1..], h) {
          var j := BelowOne(pages, kids[i + 1..], h, x);
          KidsApartAt(pages, spans, root, space, over, p, i, i + 1 + j, x);
        }
      }
      DistinctConcat(Preorder(pages, kids[i], h), PreorderAll(pages, kids[i + 1..], h));
    }
  }

  // Nothing lies below two children
  lemma KidsApartAt(pages: Pages, spans: Spans, root: PageId, space: int, over: PageId, p: PageId, i: nat, j: nat,
                    x: PageId)
    requires Tree(pages, spans, spans, root, space, over) && p in pages && pages[p].Internal? && spans[p].height > 0
    requires i < j < |pages[p].kids| && x in Preorder(pages, pages[p].kids[i], spans[p].height - 1)
    ensures x !in Preorder(pages, pages[p].kids[j], spans[p].height - 1)
  {
    var n := pages[p];
    assert NodeOk(p, pages, spans, spans, space, over);
    assert KidOk(n, spans[p], spans, i) && KidOk(n, spans[p], spans, j);
    assert Boundary(n.keys, spans[p], i + 1) <= Boundary(n.keys, spans[p], j);
    Inside(pages, spans, root, space, over, n.kids[i], x);
    if x in Preorder(pages, n.kids[j], spans[p].height - 1) { Inside(pages, spans, root, space, over, n.kids[j], x); }
  }

  // Every page is listed
  lemma {:induction false} Listed(pages: Pages, spans: Spans, root: PageId, space: int, over: PageId, p: PageId,
                                  x: PageId)
    requires Tree(pages, spans, spans, root, space, over) && p in pages && x in pages && (x == p || Above(spans, p, x))
    ensures x in Preorder(pages, p, spans[p].height)
    decreases spans[p].height
  {
    if x != p {
      var i := KidOnPath(pages, spans, root, space, over, p, x);
      var kid := pages[p].kids[i];
      NotRoot(pages, spans, root, space, over, p, kid);
      Listed(pages, spans, root, space, over, kid, x);
      BelowAll(pages, pages[p].kids, spans[p].height - 1, i, x);
    }
  }

  // ---------------------------------------------------------------------------
  // The search
  // ---------------------------------------------------------------------------

  ghost predicate HasKid(pages: Pages, p: PageId, child: PageId) {
    p in pages && pages[p].Internal? && child in pages[p].kids
  }

  // The page above `child` is one of those visited
  lemma ParentListed(pages: Pages, spans: Spans, root: PageId, space: int, over: PageId, child: PageId) returns (k: nat)
    requires Tree(pages, spans, spans, root, space, over) && child in pages && child != root
    ensures k < |Visits(pages, spans, root)| && HasKid(pages, Visits(pages, spans, root)[k], child)
  {
    RootAbove(pages, spans, root, space, over, child);
    var q := root;
    var i: nat := KidOnPath(pages, spans, root, space, over, q, child);
    while pages[q].kids[i] != child
      invariant q in pages && Above(spans, q, child) && pages[q].Internal? && i < |pages[q].kids|
      invariant pages[q].kids[i] == child || Above(spans, pages[q].kids[i], child)
      invariant pages[q].kids[i] in pages && spans[pages[q].kids[i]].height < spans[q].height
      decreases spans[q].height
    {
      q := pages[q].kids[i];
      i := KidOnPath(pages, spans, root, space, over, q, child);
    }
    if q != root { RootAbove(pages, spans, root, space, over, q); }
    Listed(pages, spans, root, space, over, root, q);
    k :| 0 <= k < |Visits(pages, spans, root)| && Visits(pages, spans, root)[k] == q;
  }

  // The search for the parent of `child` ends before the hop limit
  ghost predicate ParentReached(pages: Pages, spans: Spans, root: PageId, child: PageId) {
    exists k ::
      0 <= k < |Visits(pages, spans, root)| && k < MAX_HOPS && HasKid(pages, Visits(pages, spans, root)[k], child)
  }

  // Every page listed but the first has its parent before it
  lemma {:induction false} EarlierParent(pages: Pages, p: PageId, h: nat, j: nat) returns (i: nat)
    requires 0 < j < |Preorder(pages, p, h)|
    ensures i < j && HasKid(pages, Preorder(pages, p, h)[i], Preorder(pages, p, h)[j])
    decreases h, 0
  {
    var kids := pages[p].kids;
    assert Preorder(pages, p, h)[1..] == PreorderAll(pages, kids, h - 1);
    var there, at := KidLater(pages, kids, h - 1, j - 1);
    i := if there then 0 else at + 1;
  }

  lemma {:induction false} KidLater(pages: Pages, ps: seq<PageId>, h: nat, j: nat) returns (there: bool, i: nat)
    requires j < |PreorderAll(pages, ps, h)|
    ensures there ==> PreorderAll(pages, ps, h)[j] in ps
    ensures !there ==> i < j && HasKid(pages, PreorderAll(pages, ps, h)[i], PreorderAll(pages, ps, h)[j])
    decreases h, |ps| + 1
  {
    var first := Preorder(pages, ps[0], h);
    i, there := 0, j == 0;
    if 0 < j < |first| {
      i := EarlierParent(pages, ps[0], h, j);
    } else if j >= |first| {
      there, i := KidLater(pages, ps[1..], h, j - |first|);
      i := i + |first|;
    }
  }

  lemma AncestorReached(pages: Pages, spans: Spans, root: PageId, p: PageId, j: nat)
    requires j < |Visits(pages, spans, root)| && Visits(pages, spans, root)[j] == p && p != root && j < MAX_HOPS
    ensures ParentReached(pages, spans, root, p)
  {
    var i := EarlierParent(pages, root, if root in spans then spans[root].height else 0, j);
  }

  // ---------------------------------------------------------------------------
  // Changing pages keeps the front of the list
  // ---------------------------------------------------------------------------

  ghost predicate SameBut(pages: Pages, pages': Pages, changed: set<PageId>) {
    forall x :: x in pages && x !in changed ==> x in pages' && pages'[x] == pages[x]
  }

  // k is the place after the first changed page of the list, if there is one
  ghost predicate FirstChange(all: seq<PageId>, all': seq<PageId>, changed: set<PageId>, found: bool, k: nat) {
    && (forall i :: 0 <= i < k - 1 && i < |all| ==> all[i] !in changed)
    && (found ==> 0 < k <= |all| && k <= |all'| && all[..k] == all'[..k] && all[k - 1] in changed)
    && (!found ==> k == |all| && all == all' && forall x :: x in all ==> x !in changed)
  }

  ghost predicate AllIn(all: seq<PageId>, pages: Pages) {
    forall x :: x in all ==> x in pages
  }

  lemma {:induction false} FrontKept(pages: Pages, pages': Pages, changed: set<PageId>, p: PageId, h: nat)
    returns (found: bool, k: nat)
    requires SameBut(pages, pages', changed) && AllIn(Preorder(pages, p, h), pages)
    ensures FirstChange(Preorder(pages, p, h), Preorder(pages', p, h), changed, found, k)
    decreases h, 0
  {
    var all, all' := Preorder(pages, p, h), Preorder(pages', p, h);
    assert p == all[0] && p in all;
    if p in changed {
      found, k := true, 1;
      assert all[..1] == [p] == all'[..1];
    } else if h > 0 && pages[p].Internal? {
      var below, below' := PreorderAll(pages, pages[p].kids, h - 1), PreorderAll(pages', pages[p].kids, h - 1);
      assert all == [p] + below && all' == [p] + below';
      found, k := FrontKeptAll(pages, pages', changed, pages[p].kids, h - 1);
      FrontShifted([p], below, below', changed, found, k);
      k := k + 1;
    } else {
      found, k := false, 1;
    }
  }

  lemma {:induction false} FrontKeptAll(pages: Pages, pages': Pages, changed: set<PageId>, ps: seq<PageId>, h: nat)
    returns (found: bool, k: nat)
    requires SameBut(pages, pages', changed) && AllIn(PreorderAll(pages, ps, h), pages)
    ensures FirstChange(PreorderAll(pages, ps, h), PreorderAll(pages', ps, h), changed, found, k)
    decreases h, |ps| + 1
  {
    found, k := false, 0;
    if ps != [] {
      var first, first' := Preorder(pages, ps[0], h), Preorder(pages', ps[0], h);
      var rest, rest' := PreorderAll(pages, ps[1..], h), PreorderAll(pages', ps[1..], h);
      found, k := FrontKept(pages, pages', changed, ps[0], h);
      if found {
        FrontExtended(first, first', rest, rest', changed, k);
      } else {
        found, k := FrontKeptAll(pages, pages', changed, ps[1..], h);
        FrontShifted(first, rest, rest', changed, found, k);
        k := k + |first|;
      }
    }
  }

  lemma FrontShifted(front: seq<PageId>, all: seq<PageId>, all': seq<PageId>, changed: set<PageId>, found: bool, k: nat)
    requires FirstChange(all, all', changed, found, k) && forall x :: x in front ==> x !in changed
    ensures FirstChange(front + all, front + all', changed, found, |front| + k)
  {
    if found {
      assert (front + all)[..|front| + k] == front + all[..k] && (front + all')[..|front| + k] == front + all'[..k];
    }
    forall i | 0 <= i < |front| + k - 1 && i < |front + all| ensures (front + all)[i] !in changed {
      if i < |front| { assert front[i] in front; }
    }
  }

  lemma FrontExtended(all: seq<PageId>, all': seq<PageId>, rest: seq<PageId>, rest': seq<PageId>, changed: set<PageId>,
                      k: nat)
    requires FirstChange(all, all', changed, true, k)
    ensures FirstChange(all + rest, all' + rest', changed, true, k)
  {
    assert (all + rest)[..k] == all[..k] && (all' + rest')[..k] == all'[..k];
  }

  // What a stack of pages still leads to, its last page first
  ghost function Todo(pages: Pages, spans: Spans, stack: seq<PageId>): seq<PageId> {
    if stack == [] then []
    else
      var top := stack[|stack| - 1];
      Preorder(pages, top, if top in spans then spans[top].height else 0) + Todo(pages, spans, stack[..|stack| - 1])
  }

  // Children are stacked last first
  lemma {:induction false} TodoPushed(pages: Pages, spans: Spans, rest: seq<PageId>, kids: seq<PageId>,
                                      more: seq<PageId>, h: nat)
    requires |more| == |kids| && forall k :: 0 <= k < |kids| ==> more[k] == kids[|kids| - 1 - k]
    requires forall k :: 0 <= k < |kids| ==> kids[k] in spans && spans[kids[k]].height == h
    ensures Todo(pages, spans, rest + more) == PreorderAll(pages, kids, h) + Todo(pages, spans, rest)
    decreases |kids|
  {
    if kids == [] {
      assert rest + more == rest;
    } else {
      var n := |kids| - 1;
      TodoPushed(pages, spans, rest, kids[1..], more[..n], h);
      assert (rest + more)[..|rest + more| - 1] == rest + more[..n];
    }
  }

  // The page on top of the stack comes next, and for the first time
  lemma NextVisit(pages: Pages, spans: Spans, all: seq<PageId>, hops: nat, stack: seq<PageId>)
    requires Distinct(all) && hops <= |all| && stack != [] && all[hops..] == Todo(pages, spans, stack)
    ensures hops < |all| && all[hops] == stack[|stack| - 1] && all[hops] !in all[..hops]
    ensures var top := stack[|stack| - 1];
            all[hops + 1..] ==
              Preorder(pages, top, if top in spans then spans[top].height else 0)[1..] +
              Todo(pages, spans, stack[..|stack| - 1])
  {
    var top := stack[|stack| - 1];
    var below := Preorder(pages, top, if top in spans then spans[top].height else 0);
    assert all[hops..] == below + Todo(pages, spans, stack[..|stack| - 1]);
    assert all[hops] == all[hops..][0] == below[0];
    assert all[hops + 1..] == all[hops..][1..];
  }

  // The children take the place of the page on the stack
  lemma KidsStacked(pages: Pages, spans: Spans, root: PageId, space: int, over: PageId, p: PageId, rest: seq<PageId>,
                    more: seq<PageId>)
    requires Tree(pages, spans, spans, root, space, over) && p in pages && pages[p].Internal?
    requires |more| == |pages[p].kids| && forall k :: 0 <= k < |more| ==> more[k] == pages[p].kids[|more| - 1 - k]
    ensures spans[p].height > 0 && forall k :: 0 <= k < |more| ==> more[k] in pages
    ensures Todo(pages, spans, rest + more) == Preorder(pages, p, spans[p].height)[1..] + Todo(pages, spans, rest)
  {
    assert NodeOk(p, pages, spans, spans, space, over);
    var kids := pages[p].kids;
    forall k | 0 <= k < |kids|
      ensures kids[k] in spans && kids[k] in pages && spans[kids[k]].height == spans[p].height - 1
    {
      NotRoot(pages, spans, root, space, over, p, kids[k]);
    }
    TodoPushed(pages, spans, rest, kids, more, spans[p].height - 1);
  }

  // The search after `hops` pages: what is on the stack leads to the rest of the list, and no page so far was the
  // parent
  ghost predicate Searching(pages: Pages, spans: Spans, all: seq<PageId>, stack: seq<PageId>, visited: set<PageId>,
                            hops: nat, child: PageId) {
    && hops <= |all| && all[hops..] == Todo(pages, spans, stack)
    && (forall i :: 0 <= i < |stack| ==> stack[i] in pages)
    && (forall x :: x in visited <==> x in all[..hops])
    && (forall k :: 0 <= k < hops ==> !HasKid(pages, all[k], child))
  }

  lemma SearchStarts(pages: Pages, spans: Spans, root: PageId, space: int, over: PageId, child: PageId)
    requires Tree(pages, spans, spans, root, space, over)
    ensures Searching(pages, spans, Visits(pages, spans, root), [root], {}, 0, child)
  {
    assert [root][..0] == [] && Todo(pages, spans, []) == [];
  }

  // The pages stacked for a page: none for a leaf
  ghost predicate StackedFor(pages: Pages, p: PageId, more: seq<PageId>) {
    p in pages &&
    match pages[p]
    case Leaf(_, _) => more == []
    case Internal(_, kids) => |more| == |kids| && forall k :: 0 <= k < |more| ==> more[k] == kids[|more| - 1 - k]
  }

  lemma TodoNext(pages: Pages, spans: Spans, root: PageId, space: int, over: PageId, p: PageId, rest: seq<PageId>,
                 more: seq<PageId>)
    requires Tree(pages, spans, spans, root, space, over) && StackedFor(pages, p, more)
    ensures forall k :: 0 <= k < |more| ==> more[k] in pages
    ensures Todo(pages, spans, rest + more) == Preorder(pages, p, spans[p].height)[1..] + Todo(pages, spans, rest)
  {
    if pages[p].Leaf? {
      assert NodeOk(p, pages, spans, spans, space, over);
      assert rest + more == rest;
    } else {
      KidsStacked(pages, spans, root, space, over, p, rest, more);
    }
  }

  // How a search ends: on the parent, with everything seen, or at the hop limit
  ghost predicate SearchEnded(pages: Pages, all: seq<PageId>, child: PageId, parent: PageId, hops: nat) {
    && hops <= |all| && hops <= MAX_HOPS && (forall k :: 0 <= k < hops ==> !HasKid(pages, all[k], child))
    && (parent != NULL_PAGE ==> hops < MAX_HOPS && hops < |all| && parent == all[hops] && HasKid(pages, parent, child))
    && (parent == NULL_PAGE ==> hops == |all| || hops == MAX_HOPS)
  }

  lemma SearchTop(pages: Pages, spans: Spans, all: seq<PageId>, stack: seq<PageId>, visited: set<PageId>, hops: nat,
                  child: PageId, p: PageId, rest: seq<PageId>)
    requires Distinct(all) && Searching(pages, spans, all, stack, visited, hops, child)
    requires stack != [] && p == stack[|stack| - 1] && rest == stack[..|stack| - 1]
    ensures p in pages && p !in visited && hops < |all| && all[hops] == p && stack == rest + [p]
  {
    NextVisit(pages, spans, all, hops, stack);
  }

  // One page further
  lemma SearchStep(pages: Pages, spans: Spans, root: PageId, space: int, over: PageId, all: seq<PageId>,
                   stack: seq<PageId>, visited: set<PageId>, hops: nat, child: PageId, p: PageId, rest: seq<PageId>,
                   more: seq<PageId>)
    requires Tree(pages, spans, spans, root, space, over) && Distinct(all) && stack == rest + [p]
    requires Searching(pages, spans, all, stack, visited, hops, child) && !HasKid(pages, p, child)
    requires StackedFor(pages, p, more)
    ensures Searching(pages, spans, all, rest + more, visited + {p}, hops + 1, child)
  {
    assert stack[..|stack| - 1] == rest;
    NextVisit(pages, spans, all, hops, stack);
    TodoNext(pages, spans, root, space, over, p, rest, more);
    assert all[..hops + 1] == all[..hops] + [p];
    forall i | 0 <= i < |rest + more| ensures (rest + more)[i] in pages {
      if i < |rest| { assert stack[i] == rest[i]; }
    }
  }

  lemma NoParentOfRoot(pages: Pages, spans: Spans, root: PageId, space: int, over: PageId)
    requires Tree(pages, spans, spans, root, space, over)
    ensures forall p :: !HasKid(pages, p, root)
  {
    forall p ensures !HasKid(pages, p, root) {
      if HasKid(pages, p, root) { NotRoot(pages, spans, root, space, over, p, root); }
    }
  }

  // Only one place of the list is the parent's
  lemma FoundAt(pages: Pages, spans: Spans, root: PageId, space: int, over: PageId, child: PageId, k: nat)
    requires Tree(pages, spans, spans, root, space, over) && child in pages && child != root
    requires k < |Visits(pages, spans, root)| && HasKid(pages, Visits(pages, spans, root)[k], child)
    ensures forall j :: 0 <= j < |Visits(pages, spans, root)| && HasKid(pages, Visits(pages, spans, root)[j], child) ==>
              j == k
  {
    var all := Visits(pages, spans, root);
    VisitedOnce(pages, spans, root, space, over, root);
    forall j | 0 <= j < |all| && HasKid(pages, all[j], child) ensures j == k {
      OneParentId(pages, spans, root, space, over, child, all[j], all[k]);
    }
  }

  // The list is no longer than there are pages
  lemma VisitCount(pages: Pages, spans: Spans, root: PageId, space: int, over: PageId, count: nat)
    requires Tree(pages, spans, spans, root, space, over) && forall p :: p in pages ==> p < count
    ensures |Visits(pages, spans, root)| < count
  {
    var all := Visits(pages, spans, root);
    VisitedOnce(pages, spans, root, space, over, root);
    forall x | x in all ensures x in pages { Inside(pages, spans, root, space, over, root, x); }
    ListSize(all, count - 1);
  }

  ghost function Ids(s: seq<PageId>): set<PageId> {
    set x | x in s
  }

  lemma ListSize(s: seq<PageId>, n: nat)
    requires Distinct(s) && forall x :: x in s ==> 1 <= x <= n
    ensures |s| <= n
  {
    PageCount(Ids(s), n);
    IdsSize(s);
  }

  lemma {:induction false} IdsSize(s: seq<PageId>)
    requires Distinct(s)
    ensures |Ids(s)| == |s|
  {
    if s != [] {
      var t := s[..|s| - 1];
      IdsSize(t);
      assert Ids(s) == Ids(t) + {s[|s| - 1]};
    }
  }
}
