/** Where pages stand in the search for a parent, by their key ranges: in a packed index,
    splitting a leaf that a million and some leaves come before misses a parent. */
module BTreeFar {
  import opened BTreeShape
  import opened BTreeDescent
  import opened BTreePreorder
  import opened BTreeOrder
  import opened BTreeGrown
  import opened Arithmetic

  // ---------------------------------------------------------------------------
  // The list of visits ascends
  // ---------------------------------------------------------------------------

  ghost predicate Ascends(spans: Spans, s: seq<PageId>) {
    && (forall i :: 0 <= i < |s| ==> s[i] in spans)
    && forall i, j :: 0 <= i < j < |s| ==> spans[s[i]].lo <= spans[s[j]].lo
  }

  lemma AscendsConcat(spans: Spans, a: seq<PageId>, b: seq<PageId>, mid: int)
    requires Ascends(spans, a) && Ascends(spans, b)
    requires (forall x :: x in a ==> spans[x].lo <= mid) && forall x :: x in b ==> mid <= spans[x].lo
    ensures Ascends(spans, a + b)
  {
    var s := a + b;
    forall i, j | 0 <= i < j < |s| ensures spans[s[i]].lo <= spans[s[j]].lo {
      if i < |a| && j >= |a| { assert s[i] in a && s[j] in b; }
    }
  }

  lemma {:induction false} PreorderAscends(pages: Pages, spans: Spans, root: PageId, space: int, p: PageId)
    requires SearchTree(pages, spans, root, space) && p in pages
    ensures Ascends(spans, Preorder(pages, p, spans[p].height))
    decreases spans[p].height, 1, 0
  {
    if spans[p].height > 0 && pages[p].Internal? {
      var kids, h := pages[p].kids, spans[p].height - 1;
      KidsAscend(pages, spans, root, space, p, 0);
      assert kids[0..] == kids;
      forall x | x in PreorderAll(pages, kids, h) ensures spans[p].lo <= spans[x].lo {
        var i := BelowOne(pages, kids, h, x);
        NotRoot(pages, spans, root, space, NULL_PAGE, p, kids[i]);
        Inside(pages, spans, root, space, NULL_PAGE, kids[i], x);
      }
      AscendsConcat(spans, [p], PreorderAll(pages, kids, h), spans[p].lo);
    }
  }

  lemma {:induction false} KidsAscend(pages: Pages, spans: Spans, root: PageId, space: int, p: PageId, i: nat)
    requires SearchTree(pages, spans, root, space) && p in pages && pages[p].Internal? && spans[p].height > 0
    requires i <= |pages[p].kids|
    ensures Ascends(spans, PreorderAll(pages, pages[p].kids[i..], spans[p].height - 1))
    decreases spans[p].height, 0, |pages[p].kids| - i
  {
    var kids, h := pages[p].kids, spans[p].height - 1;
    if i < |kids| {
      NotRoot(pages, spans, root, space, NULL_PAGE, p, kids[i]);
      PreorderAscends(pages, spans, root, space, kids[i]);
      KidsAscend(pages, spans, root, space, p, i + 1);
      assert kids[i..][1..] == kids[i + 1..];
      var mid := spans[kids[i]].hi;
      forall x | x in Preorder(pages, kids[i], h) ensures spans[x].lo <= mid {
        Inside(pages, spans, root, space, NULL_PAGE, kids[i], x);
      }
      forall x | x in PreorderAll(pages, kids[i + 1..], h) ensures mid <= spans[x].lo {
        var j := BelowOne(pages, kids[i + 1..], h, x);
        KidsInOrder(pages, spans, root, space, p, i, i + 1 + j);
        Inside(pages, spans, root, space, NULL_PAGE, kids[i + 1 + j], x);
      }
      AscendsConcat(spans, Preorder(pages, kids[i], h), PreorderAll(pages, kids[i + 1..], h), mid);
    }
  }

  lemma KidsInOrder(pages: Pages, spans: Spans, root: PageId, space: int, p: PageId, i: nat, j: nat)
    requires SearchTree(pages, spans, root, space) && p in pages && pages[p].Internal? && i < j < |pages[p].kids|
    ensures pages[p].kids[i] in spans && pages[p].kids[j] in pages && pages[p].kids[j] in spans
    ensures spans[pages[p].kids[j]].height + 1 == spans[p].height
    ensures spans[pages[p].kids[i]].hi <= spans[pages[p].kids[j]].lo
  {
    var n := pages[p];
    assert NodeOk(p, pages, spans, spans, space, NULL_PAGE);
    assert KidOk(n, spans[p], spans, i) && KidOk(n, spans[p], spans, j);
    assert Boundary(n.keys, spans[p], i + 1) <= Boundary(n.keys, spans[p], j);
  }

  // Pages with smaller keys come first
  lemma PlaceAtLeast(pages: Pages, spans: Spans, root: PageId, space: int, k: nat, before: set<PageId>)
    requires SearchTree(pages, spans, root, space) && k < |Visits(pages, spans, root)|
    requires var q := Visits(pages, spans, root)[k];
             q in spans && forall x :: x in before ==> x in pages && spans[x].lo < spans[q].lo
    ensures |before| <= k
  {
    var all := Visits(pages, spans, root);
    PreorderAscends(pages, spans, root, space, root);
    VisitedOnce(pages, spans, root, space, NULL_PAGE, root);
    forall x | x in before ensures x in Ids(all[..k]) {
      if x != root { RootAbove(pages, spans, root, space, NULL_PAGE, x); }
      Listed(pages, spans, root, space, NULL_PAGE, root, x);
      var i :| 0 <= i < |all| && all[i] == x;
      assert i < k;
      assert all[..k][i] == x;
    }
    SubsetSize(before, Ids(all[..k]));
    IdsSize(all[..k]);
  }

  // ---------------------------------------------------------------------------
  // How many leaves lie under a page
  // ---------------------------------------------------------------------------

  // A page one level down that begins in the range of p is a child of p
  lemma IsKid(pages: Pages, spans: Spans, root: PageId, space: int, p: PageId, x: PageId)
    requires SearchTree(pages, spans, root, space) && p in pages && x in pages
    requires spans[x].height + 1 == spans[p].height && Covers(spans[p], spans[x].lo)
    ensures HasKid(pages, p, x)
  {
    var i := KidOnPath(pages, spans, root, space, NULL_PAGE, p, x);
  }

  lemma FewKids(pages: Pages, spans: Spans, root: PageId, space: int, p: PageId)
    requires SearchTree(pages, spans, root, space) && p in pages && pages[p].Internal?
    ensures |Ids(pages[p].kids)| <= MAX_KEYS + 1
  {
    assert NodeOk(p, pages, spans, spans, space, NULL_PAGE);
    IdsAtMost(pages[p].kids);
  }

  lemma {:induction false} IdsAtMost(s: seq<PageId>)
    ensures |Ids(s)| <= |s|
  {
    if s != [] {
      var t := s[..|s| - 1];
      IdsAtMost(t);
      assert Ids(s) == Ids(t) + {s[|s| - 1]};
    }
  }

  // The children of the first n of some pages
  ghost function Grandkids(pages: Pages, kids: seq<PageId>, n: nat): set<PageId>
    requires n <= |kids|
  {
    if n == 0 then {}
    else
      var k := kids[n - 1];
      Grandkids(pages, kids, n - 1) + if k in pages && pages[k].Internal? then Ids(pages[k].kids) else {}
  }

  lemma {:induction false} FewGrandkids(pages: Pages, spans: Spans, root: PageId, space: int, kids: seq<PageId>, n: nat)
    requires SearchTree(pages, spans, root, space) && n <= |kids|
    ensures |Grandkids(pages, kids, n)| <= (MAX_KEYS + 1) * n
  {
    if n > 0 {
      FewGrandkids(pages, spans, root, space, kids, n - 1);
      if kids[n - 1] in pages && pages[kids[n - 1]].Internal? { FewKids(pages, spans, root, space, kids[n - 1]); }
    }
  }

  lemma {:induction false} IsGrandkid(pages: Pages, kids: seq<PageId>, n: nat, i: nat, x: PageId)
    requires i < n <= |kids| && HasKid(pages, kids[i], x)
    ensures x in Grandkids(pages, kids, n)
  {
    if i < n - 1 { IsGrandkid(pages, kids, n - 1, i, x); }
  }

  lemma TwoDown(pages: Pages, spans: Spans, root: PageId, space: int, q: PageId, x: PageId)
    requires SearchTree(pages, spans, root, space) && q in pages && x in pages
    requires spans[x].height + 2 == spans[q].height && Covers(spans[q], spans[x].lo)
    ensures pages[q].Internal? && x in Grandkids(pages, pages[q].kids, |pages[q].kids|)
  {
    var i := KidOnPath(pages, spans, root, space, NULL_PAGE, q, x);
    var kid := pages[q].kids[i];
    NotRoot(pages, spans, root, space, NULL_PAGE, q, kid);
    IsKid(pages, spans, root, space, kid, x);
    IsGrandkid(pages, pages[q].kids, |pages[q].kids|, i, x);
  }

  // ---------------------------------------------------------------------------
  // A leaf far to the right
  // ---------------------------------------------------------------------------

  lemma ChainStep(pages: Pages, spans: Spans, root: PageId, space: int, leaves: seq<PageId>, i: nat)
    requires SearchTree(pages, spans, root, space) && IsChain(pages, leaves) && i < |leaves|
    ensures leaves[i] in spans && leaves[i] in pages && spans[leaves[i]].height == 0
    ensures spans[leaves[i]].lo < spans[leaves[i]].hi <= space
    ensures i + 1 < |leaves| ==>
              leaves[i + 1] in spans && spans[leaves[i + 1]].lo == spans[leaves[i]].hi && spans[leaves[i]].hi < space
  {
    assert ChainLink(pages, leaves, i);
    assert NodeOk(leaves[i], pages, spans, spans, space, NULL_PAGE) && RangeOk(spans[leaves[i]], spans[root], space);
    if i + 1 < |leaves| { assert ChainLink(pages, leaves, i + 1); }
  }

  lemma {:induction false} ChainAscends(pages: Pages, spans: Spans, root: PageId, space: int, leaves: seq<PageId>,
                                        i: nat, j: nat)
    requires SearchTree(pages, spans, root, space) && IsChain(pages, leaves) && i < j < |leaves|
    ensures leaves[i] in spans && leaves[j] in spans && spans[leaves[i]].hi <= spans[leaves[j]].lo
    decreases j - i
  {
    ChainStep(pages, spans, root, space, leaves, i);
    ChainStep(pages, spans, root, space, leaves, i + 1);
    if i + 1 < j { ChainAscends(pages, spans, root, space, leaves, i + 1, j); }
  }

  lemma ChainDistinct(pages: Pages, leaves: seq<PageId>, i: nat, j: nat)
    requires IsChain(pages, leaves) && i <= j <= |leaves|
    ensures Distinct(leaves[i..j]) && |Ids(leaves[i..j])| == j - i
  {
    var s := leaves[i..j];
    forall a, b | 0 <= a < b < |s| ensures s[a] != s[b] {
      assert ChainLink(pages, leaves, i + b);
      assert leaves[..i + b][i + a] == s[a];
    }
    IdsSize(s);
  }

  // With more than 58 leaves from this one on, the page above it does not reach to the right edge
  lemma NotLast(pages: Pages, spans: Spans, root: PageId, space: int, leaves: seq<PageId>, pos: nat, parent: PageId)
    requires SearchTree(pages, spans, root, space) && IsChain(pages, leaves)
    requires pos + MAX_KEYS + 1 < |leaves| && HasKid(pages, parent, leaves[pos])
    ensures spans[parent].hi < space
  {
    NotRoot(pages, spans, root, space, NULL_PAGE, parent, leaves[pos]);
    assert RangeOk(spans[parent], spans[root], space);
    var late := leaves[pos..];
    assert late == leaves[pos..|leaves|];
    ChainDistinct(pages, leaves, pos, |leaves|);
    if spans[parent].hi == space {
      forall x | x in Ids(late) ensures x in Ids(pages[parent].kids) {
        var j :| 0 <= j < |late| && late[j] == x;
        ChainStep(pages, spans, root, space, leaves, pos);
        ChainStep(pages, spans, root, space, leaves, pos + j);
        if j > 0 { ChainAscends(pages, spans, root, space, leaves, pos, pos + j); }
        IsKid(pages, spans, root, space, parent, x);
      }
      SubsetSize(Ids(late), Ids(pages[parent].kids));
      FewKids(pages, spans, root, space, parent);
    }
  }

  // Consecutive leaves under one page two levels up are at most 58 * 58
  lemma FewLeaves(pages: Pages, spans: Spans, root: PageId, space: int, leaves: seq<PageId>, i: nat, j: nat, q: PageId)
    requires SearchTree(pages, spans, root, space) && IsChain(pages, leaves) && i <= j <= |leaves|
    requires q in pages && pages[q].Internal?
    requires forall x :: x in leaves[i..j] ==> x in Grandkids(pages, pages[q].kids, |pages[q].kids|)
    ensures j - i <= (MAX_KEYS + 1) * (MAX_KEYS + 1)
  {
    var all := Grandkids(pages, pages[q].kids, |pages[q].kids|);
    ChainDistinct(pages, leaves, i, j);
    SubsetSize(Ids(leaves[i..j]), all);
    assert NodeOk(q, pages, spans, spans, space, NULL_PAGE);
    FewGrandkids(pages, spans, root, space, pages[q].kids, |pages[q].kids|);
  }

  lemma UnderTwo(pages: Pages, spans: Spans, root: PageId, space: int, leaves: seq<PageId>, i: nat, k: nat, j: nat,
                 q: PageId)
    requires SearchTree(pages, spans, root, space) && IsChain(pages, leaves) && i <= k <= j < |leaves|
    requires q in pages && spans[q].height == 2 && leaves[i] in spans && leaves[j] in spans
    requires spans[q].lo <= spans[leaves[i]].lo && Covers(spans[q], spans[leaves[j]].lo)
    ensures pages[q].Internal? && leaves[k] in Grandkids(pages, pages[q].kids, |pages[q].kids|)
  {
    ChainStep(pages, spans, root, space, leaves, i);
    ChainStep(pages, spans, root, space, leaves, k);
    if i < k { ChainAscends(pages, spans, root, space, leaves, i, k); }
    if k < j { ChainAscends(pages, spans, root, space, leaves, k, j); }
    TwoDown(pages, spans, root, space, q, leaves[k]);
  }

  // With more than n + 58 * 58 leaves up to this one, the first n of them lie left of the page two above it
  lemma FarLeft(pages: Pages, spans: Spans, root: PageId, space: int, leaves: seq<PageId>, pos: nat, q: PageId, n: nat)
    requires SearchTree(pages, spans, root, space) && IsChain(pages, leaves) && pos < |leaves|
    requires 0 < n && n + (MAX_KEYS + 1) * (MAX_KEYS + 1) <= pos
    requires q in pages && leaves[pos] in spans && spans[q].height == 2 && Covers(spans[q], spans[leaves[pos]].lo)
    ensures leaves[n - 1] in spans && spans[leaves[n - 1]].lo < spans[q].lo
  {
    ChainStep(pages, spans, root, space, leaves, n - 1);
    if spans[leaves[n - 1]].lo >= spans[q].lo {
      var some := leaves[n - 1..pos + 1];
      UnderTwo(pages, spans, root, space, leaves, n - 1, pos, pos, q);
      forall x | x in some ensures x in Grandkids(pages, pages[q].kids, |pages[q].kids|) {
        var k :| 0 <= k < |some| && some[k] == x;
        UnderTwo(pages, spans, root, space, leaves, n - 1, n - 1 + k, pos, q);
      }
      FewLeaves(pages, spans, root, space, leaves, n - 1, pos + 1, q);
    }
  }

  // In a packed index, the leaf, the page above it full and not the root, and the search for the page above that in
  // vain
  lemma FarMisses(pages: Pages, spans: Spans, root: PageId, space: int, leaves: seq<PageId>, pos: nat, parent: PageId)
    requires SearchTree(pages, spans, root, space) && Packed(pages, spans, space) && IsChain(pages, leaves)
    requires MAX_HOPS + (MAX_KEYS + 1) * (MAX_KEYS + 1) <= pos && pos + MAX_KEYS + 1 < |leaves|
    requires HasKid(pages, parent, leaves[pos])
    ensures leaves[pos] in pages && IsFull(pages[leaves[pos]]) && IsFull(pages[parent]) && parent != root
    ensures !ParentReached(pages, spans, root, parent) && spans[parent].lo > 0
  {
    NotLast(pages, spans, root, space, leaves, pos, parent);
    NotRoot(pages, spans, root, space, NULL_PAGE, parent, leaves[pos]);
    ChainStep(pages, spans, root, space, leaves, pos);
    var k := ParentListed(pages, spans, root, space, NULL_PAGE, parent);
    FoundAt(pages, spans, root, space, NULL_PAGE, parent, k);
    var q := Visits(pages, spans, root)[k];
    NotRoot(pages, spans, root, space, NULL_PAGE, q, parent);
    FarLeft(pages, spans, root, space, leaves, pos, q, MAX_HOPS);
    var first := leaves[0..MAX_HOPS];
    ChainDistinct(pages, leaves, 0, MAX_HOPS);
    forall x | x in Ids(first) ensures x in pages && spans[x].lo < spans[q].lo {
      var j :| 0 <= j < |first| && first[j] == x;
      ChainStep(pages, spans, root, space, leaves, j);
      if j < MAX_HOPS - 1 { ChainAscends(pages, spans, root, space, leaves, j, MAX_HOPS - 1); }
      ChainStep(pages, spans, root, space, leaves, MAX_HOPS - 1);
    }
    PlaceAtLeast(pages, spans, root, space, k, Ids(first));
    assert RangeOk(spans[leaves[MAX_HOPS - 1]], spans[root], space);
  }
}
