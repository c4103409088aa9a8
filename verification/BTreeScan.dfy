/** Point and range reads: where a lower-bound descent lands and what the leaf
    chain yields from there. Separators and keys may repeat here. */
module BTreeScan {
  import opened BTreeShape
  import opened BTreeDescent
  import opened BTreeOrder

  ghost predicate SortedKeys(keys: seq<int>) {
    forall i, j :: 0 <= i < j < |keys| ==> keys[i] <= keys[j]
  }

  ghost predicate Sorted(es: seq<Entry>) {
    forall i, j :: 0 <= i < j < |es| ==> es[i].key <= es[j].key
  }

  // Number of separators, from the left, below the key
  function LowerIndex(keys: seq<int>, key: int): (i: nat)
    ensures i <= |keys|
  {
    if keys == [] || keys[0] >= key then 0 else 1 + LowerIndex(keys[1..], key)
  }

  lemma {:induction false} LowerIndexUnique(keys: seq<int>, key: int, i: nat)
    requires i <= |keys|
    requires forall j :: 0 <= j < i ==> keys[j] < key
    requires i < |keys| ==> key <= keys[i]
    ensures LowerIndex(keys, key) == i
  {
    if i > 0 { LowerIndexUnique(keys[1..], key, i - 1); }
  }

  lemma {:induction false} LowerIndexBelow(keys: seq<int>, key: int)
    ensures LowerIndex(keys, key) > 0 ==> keys[LowerIndex(keys, key) - 1] < key
    ensures LowerIndex(keys, key) < |keys| ==> key <= keys[LowerIndex(keys, key)]
  {
    if keys != [] && keys[0] < key { LowerIndexBelow(keys[1..], key); }
  }

  // Pages below p end in leaves exactly h levels down
  ghost predicate Levelled(pages: Pages, p: PageId, h: nat)
    decreases h
  {
    p in pages &&
    match pages[p]
    case Leaf(_, _) => h == 0
    case Internal(keys, kids) =>
      && h > 0 && |kids| == |keys| + 1 && SortedKeys(keys)
      && forall i :: 0 <= i < |kids| ==> Levelled(pages, kids[i], h - 1)
  }

  // The leaf a descent reaches when it turns left at the first separator not below the key
  ghost function LowerLeaf(pages: Pages, p: PageId, key: int, h: nat): PageId
    decreases h
  {
    if h == 0 || p !in pages || pages[p].Leaf? || |pages[p].kids| != |pages[p].keys| + 1 then p
    else LowerLeaf(pages, pages[p].kids[LowerIndex(pages[p].keys, key)], key, h - 1)
  }

  lemma {:induction false} LevelUnique(pages: Pages, p: PageId, g: nat, h: nat)
    requires Levelled(pages, p, g) && Levelled(pages, p, h)
    ensures g == h
    decreases g
  {
    if g > 0 { LevelUnique(pages, pages[p].kids[0], g - 1, h - 1); }
  }

  ghost predicate HigherThan(pages: Pages, p: PageId, g: nat) {
    exists k :: k > g && Levelled(pages, p, k)
  }

  lemma NotHigher(pages: Pages, p: PageId, g: nat)
    requires Levelled(pages, p, g)
    ensures !HigherThan(pages, p, g)
  {
    forall k | k > g ensures !Levelled(pages, p, k) {
      if Levelled(pages, p, k) { LevelUnique(pages, p, k, g); }
    }
  }

  ghost predicate AllBelow(es: seq<Entry>, key: int) {
    forall i :: 0 <= i < |es| ==> es[i].key < key
  }

  // Leaf j of the chain, if there is one, begins with a key not below the given one
  ghost predicate BeginsAt(pages: Pages, leaves: seq<PageId>, j: nat, key: int) {
    j < |leaves| ==>
      leaves[j] in pages && pages[leaves[j]].Leaf? && pages[leaves[j]].entries != [] &&
      key <= pages[leaves[j]].entries[0].key
  }

  // The descent lands on a leaf of the chain with only smaller keys before it and none after it
  ghost predicate LandsAt(pages: Pages, p: PageId, h: nat, leaves: seq<PageId>, key: int, j: nat) {
    && j < |leaves| && LowerLeaf(pages, p, key, h) == leaves[j]
    && AllBelow(Flatten(pages, leaves[..j]), key) && BeginsAt(pages, leaves, j + 1, key)
  }

  ghost predicate Lands(pages: Pages, p: PageId, h: nat, leaves: seq<PageId>, key: int) {
    exists j :: LandsAt(pages, p, h, leaves, key, j)
  }

  // The index can be read: a levelled tree above a sorted leaf chain, every
  // descent landing in time
  ghost predicate Readable(pages: Pages, root: PageId, h: nat, leaves: seq<PageId>) {
    && Levelled(pages, root, h)
    && IsChain(pages, leaves)
    && Sorted(Flatten(pages, leaves))
    && forall key :: Lands(pages, root, h, leaves, key)
  }

  // ---------------------------------------------------------------------------
  // Selecting a key range
  // ---------------------------------------------------------------------------

  // Record ids of the entries with lo <= key <= hi, in order
  function Matching(es: seq<Entry>, lo: int, hi: int): seq<Rid> {
    if es == [] then []
    else (if lo <= es[0].key <= hi then [es[0].rid] else []) + Matching(es[1..], lo, hi)
  }

  // The positions of the first n entries with a key in the range
  ghost function Hits(es: seq<Entry>, lo: int, hi: int, n: nat): set<int>
    requires n <= |es|
  {
    set i | 0 <= i < n && lo <= es[i].key <= hi
  }

  // As many record ids as entries in the range
  lemma {:induction false} MatchingCount(es: seq<Entry>, lo: int, hi: int, n: nat)
    requires n <= |es|
    ensures |Matching(es[..n], lo, hi)| == |Hits(es, lo, hi, n)|
  {
    if n > 0 {
      var last := [es[n - 1]];
      MatchingCount(es, lo, hi, n - 1);
      assert es[..n] == es[..n - 1] + last;
      MatchingAppend(es[..n - 1], last, lo, hi);
      assert Matching(last, lo, hi) == if lo <= last[0].key <= hi then [last[0].rid] else [];
      assert Hits(es, lo, hi, n) == Hits(es, lo, hi, n - 1) + if lo <= es[n - 1].key <= hi then {n - 1} else {};
    }
  }

  // And that of an entry stands at the place given by how many come before it
  lemma MatchingPlace(es: seq<Entry>, lo: int, hi: int, n: nat)
    requires n < |es| && lo <= es[n].key <= hi
    ensures |Matching(es, lo, hi)| == |Hits(es, lo, hi, |es|)|
    ensures |Hits(es, lo, hi, n)| < |Matching(es, lo, hi)| && Matching(es, lo, hi)[|Hits(es, lo, hi, n)|] == es[n].rid
  {
    MatchingCount(es, lo, hi, n);
    MatchingCount(es, lo, hi, |es|);
    assert es[..|es|] == es == es[..n] + es[n..];
    MatchingAppend(es[..n], es[n..], lo, hi);
    assert Matching(es[n..], lo, hi)[0] == es[n].rid;
  }

  lemma {:induction false} MatchingAppend(xs: seq<Entry>, ys: seq<Entry>, lo: int, hi: int)
    ensures Matching(xs + ys, lo, hi) == Matching(xs, lo, hi) + Matching(ys, lo, hi)
  {
    if xs == [] {
      assert xs + ys == ys;
    } else {
      assert (xs + ys)[1..] == xs[1..] + ys;
      MatchingAppend(xs[1..], ys, lo, hi);
    }
  }

  lemma {:induction false} MatchingOutside(es: seq<Entry>, lo: int, hi: int)
    requires forall i :: 0 <= i < |es| ==> es[i].key < lo || es[i].key > hi
    ensures Matching(es, lo, hi) == []
  {
    if es != [] { MatchingOutside(es[1..], lo, hi); }
  }

  lemma MatchingStep(es: seq<Entry>, i: nat, lo: int, hi: int)
    requires i < |es|
    ensures Matching(es[..i + 1], lo, hi) ==
              Matching(es[..i], lo, hi) + (if lo <= es[i].key <= hi then [es[i].rid] else [])
  {
    assert es[..i + 1] == es[..i] + [es[i]];
    MatchingAppend(es[..i], [es[i]], lo, hi);
  }

  lemma {:induction false} FlattenAppend(pages: Pages, xs: seq<PageId>, ys: seq<PageId>)
    ensures Flatten(pages, xs + ys) == Flatten(pages, xs) + Flatten(pages, ys)
  {
    if xs == [] {
      assert xs + ys == ys;
    } else {
      assert (xs + ys)[1..] == xs[1..] + ys;
      FlattenAppend(pages, xs[1..], ys);
    }
  }

  lemma FlattenSplit(pages: Pages, leaves: seq<PageId>, j: nat)
    requires j <= |leaves|
    ensures Flatten(pages, leaves) == Flatten(pages, leaves[..j]) + Flatten(pages, leaves[j..])
  {
    assert leaves == leaves[..j] + leaves[j..];
    FlattenAppend(pages, leaves[..j], leaves[j..]);
  }

  // A chain leaf's entries sit in the listing between what comes before and after
  lemma FlattenAt(pages: Pages, leaves: seq<PageId>, j: nat)
    requires IsChain(pages, leaves) && j < |leaves|
    ensures leaves[j] in pages && pages[leaves[j]].Leaf?
    ensures Flatten(pages, leaves[..j + 1]) == Flatten(pages, leaves[..j]) + pages[leaves[j]].entries
    ensures Flatten(pages, leaves) ==
              Flatten(pages, leaves[..j]) + pages[leaves[j]].entries + Flatten(pages, leaves[j + 1..])
  {
    assert ChainLink(pages, leaves, j);
    assert leaves[..j + 1] == leaves[..j] + [leaves[j]];
    FlattenAppend(pages, leaves[..j], [leaves[j]]);
    assert Flatten(pages, [leaves[j]]) == pages[leaves[j]].entries + Flatten(pages, []);
    FlattenSplit(pages, leaves, j + 1);
  }

  // Once a key beyond the range shows up, nothing further matches
  lemma StopInList(front: seq<Entry>, es: seq<Entry>, back: seq<Entry>, i: nat, lo: int, hi: int)
    requires Sorted(front + es + back) && i < |es| && es[i].key > hi
    ensures Matching(front + es + back, lo, hi) == Matching(front, lo, hi) + Matching(es[..i], lo, hi)
  {
    var all, pre, post := front + es + back, front + es[..i], es[i..] + back;
    assert all == pre + post;
    forall k | 0 <= k < |post| ensures post[k].key > hi {
      assert all[|pre| + k] == post[k] && all[|pre|] == es[i];
    }
    MatchingAppend(pre, post, lo, hi);
    MatchingOutside(post, lo, hi);
    MatchingAppend(front, es[..i], lo, hi);
  }

  lemma SortedFront(xs: seq<Entry>, ys: seq<Entry>)
    requires Sorted(xs + ys)
    ensures Sorted(xs)
  {
    forall i, j | 0 <= i < j < |xs| ensures xs[i].key <= xs[j].key {
      assert (xs + ys)[i] == xs[i] && (xs + ys)[j] == xs[j];
    }
  }

  // So a scan that looks no further than leaf n misses nothing by stopping
  lemma StopEarly(pages: Pages, leaves: seq<PageId>, j: nat, i: nat, lo: int, hi: int, n: nat)
    requires IsChain(pages, leaves) && j < n <= |leaves|
    requires leaves[j] in pages && pages[leaves[j]].Leaf? && i < |pages[leaves[j]].entries|
    requires Sorted(Flatten(pages, leaves)) && pages[leaves[j]].entries[i].key > hi
    ensures Matching(Flatten(pages, leaves[..n]), lo, hi)
            == Matching(Flatten(pages, leaves[..j]), lo, hi) + Matching(pages[leaves[j]].entries[..i], lo, hi)
  {
    FlattenAt(pages, leaves, j);
    FlattenSplit(pages, leaves, n);
    SortedFront(Flatten(pages, leaves[..n]), Flatten(pages, leaves[n..]));
    assert leaves[..n] == leaves[..j + 1] + leaves[j + 1..n];
    FlattenAppend(pages, leaves[..j + 1], leaves[j + 1..n]);
    StopInList(Flatten(pages, leaves[..j]), pages[leaves[j]].entries, Flatten(pages, leaves[j + 1..n]), i, lo, hi);
  }

  // Entry j of the chain is next, or the chain is exhausted; all visited pages come before it
  ghost predicate ChainPosition(pages: Pages, leaves: seq<PageId>, j: nat, leaf: PageId, visited: set<PageId>) {
    && IsChain(pages, leaves) && j <= |leaves|
    && leaf == (if j < |leaves| then leaves[j] else NULL_PAGE)
    && visited <= pages.Keys
    && forall v :: v in visited ==> v in leaves[..j]
  }

  lemma NextPosition(pages: Pages, leaves: seq<PageId>, j: nat, leaf: PageId, visited: set<PageId>)
    requires ChainPosition(pages, leaves, j, leaf, visited) && leaf != NULL_PAGE
    ensures leaf in pages && pages[leaf].Leaf? && leaf !in visited && j < |leaves|
    ensures ChainPosition(pages, leaves, j + 1, pages[leaf].next, visited + {leaf})
  {
    assert ChainLink(pages, leaves, j);
    assert leaves[..j + 1] == leaves[..j] + [leaf];
  }

  lemma ScanAdvance(pages: Pages, leaves: seq<PageId>, j: nat, leaf: PageId, visited: set<PageId>, lo: int, hi: int)
    requires ChainPosition(pages, leaves, j, leaf, visited) && leaf != NULL_PAGE
    ensures leaf in pages && pages[leaf].Leaf? && leaf !in visited && j < |leaves|
    ensures ChainPosition(pages, leaves, j + 1, pages[leaf].next, visited + {leaf})
    ensures Matching(Flatten(pages, leaves[..j + 1]), lo, hi)
            == Matching(Flatten(pages, leaves[..j]), lo, hi) + Matching(pages[leaf].entries, lo, hi)
  {
    NextPosition(pages, leaves, j, leaf, visited);
    FlattenAt(pages, leaves, j);
    MatchingAppend(Flatten(pages, leaves[..j]), pages[leaf].entries, lo, hi);
  }

  // ---------------------------------------------------------------------------
  // A tree grown by inserts is readable
  // ---------------------------------------------------------------------------

  lemma SearchTreeLevelled(pages: Pages, spans: Spans, root: PageId, space: int, p: PageId)
    requires SearchTree(pages, spans, root, space) && p in pages
    ensures Levelled(pages, p, spans[p].height)
    decreases spans[p].height
  {
    assert NodeOk(p, pages, spans, spans, space, NULL_PAGE);
    if pages[p].Internal? {
      forall i | 0 <= i < |pages[p].kids| ensures Levelled(pages, pages[p].kids[i], spans[p].height - 1) {
        assert KidOk(pages[p], spans[p], spans, i);
        SearchTreeLevelled(pages, spans, root, space, pages[p].kids[i]);
      }
    }
  }

  // The lower-bound descent keeps the key strictly above the low end of its range
  lemma LowerLeafRange(pages: Pages, spans: Spans, root: PageId, space: int, p: PageId, key: int)
    requires SearchTree(pages, spans, root, space) && p in pages
    requires (spans[p].lo < key || spans[p].lo == 0) && (key <= spans[p].hi || spans[p].hi == space)
    ensures var leaf := LowerLeaf(pages, p, key, spans[p].height);
            && leaf in pages && pages[leaf].Leaf? && (spans[leaf].lo < key || spans[leaf].lo == 0)
            && (key <= spans[leaf].hi || spans[leaf].hi == space)
    decreases spans[p].height
  {
    assert NodeOk(p, pages, spans, spans, space, NULL_PAGE);
    if pages[p].Internal? {
      var i := LowerIndex(pages[p].keys, key);
      LowerIndexBelow(pages[p].keys, key);
      assert KidOk(pages[p], spans[p], spans, i);
      LowerLeafRange(pages, spans, root, space, pages[p].kids[i], key);
    }
  }

  lemma LandsInSearchTree(pages: Pages, spans: Spans, root: PageId, space: int, leaves: seq<PageId>, key: int)
    returns (j: nat)
    requires SearchTree(pages, spans, root, space)
    requires IsChain(pages, leaves) && StrictlySorted(Flatten(pages, leaves))
    requires forall e :: e in Flatten(pages, leaves) <==> e in Contents(pages)
    requires leaves != [] && leaves[0] == Leftmost(pages, root, spans[root].height)
    ensures LandsAt(pages, root, spans[root].height, leaves, key, j)
  {
    LowerLeafRange(pages, spans, root, space, root, key);
    var leaf := LowerLeaf(pages, root, key, spans[root].height);
    assert NodeOk(leaf, pages, spans, spans, space, NULL_PAGE) && RangeOk(spans[leaf], spans[root], space);
    if spans[leaf].lo == 0 {
      var first := LeftmostLeaf(pages, spans, root, space, root);
      assert NodeOk(first, pages, spans, spans, space, NULL_PAGE);
      assert RangeOk(spans[first], spans[root], space);
      SamePage(pages, spans, root, space, NULL_PAGE, first, leaf, 0);
      j := 0;
    } else {
      InContents(pages, leaf, pages[leaf].entries[0]);
      j := OnChain(pages, spans, root, space, leaves, leaf);
      FlattenAt(pages, leaves, j);
      var all, pre := Flatten(pages, leaves), Flatten(pages, leaves[..j]);
      forall i | 0 <= i < |pre| ensures pre[i].key < key {
        assert all[i] == pre[i] && all[|pre|] == pages[leaf].entries[0];
      }
    }
    NextBegins(pages, spans, root, space, leaves, key, j);
  }

  lemma NextBegins(pages: Pages, spans: Spans, root: PageId, space: int, leaves: seq<PageId>, key: int, j: nat)
    requires SearchTree(pages, spans, root, space) && IsChain(pages, leaves) && j < |leaves| && leaves[j] in spans
    requires key <= spans[leaves[j]].hi || spans[leaves[j]].hi == space
    ensures BeginsAt(pages, leaves, j + 1, key)
  {
    assert ChainLink(pages, leaves, j);
    assert NodeOk(leaves[j], pages, spans, spans, space, NULL_PAGE) && RangeOk(spans[leaves[j]], spans[root], space);
    if j + 1 < |leaves| {
      assert ChainLink(pages, leaves, j + 1);
      assert NodeOk(leaves[j + 1], pages, spans, spans, space, NULL_PAGE);
    }
  }

  lemma OnChain(pages: Pages, spans: Spans, root: PageId, space: int, leaves: seq<PageId>, leaf: PageId)
    returns (j: nat)
    requires SearchTree(pages, spans, root, space) && IsChain(pages, leaves)
    requires leaf in pages && pages[leaf].Leaf? && pages[leaf].entries != []
    requires pages[leaf].entries[0] in Flatten(pages, leaves)
    ensures j < |leaves| && leaves[j] == leaf
  {
    var e := pages[leaf].entries[0];
    forall i | 0 <= i < |leaves|
      ensures leaves[i] in pages && pages[leaves[i]].Leaf?
    {
      assert ChainLink(pages, leaves, i);
    }
    j := FlattenOrigin(pages, leaves, e);
    assert NodeOk(leaf, pages, spans, spans, space, NULL_PAGE);
    assert NodeOk(leaves[j], pages, spans, spans, space, NULL_PAGE);
    SamePage(pages, spans, root, space, NULL_PAGE, leaf, leaves[j], e.key);
  }

  lemma {:induction false} FlattenOrigin(pages: Pages, leaves: seq<PageId>, e: Entry) returns (j: nat)
    requires e in Flatten(pages, leaves)
    requires forall i :: 0 <= i < |leaves| ==> leaves[i] in pages && pages[leaves[i]].Leaf?
    ensures j < |leaves| && e in pages[leaves[j]].entries
  {
    if e in pages[leaves[0]].entries {
      j := 0;
    } else {
      j := FlattenOrigin(pages, leaves[1..], e);
      j := j + 1;
    }
  }

  lemma SearchTreeReadable(pages: Pages, spans: Spans, root: PageId, space: int) returns (leaves: seq<PageId>)
    requires SearchTree(pages, spans, root, space)
    ensures Readable(pages, root, spans[root].height, leaves)
    ensures StrictlySorted(Flatten(pages, leaves))
    ensures forall e :: e in Flatten(pages, leaves) <==> e in Contents(pages)
  {
    SearchTreeLevelled(pages, spans, root, space, root);
    leaves := SearchTreeMeaning(pages, spans, root, space);
    forall key ensures Lands(pages, root, spans[root].height, leaves, key) {
      var j := LandsInSearchTree(pages, spans, root, space, leaves, key);
    }
  }
}
