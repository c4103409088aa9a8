/** Reserving a slot for a tuple before it is logged, and filling it afterwards. */
module HeapFiles {
  import opened Options
  import opened SlottedPages
  import Values

  // A slot that an insertion of this length will get
  ghost predicate Reserved(lps: Pointers, length: nat, slot: nat) {
    slot <= |lps| && (slot < |lps| ==> !lps[slot].IsValid()) && AppendFits(lps, length, slot == |lps|)
  }

  // On a page without dead slots, the predicted slot is one the insertion can fill
  lemma PredictionHolds(lps: Pointers, length: nat, slot: nat)
    requires forall i :: 0 <= i < |lps| ==> lps[i].flag != Dead
    requires Chosen(lps, length, slot)
    ensures Reserved(lps, length, slot) <==> HasSpace(lps, length)
  {
  }

  // With a dead slot left, a page may have room and still refuse the slot it predicts
  lemma PredictionNeedsPrune()
    ensures exists lps: Pointers, length: nat, slot: nat ::
              LayoutOk(lps) && HasSpace(lps, length) && Chosen(lps, length, slot) && !Reserved(lps, length, slot)
  {
    var lps := [LinePointer(32, 8152, Dead)];
    assert LpOk(lps[0], |lps|);
    assert MinOffset(lps, 0) == DATA_END;
    assert MinOffset(lps, 1) == 32;
    assert DeadFits(lps[0], 8);
    assert LayoutOk(lps) && HasSpace(lps, 8) && Chosen(lps, 8, 0) && !Reserved(lps, 8, 0);
  }

  method PredictSlot(page: Page, length: nat) returns (slot: nat)
    requires page.Valid()
    ensures Chosen(page.lps, length, slot)
  {
    var num := |page.lps|;
    var reusable: nat := NULL_SLOT;
    FewPointers(page.lps);
    for i := 0 to num
      invariant reusable == NULL_SLOT ==> forall k :: 0 <= k < i ==> page.lps[k].flag != Unused
      invariant reusable != NULL_SLOT ==> reusable < i && page.lps[reusable].flag == Unused
      invariant reusable != NULL_SLOT ==> forall k :: 0 <= k < reusable ==> page.lps[k].flag != Unused
      invariant forall k :: 0 <= k < i ==> !DeadFits(page.lps[k], length)
    {
      var lp := page.lps[i];
      assert LpOk(page.lps[i], |page.lps|);
      if lp.IsUsable() {
        if lp.flag == Unused && reusable == NULL_SLOT { reusable := i; }
        if lp.length > 0 && Align(length) <= Align(lp.length) { return i; }
      }
    }
    return if reusable == NULL_SLOT then num else reusable;
  }

  // prepare_insert_in_page: prune, look for room, predict
  method Prepare(page: Page, length: nat) returns (ok: bool, slot: nat)
    requires page.Valid()
    modifies page`lps, page.data
    ensures page.Valid() && |page.lps| == |old(page.lps)|
    ensures forall i :: 0 <= i < |page.lps| ==> Pruned(old(page.lps), old(page.data[..]), page.lps, page.data[..], i)
    ensures page.lps == PrunedPointers(old(page.lps)) && (ok <==> HasSpace(page.lps, length))
    ensures ok ==> Reserved(page.lps, length, slot)
    ensures page.data[DATA_END..] == old(page.data[DATA_END..])
  {
    slot := NULL_SLOT;
    var _ := page.Prune();
    ok := page.HasEnoughSpace(length);
    if ok {
      slot := PredictSlot(page, length);
      PredictionHolds(page.lps, length, slot);
    }
  }

  // InPageReservation::commit: never turned away, and the tuple goes where the log says
  method Commit(page: Page, tuple: seq<nat>, slot: nat) returns (actual: nat)
    requires page.Valid() && |tuple| <= 0xFFF8 && Reserved(page.lps, |tuple|, slot)
    modifies page`lps, page.data
    ensures page.Valid() && actual == slot != NULL_SLOT && page.Stores(slot, tuple)
    ensures KeepsOthers(old(page.lps), old(page.data[..]), page.lps, page.data[..], slot)
  {
    FewPointers(page.lps);
    actual := page.InsertTupleAt(tuple, slot);
  }

  // A whole insertion: the slot announced is the slot used, and every live tuple survives both steps
  method Insert(page: Page, tuple: seq<nat>) returns (ok: bool, announced: nat, actual: nat)
    requires page.Valid() && |tuple| <= 0xFFF8
    modifies page`lps, page.data
    ensures page.Valid() && (ok <==> HasSpace(PrunedPointers(old(page.lps)), |tuple|))
    ensures ok ==> actual == announced && page.Stores(actual, tuple)
    ensures ok && actual < |old(page.lps)| ==> !old(page.lps)[actual].IsValid()
    ensures forall i :: 0 <= i < |old(page.lps)| && old(page.lps)[i].IsValid() ==>
              Survives(old(page.lps), old(page.data[..]), page.lps, page.data[..], i)
  {
    ghost var lps0, d0 := page.lps, page.data[..];
    actual := NULL_SLOT;
    ok, announced := Prepare(page, |tuple|);
    ghost var lps1, d1 := page.lps, page.data[..];
    assert forall i :: 0 <= i < |lps1| ==> Pruned(lps0, d0, lps1, d1, i);
    if ok {
      actual := Commit(page, tuple, announced);
      assert announced < |lps0| ==> Pruned(lps0, d0, lps1, d1, announced);
      assert KeepsOthers(lps1, d1, page.lps, page.data[..], announced);
    }
    forall i | 0 <= i < |lps0| && lps0[i].IsValid() ensures Survives(lps0, d0, page.lps, page.data[..], i) {
      assert Pruned(lps0, d0, lps1, d1, i);
      if ok { SurvivesBoth(lps0, d0, lps1, d1, page.lps, page.data[..], i, announced); }
    }
  }

  // The tuple of slot i is still there, under the same number
  ghost predicate Survives(lps: Pointers, d: seq<nat>, lps': Pointers, d': seq<nat>, i: nat)
    requires i < |lps| && |d| == |d'| == PAGE_SIZE
  {
    && i < |lps'| && lps'[i].IsValid() && lps'[i].length == lps[i].length
    && lps[i].offset + lps[i].length <= PAGE_SIZE && lps'[i].offset + lps[i].length <= PAGE_SIZE
    && Bytes(d', lps'[i]) == Bytes(d, lps[i])
  }

  lemma SurvivesBoth(lps: Pointers, d: seq<nat>, lps1: Pointers, d1: seq<nat>, lps2: Pointers, d2: seq<nat>, i: nat,
                     slot: nat)
    requires LayoutOk(lps1) && |d| == |d1| == |d2| == PAGE_SIZE && i < |lps| == |lps1| && lps[i].IsValid()
    requires Pruned(lps, d, lps1, d1, i) && KeepsOthers(lps1, d1, lps2, d2, slot)
    requires slot < |lps1| ==> !lps1[slot].IsValid()
    ensures Survives(lps, d, lps2, d2, i)
  {
    assert SameTuple(lps1, d1, lps2, d2, i);
    RegionInside(lps1, i);
  }

  // A reservation on a page still to be created promises slot 0 without looking at the length
  method CommitNew(tuple: seq<nat>) returns (page: Page, actual: nat)
    requires |tuple| <= 0xFFF8
    ensures fresh(page) && fresh(page.data) && page.Valid()
    ensures (actual == 0 && page.Stores(0, tuple)) || actual == NULL_SLOT
    ensures actual == 0 <==> |tuple| <= 8152
  {
    page := new Page();
    actual := page.InsertTuple(tuple);
    assert actual != NULL_SLOT <==> Align(|tuple|) <= DATA_END && LpEnd(1) <= DATA_END - Align(|tuple|);
    AlignBounds(|tuple|);
  }

  // ---------------------------------------------------------------------------
  // The file: a chain of pages, each pointing to the next in its reserved tail
  // ---------------------------------------------------------------------------

  const NULL_PAGE: nat := 0

  datatype Reservation = Reservation(page: nat, isNew: bool, slot: nat)

  // Every live tuple of a page is still there, under the same number
  ghost predicate PageSurvives(lps: Pointers, d: seq<nat>, lps': Pointers, d': seq<nat>) {
    && |d| == |d'| == PAGE_SIZE
    && forall i {:trigger Survives(lps, d, lps', d', i)} :: 0 <= i < |lps| && lps[i].IsValid() ==>
      Survives(lps, d, lps', d', i)
  }

  lemma SurvivesItself(lps: Pointers, d: seq<nat>)
    requires LayoutOk(lps) && |d| == PAGE_SIZE
    ensures PageSurvives(lps, d, lps, d)
  {
    forall i | 0 <= i < |lps| && lps[i].IsValid() ensures Survives(lps, d, lps, d, i) { RegionInside(lps, i); }
  }

  lemma SurvivesPruning(lps: Pointers, d: seq<nat>, lps': Pointers, d': seq<nat>)
    requires |lps| == |lps'| && |d| == |d'| == PAGE_SIZE
    requires forall i :: 0 <= i < |lps| ==> Pruned(lps, d, lps', d', i)
    ensures PageSurvives(lps, d, lps', d')
  {
    forall i | 0 <= i < |lps| && lps[i].IsValid()
      ensures Survives(lps, d, lps', d', i)
    {
      assert Pruned(lps, d, lps', d', i);
    }
  }

  lemma SurvivesInsertion(lps: Pointers, d: seq<nat>, lps': Pointers, d': seq<nat>, slot: nat)
    requires LayoutOk(lps) && |d| == |d'| == PAGE_SIZE && KeepsOthers(lps, d, lps', d', slot)
    requires slot < |lps| ==> !lps[slot].IsValid()
    ensures PageSurvives(lps, d, lps', d')
  {
    forall i | 0 <= i < |lps| && lps[i].IsValid() ensures Survives(lps, d, lps', d', i) {
      assert SameTuple(lps, d, lps', d', i);
      RegionInside(lps, i);
    }
  }

  lemma SurvivesTail(lps: Pointers, d: seq<nat>, d': seq<nat>)
    requires LayoutOk(lps) && |d| == |d'| == PAGE_SIZE && d[..DATA_END] == d'[..DATA_END]
    ensures PageSurvives(lps, d, lps, d')
  {
    forall i | 0 <= i < |lps| && lps[i].IsValid() ensures Survives(lps, d, lps, d', i) {
      RegionInside(lps, i);
      SameSlice(d, d', DATA_END, lps[i].offset, lps[i].offset + lps[i].length);
    }
  }

  lemma SameSlice(d: seq<nat>, d': seq<nat>, n: nat, a: nat, b: nat)
    requires a <= b <= n <= |d| == |d'| && d[..n] == d'[..n]
    ensures d[a..b] == d'[a..b]
  {
    forall x | a <= x < b ensures d[x] == d'[x] { assert d[..n][x] == d'[..n][x]; }
  }

  // The contents of a page between pinning and unpinning it
  datatype Content = Content(lps: Pointers, data: seq<nat>)

  type Pages = map<nat, Content>

  ghost predicate ContentOk(c: Content) {
    LayoutOk(c.lps) && |c.data| == PAGE_SIZE
  }

  // Page i of the chain points to the next one, the last one to nothing
  ghost predicate Linked(pages: Pages, chain: seq<nat>, i: nat)
    requires i < |chain|
  {
    && chain[i] in pages && |pages[chain[i]].data| == PAGE_SIZE
    && pages[chain[i]].data[DATA_END..] == Values.Le(if i + 1 < |chain| then chain[i + 1] else NULL_PAGE, 8)
  }

  ghost predicate Inv(pages: Pages, chain: seq<nat>) {
    && (forall id {:trigger ContentOk(pages[id])} :: id in pages ==> ContentOk(pages[id]))
    && (forall id :: id in pages <==> id in chain)
    && (forall i, j :: 0 <= i < j < |chain| ==> chain[i] != chain[j])
    && (forall i {:trigger Linked(pages, chain, i)} :: 0 <= i < |chain| ==> Linked(pages, chain, i))
  }

  // No live tuple of any page is lost or renumbered
  ghost predicate AllSurvive(pages: Pages, pages': Pages) {
    forall id {:trigger SurvivesIn(pages, pages', id)} :: id in pages ==> SurvivesIn(pages, pages', id)
  }

  ghost predicate SurvivesIn(pages: Pages, pages': Pages, id: nat)
    requires id in pages
  {
    id in pages' && PageSurvives(pages[id].lps, pages[id].data, pages'[id].lps, pages'[id].data)
  }

  // One page changed, its link kept
  lemma PageChanged(pages: Pages, chain: seq<nat>, id: nat, c: Content)
    requires Inv(pages, chain) && id in pages && ContentOk(pages[id]) && ContentOk(c)
    requires c.data[DATA_END..] == pages[id].data[DATA_END..]
    requires PageSurvives(pages[id].lps, pages[id].data, c.lps, c.data)
    ensures Inv(pages[id := c], chain) && AllSurvive(pages, pages[id := c])
  {
    var pages' := pages[id := c];
    forall x | x in pages' ensures ContentOk(pages'[x]) { if x != id { assert ContentOk(pages[x]); } }
    forall i | 0 <= i < |chain| ensures Linked(pages', chain, i) { assert Linked(pages, chain, i); }
    forall x | x in pages ensures SurvivesIn(pages, pages', x) {
      if x != id {
        assert ContentOk(pages[x]);
        SurvivesItself(pages[x].lps, pages[x].data);
      }
    }
  }

  // A page added at the end of the chain
  lemma PageAdded(pages: Pages, chain: seq<nat>, id: nat, c: Content, last: Content)
    requires Inv(pages, chain) && id !in pages && id != NULL_PAGE && ContentOk(c)
    requires c.data[DATA_END..] == Values.Le(NULL_PAGE, 8)
    requires chain != [] ==>
               var e := chain[|chain| - 1];
               e in pages && last.lps == pages[e].lps && |last.data| == PAGE_SIZE && ContentOk(pages[e])
               && last.data[..DATA_END] == pages[e].data[..DATA_END] && last.data[DATA_END..] == Values.Le(id, 8)
    ensures var linked: Pages := if chain == [] then pages else pages[chain[|chain| - 1] := last];
            Inv(linked[id := c], chain + [id]) && AllSurvive(pages, linked[id := c])
  {
    var linked: Pages := if chain == [] then pages else pages[chain[|chain| - 1] := last];
    var pages', chain' := linked[id := c], chain + [id];
    forall x | x in pages' ensures ContentOk(pages'[x]) { if x in pages { assert ContentOk(pages[x]); } }
    forall i | 0 <= i < |chain'| ensures Linked(pages', chain', i) {
      if i < |chain| {
        assert Linked(pages, chain, i);
        assert chain[i] in pages;
      }
    }
    forall x | x in pages ensures SurvivesIn(pages, pages', x) {
      assert ContentOk(pages[x]);
      if chain != [] && x == chain[|chain| - 1] {
        SurvivesTail(pages[x].lps, pages[x].data, last.data);
      } else {
        SurvivesItself(pages[x].lps, pages[x].data);
      }
    }
  }

  lemma AllSurviveTwice(a: Pages, b: Pages, c: Pages)
    requires AllSurvive(a, b) && AllSurvive(b, c)
    ensures AllSurvive(a, c)
  {
    forall id | id in a ensures SurvivesIn(a, c, id) {
      assert SurvivesIn(a, b, id) && SurvivesIn(b, c, id);
      forall i | 0 <= i < |a[id].lps| && a[id].lps[i].IsValid()
        ensures Survives(a[id].lps, a[id].data, c[id].lps, c[id].data, i)
      {
        assert Survives(a[id].lps, a[id].data, b[id].lps, b[id].data, i);
        assert Survives(b[id].lps, b[id].data, c[id].lps, c[id].data, i);
      }
    }
  }

  class HeapFile {
    var pages: Pages
    var last: nat
    var nextPage: nat

    // the data pages in the order of their links
    ghost var chain: seq<nat>

    ghost predicate Valid()
      reads this
    {
      && Inv(pages, chain) && nextPage > 0 && (forall id :: id in pages ==> 0 < id < nextPage)
      && last == if chain == [] then NULL_PAGE else chain[|chain| - 1]
    }

    constructor ()
      ensures Valid() && pages == map[] && chain == []
    {
      pages := map[];
      last, nextPage, chain := NULL_PAGE, 1, [];
    }

    // A reservation good for the file as it is
    ghost predicate Good(r: Reservation, length: nat)
      reads this
    {
      if r.isNew then r.page !in pages && 0 < r.page < nextPage && r.slot == 0
      else r.page in pages && Reserved(pages[r.page].lps, length, r.slot)
    }

    // One page pruned and asked for room
    // Once pruned, the page takes a tuple of that length
    ghost predicate HasRoom(id: nat, length: nat)
      reads this
    {
      id in pages && ContentOk(pages[id]) && HasSpace(PrunedPointers(pages[id].lps), length)
    }

    method TryPage(id: nat, length: nat) returns (ok: bool, slot: nat)
      requires Valid() && id in pages
      modifies this`pages
      ensures Valid() && pages.Keys == old(pages).Keys && AllSurvive(old(pages), pages)
      ensures ok <==> old(HasRoom(id, length))
      ensures ok ==> Reserved(pages[id].lps, length, slot)
      ensures forall x :: x in pages && x != id ==> pages[x] == old(pages)[x]
    {
      assert ContentOk(pages[id]);
      var page := new Page.Load(pages[id].lps, pages[id].data);
      ok, slot := Prepare(page, length);
      SurvivesPruning(pages[id].lps, pages[id].data, page.lps, page.data[..]);
      PageChanged(pages, chain, id, Content(page.lps, page.data[..]));
      pages := pages[id := Content(page.lps, page.data[..])];
    }

    // `candidate` is what the free-space map suggests
    method PrepareInsert(length: nat, candidate: nat) returns (r: Reservation)
      requires Valid()
      modifies this`pages, this`nextPage
      ensures Valid() && Good(r, length) && pages.Keys == old(pages).Keys && AllSurvive(old(pages), pages)
      // the last page if it has room, else the one suggested, else a new one
      ensures if last != NULL_PAGE && old(HasRoom(last, length)) then !r.isNew && r.page == last
              else if last != NULL_PAGE && candidate != NULL_PAGE && candidate != last &&
                      old(HasRoom(candidate, length))
                then !r.isNew && r.page == candidate
              else r.isNew && r.page == old(nextPage)
      ensures nextPage == old(nextPage) + if r.isNew then 1 else 0
    {
      if last != NULL_PAGE {
        var ok, slot := TryPage(last, length);
        if ok { return Reservation(last, false, slot); }
        if candidate != NULL_PAGE && candidate != last && candidate in pages {
          ghost var m := pages;
          ok, slot := TryPage(candidate, length);
          AllSurviveTwice(old(pages), m, pages);
          if ok { return Reservation(candidate, false, slot); }
        }
      } else {
        AllSurviveNone(pages);
      }
      r := Reservation(nextPage, true, 0);
      nextPage := nextPage + 1;
    }

    // The tuple goes where the reservation says, unless no page can hold it
    method CommitInsert(r: Reservation, tuple: seq<nat>) returns (rid: Option<(nat, nat)>)
      requires Valid() && Good(r, |tuple|) && |tuple| <= 0xFFF8
      modifies this`pages, this`last, this`chain
      ensures Valid() && AllSurvive(old(pages), pages)
      ensures rid.None? <==> r.isNew && |tuple| > 8152
      ensures rid.Some? ==> rid.value == (r.page, r.slot) && r.page in pages && TupleAt(pages[r.page], r.slot, tuple)
      ensures chain == if r.isNew && rid.Some? then old(chain) + [r.page] else old(chain)
    {
      if !r.isNew {
        FillSlot(r.page, r.slot, tuple);
        return Some((r.page, r.slot));
      }
      var page, slot := CommitNew(tuple);
      if slot == NULL_SLOT {
        AllSurviveNone(pages);
        return None;
      }
      SetNext(page, NULL_PAGE);
      assert page.Stores(0, tuple);
      AddPage(r.page, Content(page.lps, page.data[..]));
      return Some((r.page, slot));
    }

    method FillSlot(id: nat, slot: nat, tuple: seq<nat>)
      requires Valid() && id in pages && Reserved(pages[id].lps, |tuple|, slot) && |tuple| <= 0xFFF8
      modifies this`pages
      ensures Valid() && AllSurvive(old(pages), pages) && id in pages && TupleAt(pages[id], slot, tuple)
    {
      assert ContentOk(pages[id]);
      var page := new Page.Load(pages[id].lps, pages[id].data);
      FewPointers(page.lps);
      var actual := page.InsertTupleAt(tuple, slot);
      var c := Content(page.lps, page.data[..]);
      SurvivesInsertion(pages[id].lps, pages[id].data, c.lps, c.data, slot);
      PageChanged(pages, chain, id, c);
      pages := pages[id := c];
    }

    // Link the new page behind the last one
    method AddPage(id: nat, c: Content)
      requires Valid() && id !in pages && 0 < id < nextPage && ContentOk(c)
      requires c.data[DATA_END..] == Values.Le(NULL_PAGE, 8)
      modifies this`pages, this`last, this`chain
      ensures Valid() && AllSurvive(old(pages), pages) && id in pages && pages[id] == c && chain == old(chain) + [id]
    {
      if last != NULL_PAGE {
        assert ContentOk(pages[last]);
        var before := new Page.Load(pages[last].lps, pages[last].data);
        SetNext(before, id);
        var linked := Content(before.lps, before.data[..]);
        PageAdded(pages, chain, id, c, linked);
        pages := pages[last := linked];
      } else {
        PageAdded(pages, chain, id, c, c);
      }
      pages := pages[id := c];
      chain := chain + [id];
      last := id;
    }
  }

  ghost predicate TupleAt(c: Content, slot: nat, tuple: seq<nat>) {
    && slot < |c.lps| && c.lps[slot].flag == Normal && c.lps[slot].length == |tuple|
    && c.lps[slot].offset + |tuple| <= |c.data| && c.data[c.lps[slot].offset..c.lps[slot].offset + |tuple|] == tuple
  }

  // The link in the reserved tail
  method SetNext(page: Page, next: nat)
    requires page.Valid()
    modifies page.data
    ensures page.Valid() && page.data[..DATA_END] == old(page.data[..DATA_END])
    ensures page.data[DATA_END..] == Values.Le(next, 8)
    ensures forall slot, tuple :: old(page.Stores(slot, tuple)) ==> page.Stores(slot, tuple)
  {
    page.CopyIn(DATA_END, Values.Le(next, 8));
    SpliceHolds(old(page.data[..]), DATA_END, Values.Le(next, 8));
    forall slot, tuple | old(page.Stores(slot, tuple)) ensures page.Stores(slot, tuple) {
      if tuple != [] { RegionInside(page.lps, slot); }
    }
  }

  lemma AllSurviveNone(pages: Pages)
    requires forall id {:trigger ContentOk(pages[id])} :: id in pages ==> ContentOk(pages[id])
    ensures AllSurvive(pages, pages)
  {
    forall id | id in pages ensures SurvivesIn(pages, pages, id) {
      assert ContentOk(pages[id]);
      SurvivesItself(pages[id].lps, pages[id].data);
    }
  }
}
