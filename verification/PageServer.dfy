/** The page server: versioned page images in an append-only log, an index per page
    sorted by LSN, a primary copy, and reads at a chosen LSN. */
module PageServers {
  import opened Options

  type PageId = nat
  type Lsn = nat
  type Bytes = seq<nat>

  // A page image: the LSN it was accepted under, and the one in its page header
  datatype Image = Image(lsn: Lsn, header: Lsn, data: Bytes)

  // One record of the image log
  datatype Record = Record(page: PageId, image: Image)

  // log_index entry: where in the log the image of this LSN is
  datatype IndexEntry = IndexEntry(lsn: Lsn, offset: nat)

  // A page nobody has written
  const BLANK := Image(0, 0, [])

  ghost predicate SortedByLsn(list: seq<IndexEntry>) {
    forall i, j :: 0 <= i < j < |list| ==> list[i].lsn <= list[j].lsn
  }

  // Number of entries not above the LSN
  method UpperBound(list: seq<IndexEntry>, lsn: Lsn) returns (pos: nat)
    requires SortedByLsn(list)
    ensures pos <= |list|
    ensures forall i :: 0 <= i < pos ==> list[i].lsn <= lsn
    ensures forall i :: pos <= i < |list| ==> list[i].lsn > lsn
  {
    var left, right := 0, |list|;
    while left < right
      invariant 0 <= left <= right <= |list|
      invariant forall i :: 0 <= i < left ==> list[i].lsn <= lsn
      invariant forall i :: right <= i < |list| ==> list[i].lsn > lsn
    {
      var mid := left + (right - left) / 2;
      if list[mid].lsn <= lsn { left := mid + 1; } else { right := mid; }
    }
    pos := left;
  }

  // Insertion behind the last entry not above it keeps a list sorted
  lemma Spliced(list: seq<IndexEntry>, k: nat, e: IndexEntry)
    requires SortedByLsn(list) && k <= |list|
    requires forall i :: 0 <= i < k ==> list[i].lsn <= e.lsn
    requires forall i :: k <= i < |list| ==> list[i].lsn > e.lsn
    ensures SortedByLsn(list[..k] + [e] + list[k..])
    ensures forall x :: x in list[..k] + [e] + list[k..] <==> x in list || x == e
  {
    var list' := list[..k] + [e] + list[k..];
    assert list == list[..k] + list[k..];
    forall i, j | 0 <= i < j < |list'| ensures list'[i].lsn <= list'[j].lsn {
      SplicedAt(list, k, e, i);
      SplicedAt(list, k, e, j);
    }
  }

  lemma SplicedAt(list: seq<IndexEntry>, k: nat, e: IndexEntry, i: nat)
    requires k <= |list| && i <= |list|
    ensures (list[..k] + [e] + list[k..])[i] == if i < k then list[i] else if i == k then e else list[i - 1]
  {
  }

  method InsertEntry(list: seq<IndexEntry>, e: IndexEntry) returns (list': seq<IndexEntry>, k: nat)
    requires SortedByLsn(list)
    ensures k <= |list| && list' == list[..k] + [e] + list[k..]
    ensures forall i :: 0 <= i < k ==> list[i].lsn <= e.lsn
    ensures forall i :: k <= i < |list| ==> list[i].lsn > e.lsn
  {
    if |list| == 0 || list[|list| - 1].lsn <= e.lsn {
      return list + [e], |list|;
    }
    k := UpperBound(list, e.lsn);
    list' := list[..k] + [e] + list[k..];
  }

  // The entries of a page's index point at log records of that page and LSN
  ghost predicate IndexOk(list: seq<IndexEntry>, page: PageId, log: seq<Record>) {
    && SortedByLsn(list)
    && forall i :: 0 <= i < |list| ==>
         list[i].offset < |log| && log[list[i].offset].page == page && log[list[i].offset].image.lsn == list[i].lsn
  }

  // The images a page's index knows
  ghost function Known(list: seq<IndexEntry>, log: seq<Record>): set<Image> {
    set i | 0 <= i < |list| && list[i].offset < |log| :: log[list[i].offset].image
  }

  // The images ever logged for a page
  ghost function Logged(log: seq<Record>, page: PageId): set<Image> {
    set i | 0 <= i < |log| && log[i].page == page :: log[i].image
  }

  // The image a reader at `lsn` should get: newest among those not above
  ghost predicate NewestAt(images: set<Image>, lsn: Lsn, img: Image) {
    && img in images && img.lsn <= lsn
    && forall x :: x in images && x.lsn <= lsn ==> x.lsn <= img.lsn
  }

  ghost predicate SameImage(a: Record, b: Record) {
    a.page == b.page && a.image.lsn == b.image.lsn && a.image.lsn != 0 ==> a.image == b.image
  }

  // A nonzero LSN names one image of a page
  ghost predicate OnePerLsn(log: seq<Record>) {
    forall i, j :: 0 <= i < |log| && 0 <= j < |log| ==> SameImage(log[i], log[j])
  }

  // With that, the newest image is unique
  lemma NewestUnique(log: seq<Record>, page: PageId, images: set<Image>, lsn: Lsn, a: Image, b: Image)
    requires OnePerLsn(log) && images <= Logged(log, page)
    requires NewestAt(images, lsn, a) && NewestAt(images, lsn, b) && a.lsn != 0
    ensures a == b
  {
    assert a in Logged(log, page) && b in Logged(log, page);
  }

  // A page's index: sorted, pointing at exactly the accepted images, ending at the latest LSN
  ghost predicate PageOk(list: seq<IndexEntry>, page: PageId, log: seq<Record>, images: set<Image>, latest: Lsn) {
    && IndexOk(list, page, log)
    && Known(list, log) == images
    && list != [] && list[|list| - 1].lsn == latest
  }

  lemma KnownInserted(list: seq<IndexEntry>, list': seq<IndexEntry>, e: IndexEntry, page: PageId, log: seq<Record>)
    requires IndexOk(list, page, log) && SortedByLsn(list')
    requires forall x :: x in list' <==> x in list || x == e
    requires e.offset < |log| && log[e.offset].page == page && log[e.offset].image.lsn == e.lsn
    ensures IndexOk(list', page, log)
    ensures Known(list', log) == Known(list, log) + {log[e.offset].image}
  {
    forall i | 0 <= i < |list'|
      ensures list'[i].offset < |log| && log[list'[i].offset].page == page
      ensures log[list'[i].offset].image.lsn == list'[i].lsn
    {
      assert list'[i] in list';
    }
    forall x ensures x in Known(list', log) <==> x in Known(list, log) + {log[e.offset].image} {
      if x in Known(list', log) {
        var i :| 0 <= i < |list'| && list'[i].offset < |log| && log[list'[i].offset].image == x;
        assert list'[i] in list';
      }
      if x in Known(list, log) {
        var i :| 0 <= i < |list| && list[i].offset < |log| && log[list[i].offset].image == x;
        assert list[i] in list';
      }
      if x == log[e.offset].image { assert e in list'; }
    }
  }

  // Indexing one more logged image
  lemma PageInserted(list: seq<IndexEntry>, k: nat, page: PageId, log: seq<Record>, images: set<Image>, latest: Lsn,
                     offset: nat)
    requires if list == [] then images == {} && latest == 0 else PageOk(list, page, log, images, latest)
    requires offset < |log| && log[offset].page == page && k <= |list|
    requires forall i :: 0 <= i < k ==> list[i].lsn <= log[offset].image.lsn
    requires forall i :: k <= i < |list| ==> list[i].lsn > log[offset].image.lsn
    ensures var img := log[offset].image;
            PageOk(list[..k] + [IndexEntry(img.lsn, offset)] + list[k..], page, log, images + {img},
                   if img.lsn >= latest then img.lsn else latest)
  {
    var e := IndexEntry(log[offset].image.lsn, offset);
    Spliced(list, k, e);
    KnownInserted(list, list[..k] + [e] + list[k..], e, page, log);
  }

  lemma PageGrowLog(list: seq<IndexEntry>, page: PageId, log: seq<Record>, images: set<Image>, latest: Lsn, r: Record)
    requires PageOk(list, page, log, images, latest)
    ensures PageOk(list, page, log + [r], images, latest)
  {
    assert forall i :: 0 <= i < |list| ==> (log + [r])[list[i].offset] == log[list[i].offset];
  }

  ghost predicate AllPagesOk(index: map<PageId, seq<IndexEntry>>, log: seq<Record>,
                             accepted: map<PageId, set<Image>>, latest: map<PageId, Lsn>)
  {
    && accepted.Keys == index.Keys == latest.Keys
    && (forall p {:trigger PageOk(index[p], p, log, accepted[p], latest[p])} ::
          p in index ==> PageOk(index[p], p, log, accepted[p], latest[p]))
  }

  lemma OnePageChanged(index: map<PageId, seq<IndexEntry>>, log: seq<Record>, accepted: map<PageId, set<Image>>,
                       latest: map<PageId, Lsn>, page: PageId, list: seq<IndexEntry>, images: set<Image>, lsn: Lsn)
    requires AllPagesOk(index, log, accepted, latest) && PageOk(list, page, log, images, lsn)
    ensures AllPagesOk(index[page := list], log, accepted[page := images], latest[page := lsn])
  {
    forall p | p in index && p != page ensures PageOk(index[p], p, log, accepted[p], latest[p]) {}
  }

  lemma KnownLogged(list: seq<IndexEntry>, page: PageId, log: seq<Record>)
    requires IndexOk(list, page, log)
    ensures Known(list, log) <= Logged(log, page)
  {
  }

  // What a read of the primary copy gives: zeros for a page never written
  function Seen(copy: Option<Image>): Image {
    match copy case None => BLANK case Some(img) => img
  }

  class PageServer {
    var log: seq<Record>
    var index: map<PageId, seq<IndexEntry>>
    var latest: map<PageId, Lsn>
    var primary: map<PageId, Image>
    var durable: Lsn
    // how many records stand before the first torn one in the log file, if a crash has left any
    var torn: Option<nat>

    // the images accepted for each page, in no particular order
    ghost var accepted: map<PageId, set<Image>>

    ghost predicate IndexValid()
      reads this
    {
      AllPagesOk(index, log, accepted, latest)
    }

    // The primary holds some accepted image, not necessarily the newest
    ghost predicate Valid()
      reads this
    {
      && OnePerLsn(log)
      && IndexValid()
      && (forall p :: p in primary ==> p in accepted && primary[p] in accepted[p])
      && (torn.Some? ==> torn.value <= |log|)
    }

    // No write is between its index entry and its primary copy
    ghost predicate Quiet()
      reads this
    {
      && primary.Keys == latest.Keys
      && forall p :: p in primary ==> primary[p].lsn == latest[p]
    }

    constructor ()
      ensures Valid() && Quiet() && accepted == map[] && log == [] && durable == 0 && torn == None && primary == map[]
    {
      log := [];
      index := map[];
      latest := map[];
      primary := map[];
      durable := 0;
      torn := None;
      accepted := map[];
    }

    ghost function Accepted(page: PageId): set<Image>
      reads this
    {
      if page in accepted then accepted[page] else {}
    }

    // write_page, first section: refuse an image beyond the durable LSN, else log it
    method AppendLog(page: PageId, img: Image) returns (offset: Option<nat>)
      requires Valid()
      requires OnePerLsn(log + [Record(page, img)])
      modifies this`log
      ensures Valid()
      ensures offset.None? <==> durable != 0 && img.lsn > durable
      ensures offset.None? ==> log == old(log)
      ensures offset.Some? ==> log == old(log) + [Record(page, img)] && offset.value == |old(log)|
    {
      if durable != 0 && img.lsn > durable { return None; }
      offset := Some(|log|);
      forall p | p in index ensures PageOk(index[p], p, log + [Record(page, img)], accepted[p], latest[p]) {
        PageGrowLog(index[p], p, log, accepted[p], latest[p], Record(page, img));
      }
      log := log + [Record(page, img)];
    }

    // insert_log_entry and the metadata update
    method IndexImage(page: PageId, offset: nat)
      requires IndexValid() && offset < |log| && log[offset].page == page
      modifies this`index, this`latest, this`accepted
      ensures IndexValid()
      ensures accepted == old(accepted)[page := old(Accepted(page)) + {log[offset].image}]
      ensures latest == old(latest)[page :=
                if page in old(latest) && old(latest)[page] > log[offset].image.lsn then old(latest)[page]
                else log[offset].image.lsn]
    {
      var img := log[offset].image;
      var list := if page in index then index[page] else [];
      var last := if page in latest then latest[page] else 0;
      if page in index { assert PageOk(index[page], page, log, accepted[page], latest[page]); }
      var list', k := InsertEntry(list, IndexEntry(img.lsn, offset));
      PageInserted(list, k, page, log, Accepted(page), last, offset);
      last := if img.lsn >= last then img.lsn else last;
      OnePageChanged(index, log, accepted, latest, page, list', Accepted(page) + {img}, last);
      accepted := accepted[page := Accepted(page) + {img}];
      index := index[page := list'];
      latest := latest[page := last];
    }

    // An image with this LSN has been accepted before; LSN 0 says nothing
    ghost predicate Retried(page: PageId, lsn: Lsn)
      reads this
    {
      lsn != 0 && exists x :: x in Accepted(page) && x.lsn == lsn
    }

    // write_page, second section: skip a retry, else index the image and say whether it is the newest
    method Remember(page: PageId, offset: nat) returns (newest: bool)
      requires Valid() && offset < |log| && log[offset].page == page
      modifies this`index, this`latest, this`accepted
      ensures Valid()
      ensures accepted == old(accepted)[page := old(Accepted(page)) + {log[offset].image}]
      // newest: not a retry, and not below what there is
      ensures newest <==> !old(Retried(page, log[offset].image.lsn)) &&
                          (page in old(latest) ==> log[offset].image.lsn >= old(latest)[page])
      ensures latest == if newest then old(latest)[page := log[offset].image.lsn] else old(latest)
      ensures forall p :: p in old(latest) && p != page ==> p in latest && latest[p] == old(latest)[p]
    {
      var lsn := log[offset].image.lsn;
      if page in index { assert PageOk(index[page], page, log, accepted[page], latest[page]); }
      if page in index && lsn != 0 {
        var retry := HasLsn(page, lsn, offset);
        if retry {
          assert accepted[page] + {log[offset].image} == accepted[page];
          return false;
        }
      }
      newest := page !in latest || lsn >= latest[page];
      IndexImage(page, offset);
    }

    // Is this LSN already in the page's index? Then its image is the one being written again
    method HasLsn(page: PageId, lsn: Lsn, ghost offset: nat) returns (retry: bool)
      requires Valid() && page in index && lsn != 0
      requires offset < |log| && log[offset].page == page && log[offset].image.lsn == lsn
      ensures retry ==> log[offset].image in accepted[page]
      ensures !retry ==> forall x :: x in accepted[page] ==> x.lsn != lsn
    {
      var list := index[page];
      assert PageOk(list, page, log, accepted[page], latest[page]);
      for j := 0 to |list|
        invariant forall i :: 0 <= i < j ==> list[i].lsn != lsn
      {
        if list[j].lsn == lsn {
          assert SameImage(log[list[j].offset], log[offset]);
          return true;
        }
      }
      return false;
    }

    // write_page, third section
    method WritePrimary(page: PageId, img: Image)
      requires Valid() && img in Accepted(page)
      modifies this`primary
      ensures Valid() && primary == old(primary)[page := img]
    {
      primary := primary[page := img];
    }

    // write_page undisturbed by other writers: the primary ends up newest. The caller may name an LSN other than the
    // one in the page header, or none.
    method WritePage(page: PageId, data: Bytes, header: Lsn, pageLsn: Lsn) returns (ok: bool)
      requires Valid() && Quiet()
      requires OnePerLsn(log + [Record(page, Image(if pageLsn == 0 then header else pageLsn, header, data))])
      modifies this`log, this`index, this`latest, this`accepted, this`primary
      ensures Valid() && Quiet()
      ensures var img := Image(if pageLsn == 0 then header else pageLsn, header, data);
              && (ok <==> !(durable != 0 && img.lsn > durable))
              && accepted == (if ok then old(accepted)[page := old(Accepted(page)) + {img}] else old(accepted))
              && log == (if ok then old(log) + [Record(page, img)] else old(log))
              && primary == (if ok && !old(Retried(page, img.lsn)) &&
                                (page in old(latest) ==> img.lsn >= old(latest)[page])
                             then old(primary)[page := img] else old(primary))
    {
      var img := Image(if pageLsn == 0 then header else pageLsn, header, data);
      var offset := AppendLog(page, img);
      if offset.None? { return false; }
      var newest := Remember(page, offset.value);
      if newest { WritePrimary(page, img); }
      return true;
    }

    // What a reader holds that has read this much from the primary copy
    ghost predicate Holds(page: PageId, copy: Option<Image>)
      reads this
    {
      copy.Some? ==> copy.value in Accepted(page)
    }

    // An accepted image is there for readers at `at`. One with LSN 0 is told from a
    // blank page only by the primary copy
    ghost predicate Reachable(page: PageId, at: Lsn, copy: Option<Image>)
      reads this
    {
      exists x :: x in Accepted(page) && x.lsn <= at && (x.lsn > 0 || copy.Some?)
    }

    // The copy is taken for the answer: nothing accepted up to `at` is above the LSN in its header, and that is not
    // above `at` either
    ghost predicate TakesCopy(page: PageId, at: Lsn, copy: Option<Image>)
      reads this
    {
      && Seen(copy).header <= at
      && forall x :: x in Accepted(page) && x.lsn <= at ==> x.lsn <= Seen(copy).header
    }

    // The copy taken for the answer was accepted under a later LSN than its header says, and later than `at`
    ghost predicate Fooled(page: PageId, at: Lsn, copy: Option<Image>)
      reads this
    {
      TakesCopy(page, at, copy) && at < Seen(copy).lsn
    }

    // The copy taken for the answer was accepted under an earlier LSN than its header says, and something came between
    ghost predicate Masked(page: PageId, at: Lsn, copy: Option<Image>)
      reads this
    {
      && TakesCopy(page, at, copy)
      && exists x :: x in Accepted(page) && Seen(copy).lsn < x.lsn <= at && copy.Some?
    }

    // read_page under the shard latch, with a primary copy read some time before
    method Answer(page: PageId, at: Lsn, copy: Option<Image>) returns (r: Option<Image>)
      requires Valid() && Holds(page, copy)
      ensures at == 0 || TakesCopy(page, at, copy) ==> r == Some(Seen(copy))
      ensures at > 0 && !TakesCopy(page, at, copy) ==>
                if Reachable(page, at, copy) then r.Some? && NewestAt(Accepted(page), at, r.value) else r == None
      ensures at > 0 && Reachable(page, at, copy) ==>
                (r.Some? && NewestAt(Accepted(page), at, r.value) <==>
                 !Fooled(page, at, copy) && !Masked(page, at, copy))
    {
      if at == 0 { return Some(Seen(copy)); }
      var current := Seen(copy).header;
      var entry := FindEntry(page, at);
      if entry.Some? && entry.value.lsn > current {
        return Some(log[entry.value.offset].image);
      } else if current > at {
        if entry.Some? { return Some(log[entry.value.offset].image); }
        return None;
      }
      return Some(Seen(copy));
    }

    function Primary(page: PageId): Option<Image>
      reads this
    {
      if page in primary then Some(primary[page]) else None
    }

    // A read at LSN `at` that no writer disturbs; zero asks for the primary copy as it is
    method ReadPage(page: PageId, at: Lsn) returns (r: Option<Image>)
      requires Valid()
      ensures var copy := Primary(page);
              && (at == 0 || TakesCopy(page, at, copy) ==> r == Some(Seen(copy)))
              && (at > 0 && !TakesCopy(page, at, copy) && !Reachable(page, at, copy) ==> r == None)
              && (at > 0 && Reachable(page, at, copy) ==>
                    (r.Some? && NewestAt(Accepted(page), at, r.value) <==>
                     !Fooled(page, at, copy) && !Masked(page, at, copy)))
              && (at > 0 && Quiet() && !Fooled(page, at, copy) ==>
                    (r.None? <==> Accepted(page) != {} && forall x :: x in Accepted(page) ==> x.lsn > at))
      ensures at == 0 && Quiet() ==> r.Some? && forall x :: x in Accepted(page) ==> x.lsn <= r.value.lsn
    {
      if page in index { assert PageOk(index[page], page, log, accepted[page], latest[page]); }
      r := Answer(page, at, Primary(page));
    }

    // A read between whose two looks somebody writes a page, perhaps this one: the answer is the newest by the second
    method ReadAcross(page: PageId, at: Lsn, other: PageId, data: Bytes, lsn: Lsn) returns (r: Option<Image>)
      requires Valid() && Quiet() && at > 0 && (page in primary ==> primary[page].header == primary[page].lsn)
      requires OnePerLsn(log + [Record(other, Image(lsn, lsn, data))])
      modifies this`log, this`index, this`latest, this`accepted, this`primary
      ensures Valid() && Quiet()
      ensures old(Reachable(page, at, Primary(page))) || (exists x :: x in Accepted(page) && 0 < x.lsn <= at) ==>
                r.Some? && NewestAt(Accepted(page), at, r.value)
    {
      var copy := Primary(page);
      var ok := WritePage(other, data, lsn, lsn);
      r := Answer(page, at, copy);
    }

    method FindEntry(page: PageId, at: Lsn) returns (r: Option<IndexEntry>)
      requires Valid()
      ensures r.None? <==> forall x :: x in Accepted(page) ==> x.lsn > at
      ensures r.Some? ==> && r.value.offset < |log| && log[r.value.offset].image.lsn == r.value.lsn
                          && NewestAt(Accepted(page), at, log[r.value.offset].image)
    {
      if page !in index { return None; }
      var list := index[page];
      assert PageOk(list, page, log, accepted[page], latest[page]);
      var pos := UpperBound(list, at);
      if pos == 0 { return None; }
      assert log[list[pos - 1].offset].image in Known(list, log);
      return Some(list[pos - 1]);
    }

    // The records a restart reads: those before the first torn one
    function Intact(): (r: seq<Record>)
      reads this
      ensures r <= log
    {
      if torn.Some? && torn.value <= |log| then log[..torn.value] else log
    }

    // Index the records of the log from the first one on, up to a torn one
    method IndexLog()
      modifies this`index, this`latest, this`accepted
      ensures IndexValid() && forall p :: Accepted(p) == Logged(Intact(), p)
    {
      index, latest, accepted := map[], map[], map[];
      for i := 0 to |Intact()|
        invariant IndexValid()
        invariant forall p :: Accepted(p) == Logged(log[..i], p)
      {
        ghost var before := accepted;
        LoggedStep(log, i);
        IndexImage(log[i].page, i);
        forall p ensures Accepted(p) == Logged(log[..i + 1], p) {
          assert (if p in before then before[p] else {}) == Logged(log[..i], p);
        }
      }
      assert log[..|Intact()|] == Intact();
    }

    // A crash in the middle of an append; later appends go behind the torn record
    method CrashAppending()
      requires Valid()
      modifies this`torn
      ensures Valid() && Intact() == old(Intact())
      ensures torn == if old(torn).Some? then old(torn) else Some(|log|)
    {
      if torn.None? { torn := Some(|log|); }
    }

    // Restart: forget everything in memory and index the log from the start. All accepted images are back exactly if
    // none was logged behind a torn record only.
    method Restart()
      requires Valid()
      modifies this`index, this`latest, this`accepted
      ensures IndexValid() && forall p :: Accepted(p) == Logged(Intact(), p)
      ensures Valid() <==> forall p :: p in primary ==> primary[p] in Logged(Intact(), p)
      ensures torn.None? ==> Valid() && forall p :: old(Accepted(p)) <= Accepted(p)
    {
      forall p ensures Accepted(p) <= Logged(log, p) {
        if p in index {
          assert PageOk(index[p], p, log, accepted[p], latest[p]);
          KnownLogged(index[p], p, log);
        }
      }
      forall p | p in primary ensures primary[p] in Logged(log, p) {
        assert primary[p] in Accepted(p);
      }
      IndexLog();
      forall p | p in primary
        ensures p in accepted && primary[p] in accepted[p] <==> primary[p] in Logged(Intact(), p)
      {
        assert Accepted(p) == Logged(Intact(), p);
      }
    }
  }

  lemma LoggedStep(log: seq<Record>, i: nat)
    requires i < |log|
    ensures forall p ::
              Logged(log[..i + 1], p) == Logged(log[..i], p) + (if p == log[i].page then {log[i].image} else {})
  {
    forall p
      ensures Logged(log[..i + 1], p) == Logged(log[..i], p) + (if p == log[i].page then {log[i].image} else {})
    {
      assert log[..i + 1][i] == log[i];
      assert forall k :: 0 <= k < i ==> log[..i + 1][k] == log[..i][k];
    }
  }

  // Headers that say what the image was accepted under never mislead
  lemma HonestHeaders(server: PageServer, page: PageId, at: Lsn, copy: Option<Image>)
    requires server.Valid() && server.Holds(page, copy) && (copy.Some? ==> copy.value.header == copy.value.lsn)
    ensures !server.Fooled(page, at, copy) && !server.Masked(page, at, copy)
  {
  }

  // An image with LSN 0 is logged and indexed, its primary copy not yet written: a reader gets a blank page
  method ZeroIsBlank(page: PageId, data: Bytes, at: Lsn) returns (server: PageServer, r: Option<Image>)
    requires at > 0 && data != []
    ensures server.Valid() && server.Accepted(page) == {Image(0, 0, data)} && r == Some(BLANK)
  {
    server := new PageServer();
    var offset := server.AppendLog(page, Image(0, 0, data));
    var newest := server.Remember(page, offset.value);
    r := server.ReadPage(page, at);
  }

  // A page with LSN 0 in its header, written under LSN 10: a reader at 5 gets the future image
  method FutureIsRead(page: PageId, data: Bytes) returns (server: PageServer, r: Option<Image>)
    ensures server.Valid() && server.Quiet() && server.Accepted(page) == {Image(10, 0, data)}
    ensures r == Some(Image(10, 0, data))
    ensures server.Fooled(page, 5, Some(Image(10, 0, data)))
  {
    server := new PageServer();
    var ok := server.WritePage(page, data, 0, 10);
    r := server.ReadPage(page, 5);
  }

  lemma IndexedIsLogged(index: map<PageId, seq<IndexEntry>>, log: seq<Record>, accepted: map<PageId, set<Image>>,
                       latest: map<PageId, Lsn>)
    requires AllPagesOk(index, log, accepted, latest)
    ensures latest != map[] ==> log != []
  {
    if latest != map[] {
      var p :| p in latest.Keys;
      assert PageOk(index[p], p, log, accepted[p], latest[p]);
    }
  }

  // What is logged behind a torn record is gone with the next restart
  method LoggedBehindTorn(page: PageId, data: Bytes) returns (server: PageServer)
    ensures server.log == [Record(page, Image(1, 1, data))] && server.Accepted(page) == {}
  {
    server := new PageServer();
    server.CrashAppending();
    server.Restart();
    IndexedIsLogged(server.index, server.log, server.accepted, server.latest);
    var ok := server.WritePage(page, data, 1, 1);
    server.Restart();
  }
}
