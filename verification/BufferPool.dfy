/** The buffer pool: frames, per-partition page tables and LRU orders in front of
    the page store. Every fetch is one step. */
module BufferPools {
  import opened Arithmetic
  import opened LinkedLists
  import opened WriteAheadLogs

  // kNullPageId
  const NULL_PAGE: nat := 0

  datatype Image = Image(lsn: nat, body: seq<nat>)

  datatype Frame = Frame(pageId: nat, pins: nat, dirty: bool, page: Image)

  type Table = map<nat, nat>
  type Store = map<nat, Image>

  datatype Pool = Pool(frames: seq<Frame>, tables: seq<Table>, orders: seq<seq<nat>>, store: Store)

  // A page never written reads as zeroes
  function ReadStore(store: Store, p: nat): Image {
    if p in store then store[p] else Image(0, seq(8192, _ => 0))
  }

  // partition_for, and the partition a frame is dealt to
  function Home(x: nat, parts: nat): (q: nat)
    requires parts > 0
    ensures q < parts
  {
    x % parts
  }

  // Neighbours go to different partitions, round and round
  lemma HomesSpread(x: nat, y: nat, parts: nat)
    requires parts > 0 && x < y < x + parts
    ensures Home(x, parts) != Home(y, parts) && Home(x + parts, parts) == Home(x, parts) && Home(0, parts) == 0
  {
    var k, r := x / parts, x % parts;
    assert x == parts * k + r;
    if r + (y - x) < parts {
      DivUnique(y, parts, k, r + (y - x));
    } else {
      Distribute(parts, k);
      DivUnique(y, parts, k + 1, r + (y - x) - parts);
    }
    Distribute(parts, k);
    DivUnique(x + parts, parts, k + 1, r);
    DivUnique(0, parts, 0, 0);
  }

  lemma Distribute(n: nat, k: nat)
    ensures n * (k + 1) == n * k + n
  {
  }

  ghost predicate TableEntryOk(s: Pool, q: nat, p: nat)
    requires q < |s.tables| && p in s.tables[q]
  {
    && p != NULL_PAGE && Home(p, |s.tables|) == q
    && s.tables[q][p] < |s.frames| && Home(s.tables[q][p], |s.tables|) == q
    && s.frames[s.tables[q][p]].pageId == p
  }

  ghost predicate FrameOk(s: Pool, i: nat)
    requires |s.tables| > 0 && i < |s.frames|
  {
    var f := s.frames[i];
    var q := Home(i, |s.tables|);
    if f.pageId == NULL_PAGE then f.pins == 0 && !f.dirty
    else
      && Home(f.pageId, |s.tables|) == q && f.pageId in s.tables[q] && s.tables[q][f.pageId] == i
      && (!f.dirty ==> f.page == ReadStore(s.store, f.pageId))
  }

  // An LRU order lists the frames of its partition, each once
  ghost predicate OrderOk(s: Pool, q: nat)
    requires |s.tables| > 0 && q < |s.orders|
  {
    && (forall i, j :: 0 <= i < j < |s.orders[q]| ==> s.orders[q][i] != s.orders[q][j])
    && (forall i: nat :: i in s.orders[q] <==> i < |s.frames| && Home(i, |s.tables|) == q)
  }

  ghost predicate Inv(s: Pool) {
    && |s.tables| == |s.orders| > 0
    && (forall q, p {:trigger TableEntryOk(s, q, p)} :: 0 <= q < |s.tables| && p in s.tables[q] ==>
          TableEntryOk(s, q, p))
    && (forall i {:trigger FrameOk(s, i)} :: 0 <= i < |s.frames| ==> FrameOk(s, i))
    && (forall q {:trigger OrderOk(s, q)} :: 0 <= q < |s.orders| ==> OrderOk(s, q))
  }

  predicate Resident(s: Pool, p: nat)
    requires |s.tables| > 0
  {
    p in s.tables[Home(p, |s.tables|)]
  }

  // The map the pool stands for: the newest contents of every page
  ghost function Contents(s: Pool, p: nat): Image
    requires Inv(s)
  {
    if Resident(s, p) then
      assert TableEntryOk(s, Home(p, |s.tables|), p);
      s.frames[s.tables[Home(p, |s.tables|)][p]].page
    else ReadStore(s.store, p)
  }

  // No page's contents differ
  ghost predicate SameContents(s: Pool, s': Pool) {
    Inv(s) && Inv(s') && forall p {:trigger Contents(s', p)} :: Contents(s', p) == Contents(s, p)
  }

  // Two pages never share a frame
  lemma Injective(s: Pool, p: nat, p': nat)
    requires Inv(s) && Resident(s, p) && Resident(s, p') && p != p'
    ensures s.tables[Home(p, |s.tables|)][p] != s.tables[Home(p', |s.tables|)][p']
  {
    assert TableEntryOk(s, Home(p, |s.tables|), p);
    assert TableEntryOk(s, Home(p', |s.tables|), p');
  }

  // ---------------------------------------------------------------------------
  // Steps
  // ---------------------------------------------------------------------------

  function WithFrame(s: Pool, i: nat, f: Frame): Pool
    requires i < |s.frames|
  {
    s.(frames := s.frames[i := f])
  }

  // Changing pins, dirty flag or contents of a mapped frame
  lemma FrameChanged(s: Pool, i: nat, f: Frame)
    requires Inv(s) && i < |s.frames| && s.frames[i].pageId != NULL_PAGE && f.pageId == s.frames[i].pageId
    requires !f.dirty ==> f.page == ReadStore(s.store, f.pageId)
    ensures Inv(WithFrame(s, i, f))
    ensures forall p {:trigger Contents(WithFrame(s, i, f), p)} ::
              Contents(WithFrame(s, i, f), p) == if p == f.pageId then f.page else Contents(s, p)
  {
    var s' := WithFrame(s, i, f);
    forall q, p | 0 <= q < |s'.tables| && p in s'.tables[q] ensures TableEntryOk(s', q, p) {
      assert TableEntryOk(s, q, p);
    }
    forall j | 0 <= j < |s'.frames| ensures FrameOk(s', j) { assert FrameOk(s, j); }
    forall q | 0 <= q < |s'.orders| ensures OrderOk(s', q) { assert OrderOk(s, q); }
    forall p ensures Contents(s', p) == if p == f.pageId then f.page else Contents(s, p) {
      assert FrameOk(s, i);
      if Resident(s, p) { assert TableEntryOk(s, Home(p, |s.tables|), p); }
    }
  }

  // A frame written to the store
  function WrittenBack(s: Pool, i: nat): Pool
    requires i < |s.frames|
  {
    s.(store := s.store[s.frames[i].pageId := s.frames[i].page])
  }

  lemma WriteBackKeeps(s: Pool, i: nat)
    requires Inv(s) && i < |s.frames| && s.frames[i].pageId != NULL_PAGE
    ensures SameContents(s, WrittenBack(s, i))
  {
    var s' := WrittenBack(s, i);
    var pid := s.frames[i].pageId;
    forall q, p | 0 <= q < |s'.tables| && p in s'.tables[q] ensures TableEntryOk(s', q, p) {
      assert TableEntryOk(s, q, p);
    }
    forall j | 0 <= j < |s'.frames| ensures FrameOk(s', j) {
      assert FrameOk(s, j) && FrameOk(s, i);
    }
    forall q | 0 <= q < |s'.orders| ensures OrderOk(s', q) { assert OrderOk(s, q); }
    forall p ensures Contents(s', p) == Contents(s, p) {
      assert FrameOk(s, i);
    }
  }

  // An unpinned frame whose page is safe in the store is emptied
  function Emptied(s: Pool, i: nat): Pool
    requires |s.tables| > 0 && i < |s.frames|
  {
    var q := Home(i, |s.tables|);
    s.(frames := s.frames[i := Frame(NULL_PAGE, 0, false, s.frames[i].page)],
       tables := s.tables[q := s.tables[q] - {s.frames[i].pageId}])
  }

  lemma EmptyKeeps(s: Pool, i: nat)
    requires Inv(s) && i < |s.frames|
    requires s.frames[i].pageId != NULL_PAGE ==> s.frames[i].page == ReadStore(s.store, s.frames[i].pageId)
    ensures SameContents(s, Emptied(s, i))
  {
    var s' := Emptied(s, i);
    var pid := s.frames[i].pageId;
    assert FrameOk(s, i);
    forall q, p | 0 <= q < |s'.tables| && p in s'.tables[q] ensures TableEntryOk(s', q, p) {
      assert TableEntryOk(s, q, p);
    }
    forall j | 0 <= j < |s'.frames| ensures FrameOk(s', j) { assert FrameOk(s, j); }
    forall q | 0 <= q < |s'.orders| ensures OrderOk(s', q) { assert OrderOk(s, q); }
    forall p ensures Contents(s', p) == Contents(s, p) {
      if Resident(s, p) { assert TableEntryOk(s, Home(p, |s.tables|), p); }
    }
  }

  // A page put into an empty frame of its partition
  function Filled(s: Pool, i: nat, f: Frame): Pool
    requires |s.tables| > 0 && i < |s.frames|
  {
    var q := Home(i, |s.tables|);
    var table: Table := s.tables[q][f.pageId := i];
    s.(frames := s.frames[i := f], tables := s.tables[q := table])
  }

  lemma FillKeeps(s: Pool, i: nat, f: Frame)
    requires Inv(s) && i < |s.frames| && s.frames[i].pageId == NULL_PAGE
    requires f.pageId != NULL_PAGE && !Resident(s, f.pageId) && Home(f.pageId, |s.tables|) == Home(i, |s.tables|)
    requires !f.dirty ==> f.page == ReadStore(s.store, f.pageId)
    ensures Inv(Filled(s, i, f))
    ensures forall p {:trigger Contents(Filled(s, i, f), p)} ::
              Contents(Filled(s, i, f), p) == if p == f.pageId then f.page else Contents(s, p)
  {
    var s' := Filled(s, i, f);
    forall q, p | 0 <= q < |s'.tables| && p in s'.tables[q] ensures TableEntryOk(s', q, p) {
      if p in s.tables[q] { assert TableEntryOk(s, q, p); }
    }
    forall j | 0 <= j < |s'.frames| ensures FrameOk(s', j) { assert FrameOk(s, j); }
    forall q | 0 <= q < |s'.orders| ensures OrderOk(s', q) { assert OrderOk(s, q); }
    forall p ensures Contents(s', p) == if p == f.pageId then f.page else Contents(s, p) {
      if Resident(s, p) { assert TableEntryOk(s, Home(p, |s.tables|), p); }
    }
  }

  // A new order of the same frames
  lemma ReorderKeeps(s: Pool, q: nat, k: nat, order: seq<nat>)
    requires Inv(s) && q < |s.orders| && k < |s.orders[q]|
    requires order == ToFront(s.orders[q], k) || order == ToBack(s.orders[q], k)
    ensures SameContents(s, s.(orders := s.orders[q := order]))
  {
    var s' := s.(orders := s.orders[q := order]);
    assert OrderOk(s, q);
    forall q', p | 0 <= q' < |s'.tables| && p in s'.tables[q'] ensures TableEntryOk(s', q', p) {
      assert TableEntryOk(s, q', p);
    }
    forall j | 0 <= j < |s'.frames| ensures FrameOk(s', j) { assert FrameOk(s, j); }
    MovesPermute(s.orders[q], k);
    forall q' | 0 <= q' < |s'.orders| ensures OrderOk(s', q') {
      assert OrderOk(s, q');
      if q' == q { SameElements(s.orders[q], order); }
    }
  }

  lemma SameElements(a: seq<nat>, b: seq<nat>)
    requires multiset(a) == multiset(b) && forall i, j :: 0 <= i < j < |a| ==> a[i] != a[j]
    ensures forall x :: x in a <==> x in b
    ensures forall i, j :: 0 <= i < j < |b| ==> b[i] != b[j]
  {
    forall x ensures x in a <==> x in b { assert x in multiset(a) <==> x in multiset(b); }
    forall i, j | 0 <= i < j < |b| ensures b[i] != b[j] {
      if b[i] == b[j] {
        Twice(b, i, j);
        Once(a, b[i]);
      }
    }
  }

  lemma Twice(b: seq<nat>, i: nat, j: nat)
    requires i < j < |b| && b[i] == b[j]
    ensures multiset(b)[b[i]] >= 2
  {
    assert b == b[..i] + [b[i]] + b[i + 1..j] + [b[j]] + b[j + 1..];
  }

  lemma Once(a: seq<nat>, x: nat)
    requires forall i, j :: 0 <= i < j < |a| ==> a[i] != a[j]
    ensures multiset(a)[x] <= 1
  {
    if x in a {
      var i :| 0 <= i < |a| && a[i] == x;
      assert a == a[..i] + [x] + a[i + 1..];
      assert x !in a[..i] && x !in a[i + 1..];
    }
  }

  // ---------------------------------------------------------------------------
  // Eviction
  // ---------------------------------------------------------------------------

  // The victim written back if need be, and emptied
  function RoomMade(s: Pool, v: nat): Pool
    requires |s.tables| > 0 && v < |s.frames|
  {
    if s.frames[v].pageId == NULL_PAGE then s
    else if s.frames[v].dirty then Emptied(WrittenBack(s, v), v)
    else Emptied(s, v)
  }

  lemma RoomKeeps(s: Pool, v: nat)
    requires Inv(s) && v < |s.frames|
    ensures SameContents(s, RoomMade(s, v)) && RoomMade(s, v).frames[v].pageId == NULL_PAGE
  {
    assert FrameOk(s, v);
    if s.frames[v].pageId != NULL_PAGE {
      if s.frames[v].dirty {
        WriteBackKeeps(s, v);
        EmptyKeeps(WrittenBack(s, v), v);
        var m, e := WrittenBack(s, v), RoomMade(s, v);
        forall p ensures Contents(e, p) == Contents(s, p) { assert Contents(e, p) == Contents(m, p); }
      } else {
        EmptyKeeps(s, v);
      }
    }
  }

  // Room does not touch other pages' residence
  lemma RoomResidence(s: Pool, v: nat, p: nat)
    requires Inv(s) && v < |s.frames| && !Resident(s, p)
    ensures !Resident(RoomMade(s, v), p)
  {
  }

  // The victim reserved for the incoming page, still carrying the old bytes
  function Claimed(s: Pool, v: nat, p: nat): Pool
    requires |s.tables| > 0 && v < |s.frames|
  {
    var q := Home(v, |s.tables|);
    var f := s.frames[v];
    var table: Table := (if f.pageId == NULL_PAGE then s.tables[q] else s.tables[q] - {f.pageId})[p := v];
    s.(frames := s.frames[v := f.(pageId := p, pins := 1)], tables := s.tables[q := table])
  }

  // Filling the claimed frame comes to the same as filling the emptied one
  lemma ClaimThenFill(s: Pool, v: nat, p: nat, f: Frame)
    requires Inv(s) && v < |s.frames| && f.pageId == p
    requires s.frames[v].pageId != p
    ensures Filled(Claimed(s, v, p).(store := RoomMade(s, v).store), v, f) == Filled(RoomMade(s, v), v, f)
  {
    var a := Filled(Claimed(s, v, p).(store := RoomMade(s, v).store), v, f);
    var b := Filled(RoomMade(s, v), v, f);
    assert a.frames == b.frames;
    assert a.tables[Home(v, |s.tables|)] == b.tables[Home(v, |s.tables|)];
    assert a.tables == b.tables;
  }

  // restore_evicted_frame
  function Restored(s: Pool, v: nat, was: nat): Pool
    requires |s.tables| > 0 && v < |s.frames|
  {
    var q := Home(v, |s.tables|);
    var table: Table := s.tables[q] - {s.frames[v].pageId};
    var back: Table := if was != NULL_PAGE then table[was := v] else table;
    s.(frames := s.frames[v := s.frames[v].(pageId := was, pins := 0)], tables := s.tables[q := back])
  }

  lemma ClaimThenRestore(s: Pool, v: nat, p: nat)
    requires Inv(s) && v < |s.frames| && s.frames[v].pins == 0 && p != NULL_PAGE
    requires Home(v, |s.tables|) == Home(p, |s.tables|) && !Resident(s, p)
    ensures Restored(Claimed(s, v, p), v, s.frames[v].pageId) == s
  {
    assert FrameOk(s, v);
    var r := Restored(Claimed(s, v, p), v, s.frames[v].pageId);
    assert r.frames == s.frames;
    assert r.tables[Home(v, |s.tables|)] == s.tables[Home(v, |s.tables|)];
    assert r.tables == s.tables;
  }

  // A failed read leaves what making room left
  lemma ClaimThenGiveUp(s: Pool, v: nat, p: nat)
    requires Inv(s) && v < |s.frames| && p != NULL_PAGE
    requires Home(v, |s.tables|) == Home(p, |s.tables|) && !Resident(s, p)
    ensures Emptied(Claimed(s, v, p).(store := RoomMade(s, v).store), v) == RoomMade(s, v)
  {
    assert FrameOk(s, v);
    var a, b := Emptied(Claimed(s, v, p).(store := RoomMade(s, v).store), v), RoomMade(s, v);
    assert a.frames == b.frames;
    assert a.tables[Home(v, |s.tables|)] == b.tables[Home(v, |s.tables|)];
    assert a.tables == b.tables;
  }

  // ---------------------------------------------------------------------------
  // The pool
  // ---------------------------------------------------------------------------

  datatype Fault = InvalidArgument | BufferFull | IoError

  datatype Result<T> = Ok(value: T) | Err(fault: Fault)

  // A pinned frame stays put; `hit` gains a pin
  ghost predicate PinsHold(before: seq<Frame>, after: seq<Frame>, hit: int) {
    && |before| == |after|
    && forall i :: 0 <= i < |before| && before[i].pins > 0 ==>
         after[i] == before[i].(pins := before[i].pins + if i == hit then 1 else 0)
  }

  // Frames keep page and pins
  ghost predicate PinsKept(before: seq<Frame>, after: seq<Frame>) {
    |before| == |after| && forall i :: 0 <= i < |before| ==>
      after[i].pageId == before[i].pageId && after[i].pins == before[i].pins
  }

  // Between s and s' some dirty pages the disk accepts have been written, and nothing else has happened
  ghost predicate Progress(s: Pool, s': Pool, disk: nat -> bool) {
    && SameContents(s, s') && s'.tables == s.tables && s'.orders == s.orders && |s'.frames| == |s.frames|
    && forall i {:trigger FrameProgress(s, s', disk, i)} :: 0 <= i < |s.frames| ==> FrameProgress(s, s', disk, i)
  }

  ghost predicate FrameProgress(s: Pool, s': Pool, disk: nat -> bool, i: nat)
    requires i < |s.frames| == |s'.frames|
  {
    var p := s.frames[i].pageId;
    if s'.frames[i] == s.frames[i] then s.frames[i].dirty ==> ReadStore(s'.store, p) == ReadStore(s.store, p)
    else s'.frames[i] == s.frames[i].(dirty := false) && disk(p)
  }

  lemma ProgressStep(s: Pool, m: Pool, s': Pool, disk: nat -> bool, i: nat)
    requires Progress(s, m, disk) && SameContents(m, s') && i < |m.frames| && m.frames[i].pageId != NULL_PAGE
    requires var p := m.frames[i].pageId;
             var clean := m.frames[i].(dirty := false);
             s' == if disk(p) then m.(frames := m.frames[i := clean], store := m.store[p := m.frames[i].page]) else m
    ensures Progress(s, s', disk)
  {
    forall j | 0 <= j < |s.frames| ensures FrameProgress(s, s', disk, j) {
      assert FrameProgress(s, m, disk, j) && FrameProgress(s, m, disk, i);
      assert FrameOk(m, j) && FrameOk(m, i);
    }
    forall p ensures Contents(s', p) == Contents(s, p) { assert Contents(m, p) == Contents(s, p); }
  }

  // No dirty page is ahead of the log
  ghost predicate AllDurable(frames: seq<Frame>, durable: nat) {
    forall i :: 0 <= i < |frames| && frames[i].dirty ==> frames[i].page.lsn <= durable
  }

  // Clean, unless the disk would not take it
  ghost predicate Settled(f: Frame, disk: nat -> bool) {
    f.dirty ==> f.pageId == NULL_PAGE || !disk(f.pageId)
  }

  // What was settled still is, and so is every frame of the batch
  ghost predicate StillSettled(before: seq<Frame>, after: seq<Frame>, disk: nat -> bool, batch: seq<nat>) {
    && |before| == |after|
    && (forall i :: 0 <= i < |after| && Settled(before[i], disk) ==> Settled(after[i], disk))
    && (forall i: nat :: i in batch && i < |after| ==> Settled(after[i], disk))
  }

  // What has been written back had its LSN within this one
  ghost predicate CleanedWithin(before: seq<Frame>, after: seq<Frame>, high: nat) {
    && |before| == |after|
    && forall i :: 0 <= i < |after| && before[i].dirty && !after[i].dirty ==> after[i].page.lsn <= high
  }

  lemma StoredWithin(s: Pool, s': Pool, disk: nat -> bool, high: nat, p: nat)
    requires Progress(s, s', disk) && CleanedWithin(s.frames, s'.frames, high)
    ensures ReadStore(s'.store, p) != ReadStore(s.store, p) ==> ReadStore(s'.store, p).lsn <= high
  {
    assert Contents(s', p) == Contents(s, p);
    if Resident(s, p) {
      assert TableEntryOk(s, Home(p, |s.tables|), p);
      var i := s.tables[Home(p, |s.tables|)][p];
      assert FrameProgress(s, s', disk, i);
      assert FrameOk(s', i) && FrameOk(s, i);
    }
  }

  lemma SettledOn(before: seq<Frame>, frames: seq<Frame>, frames': seq<Frame>, disk: nat -> bool, batch: seq<nat>,
                  r: nat)
    requires r < |batch| && batch[r] < |frames| && StillSettled(before, frames, disk, batch[..r])
    requires var f := frames[batch[r]];
             frames' == if disk(f.pageId) then frames[batch[r] := f.(dirty := false)] else frames
    ensures StillSettled(before, frames', disk, batch[..r + 1])
  {
    assert batch[..r + 1] == batch[..r] + [batch[r]];
  }

  // The frames of partition q, up to the i-th, are settled or wait in the batch
  ghost predicate Scanned(frames: seq<Frame>, parts: nat, q: nat, i: nat, batch: seq<nat>, disk: nat -> bool)
    requires parts > 0 && i <= |frames|
  {
    forall j :: 0 <= j < i && Home(j, parts) == q ==> Settled(frames[j], disk) || j in batch
  }

  lemma ScannedOn(frames: seq<Frame>, frames': seq<Frame>, parts: nat, q: nat, i: nat, batch: seq<nat>,
                  batch': seq<nat>, disk: nat -> bool)
    requires parts > 0 && i < |frames| && Scanned(frames, parts, q, i, batch, disk)
    requires StillSettled(frames, frames', disk, []) && (Settled(frames'[i], disk) || i in batch')
    requires forall j :: j in batch && j < |frames'| ==> j in batch' || Settled(frames'[j], disk)
    ensures Scanned(frames', parts, q, i + 1, batch', disk)
  {
  }

  ghost predicate NoneLeft(frames: seq<Frame>, n: nat, disk: nat -> bool)
    requires n <= |frames|
  {
    forall i :: 0 <= i < n ==> Settled(frames[i], disk)
  }

  // The k-th frame of an order and all colder ones
  ghost predicate FullFrom(frames: seq<Frame>, order: seq<nat>, k: nat) {
    forall j :: k <= j < |order| ==> order[j] < |frames| && frames[order[j]].pageId != NULL_PAGE
  }

  ghost predicate PinnedFrom(frames: seq<Frame>, order: seq<nat>, k: nat) {
    forall j :: k <= j < |order| ==> order[j] < |frames| && frames[order[j]].pins > 0
  }

  // The frame to take: the coldest empty one, or if none is empty the coldest unpinned one. The cold end is the last.
  ghost predicate VictimAt(s: Pool, q: nat, k: nat) {
    && q < |s.orders| && k < |s.orders[q]| && s.orders[q][k] < |s.frames|
    && (forall j :: 0 <= j < |s.orders[q]| ==> s.orders[q][j] < |s.frames|)
    && if s.frames[s.orders[q][k]].pageId == NULL_PAGE then
         forall j :: k < j < |s.orders[q]| ==> s.frames[s.orders[q][j]].pageId != NULL_PAGE
       else
         && s.frames[s.orders[q][k]].pins == 0
         && (forall j :: 0 <= j < |s.orders[q]| ==> s.frames[s.orders[q][j]].pageId != NULL_PAGE)
         && forall j :: k < j < |s.orders[q]| ==> s.frames[s.orders[q][j]].pins > 0
  }

  ghost predicate AllPinned(s: Pool, q: nat) {
    forall i :: 0 <= i < |s.frames| && |s.tables| > 0 && Home(i, |s.tables|) == q ==> s.frames[i].pins > 0
  }

  // The k-th frame of the partition has given up its page, safe in the store
  ghost function Vacated(s: Pool, q: nat, k: nat): Pool
    requires q < |s.orders| == |s.tables| && k < |s.orders[q]| && s.orders[q][k] < |s.frames|
  {
    var f := s.frames[s.orders[q][k]];
    Pool(s.frames[s.orders[q][k] := Frame(NULL_PAGE, 0, false, f.page)],
         s.tables[q := s.tables[q] - {f.pageId}], s.orders,
         if f.dirty then s.store[f.pageId := f.page] else s.store)
  }

  // And has been taken by page p, with one pin, at the hot end or the cold end of the order
  ghost function Taken(s: Pool, q: nat, k: nat, f: Frame, hot: bool): Pool
    requires q < |s.orders| == |s.tables| && k < |s.orders[q]| && s.orders[q][k] < |s.frames|
  {
    var v, order := s.orders[q][k], s.orders[q];
    var rest := order[..k] + order[k + 1..];
    var table: Table := s.tables[q][f.pageId := v];
    Pool(s.frames[v := f], s.tables[q := table],
         s.orders[q := if hot then [v] + rest else rest + [v]], s.store)
  }

  lemma InOrder(s: Pool, q: nat)
    requires Inv(s) && q < |s.orders|
    ensures forall j :: 0 <= j < |s.orders[q]| ==> s.orders[q][j] < |s.frames| && Home(s.orders[q][j], |s.tables|) == q
  {
    assert OrderOk(s, q);
    forall j | 0 <= j < |s.orders[q]| ensures s.orders[q][j] < |s.frames| && Home(s.orders[q][j], |s.tables|) == q {
      assert s.orders[q][j] in s.orders[q];
    }
  }

  lemma RankOf(s: Pool, i: nat) returns (k: nat)
    requires Inv(s) && i < |s.frames|
    ensures var order := s.orders[Home(i, |s.tables|)]; k < |order| && order[k] == i
  {
    var q := Home(i, |s.tables|);
    assert OrderOk(s, q);
    assert i in s.orders[q];
    k :| 0 <= k < |s.orders[q]| && s.orders[q][k] == i;
  }

  lemma VacatedIs(s: Pool, q: nat, k: nat)
    requires Inv(s) && q < |s.orders| && k < |s.orders[q]| && s.orders[q][k] < |s.frames|
    requires Home(s.orders[q][k], |s.tables|) == q
    ensures RoomMade(s, s.orders[q][k]) == Vacated(s, q, k)
  {
    var v := s.orders[q][k];
    assert FrameOk(s, v);
    if s.frames[v].pageId == NULL_PAGE {
      assert NULL_PAGE in s.tables[q] ==> TableEntryOk(s, q, NULL_PAGE);
      assert s.tables[q] - {NULL_PAGE} == s.tables[q];
    }
  }

  // An order without one of its frames
  function Others(order: seq<nat>, i: nat): seq<nat> {
    if order == [] then [] else if order[0] == i then order[1..] else [order[0]] + Others(order[1..], i)
  }

  lemma {:induction false} OthersAre(order: seq<nat>, k: nat)
    requires k < |order| && forall i, j :: 0 <= i < j < |order| ==> order[i] != order[j]
    ensures Others(order, order[k]) == order[..k] + order[k + 1..]
    decreases k
  {
    if k > 0 {
      OthersAre(order[1..], k - 1);
      assert order[1..][..k - 1] == order[1..k] && order[1..][k..] == order[k + 1..];
      assert order[..k] == [order[0]] + order[1..k];
    } else {
      assert order[..0] + order[1..] == order[1..];
    }
  }

  lemma MovedIs(s: Pool, q: nat, k: nat, i: nat)
    requires Inv(s) && q < |s.orders| && k < |s.orders[q]| && s.orders[q][k] == i
    ensures [i] + Others(s.orders[q], i) == ToFront(s.orders[q], k)
    ensures Others(s.orders[q], i) + [i] == ToBack(s.orders[q], k)
  {
    assert OrderOk(s, q);
    OthersAre(s.orders[q], k);
  }

  // The frames below n that belong to partition q, each once
  ghost predicate Dealt(list: seq<nat>, q: nat, parts: nat, n: nat)
    requires parts > 0
  {
    && (forall i, j :: 0 <= i < j < |list| ==> list[i] != list[j])
    && (forall i: nat :: i in list <==> i < n && Home(i, parts) == q)
  }

  class BufferPool {
    var frames: seq<Frame>
    var tables: seq<Table>
    var orders: seq<seq<nat>>
    var store: Store
    const wal: Wal

    ghost function Now(): Pool
      reads this
    {
      Pool(frames, tables, orders, store)
    }

    ghost predicate Valid()
      reads this, wal, wal.buf
    {
      Inv(Now()) && wal.Valid() && WriteAhead()
    }

    // The write-ahead rule: whatever a stored page reflects is secured in the log
    ghost predicate WriteAhead()
      reads this, wal
    {
      && (forall p {:trigger store[p]} :: p in store ==> store[p].lsn < wal.nextLsn && wal.Durable(store[p].lsn))
      && (forall i :: 0 <= i < |frames| ==> frames[i].page.lsn < wal.nextLsn)
    }

    constructor (size: nat, partitions: nat, log: Wal, pages: Store)
      requires log.Valid() && NULL_PAGE !in pages
      requires forall p {:trigger pages[p]} :: p in pages ==> pages[p].lsn < log.nextLsn && log.Durable(pages[p].lsn)
      ensures Valid() && wal == log && store == pages && |frames| == size
      ensures forall p {:trigger Contents(Now(), p)} :: Contents(Now(), p) == ReadStore(pages, p)
    {
      var parts := if partitions == 0 then 1 else partitions;
      if parts > size { parts := if size == 0 then 1 else size; }
      var lists: seq<seq<nat>> := seq(parts, _ => []);
      for i := 0 to size
        invariant |lists| == parts
        invariant forall q :: 0 <= q < parts ==> Dealt(lists[q], q, parts, i)
      {
        var q := Home(i, parts);
        lists := lists[q := lists[q] + [i]];
      }
      frames := seq(size, _ => Frame(NULL_PAGE, 0, false, Image(0, [])));
      tables := seq(parts, _ => map[]);
      orders := lists;
      store := pages;
      wal := log;
      new;
      forall q | 0 <= q < |orders| ensures OrderOk(Now(), q) { assert Dealt(orders[q], q, parts, size); }
    }

    // Two-pass victim search from the cold end: an empty frame first, else the coldest unpinned one
    method FindVictim(q: nat) returns (v: nat, ghost rank: nat)
      requires Inv(Now()) && q < |tables|
      ensures v <= |frames| && (v == |frames| <==> AllPinned(Now(), q))
      ensures v < |frames| ==> VictimAt(Now(), q, rank) && orders[q][rank] == v
      ensures v < |frames| ==> Home(v, |tables|) == q && frames[v].pins == 0
    {
      assert OrderOk(Now(), q);
      rank := 0;
      v := |frames|;
      var k: nat := |orders[q]|;
      while k > 0
        invariant k <= |orders[q]| && v <= |frames|
        invariant FullFrom(frames, orders[q], k)
        invariant v == |frames| ==> PinnedFrom(frames, orders[q], k)
        invariant v < |frames| ==> k <= rank < |orders[q]| && orders[q][rank] == v && frames[v].pins == 0
        invariant v < |frames| ==> PinnedFrom(frames, orders[q], rank + 1)
      {
        k := k - 1;
        var idx := orders[q][k];
        assert idx in orders[q];
        assert FrameOk(Now(), idx);
        if frames[idx].pageId == NULL_PAGE {
          InOrder(Now(), q);
          return idx, k;
        }
        if v == |frames| && frames[idx].pins == 0 { v, rank := idx, k; }
      }
      InOrder(Now(), q);
      if v < |frames| { assert v in orders[q]; }
      forall i | 0 <= i < |frames| && Home(i, |tables|) == q ensures v == |frames| ==> frames[i].pins > 0 {
        assert i in orders[q];
        var j :| 0 <= j < |orders[q]| && orders[q][j] == i;
      }
    }

    method FlushFrameWalFirst(i: nat) returns (ok: bool)
      requires wal.Valid() && i < |frames|
      modifies wal
      ensures wal.Valid() && wal.log == old(wal.log) && wal.nextLsn == old(wal.nextLsn)
      ensures old(wal.Secured()) <= wal.Secured()
      ensures ok ==> frames[i].page.lsn <= wal.durableLsn && wal.Durable(frames[i].page.lsn)
      ensures frames[i].page.lsn <= old(wal.durableLsn) ==> ok && unchanged(wal)
      ensures wal.lastWritten == old(wal.lastWritten) && wal.open == old(wal.open)
      ensures wal.durableLsn == wal.lastWritten || wal.durableLsn == old(wal.durableLsn)
      ensures wal.healthy && wal.open && frames[i].page.lsn <= wal.lastWritten ==> ok
    {
      var lsn := frames[i].page.lsn;
      if lsn > wal.durableLsn {
        ok := wal.FlushUntil(lsn);
        if !ok { return false; }
      }
      return wal.durableLsn >= lsn;
    }

    // Why a dirty page may not be written back: the disk does not take it, or the log that has to go first is not
    // healthy and open, or does not reach as far as the page
    ghost predicate Refused(v: nat, disk: nat -> bool)
      requires v < |frames|
      reads this, wal
    {
      var f := frames[v];
      && f.dirty
      && (|| !disk(f.pageId)
          || (f.page.lsn > wal.durableLsn && !(wal.healthy && wal.open && f.page.lsn <= wal.lastWritten)))
    }

    // Both fetch_page and new_page begin a miss like this: claim the victim, then write its page back
    method Evict(v: nat, p: nat, disk: nat -> bool) returns (ok: bool)
      requires Valid() && v < |frames| && frames[v].pins == 0 && p != NULL_PAGE
      requires Home(v, |tables|) == Home(p, |tables|) && !Resident(Now(), p)
      modifies this, wal
      ensures wal.Valid() && WriteAhead() && wal.nextLsn == old(wal.nextLsn)
      ensures ok ==> Now() == Claimed(old(Now()), v, p).(store := RoomMade(old(Now()), v).store)
      ensures !ok ==> Now() == old(Now())
      // a page is written back only within durable_lsn
      ensures store != old(store) ==> old(frames)[v].page.lsn <= wal.durableLsn
      ensures ok ==> !old(frames)[v].dirty || disk(old(frames)[v].pageId)
      ensures !ok ==> old(Refused(v, disk))
    {
      ghost var s := Now();
      var was := frames[v].pageId;
      var needWal := frames[v].dirty && was != NULL_PAGE && frames[v].page.lsn > wal.durableLsn;
      assert FrameOk(s, v);
      Claim(v, p);
      if was != NULL_PAGE && frames[v].dirty {
        ok := WriteVictim(v, was, needWal, disk(was));
        if !ok {
          Restore(v, was);
          ClaimThenRestore(s, v, p);
          return false;
        }
      }
      return true;
    }

    method Claim(v: nat, p: nat)
      requires |tables| > 0 && v < |frames|
      modifies this`frames, this`tables
      ensures Now() == Claimed(old(Now()), v, p)
    {
      var q := Home(v, |tables|);
      var was := frames[v].pageId;
      if was != NULL_PAGE { tables := tables[q := tables[q] - {was}]; }
      frames := frames[v := frames[v].(pageId := p, pins := 1)];
      var table: Table := tables[q][p := v];
      tables := tables[q := table];
    }

    // The claimed frame's old page to the store, its log first
    method WriteVictim(v: nat, was: nat, needWal: bool, written: bool) returns (ok: bool)
      requires wal.Valid() && WriteAhead() && v < |frames| && (needWal <==> frames[v].page.lsn > wal.durableLsn)
      modifies this`store, wal
      ensures wal.Valid() && WriteAhead() && wal.nextLsn == old(wal.nextLsn)
      ensures store == if ok then old(store)[was := frames[v].page] else old(store)
      ensures ok ==> written && frames[v].page.lsn <= wal.durableLsn
      ensures !ok ==> !written || (needWal && !old(wal.healthy && wal.open && frames[v].page.lsn <= wal.lastWritten))
    {
      if needWal {
        ok := FlushFrameWalFirst(v);
        if !ok { return false; }
      }
      if !written { return false; }
      store := store[was := frames[v].page];
      return true;
    }

    method Restore(v: nat, was: nat)
      requires |tables| > 0 && v < |frames|
      modifies this
      ensures Now() == Restored(old(Now()), v, was)
    {
      var q := Home(v, |tables|);
      tables := tables[q := tables[q] - {frames[v].pageId}];
      frames := frames[v := frames[v].(pageId := was, pins := 0)];
      if was != NULL_PAGE {
        var table: Table := tables[q][was := v];
        tables := tables[q := table];
      }
    }

    // `rank` is the position of the frame in its LRU order, the list node the frame keeps
    method MoveNode(i: nat, front: bool, ghost rank: nat)
      requires Inv(Now()) && i < |frames|
      requires var order := orders[Home(i, |tables|)]; rank < |order| && order[rank] == i
      modifies this`orders
      ensures SameContents(old(Now()), Now())
      ensures var q := Home(i, |tables|);
              var rest := old(orders)[q][..rank] + old(orders)[q][rank + 1..];
              orders == old(orders)[q := if front then [i] + rest else rest + [i]]
    {
      var q := Home(i, |tables|);
      var order: seq<nat>;
      if front { order := [i] + Others(orders[q], i); } else { order := Others(orders[q], i) + [i]; }
      MovedIs(Now(), q, rank, i);
      ReorderKeeps(Now(), q, rank, order);
      assert ToFront(orders[q], rank) == [i] + (orders[q][..rank] + orders[q][rank + 1..]);
      orders := orders[q := order];
    }

    // `disk` tells which pages the store would take, `readOk` whether it can deliver this one; `rank` is the place of
    // the frame taken for a page that was not there
    method Fetch(p: nat, sequential: bool, disk: nat -> bool, readOk: bool) returns (r: Result<nat>, ghost rank: nat)
      requires Valid()
      modifies this, wal
      ensures Valid() && SameContents(old(Now()), Now()) && wal.nextLsn == old(wal.nextLsn)
      ensures r.Ok? ==> r.value < |frames| && frames[r.value].pageId == p && frames[r.value].pins > 0
      ensures r.Ok? ==> frames[r.value].page == Contents(old(Now()), p)
      ensures PinsHold(old(frames), frames, if r.Ok? then r.value else -1)
      ensures p == NULL_PAGE ==> r == Err(InvalidArgument) && Now() == old(Now())
      ensures p != NULL_PAGE && old(Resident(Now(), p)) ==> PinnedOnly(old(Now()), p, r) && orders == old(orders)
      ensures p != NULL_PAGE && !old(Resident(Now(), p)) ==>
                old(MissOutcome(p, disk, readOk, r, rank)) &&
                MissState(old(Now()), Now(), r, Home(p, |old(tables)|), rank,
                          Frame(p, 1, false, ReadStore(old(store), p)), !sequential)
    {
      rank := 0;
      if p == NULL_PAGE { return Err(InvalidArgument), rank; }
      var q := Home(p, |tables|);
      if p in tables[q] {
        Pin(p);
        return Ok(tables[q][p]), rank;
      }
      r, rank := Miss(p, sequential, disk, readOk);
    }

    // The page is where it was, with one pin more
    ghost predicate PinnedOnly(s: Pool, p: nat, r: Result<nat>)
      reads this
    {
      && |s.tables| > 0 && Resident(s, p)
      && var i := s.tables[Home(p, |s.tables|)][p];
         && i < |s.frames| && r == Ok(i)
         && frames == s.frames[i := s.frames[i].(pins := s.frames[i].pins + 1)]
         && tables == s.tables && store == s.store
    }

    // Before a miss: no frame to be had exactly if all are pinned; else success unless somebody refuses
    ghost predicate MissOutcome(p: nat, disk: nat -> bool, readOk: bool, r: Result<nat>, rank: nat)
      requires Inv(Now())
      reads this, wal
    {
      var q := Home(p, |tables|);
      && (r == Err(BufferFull) <==> AllPinned(Now(), q)) && r != Err(InvalidArgument)
      && (r != Err(BufferFull) ==>
            && VictimAt(Now(), q, rank)
            && var v := orders[q][rank];
               && (r.Ok? ==> r.value == v && readOk && (frames[v].dirty ==> disk(frames[v].pageId)))
               && (r == Err(IoError) ==> !readOk || Refused(v, disk)))
    }

    // After a miss: the frame is taken; or it is left empty; or nothing has changed
    static ghost predicate MissState(s: Pool, s': Pool, r: Result<nat>, q: nat, k: nat, f: Frame, hot: bool) {
      if r == Err(BufferFull) then s' == s
      else
        && q < |s.orders| == |s.tables| && k < |s.orders[q]| && s.orders[q][k] < |s.frames|
        && if r.Ok? then s' == Taken(Vacated(s, q, k), q, k, f, hot) else s' == s || s' == Vacated(s, q, k)
    }

    method Miss(p: nat, sequential: bool, disk: nat -> bool, readOk: bool) returns (r: Result<nat>, ghost rank: nat)
      requires Valid() && p != NULL_PAGE && !Resident(Now(), p)
      modifies this, wal
      ensures Valid() && SameContents(old(Now()), Now()) && wal.nextLsn == old(wal.nextLsn)
      ensures r.Ok? ==> r.value < |old(frames)| && old(frames)[r.value].pins == 0
      ensures r.Ok? ==> frames == old(frames)[r.value := Frame(p, 1, false, Contents(old(Now()), p))]
      ensures PinsHold(old(frames), frames, -1)
      ensures old(MissOutcome(p, disk, readOk, r, rank))
      ensures MissState(old(Now()), Now(), r, Home(p, |old(tables)|), rank,
                        Frame(p, 1, false, ReadStore(old(store), p)), !sequential)
    {
      ghost var s, q := Now(), Home(p, |tables|);
      var v;
      v, rank := FindVictim(Home(p, |tables|));
      if v == |frames| { return Err(BufferFull), rank; }
      var ok := Evict(v, p, disk);
      if !ok { return Err(IoError), rank; }
      r := Bring(s, v, p, sequential, readOk, rank);
    }

    // The claimed frame gets its page from the store, or is given up
    method Bring(ghost s: Pool, v: nat, p: nat, sequential: bool, readOk: bool, ghost rank: nat)
      returns (r: Result<nat>)
      requires Inv(s) && v < |s.frames| && p != NULL_PAGE && !Resident(s, p)
      requires Home(v, |s.tables|) == Home(p, |s.tables|)
      requires wal.Valid() && WriteAhead() && Now() == Claimed(s, v, p).(store := RoomMade(s, v).store)
      requires rank < |s.orders[Home(p, |s.tables|)]| && s.orders[Home(p, |s.tables|)][rank] == v
      modifies this`frames, this`tables, this`orders
      ensures Valid() && SameContents(s, Now()) && r == if readOk then Ok(v) else Err(IoError)
      ensures var q := Home(p, |s.tables|);
              Now() == if !readOk then Vacated(s, q, rank)
                       else Taken(Vacated(s, q, rank), q, rank, Frame(p, 1, false, ReadStore(s.store, p)), !sequential)
    {
      assert FrameOk(s, v);
      RoomKeeps(s, v);
      RoomResidence(s, v, p);
      VacatedIs(s, Home(p, |s.tables|), rank);
      assert Contents(RoomMade(s, v), p) == Contents(s, p);
      if !readOk {
        GiveUp(s, v, p);
        return Err(IoError);
      }
      Load(s, v, p, ReadStore(store, p), false, !sequential, rank);
      return Ok(v);
    }

    // The read failed: the claimed frame goes back empty
    method GiveUp(ghost s: Pool, v: nat, p: nat)
      requires Inv(s) && v < |s.frames| && p != NULL_PAGE && !Resident(s, p)
      requires Home(v, |s.tables|) == Home(p, |s.tables|)
      requires wal.Valid() && WriteAhead() && Now() == Claimed(s, v, p).(store := RoomMade(s, v).store)
      modifies this`frames, this`tables
      ensures Valid() && Now() == RoomMade(s, v)
    {
      var q := Home(p, |tables|);
      tables := tables[q := tables[q] - {p}];
      frames := frames[v := Frame(NULL_PAGE, 0, false, frames[v].page)];
      ClaimThenGiveUp(s, v, p);
      RoomKeeps(s, v);
    }

    // The claimed frame takes the page and its place in the LRU order
    method Load(ghost s: Pool, v: nat, p: nat, page: Image, dirty: bool, front: bool, ghost rank: nat)
      requires Inv(s) && v < |s.frames| && p != NULL_PAGE && !Resident(s, p)
      requires Home(v, |s.tables|) == Home(p, |s.tables|)
      requires wal.Valid() && WriteAhead() && Now() == Claimed(s, v, p).(store := RoomMade(s, v).store)
      requires page.lsn < wal.nextLsn && (!dirty ==> page == ReadStore(store, p))
      requires rank < |s.orders[Home(p, |s.tables|)]| && s.orders[Home(p, |s.tables|)][rank] == v
      modifies this`frames, this`tables, this`orders
      ensures var q := Home(p, |s.tables|);
              Now() == Taken(Vacated(s, q, rank), q, rank, Frame(p, 1, dirty, page), front)
      ensures Valid() && frames == s.frames[v := Frame(p, 1, dirty, page)]
      ensures forall x {:trigger Contents(Now(), x)} :: Contents(Now(), x) == if x == p then page else Contents(s, x)
    {
      ghost var room, f := RoomMade(s, v), Frame(p, 1, dirty, page);
      assert FrameOk(s, v);
      RoomKeeps(s, v);
      RoomResidence(s, v, p);
      ClaimThenFill(s, v, p, f);
      FillKeeps(room, v, f);
      Install(v, p, page, dirty);
      ghost var full := Now();
      MoveNode(v, front, rank);
      VacatedIs(s, Home(p, |s.tables|), rank);
      forall x ensures Contents(Now(), x) == if x == p then page else Contents(s, x) {
        assert Contents(Now(), x) == Contents(full, x);
        assert Contents(room, x) == Contents(s, x);
      }
    }

    method Install(v: nat, p: nat, page: Image, dirty: bool)
      requires |tables| > 0 && v < |frames|
      modifies this`frames, this`tables
      ensures Now() == Filled(old(Now()), v, Frame(p, 1, dirty, page))
    {
      var q := Home(v, |tables|);
      frames := frames[v := Frame(p, 1, dirty, page)];
      var table: Table := tables[q][p := v];
      tables := tables[q := table];
    }

    method Pin(p: nat)
      requires Valid() && Resident(Now(), p)
      modifies this`frames
      ensures Valid() && SameContents(old(Now()), Now())
      ensures var i := tables[Home(p, |tables|)][p];
              i < |old(frames)| && frames == old(frames)[i := old(frames)[i].(pins := old(frames)[i].pins + 1)] &&
                frames[i].pageId == p
    {
      assert TableEntryOk(Now(), Home(p, |tables|), p);
      var i := tables[Home(p, |tables|)][p];
      assert FrameOk(Now(), i);
      FrameChanged(Now(), i, frames[i].(pins := frames[i].pins + 1));
      frames := frames[i := frames[i].(pins := frames[i].pins + 1)];
    }

    // A page that is resident comes back as it is, at the hot end; any other starts out blank and dirty
    method NewPage(p: nat, blank: Image, disk: nat -> bool) returns (r: Result<nat>, ghost rank: nat)
      requires Valid() && blank.lsn == 0
      modifies this, wal
      ensures Valid() && wal.nextLsn == old(wal.nextLsn)
      ensures forall x {:trigger Contents(Now(), x)} ::
                Contents(Now(), x) ==
                if r.Ok? && x == p && !old(Resident(Now(), p)) then blank else Contents(old(Now()), x)
      ensures r.Ok? ==> r.value < |frames| && frames[r.value].pageId == p && frames[r.value].pins > 0
      ensures PinsHold(old(frames), frames, if r.Ok? then r.value else -1)
      ensures p == NULL_PAGE ==> r == Err(InvalidArgument) && Now() == old(Now())
      ensures p != NULL_PAGE && old(Resident(Now(), p)) ==>
                && PinnedOnly(old(Now()), p, r)
                && var q := Home(p, |tables|);
                   && rank < |old(orders)[q]| && old(orders)[q][rank] == r.value
                   && orders == old(orders)[q := [r.value] + (old(orders)[q][..rank] + old(orders)[q][rank + 1..])]
      ensures p != NULL_PAGE && !old(Resident(Now(), p)) ==>
                old(MissOutcome(p, disk, true, r, rank)) &&
                MissState(old(Now()), Now(), r, Home(p, |old(tables)|), rank, Frame(p, 1, true, blank), true)
    {
      rank := 0;
      if p == NULL_PAGE { return Err(InvalidArgument), rank; }
      var q := Home(p, |tables|);
      if p in tables[q] {
        rank := PinAndMove(p);
        return Ok(tables[q][p]), rank;
      }
      r, rank := NewMiss(p, blank, disk);
    }

    // One pin more, and to the hot end
    method PinAndMove(p: nat) returns (ghost rank: nat)
      requires Valid() && Resident(Now(), p)
      modifies this`frames, this`orders
      ensures Valid() && SameContents(old(Now()), Now())
      ensures var q := Home(p, |tables|);
              var i := tables[q][p];
              && PinnedOnly(old(Now()), p, Ok(i)) && i < |frames| && frames[i].pageId == p
              && rank < |old(orders)[q]| && old(orders)[q][rank] == i
              && orders == old(orders)[q := [i] + (old(orders)[q][..rank] + old(orders)[q][rank + 1..])]
    {
      ghost var s := Now();
      var q := Home(p, |tables|);
      assert TableEntryOk(s, q, p);
      rank := RankOf(s, tables[q][p]);
      Pin(p);
      ghost var pinned := Now();
      MoveNode(tables[q][p], true, rank);
      forall x ensures Contents(Now(), x) == Contents(s, x) { assert Contents(Now(), x) == Contents(pinned, x); }
    }

    method NewMiss(p: nat, blank: Image, disk: nat -> bool) returns (r: Result<nat>, ghost rank: nat)
      requires Valid() && blank.lsn == 0 && p != NULL_PAGE && !Resident(Now(), p)
      modifies this, wal
      ensures Valid() && wal.nextLsn == old(wal.nextLsn)
      ensures forall x {:trigger Contents(Now(), x)} ::
                Contents(Now(), x) == if r.Ok? && x == p then blank else Contents(old(Now()), x)
      ensures r.Ok? ==> r.value < |old(frames)| && old(frames)[r.value].pins == 0
      ensures r.Ok? ==> frames == old(frames)[r.value := Frame(p, 1, true, blank)]
      ensures PinsHold(old(frames), frames, -1)
      ensures old(MissOutcome(p, disk, true, r, rank))
      ensures MissState(old(Now()), Now(), r, Home(p, |old(tables)|), rank, Frame(p, 1, true, blank), true)
    {
      ghost var s := Now();
      var v;
      v, rank := FindVictim(Home(p, |tables|));
      if v == |frames| { return Err(BufferFull), rank; }
      var ok := Evict(v, p, disk);
      if !ok { return Err(IoError), rank; }
      Load(s, v, p, blank, true, true, rank);
      return Ok(v), rank;
    }

    method Unpin(p: nat)
      requires Valid()
      modifies this`frames
      ensures Valid() && SameContents(old(Now()), Now())
      ensures !Resident(Now(), p) ==> frames == old(frames)
      ensures Resident(Now(), p) ==>
                var i := tables[Home(p, |tables|)][p];
                && i < |old(frames)|
                && var pins := old(frames)[i].pins;
                   frames == old(frames)[i := old(frames)[i].(pins := if pins == 0 then 0 else pins - 1)]
    {
      var q := Home(p, |tables|);
      if p !in tables[q] { return; }
      var i := tables[q][p];
      assert TableEntryOk(Now(), q, p) && FrameOk(Now(), i);
      var f := frames[i].(pins := if frames[i].pins == 0 then 0 else frames[i].pins - 1);
      FrameChanged(Now(), i, f);
      frames := frames[i := f];
    }

    // A pin holder changes the page in place and calls mark_dirty
    method Update(p: nat, page: Image)
      requires Valid() && page.lsn < wal.nextLsn
      requires Resident(Now(), p) && Holder(p).pins > 0
      modifies this`frames
      ensures Valid()
      ensures forall x {:trigger Contents(Now(), x)} ::
                Contents(Now(), x) == if x == p then page else Contents(old(Now()), x)
      ensures PinsKept(old(frames), frames)
    {
      var q := Home(p, |tables|);
      var i := tables[q][p];
      assert TableEntryOk(Now(), q, p) && FrameOk(Now(), i);
      var f := frames[i].(page := page, dirty := true);
      FrameChanged(Now(), i, f);
      frames := frames[i := f];
    }

    // The frame a resident page sits in
    ghost function Holder(p: nat): Frame
      requires Inv(Now()) && Resident(Now(), p)
      reads this
    {
      assert TableEntryOk(Now(), Home(p, |tables|), p);
      frames[tables[Home(p, |tables|)][p]]
    }

    // Stamps only ever go up
    method SetPageLsn(p: nat, lsn: nat)
      requires Valid() && lsn < wal.nextLsn
      modifies this`frames
      ensures Valid()
      ensures forall x {:trigger Contents(Now(), x)} ::
                var c := Contents(old(Now()), x);
                Contents(Now(), x) == if x == p && old(Resident(Now(), p)) && c.lsn < lsn then c.(lsn := lsn) else c
      ensures PinsKept(old(frames), frames)
    {
      var q := Home(p, |tables|);
      if p !in tables[q] { return; }
      var i := tables[q][p];
      assert TableEntryOk(Now(), q, p) && FrameOk(Now(), i);
      var page := frames[i].page;
      if lsn > page.lsn { page := page.(lsn := lsn); }
      var f := frames[i].(page := page, dirty := true);
      FrameChanged(Now(), i, f);
      frames := frames[i := f];
    }

    // One frame to the store; the log went first
    method WriteFrame(i: nat, written: bool)
      requires Valid() && i < |frames| && frames[i].pageId != NULL_PAGE
      requires wal.Durable(frames[i].page.lsn)
      modifies this`frames, this`store
      ensures Valid() && SameContents(old(Now()), Now())
      ensures frames == if written then old(frames)[i := old(frames)[i].(dirty := false)] else old(frames)
      ensures store == if written then old(store)[old(frames)[i].pageId := old(frames)[i].page] else old(store)
    {
      if !written { return; }
      ghost var s := Now();
      WriteBackKeeps(s, i);
      store := store[frames[i].pageId := frames[i].page];
      ghost var m := Now();
      FrameChanged(m, i, frames[i].(dirty := false));
      frames := frames[i := frames[i].(dirty := false)];
      assert FrameOk(s, i);
      forall x ensures Contents(Now(), x) == Contents(s, x) {
        assert Contents(m, x) == Contents(s, x);
      }
    }

    method FlushPage(p: nat, written: bool)
      requires Valid()
      modifies this`frames, this`store, wal
      ensures Valid() && SameContents(old(Now()), Now()) && PinsKept(old(frames), frames)
      ensures store != old(store) ==> Resident(Now(), p) && Contents(Now(), p).lsn <= wal.durableLsn
      ensures Resident(Now(), p) && written && old(Reached(Contents(Now(), p).lsn)) ==>
                ReadStore(store, p) == Contents(Now(), p) && !Holder(p).dirty
    {
      var q := Home(p, |tables|);
      if p !in tables[q] { return; }
      var i := tables[q][p];
      assert TableEntryOk(Now(), q, p) && FrameOk(Now(), i);
      if frames[i].dirty {
        var ok := FlushFrameWalFirst(i);
        if !ok { return; }
        WriteFrame(i, written);
        assert FrameOk(Now(), i);
      }
    }

    // The log is durable up to there, or a healthy one can be made so
    ghost predicate Reached(lsn: nat)
      reads wal
    {
      lsn <= wal.durableLsn || (wal.healthy && wal.open && lsn <= wal.lastWritten)
    }

    ghost predicate AllReached(fs: seq<Frame>)
      reads wal
    {
      forall i :: 0 <= i < |fs| && fs[i].dirty ==> Reached(fs[i].page.lsn)
    }

    // Frames whose records are secured in the log, durable_lsn having been as high as this
    ghost predicate Ready(batch: seq<nat>, high: nat)
      reads this, wal
    {
      forall k :: 0 <= k < |batch| ==>
        && batch[k] < |frames| && frames[batch[k]].pageId != NULL_PAGE
        && frames[batch[k]].page.lsn <= high && wal.Durable(frames[batch[k]].page.lsn)
    }

    // What a flush has done so far: frames written back only within the highest durable_lsn it has seen
    ghost predicate Flushing(s: Pool, disk: nat -> bool, high: nat)
      reads this, wal, wal.buf
    {
      && Valid() && Progress(s, Now(), disk) && CleanedWithin(s.frames, frames, high)
      && wal.durableLsn <= high && wal.Durable(high)
    }

    method WriteOne(i: nat, disk: nat -> bool, ghost s: Pool, ghost high: nat)
      requires Flushing(s, disk, high) && i < |frames| && frames[i].pageId != NULL_PAGE
      requires frames[i].page.lsn <= high && wal.Durable(frames[i].page.lsn)
      modifies this`frames, this`store
      ensures Flushing(s, disk, high)
      ensures frames ==
                if disk(old(frames)[i].pageId) then old(frames)[i := old(frames)[i].(dirty := false)] else old(frames)
    {
      ghost var m := Now();
      WriteFrame(i, disk(frames[i].pageId));
      ProgressStep(s, m, Now(), disk, i);
    }

    method WriteBatch(batch: seq<nat>, disk: nat -> bool, ghost s: Pool, ghost high: nat)
      requires Ready(batch, high) && Flushing(s, disk, high)
      modifies this`frames, this`store
      ensures Flushing(s, disk, high)
      ensures StillSettled(old(frames), frames, disk, batch)
    {
      for r := 0 to |batch|
        invariant Ready(batch, high) && Flushing(s, disk, high)
        invariant StillSettled(old(frames), frames, disk, batch[..r])
      {
        ghost var frames0 := frames;
        WriteOne(batch[r], disk, s, high);
        SettledOn(old(frames), frames0, frames, disk, batch, r);
      }
      assert batch[..|batch|] == batch;
    }

    // `high` is the highest value durable_lsn has had meanwhile
    method FlushAll(batchSize: nat, disk: nat -> bool) returns (ghost high: nat)
      requires Valid()
      modifies this`frames, this`store, wal
      ensures Valid() && Progress(old(Now()), Now(), disk) && wal.nextLsn == old(wal.nextLsn)
      ensures AllDurable(old(frames), old(wal.durableLsn)) ==> unchanged(wal)
      ensures old(AllReached(frames)) ==> NoneLeft(frames, |frames|, disk)
      // a page is written back only within durable_lsn
      ensures forall p: nat {:trigger ReadStore(store, p)} ::
                ReadStore(store, p) != ReadStore(old(store), p) ==> ReadStore(store, p).lsn <= high
      ensures wal.Durable(high) && (old(wal.durableLsn <= wal.lastWritten) ==> high == wal.durableLsn)
    {
      ghost var s := Now();
      ghost var fast, able := AllDurable(frames, wal.durableLsn), AllReached(frames);
      high := wal.durableLsn;
      var size := if batchSize == 0 then 1 else batchSize;
      for q := 0 to |tables|
        invariant Flushing(s, disk, high) && wal.nextLsn == old(wal.nextLsn)
        invariant old(wal.durableLsn <= wal.lastWritten) ==> high == wal.durableLsn <= wal.lastWritten
        invariant (fast ==> unchanged(wal)) && (able ==> AllReached(s.frames))
        invariant able ==> forall i :: 0 <= i < |frames| && Home(i, |tables|) < q ==> Settled(frames[i], disk)
      {
        high := FlushPartition(q, size, disk, s, fast, able, high);
      }
      forall p: nat {:trigger ReadStore(store, p)}
        ensures ReadStore(store, p) != ReadStore(s.store, p) ==> ReadStore(store, p).lsn <= high
      {
        StoredWithin(s, Now(), disk, high, p);
      }
    }

    method FlushPartition(q: nat, size: nat, disk: nat -> bool, ghost s: Pool, ghost fast: bool, ghost able: bool,
                          ghost high: nat)
      returns (ghost high': nat)
      requires Flushing(s, disk, high) && q < |tables| && size > 0
      requires (fast ==> AllDurable(s.frames, wal.durableLsn)) && (able ==> AllReached(s.frames))
      modifies this`frames, this`store, wal
      ensures Flushing(s, disk, high') && wal.nextLsn == old(wal.nextLsn)
      ensures high == old(wal.durableLsn) <= old(wal.lastWritten) ==> high' == wal.durableLsn <= wal.lastWritten
      ensures (fast ==> unchanged(wal)) && (able ==> AllReached(s.frames))
      ensures able ==> forall i :: 0 <= i < |frames| && (Home(i, |tables|) == q || Settled(old(frames)[i], disk)) ==>
                                     Settled(frames[i], disk)
    {
      var batch;
      batch, high' := ScanPartition(q, size, disk, s, fast, able, high);
      if batch != [] { WriteBatch(batch, disk, s, high'); }
    }

    method ScanPartition(q: nat, size: nat, disk: nat -> bool, ghost s: Pool, ghost fast: bool, ghost able: bool,
                         ghost high: nat)
      returns (batch: seq<nat>, ghost high': nat)
      requires Flushing(s, disk, high) && q < |tables| && size > 0
      requires (fast ==> AllDurable(s.frames, wal.durableLsn)) && (able ==> AllReached(s.frames))
      modifies this`frames, this`store, wal
      ensures Flushing(s, disk, high') && Ready(batch, high') && wal.nextLsn == old(wal.nextLsn)
      ensures high == old(wal.durableLsn) <= old(wal.lastWritten) ==> high' == wal.durableLsn <= wal.lastWritten
      ensures (fast ==> unchanged(wal)) && (able ==> AllReached(s.frames))
      ensures able ==> Scanned(frames, |tables|, q, |frames|, batch, disk)
      ensures StillSettled(old(frames), frames, disk, [])
    {
      batch, high' := [], high;
      for i := 0 to |frames|
        invariant Flushing(s, disk, high') && Ready(batch, high') && wal.nextLsn == old(wal.nextLsn)
        invariant high == old(wal.durableLsn) <= old(wal.lastWritten) ==> high' == wal.durableLsn <= wal.lastWritten
        invariant (fast ==> unchanged(wal)) && (able ==> AllReached(s.frames))
        invariant able ==> Scanned(frames, |tables|, q, i, batch, disk)
        invariant StillSettled(old(frames), frames, disk, [])
      {
        if Home(i, |tables|) == q {
          ghost var frames0, batch0 := frames, batch;
          batch, high' := FlushStep(i, batch, size, disk, s, fast, able, high');
          if able { ScannedOn(frames0, frames, |tables|, q, i, batch0, batch, disk); }
        }
      }
    }

    // The log first, for one more frame of the batch
    method SecureFrame(i: nat, disk: nat -> bool, ghost batch: seq<nat>, ghost s: Pool, ghost high: nat)
      returns (ok: bool, ghost high': nat)
      requires Flushing(s, disk, high) && Ready(batch, high) && i < |frames|
      modifies wal
      ensures Flushing(s, disk, high') && Ready(batch, high') && wal.nextLsn == old(wal.nextLsn)
      ensures high == old(wal.durableLsn) <= old(wal.lastWritten) ==> high' == wal.durableLsn <= wal.lastWritten
      ensures ok ==> frames[i].page.lsn <= high' && wal.Durable(frames[i].page.lsn)
      ensures frames[i].page.lsn <= old(wal.durableLsn) ==> ok && unchanged(wal)
      ensures old(Reached(frames[i].page.lsn)) ==> ok && old(wal.durableLsn) <= wal.durableLsn
      ensures wal.lastWritten == old(wal.lastWritten) && wal.open == old(wal.open)
    {
      ok := FlushFrameWalFirst(i);
      high' := if high < wal.durableLsn then wal.durableLsn else high;
    }

    // One frame of the scan: into the batch, and the batch out when it is full
    method FlushStep(i: nat, batch: seq<nat>, size: nat, disk: nat -> bool, ghost s: Pool, ghost fast: bool,
                     ghost able: bool, ghost high: nat)
      returns (batch': seq<nat>, ghost high': nat)
      requires Flushing(s, disk, high) && Ready(batch, high) && i < |frames| && size > 0
      requires (fast ==> AllDurable(s.frames, wal.durableLsn)) && (able ==> AllReached(s.frames))
      modifies this`frames, this`store, wal
      ensures Flushing(s, disk, high') && Ready(batch', high') && wal.nextLsn == old(wal.nextLsn)
      ensures high == old(wal.durableLsn) <= old(wal.lastWritten) ==> high' == wal.durableLsn <= wal.lastWritten
      ensures (fast ==> unchanged(wal)) && (able ==> AllReached(s.frames))
      ensures StillSettled(old(frames), frames, disk, [])
      ensures able ==> Settled(frames[i], disk) || i in batch'
      ensures forall j :: j in batch && j < |frames| ==> j in batch' || Settled(frames[j], disk)
    {
      batch', high' := batch, high;
      if frames[i].dirty && frames[i].pageId != NULL_PAGE {
        assert FrameProgress(s, Now(), disk, i);
        var ok;
        ok, high' := SecureFrame(i, disk, batch, s, high);
        if !ok { return; }
        batch' := batch + [i];
        if |batch'| >= size {
          WriteBatch(batch', disk, s, high');
          batch' := [];
        }
      }
    }
  }
}
