/** Log and buffer pool together: the steps other components take against either
    keep the write-ahead rule, and a checkpoint never waits for the latch it holds. */
module Durability {
  import opened BufferPools
  import opened WriteAheadLogs

  // The rule, spelled out: bytes on disk never run ahead of the log
  lemma StoredPagesAreLogged(pool: BufferPool, p: nat, k: nat)
    requires pool.Valid() && p in pool.store && k < |pool.wal.log| && pool.wal.log[k].lsn <= pool.store[p].lsn
    ensures pool.wal.log[k].end <= pool.wal.Secured()
    // and after a crash that keeps no less of the file than was secured, it is still there
    ensures pool.wal.intact && pool.wal.base <= pool.wal.log[k].end - |pool.wal.log[k].image| ==>
              forall n {:trigger pool.wal.file[..n]} :: pool.wal.Secured() - pool.wal.base <= n <= |pool.wal.file| ==>
                var r, base := pool.wal.log[k], pool.wal.base;
                r.end - base <= n && pool.wal.file[..n][r.end - |r.image| - base..r.end - base] == r.image
  {
    var w := pool.wal;
    assert w.Durable(pool.store[p].lsn);
    if w.intact && w.base <= w.log[k].end - |w.log[k].image| {
      assert Stands(w.stream, w.log[k]);
      forall n {:trigger w.file[..n]} | w.Secured() - w.base <= n <= |w.file|
        ensures w.file[..n][w.log[k].end - |w.log[k].image| - w.base..w.log[k].end - w.base] == w.log[k].image
      {
        w.SecuredSurvives(k, n);
      }
    }
  }

  // Any record from anywhere
  method Log(pool: BufferPool, header: nat -> seq<nat>, data: seq<nat>, fault: bool) returns (lsn: nat)
    requires pool.Valid()
    modifies pool.wal, pool.wal.buf
    ensures pool.Valid() && (lsn != 0 ==> lsn == old(pool.wal.nextLsn) < pool.wal.nextLsn)
    ensures pool.wal.healthy && old(pool.wal.open) && !fault ==> lsn != 0
  {
    lsn := pool.wal.WriteRecord(header, data, fault);
  }

  // log_abort takes the latch twice: once to log the record, and here; what others do in between are other steps
  method AbortFlush(pool: BufferPool, lsn: nat) returns (done: bool)
    requires pool.Valid() && lsn < pool.wal.nextLsn
    modifies pool.wal, pool.wal.buf
    ensures pool.Valid() && pool.wal.nextLsn == old(pool.wal.nextLsn)
    ensures pool.wal.durableLsn < old(pool.wal.durableLsn) <==> done && lsn < old(pool.wal.durableLsn)
  {
    done := pool.wal.AbortFlush(lsn);
  }

  // An abort is logged as record 1, a commit as record 2 makes both durable, and then the abort flushes
  method DurableLsnFalls(header: nat -> seq<nat>) returns (w: Wal, ghost before: nat)
    ensures w.Valid() && w.fsyncEnabled && |w.log| == 2 && w.log[1].lsn == 2
    ensures before == 2 && w.durableLsn == 1 && w.Durable(2)
  {
    w := new Wal(true, 0, true, true);
    var abort := w.WriteRecord(header, [], false);
    var commit := w.LogCommit(header);
    before := w.durableLsn;
    var done := w.AbortFlush(abort);
  }

  method OneBuffered(header: nat -> seq<nat>) returns (w: Wal)
    requires |header(1)| == 32
    ensures fresh(w) && w.Valid() && |w.log| == 1 && w.log[0].lsn == 1 && w.log[0].end == 32 && w.nextLsn == 2
    ensures w.durableLsn == 0 && w.fsyncEnabled && w.sent == 0 && w.file == []
  {
    w := new Wal(true, 0, true, true);
    var none: seq<nat> := [];
    ghost var bytes := header(1);
    assert w.nextLsn == 1 && |w.stream| == 0 && |bytes| + |none| == 32;
    var lsn := w.WriteRecord(header, none, false);
    assert lsn == 1;
    assert |w.stream| == 0 + |bytes| + |none|;
  }

  // A record just logged is still in the buffer when everything up to it is declared durable
  method DeclaredDurable(header: nat -> seq<nat>) returns (w: Wal)
    requires |header(1)| == 32
    ensures !w.Valid() && w.durableLsn == 1 && |w.log| == 1 && w.log[0].lsn == 1 && w.sent == 0 && w.file == []
  {
    w := OneBuffered(header);
    assert !w.Durable(1);
    w.EnsureNextLsnAtLeast(1);
  }

  method Commit(pool: BufferPool, header: nat -> seq<nat>) returns (lsn: nat)
    requires pool.Valid()
    modifies pool.wal, pool.wal.buf
    ensures pool.Valid() && (pool.wal.healthy && old(pool.wal.open) ==> lsn != 0)
    ensures lsn != 0 ==> pool.wal.Durable(lsn) && exists k :: 0 <= k < |pool.wal.log| && pool.wal.log[k].lsn == lsn
  {
    lsn := pool.wal.LogCommit(header);
  }

  // A page change: logged first, then made under a pin and stamped with the record's LSN
  method LoggedUpdate(pool: BufferPool, p: nat, body: seq<nat>, header: nat -> seq<nat>, data: seq<nat>)
    returns (lsn: nat)
    requires pool.Valid() && Resident(pool.Now(), p) && pool.Holder(p).pins > 0
    modifies pool, pool.wal, pool.wal.buf
    ensures pool.Valid() && (pool.wal.healthy && old(pool.wal.open) ==> lsn != 0)
    ensures lsn == 0 ==> SameContents(old(pool.Now()), pool.Now())
    ensures lsn != 0 ==> forall x {:trigger Contents(pool.Now(), x)} ::
              Contents(pool.Now(), x) == if x == p then Image(lsn, body) else Contents(old(pool.Now()), x)
  {
    lsn := Log(pool, header, data, false);
    if lsn == 0 { return; }
    var q := Home(p, |pool.tables|);
    assert TableEntryOk(pool.Now(), q, p);
    var lsn0 := pool.frames[pool.tables[q][p]].page.lsn;
    pool.Update(p, Image(lsn0, body));
    ghost var s := pool.Now();
    assert Contents(s, p) == Image(lsn0, body);
    pool.SetPageLsn(p, lsn);
    forall x ensures Contents(pool.Now(), x) == if x == p then Image(lsn, body) else Contents(old(pool.Now()), x) {
      assert Contents(s, x) == if x == p then Image(lsn0, body) else Contents(old(pool.Now()), x);
    }
  }

  // The checkpoint, its callback being flush_all. With the marker on disk no dirty page is ahead of the log, so the
  // callback leaves the log alone; a page stays out of the store exactly if the disk refused it.
  method Checkpoint(pool: BufferPool, header: nat -> seq<nat>, batchSize: nat, disk: nat -> bool, allowTruncate: bool)
    returns (lsn: nat)
    requires pool.Valid()
    modifies pool, pool.wal, pool.wal.buf
    ensures pool.Valid() && SameContents(old(pool.Now()), pool.Now())
    ensures lsn != 0 ==> pool.wal.Durable(lsn) && lsn == pool.wal.durableLsn == old(pool.wal.nextLsn)
    ensures lsn != 0 ==> forall p: nat {:trigger ReadStore(pool.store, p)} ::
              ReadStore(pool.store, p) ==
              if Dirty(old(pool.Now()), p) && !disk(p) then ReadStore(old(pool.store), p)
              else Contents(old(pool.Now()), p)
    ensures lsn != 0 && allowTruncate ==> pool.wal.file == []
    ensures pool.wal.healthy && old(pool.wal.open) ==> lsn != 0
  {
    lsn := pool.wal.CheckpointMarker(header);
    if lsn == 0 { return; }
    ghost var s := pool.Now();
    assert AllDurable(pool.frames, pool.wal.durableLsn);
    label flushing:
    var _ := pool.FlushAll(batchSize, disk);
    assert unchanged@flushing(pool.wal);
    forall p: nat {:trigger ReadStore(pool.store, p)}
      ensures ReadStore(pool.store, p) == if Dirty(s, p) && !disk(p) then ReadStore(s.store, p) else Contents(s, p)
    {
      FlushOutcome(s, pool.Now(), disk, p);
    }
    if allowTruncate { pool.wal.Truncate(); }
  }

  ghost predicate Dirty(s: Pool, p: nat)
    requires Inv(s)
  {
    Resident(s, p) && (assert TableEntryOk(s, Home(p, |s.tables|), p); s.frames[s.tables[Home(p, |s.tables|)][p]].dirty)
  }

  lemma FlushOutcome(s: Pool, s': Pool, disk: nat -> bool, p: nat)
    requires Progress(s, s', disk) && NoneLeft(s'.frames, |s'.frames|, disk)
    ensures ReadStore(s'.store, p) == if Dirty(s, p) && !disk(p) then ReadStore(s.store, p) else Contents(s, p)
  {
    assert Contents(s', p) == Contents(s, p);
    if Resident(s, p) {
      assert TableEntryOk(s, Home(p, |s.tables|), p);
      var i := s.tables[Home(p, |s.tables|)][p];
      assert FrameProgress(s, s', disk, i);
      assert FrameOk(s', i) && FrameOk(s, i);
    }
  }
}
