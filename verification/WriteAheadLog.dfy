/** The write-ahead log: an 8 KB write buffer in front of an append-only file.
    Each method is one stretch of code under the log latch. */
module WriteAheadLogs {

  // kWalBufferSize
  const BUFFER_SIZE: nat := 8192

  // A record the log has accepted: its bytes, and where they end among all bytes accepted so far
  datatype Record = Record(lsn: nat, image: seq<nat>, end: nat)

  ghost predicate Stands(stream: seq<nat>, r: Record) {
    |r.image| <= r.end <= |stream| && stream[r.end - |r.image|..r.end] == r.image
  }

  // LSNs ascend and stay below the next one to be given out
  ghost predicate Numbered(log: seq<Record>, next: nat) {
    && (forall k :: 0 <= k < |log| ==> 0 < log[k].lsn < next)
    && (forall j, k :: 0 <= j < k < |log| ==> log[j].lsn < log[k].lsn)
  }

  ghost predicate Follows(log: seq<Record>, k: nat)
    requires k < |log|
  {
    log[k].end - |log[k].image| == if k == 0 then 0 else log[k - 1].end
  }

  // The records follow each other without a gap and fill the stream
  ghost predicate Tiled(log: seq<Record>, n: nat) {
    && (forall k {:trigger Follows(log, k)} :: 0 <= k < |log| ==> Follows(log, k))
    && n == if log == [] then 0 else log[|log| - 1].end
  }

  // All records up to lsn lie within the first n bytes
  ghost predicate Within(log: seq<Record>, lsn: nat, n: nat) {
    forall k :: 0 <= k < |log| && log[k].lsn <= lsn ==> log[k].end <= n
  }

  lemma StandsLonger(stream: seq<nat>, more: seq<nat>, log: seq<Record>)
    requires forall k :: 0 <= k < |log| ==> Stands(stream, log[k])
    ensures forall k :: 0 <= k < |log| ==> Stands(stream + more, log[k])
  {
    forall k | 0 <= k < |log| ensures Stands(stream + more, log[k]) {
      assert Stands(stream, log[k]);
      var r := log[k];
      assert (stream + more)[r.end - |r.image|..r.end] == stream[r.end - |r.image|..r.end];
    }
  }

  lemma StandsNew(stream: seq<nat>, header: seq<nat>, data: seq<nat>, r: Record)
    requires r.image == header + data && r.end == |stream| + |header| + |data|
    ensures Stands(stream + header + data, r)
  {
    var s := stream + header + data;
    assert s == stream + (header + data);
    assert s[|stream|..|s|] == header + data;
  }

  lemma NumberedLonger(log: seq<Record>, next: nat, r: Record)
    requires Numbered(log, next) && r.lsn == next > 0
    ensures Numbered(log + [r], next + 1)
  {
  }

  lemma NumberedMore(log: seq<Record>, next: nat, next': nat)
    requires Numbered(log, next)
    ensures next <= next' ==> Numbered(log, next')
  {
  }

  lemma TiledLonger(log: seq<Record>, n: nat, r: Record)
    requires Tiled(log, n) && r.end - |r.image| == n
    ensures Tiled(log + [r], r.end)
  {
    forall k | 0 <= k < |log + [r]| ensures Follows(log + [r], k) {
      assert k < |log| ==> Follows(log, k);
    }
  }

  // Records numbered later do not count against an earlier LSN
  lemma WithinLonger(log: seq<Record>, r: Record, lsn: nat, n: nat, n': nat)
    requires Within(log, lsn, n) && lsn < r.lsn && n <= n'
    ensures Within(log + [r], lsn, n')
  {
  }

  lemma SliceOfSlice(s: seq<nat>, a: nat, b: nat, i: nat, j: nat)
    requires a <= i <= j <= b <= |s|
    ensures s[a..b][i - a..j - a] == s[i..j]
  {
    var t, w := s[a..b], s[i..j];
    var u := t[i - a..j - a];
    forall x | 0 <= x < |u| ensures u[x] == w[x] {
      assert u[x] == t[x + (i - a)];
    }
  }

  class Wal {
    const fsyncEnabled: bool
    const segmentSize: nat
    const buf: array<nat>
    // a disk that never refuses a write, an fsync or an fstat; any other may, at any time
    const healthy: bool

    var open: bool
    var nextLsn: nat
    var durableLsn: nat
    var lastWritten: nat
    var pos: nat
    var file: seq<nat>

    // every byte accepted since the log was opened, and how many of them have left the buffer
    ghost var stream: seq<nat>
    ghost var sent: nat
    // how many of them the last successful fsync has covered
    ghost var synced: nat
    // how much of the stream truncation has cut off the file
    ghost var base: nat
    ghost var log: seq<Record>
    // no write has failed so far
    ghost var intact: bool

    ghost predicate Valid()
      reads this, buf
    {
      && Buffered()
      && (forall k :: 0 <= k < |log| ==> Stands(stream, log[k]))
      && Numbered(log, nextLsn)
      && durableLsn < nextLsn && lastWritten < nextLsn
      && synced <= sent && Durable(durableLsn)
      && (intact ==> Tiled(log, |stream|))
    }

    // The buffer holds exactly the accepted bytes that have not left it
    ghost predicate Buffered()
      reads this, buf
    {
      && buf.Length == BUFFER_SIZE && pos <= BUFFER_SIZE
      && base <= sent && sent + pos == |stream| && stream[sent..] == buf[..pos]
      && (intact ==> file == stream[base..sent])
    }

    // What survives a crash: the bytes covered by an fsync, or, with fsync switched off, those handed over
    ghost function Secured(): nat
      reads this
    {
      if fsyncEnabled then synced else sent
    }

    // Every record up to lsn survives a crash
    ghost predicate Durable(lsn: nat)
      reads this
    {
      Within(log, lsn, Secured())
    }

    constructor (fsync: bool, segment: nat, isOpen: bool, sound: bool)
      ensures Valid() && fresh(buf) && log == [] && nextLsn == 1 && durableLsn == 0 && intact
      ensures pos == 0 && sent == 0 && stream == [] && file == [] &&
                segmentSize == if segment == 0 then 0x400_0000 else segment
      ensures fsyncEnabled == fsync && open == isOpen && healthy == sound
    {
      fsyncEnabled := fsync;
      healthy := sound;
      segmentSize := if segment == 0 then 0x400_0000 else segment;
      buf := new nat[BUFFER_SIZE](_ => 0);
      open := isOpen;
      nextLsn, durableLsn, lastWritten, pos := 1, 0, 0, 0;
      file := [];
      stream, sent, synced, base, log, intact := [], 0, 0, 0, [], true;
    }

    // The place of a record in the log file
    ghost predicate InFile(r: Record)
      reads this
    {
      && base <= r.end - |r.image| && |r.image| <= r.end && r.end - base <= |file|
      && file[r.end - |r.image| - base..r.end - base] == r.image
    }

    // As long as no write has failed, a record that has left the buffer is in the file, unless truncated away
    lemma LeftIsInFile(k: nat)
      requires Valid() && intact && k < |log| && log[k].end <= sent && base <= log[k].end - |log[k].image|
      ensures InFile(log[k])
    {
      assert Stands(stream, log[k]);
      SliceOfSlice(stream, base, sent, log[k].end - |log[k].image|, log[k].end);
    }

    // A crash keeps some beginning of the file that is no shorter than what was secured: a record within it is still
    // there
    lemma SecuredSurvives(k: nat, n: nat)
      requires Valid() && intact && k < |log| && log[k].end <= Secured() && base <= log[k].end - |log[k].image|
      requires Secured() - base <= n <= |file|
      ensures file[..n][log[k].end - |log[k].image| - base..log[k].end - base] == log[k].image
    {
      LeftIsInFile(k);
      var r := log[k];
      assert file[..n][r.end - |r.image| - base..r.end - base] == file[r.end - |r.image| - base..r.end - base];
    }

    // What durable_lsn promises
    lemma DurableIsInFile(k: nat)
      requires Valid() && intact && k < |log| && log[k].lsn <= durableLsn && base <= log[k].end - |log[k].image|
      ensures InFile(log[k])
    {
      LeftIsInFile(k);
    }

    method WriteDirect(data: seq<nat>) returns (ok: bool)
      modifies this`file
      ensures ok ==> open && file == old(file) + data
      ensures healthy && open ==> ok
      ensures !ok ==> exists n :: 0 <= n <= |data| && file == old(file) + data[..n]
    {
      if !open {
        assert file == old(file) + data[..0];
        return false;
      }
      var done := 0;
      while done < |data|
        invariant done <= |data| && file == old(file) + data[..done]
      {
        var written: int := *;
        if healthy { written := |data| - done; }
        if written <= 0 || written > |data| - done { return false; }
        file := file + data[done..done + written];
        assert data[..done] + data[done..done + written] == data[..done + written];
        done := done + written;
      }
      assert data[..done] == data;
      return true;
    }

    method FlushBuffer() returns (ok: bool)
      requires Buffered()
      modifies this`pos, this`file, this`sent, this`intact
      ensures Buffered() && old(sent) <= sent
      ensures ok ==> pos == 0 && sent == |stream| && intact == old(intact) && file == old(file) + old(buf[..pos])
      ensures !ok ==> sent == old(sent) && !intact
      ensures healthy && open ==> ok
    {
      if pos == 0 { return true; }
      ok := WriteDirect(buf[..pos]);
      if ok {
        assert intact ==> stream[base..sent] + stream[sent..] == stream[base..];
        pos, sent := 0, |stream|;
      } else {
        intact := false;
      }
    }

    method AppendToBuffer(data: seq<nat>) returns (ok: bool)
      requires Buffered()
      modifies this`pos, this`file, this`sent, this`intact, this`stream, buf
      ensures Buffered() && old(sent) <= sent
      ensures stream == old(stream) + data || (!ok && stream == old(stream))
      ensures ok ==> stream == old(stream) + data && intact == old(intact)
      ensures !ok ==> !intact
      ensures healthy && open ==> ok
      ensures old(pos) + |data| < BUFFER_SIZE ==> ok && sent == old(sent) && file == old(file)
    {
      if |data| == 0 { return true; }
      if |data| > BUFFER_SIZE {
        ok := FlushBuffer();
        if !ok { return false; }
        ok := WriteThrough(data);
        return ok;
      }
      if pos + |data| > BUFFER_SIZE {
        ok := FlushBuffer();
        if !ok { return false; }
      }
      CopyIn(data);
      if pos == BUFFER_SIZE {
        ok := FlushBuffer();
        return ok;
      }
      return true;
    }

    // Too large for the buffer: straight to the file
    method WriteThrough(data: seq<nat>) returns (ok: bool)
      requires Buffered() && pos == 0
      modifies this`file, this`sent, this`intact, this`stream
      ensures Buffered() && old(sent) <= sent
      ensures stream == if ok then old(stream) + data else old(stream)
      ensures if ok then intact == old(intact) else !intact
      ensures healthy && open ==> ok
    {
      ok := WriteDirect(data);
      if ok {
        assert intact ==> stream[base..sent] + data == (stream + data)[base..];
        stream := stream + data;
        sent := |stream|;
      } else {
        intact := false;
      }
    }

    method CopyIn(data: seq<nat>)
      requires Buffered() && pos + |data| <= BUFFER_SIZE
      modifies this`pos, this`stream, buf
      ensures Buffered() && pos == old(pos) + |data| && stream == old(stream) + data
    {
      forall i | 0 <= i < |data| { buf[pos + i] := data[i]; }
      pos := pos + |data|;
      stream := stream + data;
      assert stream[base..sent] == old(stream)[base..sent];
      assert stream[sent..] == old(stream)[sent..] + data;
    }

    // fsync, where it is switched on; the outcome is the disk's
    method Sync() returns (ok: bool)
      requires synced <= sent
      modifies this`synced
      ensures old(synced) <= synced <= sent && (ok ==> Secured() == sent) && (!ok ==> synced == old(synced))
      ensures !fsyncEnabled || healthy ==> ok
    {
      if !fsyncEnabled { return true; }
      var done: bool := *;
      if done || healthy {
        synced := sent;
        return true;
      }
      return false;
    }

    // flush_buffer and fsync; on success everything written so far counts as durable
    method Drain() returns (ok: bool)
      requires Valid()
      modifies this`pos, this`file, this`sent, this`synced, this`intact, this`durableLsn
      ensures Valid() && old(sent) <= sent && old(synced) <= synced
      ensures durableLsn == if ok then lastWritten else old(durableLsn)
      ensures ok ==> pos == 0 && Secured() == sent == |stream| && file == old(file) + old(buf[..pos])
      ensures intact ==> old(intact)
      ensures healthy && open ==> ok
    {
      ok := FlushBuffer();
      if !ok { return false; }
      ok := Sync();
      if ok {
        EverythingDurable();
        durableLsn := lastWritten;
      }
    }

    lemma EverythingDurable()
      requires forall k :: 0 <= k < |log| ==> Stands(stream, log[k])
      requires Secured() == |stream|
      ensures forall lsn {:trigger Durable(lsn)} :: Durable(lsn)
    {
      forall lsn ensures Durable(lsn) {
        forall k | 0 <= k < |log| && log[k].lsn <= lsn
          ensures log[k].end <= Secured()
        {
          assert Stands(stream, log[k]);
        }
      }
    }

    // Accepting a record; `header` makes the 32 header bytes for the LSN it gets
    method WriteRecord(header: nat -> seq<nat>, data: seq<nat>, fault: bool) returns (lsn: nat)
      requires Valid()
      modifies this, buf
      ensures Valid() && old(sent) <= sent && old(synced) <= synced && old(stream) <= stream
      ensures lsn == 0 ==>
                log == old(log) && nextLsn == old(nextLsn) && durableLsn == old(durableLsn) &&
                lastWritten == old(lastWritten)
      ensures lsn != 0 ==> lsn == old(nextLsn) == lastWritten && nextLsn == lsn + 1
      ensures lsn != 0 ==> log == old(log) + [Record(lsn, header(lsn) + data, |stream|)]
      ensures lsn != 0 ==>
                stream == old(stream) + header(lsn) + data && (durableLsn == old(durableLsn) || durableLsn == lsn)
      ensures open == old(open) && base == old(base) && (intact ==> old(intact))
      ensures forall l: nat :: l < old(nextLsn) && old(Durable(l)) ==> Durable(l)
      ensures healthy && open && !fault ==> lsn != 0
      ensures !open || fault ==> lsn == 0 && unchanged(this) && unchanged(buf)
      // what lies beyond the segment size is made durable at once, and nothing else is
      ensures durableLsn != old(durableLsn) ==> |file| > segmentSize && pos == 0
      ensures healthy && lsn != 0 ==> |file| + pos <= segmentSize || durableLsn == lsn
      // a record that fits into the buffer and the segment stays in the buffer
      ensures old(pos) + |header(old(nextLsn))| + |data| < BUFFER_SIZE && |old(file)| + BUFFER_SIZE <= segmentSize ==>
                sent == old(sent) && file == old(file) && durableLsn == old(durableLsn) && (open && !fault ==> lsn != 0)
    {
      if !open || fault { return 0; }
      lsn := nextLsn;
      var ok := Accept(header(lsn), data);
      if !ok { return 0; }
      KeepSegment();
    }

    // The end of write_record: a segment that is over its size is drained
    method KeepSegment()
      requires Valid()
      modifies this`pos, this`file, this`sent, this`synced, this`intact, this`durableLsn
      ensures Valid() && old(sent) <= sent && old(synced) <= synced && (intact ==> old(intact))
      ensures durableLsn == old(durableLsn) || (durableLsn == lastWritten && |file| > segmentSize && pos == 0)
      ensures |old(file)| + old(pos) <= segmentSize ==> unchanged(this)
      ensures healthy && open ==> |file| + pos <= segmentSize || durableLsn == lastWritten
    {
      var statOk: bool := *;
      if (statOk || healthy) && |file| + pos > segmentSize {
        var _ := Drain();
      }
    }

    // The bytes and the bookkeeping of one record
    method Accept(header: seq<nat>, data: seq<nat>) returns (ok: bool)
      requires Valid()
      modifies this`pos, this`file, this`sent, this`intact, this`stream, this`log, this`nextLsn, this`lastWritten, buf
      ensures Valid() && old(sent) <= sent && old(stream) <= stream && (intact ==> old(intact))
      ensures !ok ==> log == old(log) && nextLsn == old(nextLsn) && lastWritten == old(lastWritten)
      ensures ok ==> lastWritten == old(nextLsn) && nextLsn == old(nextLsn) + 1 && stream == old(stream) + header + data
      ensures ok ==> log == old(log) + [Record(old(nextLsn), header + data, |stream|)]
      ensures forall l: nat :: l < old(nextLsn) && old(Durable(l)) ==> Durable(l)
      ensures healthy && open ==> ok
      ensures old(pos) + |header| + |data| < BUFFER_SIZE ==> ok && sent == old(sent) && file == old(file)
    {
      ok := AppendRecord(header, data);
      if !ok { return false; }
      ghost var r := Record(nextLsn, header + data, |stream|);
      StandsNew(old(stream), header, data, r);
      NumberedLonger(log, nextLsn, r);
      if intact { TiledLonger(log, |old(stream)|, r); }
      forall l: nat | l < nextLsn && old(Durable(l)) ensures Within(log + [r], l, Secured()) {
        WithinLonger(log, r, l, old(Secured()), Secured());
      }
      assert old(Durable(durableLsn));
      lastWritten := nextLsn;
      nextLsn := nextLsn + 1;
      log := log + [r];
    }

    // The bytes of a record, header first
    method AppendRecord(header: seq<nat>, data: seq<nat>) returns (ok: bool)
      requires Valid()
      modifies this`pos, this`file, this`sent, this`intact, this`stream, buf
      ensures Buffered() && old(sent) <= sent && old(stream) <= stream
      ensures ok ==> stream == old(stream) + header + data && intact == old(intact)
      ensures !ok ==> !intact
      ensures forall k :: 0 <= k < |log| ==> Stands(stream, log[k])
      ensures healthy && open ==> ok
      ensures old(pos) + |header| + |data| < BUFFER_SIZE ==> ok && sent == old(sent) && file == old(file)
    {
      ok := AppendToBuffer(header);
      StandsLonger(old(stream), header, log);
      if !ok || |data| == 0 {
        assert ok ==> old(stream) + header + data == old(stream) + header;
        return ok;
      }
      StandsLonger(stream, data, log);
      ok := AppendToBuffer(data);
    }

    // flush_commit, waited for before a commit is shown to anyone
    method FlushCommit(lsn: nat) returns (ok: bool)
      requires Valid() && lsn < nextLsn
      modifies this`pos, this`file, this`sent, this`synced, this`intact, this`durableLsn
      ensures Valid() && old(sent) <= sent && old(synced) <= synced && (intact ==> old(intact))
      ensures ok ==> lsn <= durableLsn && Durable(lsn)
      ensures healthy && open && lsn <= lastWritten ==> ok
      ensures !open ==> !ok && unchanged(this)
      ensures durableLsn != old(durableLsn) ==> durableLsn == if fsyncEnabled then lastWritten else lsn
    {
      if !open { return false; }
      if !fsyncEnabled {
        ok := FlushBuffer();
        if !ok { return false; }
        EverythingDurable();
        if durableLsn < lsn { durableLsn := lsn; }
        return durableLsn >= lsn;
      }
      ok := Drain();
      if ok { EverythingDurable(); }
      return ok && durableLsn >= lsn;
    }

    // A commit whose log_commit returns a number has its record on disk
    method LogCommit(header: nat -> seq<nat>) returns (lsn: nat)
      requires Valid()
      modifies this, buf
      ensures Valid() && old(nextLsn) <= nextLsn
      ensures lsn != 0 ==> lsn == old(nextLsn) <= durableLsn && nextLsn == lsn + 1 && Durable(lsn)
      ensures lsn != 0 ==> |log| == |old(log)| + 1 && old(log) <= log && log[|old(log)|].lsn == lsn
      ensures forall l: nat :: l < old(nextLsn) && old(Durable(l)) ==> Durable(l)
      ensures open == old(open) && (healthy && open ==> lsn != 0)
      ensures !open ==> lsn == 0 && unchanged(this)
    {
      lsn := WriteRecord(header, [], false);
      if lsn == 0 { return 0; }
      var ok := FlushCommit(lsn);
      if !ok { return 0; }
    }

    // The second half of log_abort, under the latch again. If others have moved durable_lsn beyond lsn meanwhile, it
    // falls back to lsn; what is durable stays durable.
    method AbortFlush(lsn: nat) returns (done: bool)
      requires Valid() && lsn < nextLsn
      modifies this`pos, this`file, this`sent, this`synced, this`intact, this`durableLsn
      ensures Valid() && old(sent) <= sent && old(synced) <= synced && (intact ==> old(intact))
      ensures durableLsn == if done then lsn else old(durableLsn)
      ensures durableLsn < old(durableLsn) <==> done && lsn < old(durableLsn)
      ensures done ==> forall l {:trigger Durable(l)} :: Durable(l)
      ensures healthy && open ==> done
      ensures !open ==> !done
    {
      done := FlushBuffer();
      if done && open {
        done := Sync();
        if done {
          EverythingDurable();
          durableLsn := lsn;
        }
      } else {
        done := false;
      }
    }

    method Flush()
      requires Valid()
      modifies this`pos, this`file, this`sent, this`synced, this`intact, this`durableLsn
      ensures Valid() && old(sent) <= sent && old(synced) <= synced && (intact ==> old(intact))
      ensures durableLsn == lastWritten || durableLsn == old(durableLsn)
      ensures healthy && open ==> durableLsn == lastWritten && pos == 0 && Secured() == |stream|
      ensures !open ==> unchanged(this)
    {
      if open { var _ := Drain(); }
    }

    method FlushUntil(lsn: nat) returns (ok: bool)
      requires Valid()
      modifies this`pos, this`file, this`sent, this`synced, this`intact, this`durableLsn
      ensures Valid() && old(sent) <= sent && old(synced) <= synced && (intact ==> old(intact))
      ensures ok ==> (lsn == 0 || lsn <= durableLsn) && Durable(lsn)
      ensures durableLsn == lastWritten || durableLsn == old(durableLsn)
      ensures lsn <= old(durableLsn) || (healthy && open && lsn <= lastWritten) ==> ok
      ensures lsn <= old(durableLsn) || !open ==> unchanged(this)
    {
      if lsn == 0 || durableLsn >= lsn { return true; }
      if !open { return false; }
      ok := Drain();
      return ok && durableLsn >= lsn;
    }

    // First two phases of a checkpoint: the marker, and everything before it, on disk
    method CheckpointMarker(header: nat -> seq<nat>) returns (lsn: nat)
      requires Valid()
      modifies this, buf
      ensures Valid() && (intact ==> old(intact))
      ensures lsn != 0 ==> lsn == old(nextLsn) == lastWritten == durableLsn && nextLsn == lsn + 1 && pos == 0 && open
      ensures forall l: nat :: l < old(nextLsn) && old(Durable(l)) ==> Durable(l)
      ensures old(nextLsn) <= nextLsn && open == old(open) && (healthy && open ==> lsn != 0)
      ensures !open ==> unchanged(this)
    {
      if !open { return 0; }
      lsn := nextLsn;
      var ok := Accept(header(lsn), []);
      if !ok { return 0; }
      ok := Drain();
      if !ok { return 0; }
    }

    // Last phase: the file starts over, the numbering does not
    method Truncate()
      requires Valid()
      modifies this`file, this`base, this`open, this`lastWritten
      ensures Valid() && lastWritten == durableLsn && file == []
    {
      file := [];
      base := sent;
      open := *;
      lastWritten := durableLsn;
    }

    // ensure_next_lsn_at_least takes everything up to lsn for durable; true exactly if all of it is
    method EnsureNextLsnAtLeast(lsn: nat)
      requires Valid()
      modifies this`nextLsn, this`lastWritten, this`durableLsn
      ensures Valid() <==> Durable(lsn)
      ensures nextLsn == if old(nextLsn) <= lsn then lsn + 1 else old(nextLsn)
      ensures lastWritten == if old(lastWritten) < lsn then lsn else old(lastWritten)
      ensures durableLsn == if old(durableLsn) < lsn then lsn else old(durableLsn)
    {
      if lsn == 0 { return; }
      NumberedMore(log, nextLsn, lsn + 1);
      if nextLsn <= lsn { nextLsn := lsn + 1; }
      if lastWritten < lsn { lastWritten := lsn; }
      if durableLsn < lsn { durableLsn := lsn; }
    }
  }
}
