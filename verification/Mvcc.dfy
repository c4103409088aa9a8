/** Snapshots, transaction slots and the status log: what a transaction sees, and
    which commits can still conflict with it. */
module Mvcc {

  type Xid = nat

  // kInvalidTxnId
  const INVALID: Xid := 0

  // kFrozenTxnId
  const FROZEN: Xid := 2

  datatype State = Active | Committed | Aborted

  datatype Slot = Slot(txnId: Xid, snapshotId: nat, commitId: nat, state: State)

  datatype Row = Row(table: nat, page: nat, slot: nat)

  datatype Transaction = Transaction(id: Xid, snapshotId: nat, activeSnapshot: seq<Xid>,
                                     serializable: bool, readSet: seq<Row>, writeSet: seq<Row>)

  // The write set of a committed transaction
  datatype WriteSet = WriteSet(commitId: nat, txn: Xid, writes: seq<Row>)

  // Final states known to the status log
  datatype Final = FinalCommitted | FinalAborted

  type StatusLog = map<Xid, Final>

  // What has happened so far, kept for the proof only: the transactions begun, the
  // commit id of every commit, the counter value at every abort, all write sets ever committed
  datatype Ledger = Ledger(begun: set<Xid>, committed: map<Xid, nat>, aborted: map<Xid, nat>, full: seq<WriteSet>)

  type Live = map<Xid, Transaction>

  // The manager's fields together with the ledger
  datatype World = World(
    slots: seq<Slot>, next: nat, status: StatusLog, history: seq<WriteSet>, live: Live, ledger: Ledger)

  // ---------------------------------------------------------------------------
  // Reading
  // ---------------------------------------------------------------------------

  // get_txn_state: the slot of a transaction, if it has not been recycled
  predicate KnownUncommitted(slots: seq<Slot>, x: Xid) {
    exists i :: 0 <= i < |slots| && slots[i].txnId == x && slots[i].state != Committed
               && forall k :: 0 <= k < i ==> slots[k].txnId != x
  }

  predicate IsUncommitted(slots: seq<Slot>, status: StatusLog, x: Xid) {
    if x in status then status[x] == FinalAborted else KnownUncommitted(slots, x)
  }

  // What one lookup reads: the status log, and later, under another latch, the slots
  datatype Lookup = Lookup(status: StatusLog, slots: seq<Slot>)

  // `first` is the lookup of the creator, `second` the one of the deleter
  predicate IsVisible(first: Lookup, second: Lookup, t: Transaction, xmin: Xid, xmax: Xid) {
    if xmin == INVALID then false
    else if xmin == FROZEN then xmax == INVALID
    else if xmin == t.id then xmax != t.id
    else if xmin < t.snapshotId then
      if xmin in t.activeSnapshot then false
      else if IsUncommitted(first.slots, first.status, xmin) then false
      else if xmax == INVALID then true
      else if xmax == t.id then false
      else if xmax >= t.snapshotId then true
      else if xmax in t.activeSnapshot then true
      else IsUncommitted(second.slots, second.status, xmax)
    else false
  }

  // Commit ids and transaction ids come from one counter
  ghost predicate CommittedBefore(l: Ledger, x: Xid, t: Xid) {
    x in l.committed && l.committed[x] < t
  }

  // Snapshot isolation: created by t or committed before t began, not deleted by t nor
  // by anyone committed before t began
  ghost predicate Sees(l: Ledger, t: Xid, xmin: Xid, xmax: Xid) {
    && (xmin == t || CommittedBefore(l, xmin, t))
    && !(xmax == t || CommittedBefore(l, xmax, t))
  }

  // ---------------------------------------------------------------------------
  // The invariant
  // ---------------------------------------------------------------------------

  ghost predicate SlotOk(s: Slot, live: Live, l: Ledger) {
    s.txnId != INVALID ==>
      match s.state
      case Active => s.txnId in live && s.snapshotId == live[s.txnId].snapshotId
      case Committed => s.txnId in l.committed
      case Aborted => s.txnId in l.aborted
  }

  ghost predicate DistinctSlots(slots: seq<Slot>) {
    forall i, j :: 0 <= i < j < |slots| && slots[i].txnId == slots[j].txnId ==> slots[i].txnId == INVALID
  }

  ghost predicate HasSlot(slots: seq<Slot>, x: Xid) {
    exists i :: 0 <= i < |slots| && slots[i].txnId == x && slots[i].state == Active
  }

  ghost predicate LedgerOk(l: Ledger, live: Live, next: nat) {
    && l.begun == live.Keys + l.committed.Keys + l.aborted.Keys
    && live.Keys !! l.committed.Keys && live.Keys !! l.aborted.Keys && l.committed.Keys !! l.aborted.Keys
    && (forall x :: x in l.begun ==> 1 <= x < next)
    && (forall x :: x in l.committed ==> x < l.committed[x] < next)
    && (forall x :: x in l.aborted ==> x < l.aborted[x] <= next)
  }

  ghost predicate StatusOk(status: StatusLog, l: Ledger) {
    forall x :: x in status ==> if status[x] == FinalCommitted then x in l.committed else x in l.aborted
  }

  ghost predicate AbortedBefore(l: Ledger, x: Xid, t: Xid) {
    x in l.aborted && l.aborted[x] <= t
  }

  // Not finished when t began
  ghost predicate RunningAt(l: Ledger, x: Xid, t: Xid) {
    && x in l.begun && x < t
    && !CommittedBefore(l, x, t)
    && !AbortedBefore(l, x, t)
  }

  ghost predicate TxnOk(t: Transaction, x: Xid, l: Ledger) {
    && t.id == x && t.snapshotId == x + 1
    && forall y :: y in t.activeSnapshot <==> RunningAt(l, y, x)
  }

  ghost predicate HistoryOk(history: seq<WriteSet>, live: Live, l: Ledger) {
    && (forall e :: e in history ==> e in l.full)
    && (forall e :: e in l.full ==> e.txn in l.committed && l.committed[e.txn] == e.commitId)
    && (forall e, x :: e in l.full && x in live && e.commitId >= live[x].snapshotId ==> e in history)
  }

  ghost predicate SlotsOk(slots: seq<Slot>, live: Live, l: Ledger) {
    && (forall i {:trigger SlotOk(slots[i], live, l)} :: 0 <= i < |slots| ==> SlotOk(slots[i], live, l))
    && DistinctSlots(slots)
    && (forall x {:trigger HasSlot(slots, x)} :: x in live ==> HasSlot(slots, x))
  }

  ghost predicate TxnsOk(live: Live, l: Ledger) {
    forall x {:trigger TxnOk(live[x], x, l)} :: x in live ==> TxnOk(live[x], x, l)
  }

  ghost predicate Inv(w: World) {
    && w.next >= 1
    && SlotsOk(w.slots, w.live, w.ledger)
    && TxnsOk(w.live, w.ledger)
    && LedgerOk(w.ledger, w.live, w.next)
    && StatusOk(w.status, w.ledger)
    && HistoryOk(w.history, w.live, w.ledger)
  }

  // ---------------------------------------------------------------------------
  // The passing of time
  // ---------------------------------------------------------------------------

  // The ledger after more steps: the past stays, what is new bears numbers from `next` on
  ghost predicate Later(l: Ledger, next: nat, l': Ledger) {
    && l.begun <= l'.begun && (forall x :: x in l'.begun && x !in l.begun ==> x >= next)
    && (forall x :: x in l.committed ==> x in l'.committed && l'.committed[x] == l.committed[x])
    && (forall x :: x in l'.committed && x !in l.committed ==> l'.committed[x] >= next)
    && (forall x :: x in l.aborted ==> x in l'.aborted && l'.aborted[x] == l.aborted[x])
    && (forall x :: x in l'.aborted && x !in l.aborted ==> l'.aborted[x] >= next)
    && l.full <= l'.full && (forall i :: |l.full| <= i < |l'.full| ==> l'.full[i].commitId >= next)
  }

  lemma LaterTransitive(l: Ledger, n: nat, m: Ledger, k: nat, r: Ledger)
    requires Later(l, n, m) && Later(m, k, r) && n <= k
    ensures Later(l, n, r)
  {
  }

  ghost predicate After(w: World, w': World) {
    Inv(w) && Inv(w') && w.next <= w'.next && Later(w.ledger, w.next, w'.ledger)
  }

  lemma AfterTransitive(u: World, v: World, w: World)
    requires After(u, v) && After(v, w)
    ensures After(u, w)
  {
    LaterTransitive(u.ledger, u.next, v.ledger, v.next, w.ledger);
  }

  // Who had committed, aborted or was running when t began is settled for good
  lemma PastIsSettled(w: World, w': World, t: Xid, x: Xid)
    requires After(w, w') && t in w.live && t in w'.live
    ensures CommittedBefore(w'.ledger, x, t) <==> CommittedBefore(w.ledger, x, t)
    ensures AbortedBefore(w'.ledger, x, t) <==> AbortedBefore(w.ledger, x, t)
    ensures RunningAt(w'.ledger, x, t) <==> RunningAt(w.ledger, x, t)
  {
    assert t in w.ledger.begun;
  }

  // ---------------------------------------------------------------------------
  // Visibility
  // ---------------------------------------------------------------------------

  // When a visibility check reads what: four latch sections, with anything in between
  datatype Moments = Moments(status1: World, slots1: World, status2: World, slots2: World)

  ghost predicate Passing(m: Moments, t: Xid) {
    && After(m.status1, m.slots1) && After(m.slots1, m.status2) && After(m.status2, m.slots2)
    && t in m.status1.live && t in m.slots1.live && t in m.status2.live && t in m.slots2.live
  }

  ghost predicate Visible(m: Moments, t: Xid, xmin: Xid, xmax: Xid)
    requires t in m.status1.live
  {
    var minLookup, maxLookup := Lookup(m.status1.status, m.slots1.slots), Lookup(m.status2.status, m.slots2.slots);
    IsVisible(minLookup, maxLookup, m.status1.live[t], xmin, xmax)
  }

  // Aborted when t began, but not logged when the status log was read, and the slot given
  // away by the time the slots were read
  ghost predicate Forgotten(w: World, w': World, t: Xid, x: Xid) {
    AbortedBefore(w.ledger, x, t) && x !in w.status && forall i :: 0 <= i < |w'.slots| ==> w'.slots[i].txnId != x
  }

  // A transaction that had finished when t began: the lookup tells aborted from
  // committed, except for a forgotten abort
  lemma UncommittedMeans(w: World, w': World, t: Xid, x: Xid)
    requires After(w, w') && t in w.live && t in w'.live
    requires x in w.ledger.begun && x < t && !RunningAt(w.ledger, x, t)
    ensures IsUncommitted(w'.slots, w.status, x) <==> AbortedBefore(w.ledger, x, t) && !Forgotten(w, w', t, x)
    ensures AbortedBefore(w.ledger, x, t) <==> !CommittedBefore(w.ledger, x, t)
  {
    PastIsSettled(w, w', t, x);
    forall i | 0 <= i < |w'.slots| ensures SlotOk(w'.slots[i], w'.live, w'.ledger) {}
  }

  // Stamps a row can carry for transaction t: ids of transactions, and a row t created
  // is deleted by t or by nobody
  ghost predicate Stamps(l: Ledger, t: Xid, xmin: Xid, xmax: Xid) {
    && (xmin == INVALID || xmin in l.begun)
    && (xmax == INVALID || xmax in l.begun)
    && (xmin == t ==> xmax == INVALID || xmax == t)
  }

  // A forgotten creator whose row nobody has deleted, or a forgotten deleter of a
  // committed row
  ghost predicate Misread(m: Moments, t: Xid, xmin: Xid, xmax: Xid) {
    var l := m.status1.ledger;
    var lost1, lost2 := Forgotten(m.status1, m.slots1, t, xmin), Forgotten(m.status2, m.slots2, t, xmax);
    || (lost1 && xmax != t && !CommittedBefore(l, xmax, t) && !lost2)
    || (CommittedBefore(l, xmin, t) && lost2)
  }

  // A lookup in a check that began in w, for anybody's stamp: those in the snapshot and
  // those numbered later have neither committed nor aborted before t
  lemma LookupAnswers(w: World, v: World, v': World, t: Xid, x: Xid)
    requires After(w, v) && After(v, v') && t in w.live && t in v.live && t in v'.live && x in w.ledger.begun
    ensures !(x < t && x !in w.live[t].activeSnapshot) ==> !CommittedBefore(w.ledger, x, t) && !Forgotten(v, v', t, x)
    ensures x < t && x !in w.live[t].activeSnapshot ==>
              (IsUncommitted(v'.slots, v.status, x) <==> !CommittedBefore(w.ledger, x, t) && !Forgotten(v, v', t, x))
    ensures Forgotten(v, v', t, x) ==> !CommittedBefore(w.ledger, x, t)
  {
    PastIsSettled(w, v, t, x);
    assert TxnOk(w.live[t], t, w.ledger);
    if x < t && !RunningAt(v.ledger, x, t) { UncommittedMeans(v, v', t, x); }
  }

  // The visibility check computes snapshot isolation exactly for the rows that no
  // forgotten abort has stamped, unless the creator's number is the frozen marker
  lemma VisibilityIsSnapshot(m: Moments, t: Xid, xmin: Xid, xmax: Xid)
    requires Passing(m, t) && Stamps(m.status1.ledger, t, xmin, xmax) && xmin != FROZEN
    ensures Visible(m, t, xmin, xmax) == Sees(m.status1.ledger, t, xmin, xmax) <==> !Misread(m, t, xmin, xmax)
  {
    var w, w2 := m.status1, m.status2;
    if xmin != INVALID { LookupAnswers(w, w, m.slots1, t, xmin); }
    AfterTransitive(w, m.slots1, w2);
    if xmax != INVALID { LookupAnswers(w, w2, m.slots2, t, xmax); }
    assert TxnOk(w.live[t], t, w.ledger);
  }

  // For rows of transaction 2, whose number is also the frozen marker. Not deleted: right
  // exactly for those who may see that transaction's work. Deleted: wrong exactly for
  // those who may see it and may not see the deletion.
  lemma FrozenRows(m: Moments, t: Xid, xmax: Xid)
    requires Passing(m, t) && Stamps(m.status1.ledger, t, FROZEN, xmax)
    ensures Visible(m, t, FROZEN, INVALID) == Sees(m.status1.ledger, t, FROZEN, INVALID)
            <==> t == FROZEN || CommittedBefore(m.status1.ledger, FROZEN, t)
    ensures xmax != INVALID ==>
              (Visible(m, t, FROZEN, xmax) == Sees(m.status1.ledger, t, FROZEN, xmax)
               <==>
               !CommittedBefore(m.status1.ledger, FROZEN, t) || xmax == t || CommittedBefore(m.status1.ledger, xmax, t))
  {
    assert TxnOk(m.status1.live[t], t, m.status1.ledger);
  }

  // Whatever the others do meanwhile, a transaction's answer about a row never changes
  lemma VisibilityStable(m: Moments, m': Moments, t: Xid, xmin: Xid, xmax: Xid)
    requires Passing(m, t) && Passing(m', t) && After(m.slots2, m'.status1)
    requires Stamps(m.status1.ledger, t, xmin, xmax) && xmin != FROZEN
    requires !Misread(m, t, xmin, xmax) && !Misread(m', t, xmin, xmax)
    ensures Visible(m, t, xmin, xmax) == Visible(m', t, xmin, xmax)
  {
    AfterTransitive(m.status1, m.slots1, m.status2);
    AfterTransitive(m.status1, m.status2, m.slots2);
    AfterTransitive(m.status1, m.slots2, m'.status1);
    PastIsSettled(m.status1, m'.status1, t, xmin);
    PastIsSettled(m.status1, m'.status1, t, xmax);
    VisibilityIsSnapshot(m, t, xmin, xmax);
    VisibilityIsSnapshot(m', t, xmin, xmax);
  }

  // ---------------------------------------------------------------------------
  // Serializability check
  // ---------------------------------------------------------------------------

  predicate Overlap(writes: seq<Row>, seen: seq<Row>) {
    exists i :: 0 <= i < |writes| && writes[i] in seen
  }

  predicate Concurrent(e: WriteSet, t: Transaction) {
    e.txn != t.id && e.commitId >= t.snapshotId
  }

  // ssi_check_conflict over a history
  predicate Conflicts(history: seq<WriteSet>, t: Transaction) {
    exists i :: 0 <= i < |history| && Concurrent(history[i], t) && Overlap(history[i].writes, t.readSet)
  }

  lemma ConflictsMembers(history: seq<WriteSet>, t: Transaction)
    ensures Conflicts(history, t) <==> exists e :: e in history && Concurrent(e, t) && Overlap(e.writes, t.readSet)
  {
    if e :| e in history && Concurrent(e, t) && Overlap(e.writes, t.readSet) {
      var i :| 0 <= i < |history| && history[i] == e;
    }
  }

  // Pruning never changes the verdict of a running transaction
  lemma PrunedVerdict(w: World, t: Xid)
    requires Inv(w) && t in w.live
    ensures Conflicts(w.history, w.live[t]) <==> Conflicts(w.ledger.full, w.live[t])
  {
    ConflictsMembers(w.history, w.live[t]);
    ConflictsMembers(w.ledger.full, w.live[t]);
  }

  // Some row the transaction has read was written by somebody who committed after it began
  ghost predicate StaleRead(l: Ledger, t: Xid, seen: seq<Row>) {
    exists e, row :: e in l.full && e.txn in l.committed && l.committed[e.txn] > t && row in seen && row in e.writes
  }

  lemma OverlapMeans(writes: seq<Row>, seen: seq<Row>)
    ensures Overlap(writes, seen) <==> exists row :: row in writes && row in seen
  {
    if row :| row in writes && row in seen { OverlapAt(writes, seen, row); }
  }

  // A conflict is found exactly if a read is stale
  lemma ConflictMeans(w: World, t: Xid)
    requires Inv(w) && t in w.live
    ensures Conflicts(w.history, w.live[t]) <==> StaleRead(w.ledger, t, w.live[t].readSet)
  {
    var txn := w.live[t];
    assert TxnOk(txn, t, w.ledger);
    PrunedVerdict(w, t);
    ConflictsMembers(w.ledger.full, txn);
    forall e | e in w.ledger.full
      ensures Overlap(e.writes, txn.readSet) <==> exists row :: row in e.writes && row in txn.readSet
    {
      OverlapMeans(e.writes, txn.readSet);
    }
  }

  // From the check to the publication: what a transaction that passed has read is stale
  // when it is published exactly if somebody published a write of such a row in between
  lemma CheckThenPublish(w: World, w': World, t: Xid)
    requires After(w, w') && t in w.live && t in w'.live
    requires w'.live[t] == w.live[t] && !StaleRead(w.ledger, t, w.live[t].readSet)
    ensures StaleRead(w'.ledger, t, w.live[t].readSet) <==>
            exists i, row :: |w.ledger.full| <= i < |w'.ledger.full| &&
                             row in w'.ledger.full[i].writes && row in w.live[t].readSet
  {
    var full, full', txn := w.ledger.full, w'.ledger.full, w.live[t];
    assert TxnOk(txn, t, w.ledger);
    if e, row :| e in full' && e.txn in w'.ledger.committed && w'.ledger.committed[e.txn] > t
                 && row in txn.readSet && row in e.writes {
      var i :| 0 <= i < |full'| && full'[i] == e;
    }
    if i, row :| |full| <= i < |full'| && row in full'[i].writes && row in txn.readSet {
      assert full'[i] in full';
    }
  }

  lemma OverlapAt(writes: seq<Row>, seen: seq<Row>, row: Row)
    requires row in writes && row in seen
    ensures Overlap(writes, seen)
  {
  }

  // ---------------------------------------------------------------------------
  // What each step keeps
  // ---------------------------------------------------------------------------

  lemma ActiveAreLive(slots: seq<Slot>, live: Live, l: Ledger, x: Xid)
    requires SlotsOk(slots, live, l) && x != INVALID
    ensures HasSlot(slots, x) <==> x in live
  {
    forall i | 0 <= i < |slots| ensures SlotOk(slots[i], live, l) {}
  }

  ghost function Begun(w: World, free: nat, t: Transaction): World
    requires free < |w.slots|
  {
    World(w.slots[free := Slot(w.next, w.next + 1, 0, Active)], w.next + 1, w.status, w.history, w.live[w.next := t],
          w.ledger.(begun := w.ledger.begun + {w.next}))
  }

  lemma BeginSlots(w: World, free: nat, t: Transaction)
    requires Inv(w) && free < |w.slots| && (w.slots[free].txnId == INVALID || w.slots[free].state != Active)
    requires t.id == w.next && t.snapshotId == w.next + 1
    ensures var w' := Begun(w, free, t); SlotsOk(w'.slots, w'.live, w'.ledger)
  {
    var w' := Begun(w, free, t);
    forall i | 0 <= i < |w'.slots|
      ensures SlotOk(w'.slots[i], w'.live, w'.ledger) && (i != free ==> w'.slots[i].txnId != w.next)
    {
      assert SlotOk(w.slots[i], w.live, w.ledger);
    }
    forall x | x in w'.live ensures HasSlot(w'.slots, x) {
      if x == w.next {
        assert w'.slots[free].txnId == x && w'.slots[free].state == Active;
      } else {
        assert HasSlot(w.slots, x);
        var i :| 0 <= i < |w.slots| && w.slots[i].txnId == x && w.slots[i].state == Active;
        assert w'.slots[i] == w.slots[i];
      }
    }
  }

  lemma BeginTxns(w: World, t: Transaction)
    requires Inv(w) && t.id == w.next && t.snapshotId == w.next + 1
    requires forall x :: x in t.activeSnapshot <==> x in w.live
    ensures TxnsOk(w.live[w.next := t], w.ledger.(begun := w.ledger.begun + {w.next}))
  {
    var live', l' := w.live[w.next := t], w.ledger.(begun := w.ledger.begun + {w.next});
    forall x | x in live' ensures TxnOk(live'[x], x, l') {
      if x != w.next { assert TxnOk(w.live[x], x, w.ledger); }
    }
  }

  lemma BeginKeeps(w: World, free: nat, t: Transaction)
    requires Inv(w) && free < |w.slots| && (w.slots[free].txnId == INVALID || w.slots[free].state != Active)
    requires t.id == w.next && t.snapshotId == w.next + 1
    requires forall x :: x in t.activeSnapshot <==> x != INVALID && HasSlot(w.slots, x)
    ensures Inv(Begun(w, free, t)) && Later(w.ledger, w.next, Begun(w, free, t).ledger)
    ensures forall x :: x in t.activeSnapshot <==> x in w.live
  {
    forall x ensures x in t.activeSnapshot <==> x in w.live {
      if x != INVALID { ActiveAreLive(w.slots, w.live, w.ledger, x); }
    }
    BeginSlots(w, free, t);
    BeginTxns(w, t);
  }

  // The history entries a running transaction could still conflict with
  ghost predicate Needed(e: WriteSet, slots: seq<Slot>) {
    exists i ::
      0 <= i < |slots| && slots[i].txnId != INVALID && slots[i].state == Active && slots[i].snapshotId <= e.commitId
  }

  // Commit: slot i is flipped, the write set joins the history, the history is pruned to `kept`
  ghost function Published(w: World, t: Xid, i: nat, kept: seq<WriteSet>): World
    requires i < |w.slots| && t in w.live
  {
    var e := WriteSet(w.next, t, w.live[t].writeSet);
    World(w.slots[i := w.slots[i].(commitId := w.next, state := Committed)], w.next + 1, w.status, kept, w.live - {t},
          w.ledger.(committed := w.ledger.committed[t := w.next], full := w.ledger.full + [e]))
  }

  ghost predicate Finishes(w: World, t: Xid, i: nat) {
    t in w.live && i < |w.slots| && w.slots[i].txnId == t && w.slots[i].state == Active
  }

  lemma LeavingSlots(w: World, t: Xid, i: nat, s: Slot, l': Ledger)
    requires Inv(w) && Finishes(w, t, i)
    requires s.txnId == t && s.state != Active && SlotOk(s, w.live - {t}, l')
    requires w.ledger.committed.Keys <= l'.committed.Keys && w.ledger.aborted.Keys <= l'.aborted.Keys
    ensures SlotsOk(w.slots[i := s], w.live - {t}, l')
  {
    var slots', live' := w.slots[i := s], w.live - {t};
    forall k | 0 <= k < |slots'| ensures SlotOk(slots'[k], live', l') {
      assert SlotOk(w.slots[k], w.live, w.ledger);
      assert k != i ==> w.slots[k].txnId != t || t == INVALID;
    }
    forall x | x in live' ensures HasSlot(slots', x) {
      assert HasSlot(w.slots, x);
      var k :| 0 <= k < |w.slots| && w.slots[k].txnId == x && w.slots[k].state == Active;
      assert slots'[k] == w.slots[k];
    }
  }

  lemma PublishTxns(w: World, t: Xid, i: nat, kept: seq<WriteSet>)
    requires Inv(w) && Finishes(w, t, i)
    ensures TxnsOk(Published(w, t, i, kept).live, Published(w, t, i, kept).ledger)
  {
    var w' := Published(w, t, i, kept);
    forall x | x in w'.live ensures TxnOk(w'.live[x], x, w'.ledger) {
      assert TxnOk(w.live[x], x, w.ledger);
    }
  }

  lemma PublishHistory(w: World, t: Xid, i: nat, kept: seq<WriteSet>)
    requires Inv(w) && Finishes(w, t, i)
    requires var w' := Published(w, t, i, kept); SlotsOk(w'.slots, w'.live, w'.ledger)
    requires forall e :: e in kept ==> e in w.history + [WriteSet(w.next, t, w.live[t].writeSet)]
    requires forall e ::
               e in w.history + [WriteSet(w.next, t, w.live[t].writeSet)] && Needed(e, Published(w, t, i, kept).slots)
               ==> e in kept
    ensures var w' := Published(w, t, i, kept); HistoryOk(kept, w'.live, w'.ledger)
  {
    var w' := Published(w, t, i, kept);
    var e0 := WriteSet(w.next, t, w.live[t].writeSet);
    forall e, x | e in w'.ledger.full && x in w'.live && e.commitId >= w'.live[x].snapshotId ensures e in kept {
      assert HasSlot(w'.slots, x);
      var k :| 0 <= k < |w'.slots| && w'.slots[k].txnId == x && w'.slots[k].state == Active;
      assert SlotOk(w'.slots[k], w'.live, w'.ledger);
      assert x in w.ledger.begun && Needed(e, w'.slots);
      assert e in w.history + [e0];
    }
  }

  lemma CommitKeeps(w: World, t: Xid, i: nat, kept: seq<WriteSet>)
    requires Inv(w) && Finishes(w, t, i)
    requires forall e :: e in kept ==> e in w.history + [WriteSet(w.next, t, w.live[t].writeSet)]
    requires forall e ::
               e in w.history + [WriteSet(w.next, t, w.live[t].writeSet)] && Needed(e, Published(w, t, i, kept).slots)
               ==> e in kept
    ensures Inv(Published(w, t, i, kept)) && Later(w.ledger, w.next, Published(w, t, i, kept).ledger)
  {
    var w' := Published(w, t, i, kept);
    LeavingSlots(w, t, i, w'.slots[i], w'.ledger);
    PublishTxns(w, t, i, kept);
    PublishHistory(w, t, i, kept);
  }

  // Rollback under the latch: the slot is flipped, the status log does not know yet
  ghost function RolledBack(w: World, t: Xid, i: nat): World
    requires i < |w.slots|
  {
    World(w.slots[i := w.slots[i].(state := Aborted)], w.next, w.status, w.history, w.live - {t},
          w.ledger.(aborted := w.ledger.aborted[t := w.next]))
  }

  lemma RollbackKeeps(w: World, t: Xid, i: nat)
    requires Inv(w) && Finishes(w, t, i)
    ensures Inv(RolledBack(w, t, i)) && Later(w.ledger, w.next, RolledBack(w, t, i).ledger)
  {
    var w' := RolledBack(w, t, i);
    LeavingSlots(w, t, i, w'.slots[i], w'.ledger);
    forall x | x in w'.live ensures TxnOk(w'.live[x], x, w'.ledger) {
      assert TxnOk(w.live[x], x, w.ledger);
    }
  }

  // Tracking reads and writes touches nothing the invariant speaks of
  lemma TouchKeeps(w: World, t: Xid, txn: Transaction)
    requires Inv(w) && t in w.live
    requires txn.id == w.live[t].id && txn.snapshotId == w.live[t].snapshotId
    requires txn.activeSnapshot == w.live[t].activeSnapshot
    ensures Inv(w.(live := w.live[t := txn]))
  {
    var live' := w.live[t := txn];
    forall i | 0 <= i < |w.slots| ensures SlotOk(w.slots[i], live', w.ledger) {
      assert SlotOk(w.slots[i], w.live, w.ledger);
    }
    forall x | x in live' ensures HasSlot(w.slots, x) && TxnOk(live'[x], x, w.ledger) {
      assert HasSlot(w.slots, x) && TxnOk(w.live[x], x, w.ledger);
    }
  }
}
