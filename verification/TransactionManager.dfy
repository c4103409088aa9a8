/** The transaction manager: every method is one stretch of code under its latch, or one
    entry of the status log; what other threads do may come between any two of them. */
module TransactionManagers {
  import opened Mvcc
  import opened Options

  predicate Free(s: Slot) {
    s.txnId == INVALID || s.state != Active
  }

  // The first slot that nobody active holds
  ghost predicate FirstFree(slots: seq<Slot>, free: nat) {
    free < |slots| && Free(slots[free]) && forall k :: 0 <= k < free ==> !Free(slots[k])
  }

  lemma OneFirstFree(slots: seq<Slot>, i: nat, k: nat)
    requires FirstFree(slots, i) && FirstFree(slots, k)
    ensures i == k
  {
  }

  // What a beginning transaction does to the slots, when the first free one is known
  lemma FirstTaken(slots: seq<Slot>, slots': seq<Slot>, first: nat, id: Xid)
    requires FirstFree(slots, first)
    requires exists free: nat :: FirstFree(slots, free) && slots' == slots[free := Slot(id, id + 1, 0, Active)]
    ensures slots' == slots[first := Slot(id, id + 1, 0, Active)]
  {
    var free: nat :| FirstFree(slots, free) && slots' == slots[free := Slot(id, id + 1, 0, Active)];
    OneFirstFree(slots, free, first);
  }

  class TransactionManager {
    var slots: seq<Slot>
    var nextTxnId: nat
    var statusLog: StatusLog
    var history: seq<WriteSet>
    var defaultSerializable: bool

    // the transactions in flight, each owned by its own thread
    var live: Live

    ghost var ledger: Ledger

    ghost predicate Valid()
      reads this
    {
      Inv(Now())
    }

    ghost function Now(): World
      reads this
    {
      World(slots, nextTxnId, statusLog, history, live, ledger)
    }

    constructor (slotCount: nat)
      ensures Valid() && live == map[] && nextTxnId == 1 && history == [] && statusLog == map[] && !defaultSerializable
      ensures |slots| == (if slotCount == 0 then 1 else slotCount) && forall i :: 0 <= i < |slots| ==>
                slots[i].txnId == INVALID
      ensures ledger == Ledger({}, map[], map[], [])
    {
      var n := if slotCount == 0 then 1 else slotCount;
      slots := seq(n, _ => Slot(INVALID, 0, 0, Active));
      nextTxnId := 1;
      statusLog := map[];
      history := [];
      defaultSerializable := false;
      live := map[];
      ledger := Ledger({}, map[], map[], []);
    }

    // One pass over the slots: the first free one and everybody active
    method ScanSlots() returns (free: nat, active: seq<Xid>)
      ensures free <= |slots|
      ensures free < |slots| ==> FirstFree(slots, free)
      ensures free == |slots| ==> forall i :: 0 <= i < |slots| ==> !Free(slots[i])
      ensures forall x :: x in active <==> x != INVALID && HasSlot(slots, x)
    {
      free, active := |slots|, [];
      for i := 0 to |slots|
        invariant free <= |slots| && (free < |slots| ==> free < i && FirstFree(slots, free))
        invariant free == |slots| ==> forall k :: 0 <= k < i ==> !Free(slots[k])
        invariant forall x :: x in active <==>
                    x != INVALID && exists k :: 0 <= k < i && slots[k].txnId == x && slots[k].state == Active
      {
        if Free(slots[i]) {
          if free == |slots| { free := i; }
        } else {
          active := active + [slots[i].txnId];
        }
      }
    }

    method Begin() returns (r: Option<Xid>)
      requires Valid()
      modifies this`slots, this`nextTxnId, this`live, this`ledger
      ensures Valid() && Later(old(ledger), old(nextTxnId), ledger)
      ensures r.None? <==> forall i :: 0 <= i < |old(slots)| ==> !Free(old(slots)[i])
      ensures r.None? ==> Now() == old(Now())
      ensures r.Some? ==>
                && r.value == old(nextTxnId) && r.value !in old(live)
                && live.Keys == old(live).Keys + {r.value}
                && (forall x :: x in old(live) ==> live[x] == old(live)[x])
                && (forall x :: x in live[r.value].activeSnapshot <==> x in old(live))
                && live[r.value].serializable == defaultSerializable
                && live[r.value].readSet == [] && live[r.value].writeSet == []
                && nextTxnId == r.value + 1 && ledger == old(ledger).(begun := old(ledger).begun + {r.value})
      // the slot may still name a transaction whose abort is not logged yet
      ensures r.Some? ==>
                exists free: nat ::
                FirstFree(old(slots), free) && slots == old(slots)[free := Slot(r.value, r.value + 1, 0, Active)]
    {
      var free, active := ScanSlots();
      if free == |slots| { return None; }
      var id := nextTxnId;
      nextTxnId := nextTxnId + 1;
      var t := Transaction(id, nextTxnId, active, defaultSerializable, [], []);
      BeginKeeps(old(Now()), free, t);
      slots := slots[free := Slot(id, nextTxnId, 0, Active)];
      live := live[id := t];
      ledger := ledger.(begun := ledger.begun + {id});
      return Some(id);
    }

    method FindActiveSlot(t: Xid) returns (i: nat)
      requires Valid() && t in live
      ensures Finishes(Now(), t, i)
    {
      assert HasSlot(slots, t);
      i := 0;
      while slots[i].txnId != t || slots[i].state != Active
        invariant i < |slots|
        invariant exists k :: i <= k < |slots| && slots[k].txnId == t && slots[k].state == Active
        decreases |slots| - i
      {
        i := i + 1;
      }
    }

    method CheckConflict(t: Transaction) returns (conflict: bool)
      ensures conflict <==> Conflicts(history, t)
      ensures conflict <==>
                exists i, row :: 0 <= i < |history| && history[i].txn != t.id && history[i].commitId >= t.snapshotId &&
                                 row in history[i].writes && row in t.readSet
    {
      if |t.readSet| == 0 { return false; }
      for i := 0 to |history|
        invariant forall k :: 0 <= k < i ==> !(Concurrent(history[k], t) && Overlap(history[k].writes, t.readSet))
      {
        var e := history[i];
        if e.txn == t.id { continue; }
        if e.commitId < t.snapshotId { continue; }
        for w := 0 to |e.writes|
          invariant forall k :: 0 <= k < w ==> e.writes[k] !in t.readSet
        {
          if e.writes[w] in t.readSet { return true; }
        }
      }
      return false;
    }

    // Drop the entries no running transaction could still conflict with
    method Prune(full: seq<WriteSet>) returns (kept: seq<WriteSet>)
      ensures forall e :: e in kept <==> e in full && Needed(e, slots)
    {
      var oldest, anyActive := 0, false;
      for i := 0 to |slots|
        invariant anyActive <==> exists k :: 0 <= k < i && slots[k].txnId != INVALID && slots[k].state == Active
        invariant anyActive ==>
                    exists k ::
                    0 <= k < i && slots[k].txnId != INVALID && slots[k].state == Active && slots[k].snapshotId == oldest
        invariant forall k :: 0 <= k < i && slots[k].txnId != INVALID && slots[k].state == Active ==>
                    oldest <= slots[k].snapshotId
      {
        if slots[i].state == Active && slots[i].txnId != INVALID {
          if !anyActive || slots[i].snapshotId < oldest { oldest := slots[i].snapshotId; }
          anyActive := true;
        }
      }
      kept := [];
      if !anyActive { return; }
      for i := 0 to |full|
        invariant forall e :: e in kept <==> e in full[..i] && e.commitId >= oldest
      {
        if full[i].commitId >= oldest { kept := kept + [full[i]]; }
      }
      assert full[..|full|] == full;
    }

    // First half of a rollback, under the latch; the abort is logged later
    method FlipAborted(t: Xid)
      requires Valid() && t in live
      modifies this`slots, this`live, this`ledger
      ensures Valid() && Later(old(ledger), old(nextTxnId), ledger)
      ensures live == old(live) - {t}
      ensures ledger == old(ledger).(aborted := old(ledger).aborted[t := nextTxnId])
      ensures exists i: nat :: Finishes(old(Now()), t, i) && slots == old(slots)[i := old(slots)[i].(state := Aborted)]
      // no slot is given away by this
      ensures |slots| == |old(slots)| && forall k :: 0 <= k < |slots| ==> slots[k].txnId == old(slots)[k].txnId
    {
      var i := FindActiveSlot(t);
      RollbackKeeps(Now(), t, i);
      slots := slots[i := slots[i].(state := Aborted)];
      live := live - {t};
      ledger := ledger.(aborted := ledger.aborted[t := nextTxnId]);
    }

    // Second half, outside the latch; a lookup that starts from here on cannot forget the abort
    method LogAbort(t: Xid)
      requires Valid() && t in ledger.aborted
      modifies this`statusLog
      ensures Valid() && statusLog == old(statusLog)[t := FinalAborted]
      ensures forall w: World, r: Xid, x: Xid :: Forgotten(Now(), w, r, x) <==> old(Forgotten(Now(), w, r, x)) && x != t
    {
      statusLog := statusLog[t := FinalAborted];
    }

    // First step of a commit, under the latch; others may publish before this
    // transaction does
    method PassesCheck(t: Xid) returns (ok: bool)
      requires Valid() && t in live
      // refused exactly if it is serializable and has read what somebody has written who committed after it began
      ensures !ok <==>
                live[t].serializable &&
                exists e, row :: e in ledger.full && e.txn in ledger.committed && ledger.committed[e.txn] > t &&
                                 row in live[t].readSet && row in e.writes
    {
      if !live[t].serializable { return true; }
      var conflict := CheckConflict(live[t]);
      ConflictMeans(Now(), t);
      assert conflict <==> StaleRead(ledger, t, live[t].readSet);
      return !conflict;
    }

    // Next step, under the latch again, once the commit record is on the disk
    method Publish(t: Xid)
      requires Valid() && t in live
      modifies this`slots, this`live, this`ledger, this`nextTxnId, this`history
      ensures Valid() && Later(old(ledger), old(nextTxnId), ledger)
      ensures live == old(live) - {t}
      ensures nextTxnId == old(nextTxnId) + 1
      ensures exists i: nat ::
                Finishes(old(Now()), t, i) &&
                slots == old(slots)[i := old(slots)[i].(commitId := old(nextTxnId), state := Committed)]
      ensures ledger == old(ledger).(committed := old(ledger).committed[t := old(nextTxnId)],
                                     full := old(ledger).full + [WriteSet(old(nextTxnId), t, old(live)[t].writeSet)])
    {
      var i := FindActiveSlot(t);
      var commitId := nextTxnId;
      nextTxnId := nextTxnId + 1;
      slots := slots[i := slots[i].(commitId := commitId, state := Committed)];
      var entry := WriteSet(commitId, t, live[t].writeSet);
      var kept := Prune(history + [entry]);
      CommitKeeps(old(Now()), t, i, kept);
      history := kept;
      live := live - {t};
      ledger := ledger.(committed := ledger.committed[t := commitId], full := ledger.full + [entry]);
    }

    // The commit reaches the status log some time after it was published
    method LogCommit(t: Xid)
      requires Valid() && t in ledger.committed
      modifies this`statusLog
      ensures Valid() && statusLog == old(statusLog)[t := FinalCommitted]
    {
      statusLog := statusLog[t := FinalCommitted];
    }

    // Tracked for serializable transactions only, each row once
    method RecordRead(t: Xid, row: Row)
      requires Valid() && t in live
      modifies this`live
      ensures Valid() && live.Keys == old(live).Keys
      ensures forall x :: x in live && x != t ==> live[x] == old(live)[x]
      ensures live[t] == old(live)[t].(readSet := live[t].readSet)
      ensures live[t].readSet ==
              if !old(live)[t].serializable || row in old(live)[t].readSet then old(live)[t].readSet
              else old(live)[t].readSet + [row]
    {
      var txn := live[t];
      if !txn.serializable { return; }
      if row in txn.readSet { return; }
      TouchKeeps(Now(), t, txn.(readSet := txn.readSet + [row]));
      live := live[t := txn.(readSet := txn.readSet + [row])];
    }

    method RecordWrite(t: Xid, row: Row)
      requires Valid() && t in live
      modifies this`live
      ensures Valid() && live == old(live)[t := old(live)[t].(writeSet := old(live)[t].writeSet + [row])]
    {
      TouchKeeps(Now(), t, live[t].(writeSet := live[t].writeSet + [row]));
      live := live[t := live[t].(writeSet := live[t].writeSet + [row])];
    }
  }

  // A manager just started, and its first transaction
  method FirstBegin(slotCount: nat, serializable: bool) returns (m: TransactionManager)
    ensures fresh(m) && m.Valid() && m.live.Keys == {1} && m.nextTxnId == 2 && m.ledger == Ledger({1}, map[], map[], [])
    ensures m.statusLog == map[] && m.history == [] && m.defaultSerializable == serializable
    ensures m.live[1].serializable == serializable && m.live[1].readSet == [] && m.live[1].writeSet == []
    ensures |m.slots| >= 1 && |m.slots| >= slotCount && m.slots[0] == Slot(1, 2, 0, Active)
    ensures forall i :: 1 <= i < |m.slots| ==> m.slots[i].txnId == INVALID
  {
    m := new TransactionManager(slotCount);
    m.defaultSerializable := serializable;
    ghost var before := m.slots;
    var one := m.Begin();
    assert Free(before[0]);
    FirstTaken(before, m.slots, 0, 1);
  }

  method SecondBegin(slotCount: nat, serializable: bool) returns (m: TransactionManager)
    requires slotCount >= 2
    ensures fresh(m) && m.Valid() && m.live.Keys == {1, 2} && m.nextTxnId == 3
    ensures m.ledger == Ledger({1, 2}, map[], map[], [])
    ensures m.statusLog == map[] && m.history == []
    ensures forall t :: t in m.live ==>
              m.live[t].serializable == serializable && m.live[t].readSet == [] && m.live[t].writeSet == []
    ensures |m.slots| >= 2 && m.slots[0] == Slot(1, 2, 0, Active) && m.slots[1] == Slot(2, 3, 0, Active)
  {
    m := FirstBegin(slotCount, serializable);
    ghost var before := m.slots;
    assert Free(before[1]);
    var two := m.Begin();
    FirstTaken(before, m.slots, 1, 2);
  }

  // A check during which nobody else does anything
  ghost function Still(w: World): Moments {
    Moments(w, w, w, w)
  }

  lemma ForgottenMisread(w: World)
    requires Inv(w) && 2 in w.live && w.ledger.aborted == map[1 := 2] && w.ledger.committed == map[]
    requires w.status == map[]
    requires forall i :: 0 <= i < |w.slots| ==> w.slots[i].txnId != 1
    ensures Misread(Still(w), 2, 1, INVALID) && Visible(Still(w), 2, 1, INVALID)
    ensures !Sees(w.ledger, 2, 1, INVALID)
  {
    assert Forgotten(w, w, 2, 1);
    assert 1 in w.ledger.begun;
    VisibilityIsSnapshot(Still(w), 2, 1, INVALID);
  }

  lemma FlippedIsFirst(w: World, slots': seq<Slot>)
    requires |w.slots| >= 1 && w.slots[0].txnId == 1 && forall i :: 1 <= i < |w.slots| ==> w.slots[i].txnId == INVALID
    requires exists i: nat :: Finishes(w, 1, i) && slots' == w.slots[i := w.slots[i].(state := Aborted)]
    ensures FirstFree(slots', 0) && |slots'| == |w.slots| && forall i :: 1 <= i < |slots'| ==>
              slots'[i].txnId == INVALID
  {
  }

  // However many slots there are: the first transaction aborts, the second one begins
  // before that abort is logged and takes over its slot, and then sees its rows
  method AbortIsForgotten(slotCount: nat) returns (m: TransactionManager)
    ensures m.Valid() && 2 in m.live && 1 in m.ledger.aborted && Misread(Still(m.Now()), 2, 1, INVALID)
    ensures Visible(Still(m.Now()), 2, 1, INVALID) && !Sees(m.ledger, 2, 1, INVALID)
  {
    m := FirstBegin(slotCount, false);
    ghost var w := m.Now();
    m.FlipAborted(1);
    FlippedIsFirst(w, m.slots);
    ghost var before := m.slots;
    var two := m.Begin();
    FirstTaken(before, m.slots, 0, 2);
    ForgottenMisread(m.Now());
  }

  // Two transactions begin, and the first one sees a row the second one has just created
  method FrozenIdIsReused(slotCount: nat) returns (m: TransactionManager)
    requires slotCount >= 2
    ensures m.Valid() && m.live.Keys == {1, 2} && m.ledger.committed == map[]
    ensures Visible(Still(m.Now()), 1, FROZEN, INVALID) && !Sees(m.ledger, 1, FROZEN, INVALID)
  {
    m := SecondBegin(slotCount, false);
    FrozenRows(Still(m.Now()), 1, INVALID);
  }

  // Transaction 1 has committed, transaction 2 has aborted without having logged it yet
  // and still stands in slot 1, transaction 4 has begun in slot 0
  ghost predicate Overtakable(w: World) {
    && Inv(w) && w.live.Keys == {4} && w.status == map[]
    && w.ledger.begun == {1, 2, 4} && w.ledger.committed == map[1 := 3] && w.ledger.aborted == map[2 := 4]
    && |w.slots| >= 2 && w.slots[0] == Slot(4, 5, 0, Active) && w.slots[1].txnId == 2 && w.slots[1].state == Aborted
  }

  method OneCommitsTwoAborts(m: TransactionManager)
    requires m.Valid() && m.live.Keys == {1, 2} && m.nextTxnId == 3
    requires |m.slots| >= 2 && m.slots[0] == Slot(1, 2, 0, Active) && m.slots[1] == Slot(2, 3, 0, Active)
    modifies m`slots, m`live, m`ledger, m`nextTxnId, m`history
    ensures m.Valid() && m.live == map[] && m.nextTxnId == 4
    ensures m.slots == old(m.slots)[0 := Slot(1, 2, 3, Committed)][1 := Slot(2, 3, 0, Aborted)]
    ensures m.ledger ==
              old(m.ledger).(committed := old(m.ledger).committed[1 := 3], aborted := old(m.ledger).aborted[2 := 4],
                                       full := m.ledger.full)
  {
    m.Publish(1);
    assert m.slots == old(m.slots)[0 := Slot(1, 2, 3, Committed)];
    m.FlipAborted(2);
  }

  method BeforeOvertaking(slotCount: nat) returns (m: TransactionManager)
    requires slotCount >= 2
    ensures fresh(m) && m.Valid() && Overtakable(m.Now()) && m.nextTxnId == 5
  {
    m := SecondBegin(slotCount, false);
    OneCommitsTwoAborts(m);
    ghost var taken := m.slots;
    var four := m.Begin();
    FirstTaken(taken, m.slots, 0, 4);
  }

  lemma OvertakenMisread(w: World, w': World)
    requires Overtakable(w) && After(w, w') && 4 in w'.live
    requires 2 in w'.status && forall i :: 0 <= i < |w'.slots| ==> w'.slots[i].txnId != 2
    ensures var m := Moments(w, w, w, w'); Misread(m, 4, 1, 2) && !Visible(m, 4, 1, 2) && Sees(w'.ledger, 4, 1, 2)
    ensures !Misread(Still(w), 4, 1, 2) && !Misread(Still(w'), 4, 1, 2)
  {
    assert TxnOk(w.live[4], 4, w.ledger);
    assert Forgotten(w, w', 4, 2);
    VisibilityIsSnapshot(Moments(w, w, w, w'), 4, 1, 2);
    PastIsSettled(w, w', 4, 1);
    PastIsSettled(w, w', 4, 2);
  }

  method Overtake(m: TransactionManager)
    requires m.Valid() && Overtakable(m.Now()) && m.nextTxnId == 5
    modifies m
    ensures m.Valid() && After(old(m.Now()), m.Now()) && 4 in m.live && 2 in m.statusLog
    ensures forall i :: 0 <= i < |m.slots| ==> m.slots[i].txnId != 2
  {
    m.LogAbort(2);
    ghost var taken := m.slots;
    var five := m.Begin();
    FirstTaken(taken, m.slots, 1, 5);
  }

  // Transaction 4 asks the status log about the deleter 2 and learns nothing; the abort is
  // logged, transaction 5 takes over the slot, and then transaction 4 looks at the slots:
  // the aborted deletion counts, although the state before and the state after would both
  // have given the right answer
  method LookupIsOvertaken(slotCount: nat) returns (m: TransactionManager, ghost before: World)
    requires slotCount >= 2
    ensures m.Valid() && After(before, m.Now()) && 4 in before.live && 4 in m.live
    ensures !Visible(Moments(before, before, before, m.Now()), 4, 1, 2) && Sees(m.ledger, 4, 1, 2)
    ensures !Misread(Still(before), 4, 1, 2) && !Misread(Still(m.Now()), 4, 1, 2)
  {
    m := BeforeOvertaking(slotCount);
    before := m.Now();
    Overtake(m);
    OvertakenMisread(before, m.Now());
  }

  method Touch(m: TransactionManager, t: Xid, read: Row, written: Row)
    requires m.Valid() && t in m.live && m.live[t].serializable && m.live[t].readSet == [] && m.live[t].writeSet == []
    modifies m`live
    ensures m.Valid() && m.live.Keys == old(m.live).Keys
    ensures forall x :: x in m.live && x != t ==> m.live[x] == old(m.live)[x]
    ensures m.live[t].serializable && m.live[t].writeSet == [written] && forall r :: r in m.live[t].readSet <==>
              r == read
  {
    m.RecordRead(t, read);
    m.RecordWrite(t, written);
  }

  // Two serializable transactions under way, each having read what the other wrote
  method Crossing(slotCount: nat, a: Row, b: Row) returns (m: TransactionManager)
    requires slotCount >= 2
    ensures fresh(m) && m.Valid() && m.live.Keys == {1, 2} && m.nextTxnId == 3 && m.history == [] && m.ledger.full == []
    ensures m.live[1].serializable && m.live[1].writeSet == [b] && forall r :: r in m.live[1].readSet <==> r == a
    ensures m.live[2].serializable && m.live[2].writeSet == [a] && forall r :: r in m.live[2].readSet <==> r == b
  {
    m := SecondBegin(slotCount, true);
    Touch(m, 1, a, b);
    Touch(m, 2, b, a);
  }

  // Publishing one after the other, with nothing in between
  method PublishBoth(m: TransactionManager)
    requires m.Valid() && m.live.Keys == {1, 2} && m.nextTxnId == 3 && m.ledger.full == []
    modifies m
    ensures m.Valid()
    ensures m.ledger.full == [WriteSet(3, 1, old(m.live)[1].writeSet), WriteSet(4, 2, old(m.live)[2].writeSet)]
  {
    m.Publish(1);
    m.Publish(2);
  }

  // Both pass the check before either is published, and both commit: each has read a row
  // the other one wrote
  method BothPass(slotCount: nat, a: Row, b: Row) returns (m: TransactionManager, one: Transaction, two: Transaction)
    requires slotCount >= 2
    ensures m.Valid() && m.ledger.full == [WriteSet(3, one.id, [b]), WriteSet(4, two.id, [a])]
    ensures one.serializable && a in one.readSet && two.serializable && b in two.readSet
  {
    m := Crossing(slotCount, a, b);
    one, two := m.live[1], m.live[2];
    assert TxnOk(one, 1, m.ledger) && TxnOk(two, 2, m.ledger);
    var pass1 := m.PassesCheck(1);
    var pass2 := m.PassesCheck(2);
    assert pass1 && pass2;
    PublishBoth(m);
  }
}
