/** The lock manager. Each method is one stretch of code run under the latch; a
    call that has to wait gives up the latch between two of them. */
module LockManagers {
  import opened WaitGraph
  import opened LockQueues
  import opened LockTables
  import opened LockSteps

  datatype Outcome = Granted | Conflict | Waiting

  type Queues = map<nat, Queue>

  type Notes = map<Txn, seq<nat>>

  // Everything the manager keeps
  datatype Locks = Locks(tables: Queues, records: Queues, txnLocks: Notes, txnRecordLocks: Notes, blocked: Calls)

  // The transaction has a request on the object, granted or not
  ghost predicate Stands(qs: Queues, k: nat, x: Txn) {
    k in qs && !Absent(qs[k], x)
  }

  ghost predicate SameStands(qs: Queues, qs': Queues, x: Txn) {
    forall k {:trigger Stands(qs, k, x)} {:trigger Stands(qs', k, x)} :: Stands(qs, k, x) <==> Stands(qs', k, x)
  }

  ghost predicate SameNotes(n: Notes, n': Notes, x: Txn) {
    (x in n <==> x in n') && (x in n ==> n[x] == n'[x])
  }

  // A step that is none of x's business: its requests and notes are as before, and it waits if it did
  ghost predicate Untouched(s: Locks, s': Locks, x: Txn) {
    && SameStands(s.tables, s'.tables, x) && SameStands(s.records, s'.records, x)
    && SameNotes(s.txnLocks, s'.txnLocks, x) && SameNotes(s.txnRecordLocks, s'.txnRecordLocks, x)
    && (x in s.blocked <==> x in s'.blocked)
  }

  // What a step of transaction y leaves to everybody else
  ghost predicate OnlyFor(s: Locks, s': Locks, y: Txn) {
    forall x {:trigger Untouched(s, s', x)} :: x != y ==> Untouched(s, s', x)
  }

  lemma UntouchedTwice(r: Locks, s: Locks, t: Locks, x: Txn)
    requires Untouched(r, s, x) && Untouched(s, t, x)
    ensures Untouched(r, t, x)
  {
  }

  lemma {:induction false} GrantKeepsTxns(q: Queue, i: nat, x: Txn)
    requires i <= |q|
    ensures Absent(GrantFrom(q, i), x) <==> Absent(q, x)
    decreases |q| - i
  {
    if i < |q| {
      var q' := q[i := q[i].(granted := true)];
      if !q[i].granted && CanGrant(q, q[i].txn, q[i].mode) {
        GrantKeepsTxns(q', i + 1, x);
        assert forall k :: 0 <= k < |q| ==> q'[k].txn == q[k].txn;
        assert Absent(q', x) <==> Absent(q, x);
      } else {
        GrantKeepsTxns(q, i + 1, x);
      }
    }
  }

  lemma AbsentCons(r: Request, q: Queue, x: Txn)
    ensures Absent([r] + q, x) <==> r.txn != x && Absent(q, x)
  {
    var rq := [r] + q;
    if Absent(rq, x) {
      assert rq[0] == r;
      assert forall i :: 0 <= i < |q| ==> q[i] == rq[i + 1];
    }
  }

  lemma {:induction false} WithoutOther(q: Queue, y: Txn, x: Txn)
    requires x != y
    ensures Absent(Without(q, y), x) <==> Absent(q, x)
  {
    if q != [] {
      WithoutOther(q[1..], y, x);
      assert q == [q[0]] + q[1..];
      AbsentCons(q[0], q[1..], x);
      AbsentCons(q[0], Without(q[1..], y), x);
    }
  }

  // Everybody but y stands in the one queue as in the other
  ghost predicate QueueFor(q: Queue, q': Queue, y: Txn) {
    forall x {:trigger Absent(q, x)} {:trigger Absent(q', x)} :: x != y ==> (Absent(q, x) <==> Absent(q', x))
  }

  lemma AppendedFor(q: Queue, r: Request)
    ensures QueueFor(q, q + [r], r.txn)
  {
    var q' := q + [r];
    forall x | x != r.txn ensures Absent(q, x) <==> Absent(q', x) {
      assert forall i :: 0 <= i < |q| ==> q'[i] == q[i];
    }
  }

  lemma UpgradedFor(q: Queue, i: nat, mode: Mode)
    requires i < |q|
    ensures QueueFor(q, q[i := q[i].(mode := mode)], q[i].txn)
  {
    var q' := q[i := q[i].(mode := mode)];
    forall x | x != q[i].txn ensures Absent(q, x) <==> Absent(q', x) {
      assert forall k :: 0 <= k < |q| ==> q'[k].txn == q[k].txn;
    }
  }

  lemma WithdrawnFor(q: Queue, y: Txn)
    ensures QueueFor(q, Without(q, y), y) && QueueFor(q, GrantFrom(Without(q, y), 0), y)
  {
    forall x | x != y
      ensures (Absent(q, x) <==> Absent(Without(q, y), x)) && (Absent(q, x) <==> Absent(GrantFrom(Without(q, y), 0), x))
    {
      WithoutOther(q, y, x);
      GrantKeepsTxns(Without(q, y), 0, x);
    }
  }

  ghost predicate NotesFor(n: Notes, n': Notes, y: Txn) {
    forall x {:trigger SameNotes(n, n', x)} :: x != y ==> SameNotes(n, n', x)
  }

  ghost predicate BlockedFor(b: Calls, b': Calls, y: Txn) {
    forall x :: x != y ==> (x in b <==> x in b')
  }

  function QueueAt(qs: Queues, k: nat): Queue {
    if k in qs then qs[k] else []
  }

  ghost predicate OthersSame(a: Queues, b: Queues, k: nat) {
    forall u :: u != k ==> (u in a <==> u in b) && (u in a ==> a[u] == b[u])
  }

  // unlock_table: no request left on that table, everything else of the transaction as it was
  ghost predicate TableReleased(s: Locks, s': Locks, t: nat, txn: Txn) {
    && (forall k {:trigger Stands(s'.tables, k, txn)} :: Stands(s'.tables, k, txn) <==>
          Stands(s.tables, k, txn) && k != t)
    && SameStands(s.records, s'.records, txn) && SameNotes(s.txnRecordLocks, s'.txnRecordLocks, txn)
  }

  // The last section of unlock_all
  ghost predicate RecordsReleased(s: Locks, s': Locks, txn: Txn) {
    && s'.tables == s.tables
    && (forall k {:trigger Stands(s'.records, k, txn)} ::
          Stands(s'.records, k, txn) <==> Stands(s.records, k, txn) && !Noted(s.txnRecordLocks, txn, k))
  }

  ghost predicate Noted(n: Notes, txn: Txn, k: nat) {
    txn in n && k in n[txn]
  }

  ghost predicate HoldsNothing(s: Locks, txn: Txn) {
    && (forall t {:trigger Stands(s.tables, t, txn)} :: !Stands(s.tables, t, txn))
    && (forall k {:trigger Stands(s.records, k, txn)} :: !Stands(s.records, k, txn))
  }

  // Where the transaction stands, it is noted
  ghost predicate AllNoted(s: Locks, txn: Txn) {
    && (forall t {:trigger Stands(s.tables, t, txn)} :: Stands(s.tables, t, txn) ==> Noted(s.txnLocks, txn, t))
    && (forall k {:trigger Stands(s.records, k, txn)} :: Stands(s.records, k, txn) ==> Noted(s.txnRecordLocks, txn, k))
  }

  lemma OnlyForTwice(r: Locks, s: Locks, t: Locks, y: Txn)
    requires OnlyFor(r, s, y) && OnlyFor(s, t, y)
    ensures OnlyFor(r, t, y)
  {
    forall x | x != y ensures Untouched(r, t, x) {
      assert Untouched(r, s, x) && Untouched(s, t, x);
      UntouchedTwice(r, s, t, x);
    }
  }

  lemma NotesDropped(r: Locks, s: Locks, t: Locks, y: Txn)
    requires OnlyFor(r, s.(txnRecordLocks := r.txnRecordLocks), y) && s.txnRecordLocks == r.txnRecordLocks - {y}
    requires t == s.(txnLocks := s.txnLocks - {y})
    ensures OnlyFor(r, t, y)
  {
    forall x | x != y ensures Untouched(r, t, x) {
      assert Untouched(r, s.(txnRecordLocks := r.txnRecordLocks), x);
    }
  }

  // First the tables noted, then the records noted
  lemma NothingHeld(r: Locks, s: Locks, t: Locks, txn: Txn)
    requires txn in r.txnLocks && RecordsReleased(s, t, txn)
    requires forall k {:trigger Stands(s.tables, k, txn)} :: Stands(s.tables, k, txn) <==>
               Stands(r.tables, k, txn) && k !in r.txnLocks[txn]
    requires SameStands(r.records, s.records, txn) && SameNotes(r.txnRecordLocks, s.txnRecordLocks, txn)
    ensures HoldsNothing(t, txn) <==> AllNoted(r, txn)
  {
    if HoldsNothing(t, txn) {
      forall k | Stands(r.tables, k, txn) ensures Noted(r.txnLocks, txn, k) { assert !Stands(t.tables, k, txn); }
      forall k | Stands(r.records, k, txn) ensures Noted(r.txnRecordLocks, txn, k) {
        assert Stands(s.records, k, txn);
        assert !Stands(t.records, k, txn);
      }
    }
    if AllNoted(r, txn) {
      forall k ensures !Stands(t.tables, k, txn) { assert Stands(s.tables, k, txn) == Stands(t.tables, k, txn); }
      forall k ensures !Stands(t.records, k, txn) { assert Stands(s.records, k, txn) <==> Stands(r.records, k, txn); }
    }
  }

  // One queue has changed, for y only
  lemma QueueStep(qs: Queues, qs': Queues, k: nat, y: Txn)
    requires k in qs' && OthersSame(qs, qs', k) && QueueFor(QueueAt(qs, k), qs'[k], y)
    ensures forall x {:trigger SameStands(qs, qs', x)} :: x != y ==> SameStands(qs, qs', x)
  {
    forall x | x != y ensures SameStands(qs, qs', x) {
      assert Absent(QueueAt(qs, k), x) <==> Absent(qs'[k], x);
    }
  }

  lemma TableStep(s: Locks, s': Locks, k: nat, y: Txn)
    requires k in s'.tables && OthersSame(s.tables, s'.tables, k) && QueueFor(QueueAt(s.tables, k), s'.tables[k], y)
    requires s'.records == s.records && s'.txnRecordLocks == s.txnRecordLocks
    requires NotesFor(s.txnLocks, s'.txnLocks, y) && BlockedFor(s.blocked, s'.blocked, y)
    ensures OnlyFor(s, s', y)
  {
    QueueStep(s.tables, s'.tables, k, y);
    forall x | x != y ensures Untouched(s, s', x) {
      assert SameStands(s.tables, s'.tables, x) && SameNotes(s.txnLocks, s'.txnLocks, x);
    }
  }

  lemma RecordStep(s: Locks, s': Locks, k: nat, y: Txn)
    requires k in s'.records && OthersSame(s.records, s'.records, k)
    requires QueueFor(QueueAt(s.records, k), s'.records[k], y)
    requires s'.tables == s.tables && s'.txnLocks == s.txnLocks
    requires NotesFor(s.txnRecordLocks, s'.txnRecordLocks, y) && BlockedFor(s.blocked, s'.blocked, y)
    ensures OnlyFor(s, s', y)
  {
    QueueStep(s.records, s'.records, k, y);
    forall x | x != y ensures Untouched(s, s', x) {
      assert SameStands(s.records, s'.records, x) && SameNotes(s.txnRecordLocks, s'.txnRecordLocks, x);
    }
  }

  class LockManager {
    var tables: Tables
    var txnLocks: map<Txn, seq<Table>>
    var records: Records
    var txnRecordLocks: map<Txn, seq<RecordKey>>

    // the calls that have given up the latch and not returned yet
    ghost var blocked: Calls

    ghost predicate Valid()
      reads this
    {
      Inv(tables, records, blocked)
    }

    ghost function Now(): Locks
      reads this
    {
      Locks(tables, records, txnLocks, txnRecordLocks, blocked)
    }

    constructor ()
      ensures Valid() && Now() == Locks(map[], map[], map[], map[], map[])
    {
      tables := map[];
      txnLocks := map[];
      records := map[];
      txnRecordLocks := map[];
      blocked := map[];
      new;
      assert Edges(tables) == {};
      NoEdges();
    }

    // -------------------------------------------------------------------------
    // Deadlock detection
    // -------------------------------------------------------------------------

    // Everybody the given transaction waits for
    method FindHolders(waiter: Txn) returns (holders: seq<Txn>)
      ensures forall h :: h in holders <==> (waiter, h) in Edges(tables)
    {
      holders := [];
      var todo := tables.Keys;
      while todo != {}
        invariant todo <= tables.Keys
        invariant forall h :: h in holders <==>
                    exists t :: t in tables && t !in todo && (waiter, h) in QueueEdges(tables[t])
        decreases todo
      {
        var t :| t in todo;
        var here := HoldersIn(tables[t], waiter);
        holders := holders + here;
        todo := todo - {t};
      }
    }

    static method HoldersIn(q: Queue, waiter: Txn) returns (holders: seq<Txn>)
      ensures forall h :: h in holders <==> (waiter, h) in QueueEdges(q)
    {
      holders := [];
      for i := 0 to |q|
        invariant forall h :: h in holders <==>
          exists x, y :: 0 <= x < i && 0 <= y < |q| && WaitsOn(q, x, y) && q[x].txn == waiter && q[y].txn == h
      {
        if !q[i].granted && q[i].txn == waiter {
          ghost var before := holders;
          for j := 0 to |q|
            invariant forall h :: h in holders <==>
              h in before || exists y :: 0 <= y < j && WaitsOn(q, i, y) && q[y].txn == h
          {
            if q[j].granted && !Compatible(q[j].mode, q[i].mode) {
              holders := holders + [q[j].txn];
            }
          }
        }
      }
    }

    // Depth-first search along wait-for edges: does the transaction wait for itself?
    method DetectDeadlock(txn: Txn) returns (cycle: bool)
      ensures cycle <==> Leads(Edges(tables), txn, txn)
    {
      ghost var g := Edges(tables);
      var seen, stack := {}, [txn];
      while |stack| > 0
        invariant forall x :: x in seen || x in stack ==> x == txn || Leads(g, txn, x)
        invariant txn in seen || txn in stack
        invariant forall a, b :: a in seen && (a, b) in g ==> b != txn && (b in seen || b in stack)
        invariant seen <= Nodes(g, txn) && forall x :: x in stack ==> x in Nodes(g, txn)
        decreases Nodes(g, txn) - seen, |stack|
      {
        var current := stack[|stack| - 1];
        assert stack == stack[..|stack| - 1] + [current];
        stack := stack[..|stack| - 1];
        if current in seen { continue; }
        seen := seen + {current};
        var holders := FindHolders(current);
        var found;
        found, stack := PushNew(holders, txn, seen, stack);
        forall h | h in holders ensures Leads(g, txn, h) && h in Nodes(g, txn) {
          LeadsEdge(g, current, h);
          if current != txn { LeadsThen(g, txn, current, h); }
        }
        if found { return true; }
      }
      NoWayBack(g, txn, seen);
      return false;
    }

    // Push the holders not seen yet, unless one of them is the searching transaction
    static method PushNew(holders: seq<Txn>, txn: Txn, seen: set<Txn>, stack: seq<Txn>)
      returns (found: bool, stack': seq<Txn>)
      ensures found <==> txn in holders
      ensures forall x :: x in stack' ==> x in stack || x in holders
      ensures !found ==> forall x :: x in stack || (x in holders && x !in seen) ==> x in stack'
    {
      stack' := stack;
      for i := 0 to |holders|
        invariant txn !in holders[..i]
        invariant forall x :: x in stack' ==> x in stack || x in holders
        invariant forall x :: x in stack || (x in holders[..i] && x !in seen) ==> x in stack'
      {
        assert holders[..i + 1] == holders[..i] + [holders[i]];
        if holders[i] == txn { return true, stack'; }
        if holders[i] !in seen { stack' := stack' + [holders[i]]; }
      }
      assert holders[..|holders|] == holders;
      found := false;
    }

    // -------------------------------------------------------------------------
    // Queue operations
    // -------------------------------------------------------------------------

    static method GrantPending(q: Queue) returns (r: Queue)
      ensures r == GrantFrom(q, 0)
    {
      r := q;
      var i := 0;
      while i < |r|
        invariant |r| == |q| && i <= |r| && GrantFrom(r, i) == GrantFrom(q, 0)
      {
        if !r[i].granted && CanGrant(r, r[i].txn, r[i].mode) {
          r := r[i := r[i].(granted := true)];
        }
        i := i + 1;
      }
    }

    static method IsGranted(q: Queue, txn: Txn, mode: Mode) returns (yes: bool)
      ensures yes <==> Request(txn, mode, true) in q
    {
      var i := 0;
      while i < |q|
        invariant i <= |q| && Request(txn, mode, true) !in q[..i]
      {
        if q[i].txn == txn && q[i].mode == mode && q[i].granted { return true; }
        i := i + 1;
      }
      return false;
    }

    // Take the transaction's own waiting request out of the queue
    static method RemoveWaiting(q: Queue, txn: Txn, mode: Mode) returns (r: Queue)
      requires OneEach(q)
      ensures r == if Request(txn, mode, false) in q then Without(q, txn) else q
    {
      var i := 0;
      while i < |q|
        invariant i <= |q| && Request(txn, mode, false) !in q[..i]
      {
        if q[i].txn == txn && q[i].mode == mode && !q[i].granted {
          RemovedOne(q, i);
          return q[..i] + q[i + 1..];
        }
        i := i + 1;
      }
      return q;
    }

    static method RemoveAll(q: Queue, txn: Txn) returns (r: Queue)
      ensures r == Without(q, txn)
    {
      r := [];
      for i := 0 to |q|
        invariant r == Without(q[..i], txn)
      {
        assert q[..i + 1] == q[..i] + [q[i]];
        WithoutAppend(q[..i], [q[i]], txn);
        if q[i].txn != txn { r := r + [q[i]]; }
      }
      assert q[..|q|] == q;
    }

    // -------------------------------------------------------------------------
    // lock_table
    // -------------------------------------------------------------------------

    method NoteTable(txn: Txn, table: Table)
      modifies this`txnLocks
      ensures txn in txnLocks && table in txnLocks[txn]
      ensures txnLocks == old(txnLocks)[txn := txnLocks[txn]]
    {
      if txn !in txnLocks { txnLocks := txnLocks[txn := []]; }
      if table !in txnLocks[txn] {
        txnLocks := txnLocks[txn := txnLocks[txn] + [table]];
      }
    }

    // The first latch section of lock_table
    method RequestTable(txn: Txn, table: Table, mode: Mode) returns (r: Outcome)
      requires Valid() && txn !in blocked
      modifies this`tables, this`blocked, this`txnLocks
      ensures Valid() && table in tables && OthersSame(old(tables), tables, table)
      ensures var q := QueueAt(old(tables), table);
              if i :| 0 <= i < |q| && q[i].txn == txn then
                && blocked == old(blocked)
                && q[i].granted
                && (if Strength(q[i].mode) >= Strength(mode) then r == Granted && tables[table] == q
                    else if forall j :: 0 <= j < |q| && j != i && q[j].granted ==> Compatible(q[j].mode, mode)
                      then r == Granted && tables[table] == q[i := q[i].(mode := mode)]
                    else r == Conflict && tables[table] == q)
              else if CanGrant(q, txn, mode) then
                && r == Granted && blocked == old(blocked)
                && tables[table] == q + [Request(txn, mode, true)]
                && txn in txnLocks && table in txnLocks[txn]
              else if Leads(Edges(old(tables)[table := q + [Request(txn, mode, false)]]), txn, txn) then
                r == Conflict && blocked == old(blocked) && tables[table] == q
              else
                && r == Waiting && blocked == old(blocked)[txn := TableCall(table, mode)]
                && tables[table] == q + [Request(txn, mode, false)]
      ensures OnlyFor(old(Now()), Now(), txn)
    {
      if table !in tables {
        NewTable(tables, records, blocked, table);
        tables := tables[table := []];
      }
      var q := tables[table];
      assert QueueOk(q) && TableOwned(q, table, blocked);
      var i := 0;
      while i < |q|
        invariant i <= |q| && forall k :: 0 <= k < i ==> q[k].txn != txn
      {
        if q[i].txn == txn && q[i].granted {
          if Strength(q[i].mode) >= Strength(mode) { return Granted; }
          if forall j :: 0 <= j < |q| && j != i && q[j].granted ==> Compatible(q[j].mode, mode) {
            UpgradeInPlace(tables, records, blocked, table, i, mode);
            tables := tables[table := q[i := q[i].(mode := mode)]];
            UpgradedFor(q, i, mode);
            TableStep(old(Now()), Now(), table, txn);
            return Granted;
          }
          return Conflict;
        }
        i := i + 1;
      }
      r := RequestNew(txn, table, mode);
      AppendedFor(q, Request(txn, mode, true));
      AppendedFor(q, Request(txn, mode, false));
      TableStep(old(Now()), Now(), table, txn);
    }

    // A request of a transaction that has none on the table yet
    method RequestNew(txn: Txn, table: Table, mode: Mode) returns (r: Outcome)
      requires Valid() && txn !in blocked && table in tables && Absent(tables[table], txn)
      modifies this`tables, this`blocked, this`txnLocks
      ensures Valid() && table in tables && OthersSame(old(tables), tables, table)
      ensures var q := old(tables)[table];
              if CanGrant(q, txn, mode) then
                && r == Granted && blocked == old(blocked)
                && tables[table] == q + [Request(txn, mode, true)]
                && txn in txnLocks && table in txnLocks[txn]
              else if Leads(Edges(old(tables)[table := q + [Request(txn, mode, false)]]), txn, txn) then
                r == Conflict && blocked == old(blocked) && tables[table] == q
              else
                && r == Waiting && blocked == old(blocked)[txn := TableCall(table, mode)]
                && tables[table] == q + [Request(txn, mode, false)]
      ensures NotesFor(old(txnLocks), txnLocks, txn)
    {
      var q := tables[table];
      ghost var tables0 := tables;
      assert QueueOk(q);
      var req := Request(txn, mode, false);
      PassAppended(q, 0, req);
      AppendedOk(q, req.(granted := CanGrant(q, txn, mode)));
      var q' := GrantPending(q + [req]);
      tables := tables[table := q'];
      var granted := IsGranted(q', txn, mode);
      assert q'[|q|].txn == txn;
      if granted {
        GrantAtOnce(tables0, records, blocked, table, txn, mode);
        NoteTable(txn, table);
        return Granted;
      }
      var cycle := DetectDeadlock(txn);
      if cycle {
        var back := RemoveWaiting(q', txn, mode);
        AbsentWithout(q, req);
        tables := tables[table := back];
        assert tables == tables0;
        return Conflict;
      }
      StartWaiting(tables0, records, blocked, table, txn, mode);
      blocked := blocked[txn := TableCall(table, mode)];
      return Waiting;
    }

    // A later latch section of a waiting lock_table call, after a wake-up
    method WakeTable(txn: Txn, table: Table, mode: Mode) returns (r: Outcome)
      requires Valid() && txn in blocked && blocked[txn] == TableCall(table, mode)
      modifies this`tables, this`blocked, this`txnLocks
      ensures Valid() && tables == old(tables) && table in tables
      ensures if Request(txn, mode, true) in tables[table] then
                && r == Granted && blocked == old(blocked) - {txn}
                && txn in txnLocks && table in txnLocks[txn]
              else r == Waiting && blocked == old(blocked) && txnLocks == old(txnLocks)
      ensures OnlyFor(old(Now()), Now(), txn)
    {
      assert Queued(txn, blocked[txn], tables, records);
      assert QueueOk(tables[table]);
      PassIdle(tables[table], 0);
      var q := GrantPending(tables[table]);
      tables := tables[table := q];
      assert tables == old(tables);
      var granted := IsGranted(q, txn, mode);
      if granted {
        ghost var i :| 0 <= i < |q| && q[i] == Request(txn, mode, true);
        CallReturns(tables, records, blocked, table, i, txn);
        blocked := blocked - {txn};
        NoteTable(txn, table);
        return Granted;
      }
      var cycle := DetectDeadlock(txn);
      assert !cycle;
      return Waiting;
    }

    // The wait timed out. A request granted in the meantime stays granted, although
    // the caller is told of a conflict and the table is not noted for the transaction
    method TimeoutTable(txn: Txn, table: Table, mode: Mode)
      requires Valid() && txn in blocked && blocked[txn] == TableCall(table, mode)
      modifies this`tables, this`blocked
      ensures Valid() && blocked == old(blocked) - {txn} && table in old(tables)
      ensures tables == if Request(txn, mode, true) in old(tables)[table] then old(tables)
                        else old(tables)[table := Without(old(tables)[table], txn)]
      ensures OnlyFor(old(Now()), Now(), txn)
    {
      assert Queued(txn, blocked[txn], tables, records);
      var q := tables[table];
      assert QueueOk(q) && TableOwned(q, table, blocked);
      ghost var i :| 0 <= i < |q| && q[i].txn == txn && q[i].mode == mode;
      var q' := RemoveWaiting(q, txn, mode);
      if q[i].granted {
        CallReturns(tables, records, blocked, table, i, txn);
        assert tables[table := q'] == tables;
        assert q[i] == Request(txn, mode, true);
      } else {
        assert q[i] == Request(txn, mode, false);
        GiveUp(tables, records, blocked, table, txn, mode);
      }
      tables := tables[table := q'];
      blocked := blocked - {txn};
      WithdrawnFor(q, txn);
      TableStep(old(Now()), Now(), table, txn);
    }

    method UnlockTable(txn: Txn, table: Table)
      requires Valid() && txn !in blocked
      modifies this`tables, this`txnLocks
      ensures Valid()
      ensures tables == if table in old(tables)
                        then old(tables)[table := GrantFrom(Without(old(tables)[table], txn), 0)]
                        else old(tables)
      ensures table in tables ==> Absent(tables[table], txn)
      ensures txnLocks.Keys == old(txnLocks).Keys
      ensures forall x :: x in txnLocks && x != txn ==> txnLocks[x] == old(txnLocks)[x]
      ensures txn in txnLocks && table in tables ==>
                forall t :: t in txnLocks[txn] <==> t in old(txnLocks)[txn] && t != table
      ensures TableReleased(old(Now()), Now(), table, txn)
      ensures OnlyFor(old(Now()), Now(), txn)
    {
      if table !in tables { return; }
      Release(tables, records, blocked, table, txn);
      var remaining := RemoveAll(tables[table], txn);
      var q := GrantPending(remaining);
      tables := tables[table := q];
      if txn in txnLocks {
        var held, ids := txnLocks[txn], [];
        for i := 0 to |held|
          invariant forall t :: t in ids <==> t in held[..i] && t != table
        {
          if held[i] != table { ids := ids + [held[i]]; }
        }
        txnLocks := txnLocks[txn := ids];
      }
      WithdrawnFor(old(tables)[table], txn);
      TableStep(old(Now()), Now(), table, txn);
    }

    // -------------------------------------------------------------------------
    // Record locks
    // -------------------------------------------------------------------------

    method NoteRecord(txn: Txn, key: RecordKey)
      modifies this`txnRecordLocks
      ensures txn in txnRecordLocks && key in txnRecordLocks[txn]
      ensures txnRecordLocks == old(txnRecordLocks)[txn := txnRecordLocks[txn]]
    {
      if txn !in txnRecordLocks { txnRecordLocks := txnRecordLocks[txn := []]; }
      if key !in txnRecordLocks[txn] {
        txnRecordLocks := txnRecordLocks[txn := txnRecordLocks[txn] + [key]];
      }
    }

    // The first latch section of lock_record: no upgrade, no wait-for search
    method RequestRecord(txn: Txn, key: RecordKey, mode: Mode) returns (r: Outcome)
      requires Valid() && txn !in blocked
      modifies this`records, this`blocked, this`txnRecordLocks
      ensures Valid() && key in records
      ensures OthersSame(old(records), records, key)
      ensures var q := QueueAt(old(records), key);
              if i :| 0 <= i < |q| && q[i].txn == txn then
                && blocked == old(blocked) && records[key] == q
                && r == (if Strength(q[i].mode) >= Strength(mode) then Granted else Conflict)
              else if CanGrant(q, txn, mode) then
                && r == Granted && blocked == old(blocked)
                && records[key] == q + [Request(txn, mode, true)]
                && txn in txnRecordLocks && key in txnRecordLocks[txn]
              else
                && r == Waiting && blocked == old(blocked)[txn := RecordCall(key, mode)]
                && records[key] == q + [Request(txn, mode, false)] && txnRecordLocks == old(txnRecordLocks)
      ensures OnlyFor(old(Now()), Now(), txn)
    {
      if key !in records {
        NewRecord(tables, records, blocked, key);
        records := records[key := []];
      }
      var q := records[key];
      assert QueueOk(q) && RecordOwned(q, key, blocked);
      var i := 0;
      while i < |q|
        invariant i <= |q| && forall k :: 0 <= k < i ==> q[k].txn != txn
      {
        if q[i].txn == txn && q[i].granted {
          if Strength(q[i].mode) >= Strength(mode) { return Granted; }
          return Conflict;
        }
        i := i + 1;
      }
      var req := Request(txn, mode, false);
      PassAppended(q, 0, req);
      RecordRequested(tables, records, blocked, key, txn, mode);
      var q' := GrantPending(q + [req]);
      records := records[key := q'];
      var granted := IsGranted(q', txn, mode);
      assert q'[|q|].txn == txn;
      AppendedFor(q, Request(txn, mode, granted));
      if granted {
        NoteRecord(txn, key);
        RecordStep(old(Now()), Now(), key, txn);
        return Granted;
      }
      blocked := blocked[txn := RecordCall(key, mode)];
      RecordStep(old(Now()), Now(), key, txn);
      return Waiting;
    }

    method WakeRecord(txn: Txn, key: RecordKey, mode: Mode) returns (r: Outcome)
      requires Valid() && txn in blocked && blocked[txn] == RecordCall(key, mode)
      modifies this`records, this`blocked, this`txnRecordLocks
      ensures Valid() && records == old(records) && key in records
      ensures if Request(txn, mode, true) in records[key] then
                && r == Granted && blocked == old(blocked) - {txn}
                && txn in txnRecordLocks && key in txnRecordLocks[txn]
              else r == Waiting && blocked == old(blocked) && txnRecordLocks == old(txnRecordLocks)
      ensures OnlyFor(old(Now()), Now(), txn)
    {
      assert Queued(txn, blocked[txn], tables, records);
      assert QueueOk(records[key]);
      PassIdle(records[key], 0);
      var q := GrantPending(records[key]);
      records := records[key := q];
      assert records == old(records);
      var granted := IsGranted(q, txn, mode);
      if granted {
        ghost var i :| 0 <= i < |q| && q[i] == Request(txn, mode, true);
        RecordCallReturns(tables, records, blocked, key, i, txn);
        blocked := blocked - {txn};
        NoteRecord(txn, key);
        return Granted;
      }
      return Waiting;
    }

    method TimeoutRecord(txn: Txn, key: RecordKey, mode: Mode)
      requires Valid() && txn in blocked && blocked[txn] == RecordCall(key, mode)
      modifies this`records, this`blocked
      ensures Valid() && blocked == old(blocked) - {txn} && key in old(records)
      ensures records == if Request(txn, mode, true) in old(records)[key] then old(records)
                         else old(records)[key := Without(old(records)[key], txn)]
      ensures OnlyFor(old(Now()), Now(), txn)
    {
      assert Queued(txn, blocked[txn], tables, records);
      var q := records[key];
      assert QueueOk(q) && RecordOwned(q, key, blocked);
      ghost var i :| 0 <= i < |q| && q[i].txn == txn && q[i].mode == mode;
      var q' := RemoveWaiting(q, txn, mode);
      if q[i].granted {
        RecordCallReturns(tables, records, blocked, key, i, txn);
        assert records[key := q'] == records;
        assert q[i] == Request(txn, mode, true);
      } else {
        assert q[i] == Request(txn, mode, false);
        RecordGiveUp(tables, records, blocked, key, txn, mode);
      }
      records := records[key := q'];
      blocked := blocked - {txn};
      WithdrawnFor(q, txn);
      RecordStep(old(Now()), Now(), key, txn);
    }

    method UnlockRecord(txn: Txn, key: RecordKey)
      requires Valid() && txn !in blocked
      modifies this`records
      ensures Valid()
      ensures records == if key in old(records)
                         then old(records)[key := GrantFrom(Without(old(records)[key], txn), 0)]
                         else old(records)
      ensures key in records ==> Absent(records[key], txn)
      ensures OnlyFor(old(Now()), Now(), txn)
    {
      if key !in records { return; }
      RecordRelease(tables, records, blocked, key, txn);
      WithdrawnFor(records[key], txn);
      var remaining := RemoveAll(records[key], txn);
      var q := GrantPending(remaining);
      records := records[key := q];
      RecordStep(old(Now()), Now(), key, txn);
    }

    // The last section of unlock_all: the record locks noted, and the notes themselves
    method UnlockNoted(txn: Txn)
      requires Valid() && txn !in blocked
      modifies this`records, this`txnLocks, this`txnRecordLocks
      ensures Valid() && RecordsReleased(old(Now()), Now(), txn) && OnlyFor(old(Now()), Now(), txn)
      ensures txnLocks == old(txnLocks) - {txn} && txnRecordLocks == old(txnRecordLocks) - {txn}
    {
      if txn in txnRecordLocks {
        var keys := txnRecordLocks[txn];
        for i := 0 to |keys|
          invariant Valid() && txnLocks == old(txnLocks) && txnRecordLocks == old(txnRecordLocks)
          invariant OnlyFor(old(Now()), Now(), txn)
          invariant forall k {:trigger Stands(records, k, txn)} ::
                      Stands(records, k, txn) <==> Stands(old(records), k, txn) && k !in keys[..i]
        {
          assert keys[..i + 1] == keys[..i] + [keys[i]];
          ghost var s := Now();
          UnlockRecord(txn, keys[i]);
          OnlyForTwice(old(Now()), s, Now(), txn);
          assert forall k {:trigger Stands(records, k, txn)} :: Stands(records, k, txn) <==>
                   Stands(s.records, k, txn) && k != keys[i];
        }
        assert keys[..|keys|] == keys;
        txnRecordLocks := txnRecordLocks - {txn};
      }
      ghost var s := Now();
      txnLocks := txnLocks - {txn};
      NotesDropped(old(Now()), s, Now(), txn);
    }

    // Release everything noted for the transaction. Without a table entry nothing happens at all, whatever record
    // locks it holds. Here without steps of others in between; `ReleasedInTurn` is about those.
    method UnlockAll(txn: Txn)
      requires Valid() && txn !in blocked
      modifies this`tables, this`records, this`txnLocks, this`txnRecordLocks
      ensures Valid() && OnlyFor(old(Now()), Now(), txn)
      ensures txn !in old(txnLocks) ==> Now() == old(Now())
      ensures txn in old(txnLocks) ==> txn !in txnLocks && txn !in txnRecordLocks
      // holds nothing afterwards exactly if it held nothing, or all it held was noted, and some table was
      ensures HoldsNothing(Now(), txn) <==>
                HoldsNothing(old(Now()), txn) || (txn in old(txnLocks) && AllNoted(old(Now()), txn))
    {
      if txn !in txnLocks { return; }
      var ids := txnLocks[txn];
      for i := 0 to |ids|
        invariant Valid() && txn in txnLocks && records == old(records) && txnRecordLocks == old(txnRecordLocks)
        invariant OnlyFor(old(Now()), Now(), txn)
        invariant forall t {:trigger Stands(tables, t, txn)} :: Stands(tables, t, txn) <==>
                    Stands(old(tables), t, txn) && t !in ids[..i]
      {
        assert ids[..i + 1] == ids[..i] + [ids[i]];
        ghost var s := Now();
        UnlockTable(txn, ids[i]);
        OnlyForTwice(old(Now()), s, Now(), txn);
      }
      assert ids[..|ids|] == ids;
      ghost var s := Now();
      UnlockNoted(txn);
      OnlyForTwice(old(Now()), s, Now(), txn);
      NothingHeld(old(Now()), s, Now(), txn);
    }
  }

  // ---------------------------------------------------------------------------
  // unlock_all among the steps of others
  // ---------------------------------------------------------------------------

  // unlock_all runs while others take steps: before and after each of its sections, and nothing of the
  // transaction's own in between
  ghost predicate Interleaved(ids: seq<nat>, run: seq<Locks>, txn: Txn) {
    && |run| == 2 * |ids| + 1
    && (forall i {:trigger ids[i]} :: 0 <= i < |ids| ==>
          TableReleased(run[2 * i], run[2 * i + 1], ids[i], txn) && Untouched(run[2 * i + 1], run[2 * i + 2], txn))
  }

  lemma {:induction false} ReleasedInTurn(ids: seq<nat>, run: seq<Locks>, txn: Txn)
    requires Interleaved(ids, run, txn)
    ensures forall t {:trigger Stands(run[2 * |ids|].tables, t, txn)} ::
              Stands(run[2 * |ids|].tables, t, txn) <==> Stands(run[0].tables, t, txn) && t !in ids
    ensures SameStands(run[0].records, run[2 * |ids|].records, txn)
    ensures SameNotes(run[0].txnRecordLocks, run[2 * |ids|].txnRecordLocks, txn)
    decreases |ids|
  {
    if |ids| > 0 {
      var n := |ids| - 1;
      var ids', run' := ids[..n], run[..2 * n + 1];
      assert Interleaved(ids', run', txn) by {
        forall i | 0 <= i < n
          ensures TableReleased(run'[2 * i], run'[2 * i + 1], ids'[i], txn)
          ensures Untouched(run'[2 * i + 1], run'[2 * i + 2], txn)
        {
          assert ids'[i] == ids[i];
        }
      }
      ReleasedInTurn(ids', run', txn);
      assert ids == ids' + [ids[n]];
      assert TableReleased(run[2 * n], run[2 * n + 1], ids[n], txn) && Untouched(run[2 * n + 1], run[2 * n + 2], txn);
    }
  }

  // Whatever others do meanwhile: nothing is held at the end exactly if nothing was held but what was noted
  lemma UnlockAllInterleaved(run: seq<Locks>, last: Locks, txn: Txn)
    requires |run| > 0 && txn in run[0].txnLocks && Interleaved(run[0].txnLocks[txn], run, txn)
    requires RecordsReleased(run[|run| - 1], last, txn)
    ensures HoldsNothing(last, txn) <==> AllNoted(run[0], txn)
  {
    var ids := run[0].txnLocks[txn];
    ReleasedInTurn(ids, run, txn);
    NothingHeld(run[0], run[|run| - 1], last, txn);
  }

  // Whatever the calls so far: on every table and record, granted requests exclude each other as their modes demand,
  // and whoever waits is hindered by a request granted to somebody else
  lemma ModesRespected(m: LockManager)
    requires m.Valid()
    ensures forall t :: t in m.tables ==> Excludes(m.tables[t]) && Justified(m.tables[t])
    ensures forall k :: k in m.records ==> Excludes(m.records[k]) && Justified(m.records[k])
  {
    forall t | t in m.tables ensures Excludes(m.tables[t]) && Justified(m.tables[t]) {
      assert QueueOk(m.tables[t]);
      QueueMeaning(m.tables[t]);
    }
    forall k | k in m.records ensures Excludes(m.records[k]) && Justified(m.records[k]) {
      assert QueueOk(m.records[k]);
      QueueMeaning(m.records[k]);
    }
  }

  lemma SecondGranted()
    ensures GrantFrom(Without([Request(1, Exclusive, true), Request(2, Exclusive, false)], 1), 0) ==
              [Request(2, Exclusive, true)]
  {
    var q := [Request(1, Exclusive, true), Request(2, Exclusive, false)];
    assert q[1..] == [Request(2, Exclusive, false)];
    assert Without(q[1..], 1) == [Request(2, Exclusive, false)];
  }

  method FirstAsks(table: Table, key: RecordKey) returns (m: LockManager)
    ensures fresh(m) && m.Valid() && m.blocked == map[] && 2 in m.txnLocks && 2 !in m.txnRecordLocks
    ensures key in m.records && m.records[key] == [Request(1, Exclusive, true)]
  {
    m := new LockManager();
    var r1 := m.RequestTable(2, table, RowExclusive);
    ghost var s := m.Now();
    var r2 := m.RequestRecord(1, key, Exclusive);
    assert Untouched(s, m.Now(), 2);
  }

  method SecondAsks(m: LockManager, key: RecordKey)
    requires m.Valid() && m.blocked == map[] && 2 in m.txnLocks && 2 !in m.txnRecordLocks
    requires key in m.records && m.records[key] == [Request(1, Exclusive, true)]
    modifies m
    ensures m.Valid() && m.blocked == map[2 := RecordCall(key, Exclusive)] && 2 in m.txnLocks && 2 !in m.txnRecordLocks
    ensures key in m.records && m.records[key] == [Request(1, Exclusive, true), Request(2, Exclusive, false)]
  {
    assert m.records[key][0] == Request(1, Exclusive, true);
    assert !CanGrant(m.records[key], 2, Exclusive);
    var r := m.RequestRecord(2, key, Exclusive);
  }

  // Transaction 2 waits for a record lock, is granted it when transaction 1 lets go, times out before it has noticed,
  // and keeps it for good
  method LockIsLeft(table: Table, key: RecordKey) returns (m: LockManager)
    ensures m.Valid() && 2 !in m.blocked && 2 !in m.txnLocks && 2 !in m.txnRecordLocks && !HoldsNothing(m.Now(), 2)
  {
    m := FirstAsks(table, key);
    SecondAsks(m, key);
    ghost var s := m.Now();
    m.UnlockRecord(1, key);
    assert Untouched(s, m.Now(), 2);
    SecondGranted();
    m.TimeoutRecord(2, key, Exclusive);
    assert m.records[key][0].txn == 2;
    assert Stands(m.records, key, 2);
    m.UnlockAll(2);
  }
}
