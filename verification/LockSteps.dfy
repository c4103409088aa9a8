/** The lock manager's state between two latch sections, and what each section
    does to it. */
module LockSteps {
  import opened WaitGraph
  import opened LockQueues
  import opened LockTables

  type RecordKey = nat
  type Records = map<RecordKey, Queue>

  // What a transaction inside a lock call is waiting for
  datatype Call = TableCall(table: Table, mode: Mode) | RecordCall(key: RecordKey, mode: Mode)

  type Calls = map<Txn, Call>

  // An ungranted request belongs to the call its transaction is waiting in
  ghost predicate TableOwned(q: Queue, t: Table, blocked: Calls) {
    forall i :: 0 <= i < |q| && !q[i].granted ==>
      q[i].txn in blocked && blocked[q[i].txn] == TableCall(t, q[i].mode)
  }

  ghost predicate RecordOwned(q: Queue, k: RecordKey, blocked: Calls) {
    forall i :: 0 <= i < |q| && !q[i].granted ==>
      q[i].txn in blocked && blocked[q[i].txn] == RecordCall(k, q[i].mode)
  }

  ghost predicate Has(q: Queue, txn: Txn, mode: Mode) {
    exists i :: 0 <= i < |q| && q[i].txn == txn && q[i].mode == mode
  }

  // A waiting call has its request in the queue
  ghost predicate Queued(x: Txn, call: Call, tables: Tables, records: Records) {
    match call
    case TableCall(t, m) => t in tables && Has(tables[t], x, m)
    case RecordCall(k, m) => k in records && Has(records[k], x, m)
  }

  // Every object safe and settled, waiting requests and waiting calls matched,
  // and no cycle in the table wait-for graph
  ghost predicate Inv(tables: Tables, records: Records, blocked: Calls) {
    && (forall t {:trigger QueueOk(tables[t])} :: t in tables ==> QueueOk(tables[t]))
    && (forall k {:trigger QueueOk(records[k])} :: k in records ==> QueueOk(records[k]))
    && (forall t {:trigger TableOwned(tables[t], t, blocked)} :: t in tables ==> TableOwned(tables[t], t, blocked))
    && (forall k {:trigger RecordOwned(records[k], k, blocked)} :: k in records ==> RecordOwned(records[k], k, blocked))
    && (forall x {:trigger Queued(x, blocked[x], tables, records)} :: x in blocked ==>
          Queued(x, blocked[x], tables, records))
    && Acyclic(Edges(tables))
  }

  ghost predicate Absent(q: Queue, txn: Txn) {
    forall i :: 0 <= i < |q| ==> q[i].txn != txn
  }

  lemma IdleUnlessBlocked(tables: Tables, records: Records, blocked: Calls, txn: Txn)
    requires Inv(tables, records, blocked) && txn !in blocked
    ensures Idle(tables, txn)
  {
    forall t, i | t in tables && 0 <= i < |tables[t]| && tables[t][i].txn == txn ensures tables[t][i].granted {
      assert TableOwned(tables[t], t, blocked);
    }
  }

  lemma InvOneWait(tables: Tables, records: Records, blocked: Calls)
    requires Inv(tables, records, blocked)
    ensures OneWait(tables)
  {
    forall t, i, u, j | t in tables && 0 <= i < |tables[t]| && u in tables && 0 <= j < |tables[u]|
                        && !tables[t][i].granted && !tables[u][j].granted && tables[t][i].txn == tables[u][j].txn
      ensures t == u
    {
      assert TableOwned(tables[t], t, blocked) && TableOwned(tables[u], u, blocked);
    }
  }

  // A change to one table queue: what has to be checked
  lemma TableChange(tables: Tables, records: Records, blocked: Calls, t: Table, q: Queue, blocked': Calls, txn: Txn)
    requires Inv(tables, records, blocked) && t in tables
    requires QueueOk(q) && TableOwned(q, t, blocked') && Acyclic(Edges(tables[t := q]))
    requires forall x :: x != txn ==> (x in blocked <==> x in blocked') && (x in blocked ==> blocked[x] == blocked'[x])
    requires txn in blocked ==> exists m :: blocked[txn] == TableCall(t, m)
    requires txn in blocked' ==> Queued(txn, blocked'[txn], tables[t := q], records)
    requires forall x, m :: x != txn && Has(tables[t], x, m) ==> Has(q, x, m)
    ensures Inv(tables[t := q], records, blocked')
  {
    var tables' := tables[t := q];
    forall u | u in tables' ensures QueueOk(tables'[u]) && TableOwned(tables'[u], u, blocked') {
      if u != t {
        assert QueueOk(tables[u]) && TableOwned(tables[u], u, blocked);
      }
    }
    forall k | k in records ensures RecordOwned(records[k], k, blocked') {
      assert RecordOwned(records[k], k, blocked);
    }
    forall x | x in blocked' ensures Queued(x, blocked'[x], tables', records) {
      if x != txn { assert Queued(x, blocked[x], tables, records); }
    }
  }

  lemma RecordChange(tables: Tables, records: Records, blocked: Calls, k: RecordKey, q: Queue, blocked': Calls,
                     txn: Txn)
    requires Inv(tables, records, blocked) && k in records
    requires QueueOk(q) && RecordOwned(q, k, blocked')
    requires forall x :: x != txn ==> (x in blocked <==> x in blocked') && (x in blocked ==> blocked[x] == blocked'[x])
    requires txn in blocked ==> exists m :: blocked[txn] == RecordCall(k, m)
    requires txn in blocked' ==> Queued(txn, blocked'[txn], tables, records[k := q])
    requires forall x, m :: x != txn && Has(records[k], x, m) ==> Has(q, x, m)
    ensures Inv(tables, records[k := q], blocked')
  {
    var records' := records[k := q];
    forall u | u in records' ensures QueueOk(records'[u]) && RecordOwned(records'[u], u, blocked') {
      if u != k {
        assert QueueOk(records[u]) && RecordOwned(records[u], u, blocked);
      }
    }
    forall t | t in tables ensures TableOwned(tables[t], t, blocked') {
      assert TableOwned(tables[t], t, blocked);
    }
    forall x | x in blocked' ensures Queued(x, blocked'[x], tables, records') {
      if x != txn { assert Queued(x, blocked[x], tables, records); }
    }
  }

  // Creating an empty lock object
  lemma NewTable(tables: Tables, records: Records, blocked: Calls, t: Table)
    requires Inv(tables, records, blocked) && t !in tables
    ensures Inv(tables[t := []], records, blocked)
    ensures Edges(tables[t := []]) == Edges(tables)
  {
    var tables': Tables := tables[t := []];
    forall e ensures e in Edges(tables') <==> e in Edges(tables) {
      if e in Edges(tables') {
        EdgeOrigin(tables, t, [], e.0, e.1);
      }
      if e in Edges(tables) {
        var u :| u in tables && e in QueueEdges(tables[u]);
        assert u in tables' && e in QueueEdges(tables'[u]);
      }
    }
    assert Edges(tables') == Edges(tables);
    forall u | u in tables' ensures QueueOk(tables'[u]) && TableOwned(tables'[u], u, blocked) {
      if u != t { assert QueueOk(tables[u]) && TableOwned(tables[u], u, blocked); }
    }
    forall x | x in blocked ensures Queued(x, blocked[x], tables', records) {
      assert Queued(x, blocked[x], tables, records);
    }
  }

  lemma NewRecord(tables: Tables, records: Records, blocked: Calls, k: RecordKey)
    requires Inv(tables, records, blocked) && k !in records
    ensures Inv(tables, records[k := []], blocked)
  {
    var records': Records := records[k := []];
    forall u | u in records' ensures QueueOk(records'[u]) && RecordOwned(records'[u], u, blocked) {
      if u != k { assert QueueOk(records[u]) && RecordOwned(records[u], u, blocked); }
    }
    forall x | x in blocked ensures Queued(x, blocked[x], tables, records') {
      assert Queued(x, blocked[x], tables, records);
    }
  }

  // ---------------------------------------------------------------------------
  // Table steps
  // ---------------------------------------------------------------------------

  lemma HasAppended(q: Queue, req: Request)
    ensures Has(q + [req], req.txn, req.mode)
    ensures forall x, m :: Has(q, x, m) ==> Has(q + [req], x, m)
  {
    var r := q + [req];
    assert r[|q|] == req;
    forall x, m | Has(q, x, m) ensures Has(r, x, m) {
      var i :| 0 <= i < |q| && q[i].txn == x && q[i].mode == m;
      assert r[i] == q[i];
    }
  }

  lemma StartWaiting(tables: Tables, records: Records, blocked: Calls, t: Table, txn: Txn, mode: Mode)
    requires Inv(tables, records, blocked) && t in tables && txn !in blocked && Absent(tables[t], txn)
    requires !CanGrant(tables[t], txn, mode)
    requires !Leads(Edges(tables[t := tables[t] + [Request(txn, mode, false)]]), txn, txn)
    ensures Inv(tables[t := tables[t] + [Request(txn, mode, false)]], records, blocked[txn := TableCall(t, mode)])
  {
    var req := Request(txn, mode, false);
    var q, blocked' := tables[t], blocked[txn := TableCall(t, mode)];
    assert QueueOk(q) && TableOwned(q, t, blocked);
    AppendedOk(q, req);
    AppendWaitingEdges(tables, t, req);
    HasAppended(q, req);
    TableChange(tables, records, blocked, t, q + [req], blocked', txn);
  }

  lemma GrantAtOnce(tables: Tables, records: Records, blocked: Calls, t: Table, txn: Txn, mode: Mode)
    requires Inv(tables, records, blocked) && t in tables && txn !in blocked && Absent(tables[t], txn)
    requires CanGrant(tables[t], txn, mode)
    ensures Inv(tables[t := tables[t] + [Request(txn, mode, true)]], records, blocked)
  {
    var req := Request(txn, mode, true);
    var q := tables[t];
    assert QueueOk(q) && TableOwned(q, t, blocked);
    AppendedOk(q, req);
    IdleUnlessBlocked(tables, records, blocked, txn);
    AppendGrantedEdges(tables, t, req);
    HasAppended(q, req);
    TableChange(tables, records, blocked, t, q + [req], blocked, txn);
  }

  lemma UpgradeInPlace(tables: Tables, records: Records, blocked: Calls, t: Table, i: nat, mode: Mode)
    requires Inv(tables, records, blocked) && t in tables && i < |tables[t]| && tables[t][i].granted
    requires tables[t][i].txn !in blocked && Strength(tables[t][i].mode) <= Strength(mode)
    requires forall j :: 0 <= j < |tables[t]| && j != i && tables[t][j].granted ==> Compatible(tables[t][j].mode, mode)
    ensures Inv(tables[t := tables[t][i := tables[t][i].(mode := mode)]], records, blocked)
  {
    var q := tables[t];
    var q' := q[i := q[i].(mode := mode)];
    assert QueueOk(q) && TableOwned(q, t, blocked);
    UpgradeOk(q, i, mode);
    IdleUnlessBlocked(tables, records, blocked, q[i].txn);
    UpgradeEdges(tables, t, i, mode);
    forall x, m | x != q[i].txn && Has(q, x, m) ensures Has(q', x, m) {
      var j :| 0 <= j < |q| && q[j].txn == x && q[j].mode == m;
      assert q'[j] == q[j];
    }
    TableChange(tables, records, blocked, t, q', blocked, q[i].txn);
  }

  lemma HasWithout(q: Queue, txn: Txn)
    ensures forall x, m :: x != txn && Has(q, x, m) ==> Has(Without(q, txn), x, m)
    ensures Absent(Without(q, txn), txn)
  {
    var r := Without(q, txn);
    WithoutMembers(q, txn);
    forall x, m | x != txn && Has(q, x, m) ensures Has(r, x, m) {
      var i :| 0 <= i < |q| && q[i].txn == x && q[i].mode == m;
      assert q[i] in r;
    }
    forall i | 0 <= i < |r| ensures r[i].txn != txn {
      assert r[i] in r;
    }
  }

  lemma WithoutOwned(q: Queue, txn: Txn, t: Table, blocked: Calls)
    requires TableOwned(q, t, blocked)
    ensures TableOwned(Without(q, txn), t, blocked - {txn})
  {
    var r := Without(q, txn);
    WithoutMembers(q, txn);
    forall i | 0 <= i < |r| && !r[i].granted
      ensures r[i].txn in blocked - {txn} && (blocked - {txn})[r[i].txn] == TableCall(t, r[i].mode)
    {
      assert r[i] in q;
      var j :| 0 <= j < |q| && q[j] == r[i];
    }
  }

  // A waiting call gives up: its request leaves the queue
  lemma GiveUp(tables: Tables, records: Records, blocked: Calls, t: Table, txn: Txn, mode: Mode)
    requires Inv(tables, records, blocked) && t in tables && txn in blocked && blocked[txn] == TableCall(t, mode)
    requires forall i :: 0 <= i < |tables[t]| && tables[t][i].txn == txn ==> !tables[t][i].granted
    ensures Inv(tables[t := Without(tables[t], txn)], records, blocked - {txn})
  {
    var q := tables[t];
    assert QueueOk(q) && TableOwned(q, t, blocked);
    DropWaiting(q, txn);
    WithoutOwned(q, txn, t, blocked);
    HasWithout(q, txn);
    DropEdges(tables, t, txn);
    TableChange(tables, records, blocked, t, Without(q, txn), blocked - {txn}, txn);
  }

  // A call returns: the request it waited for has been granted
  lemma CallReturns(tables: Tables, records: Records, blocked: Calls, t: Table, i: nat, txn: Txn)
    requires Inv(tables, records, blocked) && t in tables && i < |tables[t]|
    requires txn in blocked && blocked[txn].TableCall? && blocked[txn].table == t
    requires tables[t][i].txn == txn && tables[t][i].granted
    ensures Inv(tables, records, blocked - {txn})
  {
    var q := tables[t];
    assert QueueOk(q) && TableOwned(q, t, blocked);
    forall x, m | Has(q, x, m) ensures Has(q, x, m) {}
    assert tables[t := q] == tables;
    TableChange(tables, records, blocked, t, q, blocked - {txn}, txn);
  }

  lemma GrownHas(q: Queue, r: Queue)
    requires Grown(q, r)
    ensures forall x, m :: Has(q, x, m) ==> Has(r, x, m)
  {
    forall x, m | Has(q, x, m) ensures Has(r, x, m) {
      var i :| 0 <= i < |q| && q[i].txn == x && q[i].mode == m;
      assert r[i].txn == x && r[i].mode == m;
    }
  }

  lemma GrownOwned(q: Queue, r: Queue, t: Table, blocked: Calls)
    requires Grown(q, r) && TableOwned(q, t, blocked)
    ensures TableOwned(r, t, blocked)
  {
  }

  // Releasing a table and granting what can be granted now
  lemma Release(tables: Tables, records: Records, blocked: Calls, t: Table, txn: Txn)
    requires Inv(tables, records, blocked) && t in tables && txn !in blocked
    ensures Inv(tables[t := GrantFrom(Without(tables[t], txn), 0)], records, blocked)
    ensures Absent(GrantFrom(Without(tables[t], txn), 0), txn)
  {
    var q := tables[t];
    var w := Without(q, txn);
    var r := GrantFrom(w, 0);
    assert QueueOk(q) && TableOwned(q, t, blocked);
    WithoutSafe(q, txn);
    PassSettles(w, 0);
    WithoutOwned(q, txn, t, blocked);
    assert blocked - {txn} == blocked;
    GrownOwned(w, r, t, blocked);
    HasWithout(q, txn);
    GrownHas(w, r);
    InvOneWait(tables, records, blocked);
    DropEdges(tables, t, txn);
    var tables': Tables := tables[t := w];
    OneWaitWithout(tables, t, txn);
    GrantEdges(tables', t, r);
    assert tables'[t := r] == tables[t := r];
    TableChange(tables, records, blocked, t, r, blocked, txn);
  }

  lemma OneWaitWithout(tables: Tables, t: Table, txn: Txn)
    requires t in tables && OneWait(tables)
    ensures OneWait(tables[t := Without(tables[t], txn)])
  {
    var tables': Tables := tables[t := Without(tables[t], txn)];
    forall a, i, b, j | a in tables' && 0 <= i < |tables'[a]| && b in tables' && 0 <= j < |tables'[b]|
                        && !tables'[a][i].granted && !tables'[b][j].granted && tables'[a][i].txn == tables'[b][j].txn
      ensures a == b
    {
      var i' := OldIndex(tables, t, txn, a, i);
      var j' := OldIndex(tables, t, txn, b, j);
    }
  }

  lemma OldIndex(tables: Tables, t: Table, txn: Txn, a: Table, i: nat) returns (j: nat)
    requires t in tables && a in tables[t := Without(tables[t], txn)] && i < |tables[t := Without(tables[t], txn)][a]|
    ensures a in tables && j < |tables[a]| && tables[a][j] == tables[t := Without(tables[t], txn)][a][i]
  {
    if a == t {
      var r := Without(tables[t], txn);
      WithoutMembers(tables[t], txn);
      assert r[i] in tables[t];
      j :| 0 <= j < |tables[t]| && tables[t][j] == r[i];
    } else {
      j := i;
    }
  }

  // ---------------------------------------------------------------------------
  // Record steps: the same queues, without upgrades and without a wait-for search
  // ---------------------------------------------------------------------------

  lemma RecordRequested(tables: Tables, records: Records, blocked: Calls, k: RecordKey, txn: Txn, mode: Mode)
    requires Inv(tables, records, blocked) && k in records && txn !in blocked && Absent(records[k], txn)
    ensures var granted := CanGrant(records[k], txn, mode);
            Inv(tables, records[k := records[k] + [Request(txn, mode, granted)]],
                if granted then blocked else blocked[txn := RecordCall(k, mode)])
  {
    var q := records[k];
    var req := Request(txn, mode, CanGrant(q, txn, mode));
    var blocked' := if req.granted then blocked else blocked[txn := RecordCall(k, mode)];
    assert QueueOk(q) && RecordOwned(q, k, blocked);
    AppendedOk(q, req);
    HasAppended(q, req);
    RecordChange(tables, records, blocked, k, q + [req], blocked', txn);
  }

  lemma RecordWithoutOwned(q: Queue, txn: Txn, k: RecordKey, blocked: Calls)
    requires RecordOwned(q, k, blocked)
    ensures RecordOwned(Without(q, txn), k, blocked - {txn})
  {
    var r := Without(q, txn);
    WithoutMembers(q, txn);
    forall i | 0 <= i < |r| && !r[i].granted
      ensures r[i].txn in blocked - {txn} && (blocked - {txn})[r[i].txn] == RecordCall(k, r[i].mode)
    {
      assert r[i] in q;
      var j :| 0 <= j < |q| && q[j] == r[i];
    }
  }

  lemma RecordGiveUp(tables: Tables, records: Records, blocked: Calls, k: RecordKey, txn: Txn, mode: Mode)
    requires Inv(tables, records, blocked) && k in records && txn in blocked && blocked[txn] == RecordCall(k, mode)
    requires forall i :: 0 <= i < |records[k]| && records[k][i].txn == txn ==> !records[k][i].granted
    ensures Inv(tables, records[k := Without(records[k], txn)], blocked - {txn})
  {
    var q := records[k];
    assert QueueOk(q) && RecordOwned(q, k, blocked);
    DropWaiting(q, txn);
    RecordWithoutOwned(q, txn, k, blocked);
    HasWithout(q, txn);
    RecordChange(tables, records, blocked, k, Without(q, txn), blocked - {txn}, txn);
  }

  lemma RecordCallReturns(tables: Tables, records: Records, blocked: Calls, k: RecordKey, i: nat, txn: Txn)
    requires Inv(tables, records, blocked) && k in records && i < |records[k]|
    requires txn in blocked && blocked[txn].RecordCall? && blocked[txn].key == k
    requires records[k][i].txn == txn && records[k][i].granted
    ensures Inv(tables, records, blocked - {txn})
  {
    var q := records[k];
    assert QueueOk(q) && RecordOwned(q, k, blocked);
    assert records[k := q] == records;
    RecordChange(tables, records, blocked, k, q, blocked - {txn}, txn);
  }

  lemma RecordRelease(tables: Tables, records: Records, blocked: Calls, k: RecordKey, txn: Txn)
    requires Inv(tables, records, blocked) && k in records && txn !in blocked
    ensures Inv(tables, records[k := GrantFrom(Without(records[k], txn), 0)], blocked)
    ensures Absent(GrantFrom(Without(records[k], txn), 0), txn)
  {
    var q := records[k];
    var w := Without(q, txn);
    var r := GrantFrom(w, 0);
    assert QueueOk(q) && RecordOwned(q, k, blocked);
    WithoutSafe(q, txn);
    PassSettles(w, 0);
    RecordWithoutOwned(q, txn, k, blocked);
    assert blocked - {txn} == blocked;
    HasWithout(q, txn);
    GrownHas(w, r);
    RecordChange(tables, records, blocked, k, r, blocked, txn);
  }
}
