/** All table locks together: who waits for whom, and why no step of the lock
    manager closes a cycle. */
module LockTables {
  import opened WaitGraph
  import opened LockQueues

  type Table = nat
  type Tables = map<Table, Queue>

  // Request i waits for the holder of request j
  ghost predicate WaitsOn(q: Queue, i: nat, j: nat)
    requires i < |q| && j < |q|
  {
    !q[i].granted && q[j].granted && !Compatible(q[j].mode, q[i].mode)
  }

  ghost function QueueEdges(q: Queue): Graph {
    set i, j | 0 <= i < |q| && 0 <= j < |q| && WaitsOn(q, i, j) :: (q[i].txn, q[j].txn)
  }

  // The table wait-for graph
  ghost function Edges(tables: Tables): Graph {
    set t, e | t in tables && e in QueueEdges(tables[t]) :: e
  }

  // A waiting transaction waits for one table only
  ghost predicate OneWait(tables: Tables) {
    forall t, i, u, j ::
      (&& t in tables && 0 <= i < |tables[t]| && u in tables && 0 <= j < |tables[u]|
       && !tables[t][i].granted && !tables[u][j].granted && tables[t][i].txn == tables[u][j].txn) ==> t == u
  }

  // The transaction waits for nothing
  ghost predicate Idle(tables: Tables, txn: Txn) {
    forall t, i :: t in tables && 0 <= i < |tables[t]| && tables[t][i].txn == txn ==> tables[t][i].granted
  }

  lemma EdgeWaits(tables: Tables, a: Txn, b: Txn) returns (t: Table, i: nat)
    requires (a, b) in Edges(tables)
    ensures t in tables && i < |tables[t]| && tables[t][i].txn == a && !tables[t][i].granted
  {
    t :| t in tables && (a, b) in QueueEdges(tables[t]);
    var q := tables[t];
    var j;
    i, j :| 0 <= i < |q| && 0 <= j < |q| && WaitsOn(q, i, j) && (a, b) == (q[i].txn, q[j].txn);
  }

  lemma IdleIsSink(tables: Tables, txn: Txn, b: Txn)
    requires Idle(tables, txn)
    ensures (txn, b) !in Edges(tables)
  {
    if (txn, b) in Edges(tables) {
      var t, i := EdgeWaits(tables, txn, b);
    }
  }

  // An edge of the changed lock table is an old one or comes from the changed queue
  lemma EdgeOrigin(tables: Tables, t: Table, q: Queue, a: Txn, b: Txn)
    requires (a, b) in Edges(tables[t := q])
    ensures (a, b) in QueueEdges(q) || (a, b) in Edges(tables)
  {
    var tables' := tables[t := q];
    var u :| u in tables' && (a, b) in QueueEdges(tables'[u]);
    if u != t { assert u in tables && (a, b) in QueueEdges(tables[u]); }
  }

  lemma QueueEdgesIn(tables: Tables, t: Table, a: Txn, b: Txn)
    requires t in tables && (a, b) in QueueEdges(tables[t])
    ensures (a, b) in Edges(tables)
  {
  }

  lemma QueueEdgesWithin(tables: Tables, t: Table)
    requires t in tables
    ensures QueueEdges(tables[t]) <= Edges(tables)
  {
    forall a, b | (a, b) in QueueEdges(tables[t]) ensures (a, b) in Edges(tables) { QueueEdgesIn(tables, t, a, b); }
  }

  // A new waiting request adds edges out of its transaction only
  lemma AppendWaitingEdges(tables: Tables, t: Table, req: Request)
    requires t in tables && !req.granted && Acyclic(Edges(tables))
    requires !Leads(Edges(tables[t := tables[t] + [req]]), req.txn, req.txn)
    ensures Acyclic(Edges(tables[t := tables[t] + [req]]))
  {
    var q := tables[t];
    var q' := q + [req];
    forall a, b | (a, b) in Edges(tables[t := q']) && a != req.txn ensures (a, b) in Edges(tables) {
      EdgeOrigin(tables, t, q', a, b);
      if (a, b) in QueueEdges(q') {
        var i, j :| 0 <= i < |q'| && 0 <= j < |q'| && WaitsOn(q', i, j) && (a, b) == (q'[i].txn, q'[j].txn);
        assert i < |q| && j < |q| && WaitsOn(q, i, j);
        QueueEdgesIn(tables, t, a, b);
      }
    }
    EdgesOutOf(Edges(tables), Edges(tables[t := q']), req.txn);
  }

  // A change that only lets others wait for an idle transaction is harmless
  lemma HolderChangeEdges(tables: Tables, t: Table, q: Queue, txn: Txn)
    requires t in tables && Acyclic(Edges(tables)) && Idle(tables[t := q], txn)
    requires forall a, b :: (a, b) in QueueEdges(q) && (a, b) !in QueueEdges(tables[t]) ==> b == txn
    ensures Acyclic(Edges(tables[t := q]))
  {
    var h := Edges(tables[t := q]);
    forall a, b | (a, b) in h && (a, b) !in Edges(tables) ensures forall c: Txn :: (b, c) !in h {
      EdgeOrigin(tables, t, q, a, b);
      QueueEdgesWithin(tables, t);
      forall c: Txn ensures (b, c) !in h { IdleIsSink(tables[t := q], txn, c); }
    }
    EdgesIntoSinks(Edges(tables), h);
  }

  lemma AppendGrantedEdges(tables: Tables, t: Table, req: Request)
    requires t in tables && req.granted && Acyclic(Edges(tables)) && Idle(tables, req.txn)
    ensures Acyclic(Edges(tables[t := tables[t] + [req]]))
  {
    var q := tables[t];
    var q' := q + [req];
    forall a, b | (a, b) in QueueEdges(q') ensures (a, b) in QueueEdges(q) || b == req.txn {
      var i, j :| 0 <= i < |q'| && 0 <= j < |q'| && WaitsOn(q', i, j) && (a, b) == (q'[i].txn, q'[j].txn);
      assert i < |q|;
      if j < |q| { assert WaitsOn(q, i, j); }
    }
    HolderChangeEdges(tables, t, q', req.txn);
  }

  lemma UpgradeEdges(tables: Tables, t: Table, i: nat, mode: Mode)
    requires t in tables && i < |tables[t]| && tables[t][i].granted
    requires Acyclic(Edges(tables)) && Idle(tables, tables[t][i].txn)
    ensures Acyclic(Edges(tables[t := tables[t][i := tables[t][i].(mode := mode)]]))
  {
    var q := tables[t];
    var q' := q[i := q[i].(mode := mode)];
    forall a, b | (a, b) in QueueEdges(q') ensures (a, b) in QueueEdges(q) || b == q[i].txn {
      var x, y :| 0 <= x < |q'| && 0 <= y < |q'| && WaitsOn(q', x, y) && (a, b) == (q'[x].txn, q'[y].txn);
      if y != i { assert WaitsOn(q, x, y); }
    }
    HolderChangeEdges(tables, t, q', q[i].txn);
  }

  lemma WithoutEdges(q: Queue, txn: Txn)
    ensures QueueEdges(Without(q, txn)) <= QueueEdges(q)
  {
    var r := Without(q, txn);
    WithoutMembers(q, txn);
    forall a, b | (a, b) in QueueEdges(r) ensures (a, b) in QueueEdges(q) {
      var i, j :| 0 <= i < |r| && 0 <= j < |r| && WaitsOn(r, i, j) && (a, b) == (r[i].txn, r[j].txn);
      assert r[i] in q && r[j] in q;
      var x :| 0 <= x < |q| && q[x] == r[i];
      var y :| 0 <= y < |q| && q[y] == r[j];
      assert WaitsOn(q, x, y);
    }
  }

  lemma DropEdges(tables: Tables, t: Table, txn: Txn)
    requires t in tables && Acyclic(Edges(tables))
    ensures Acyclic(Edges(tables[t := Without(tables[t], txn)]))
  {
    var q' := Without(tables[t], txn);
    WithoutEdges(tables[t], txn);
    forall a, b | (a, b) in Edges(tables[t := q']) ensures (a, b) in Edges(tables) {
      EdgeOrigin(tables, t, q', a, b);
      if (a, b) in QueueEdges(q') { QueueEdgesIn(tables, t, a, b); }
    }
    FewerEdges(Edges(tables), Edges(tables[t := q']));
  }

  // A queue in which more requests were granted: new edges lead to new holders
  lemma GrownEdges(q: Queue, r: Queue, a: Txn, b: Txn) returns (j: nat)
    requires Grown(q, r) && (a, b) in QueueEdges(r) && (a, b) !in QueueEdges(q)
    ensures j < |q| && q[j].txn == b && !q[j].granted && r[j].granted
  {
    var i;
    i, j :| 0 <= i < |r| && 0 <= j < |r| && WaitsOn(r, i, j) && (a, b) == (r[i].txn, r[j].txn);
  }

  // Granting waiting requests: a new holder was waiting here, so it waits nowhere now
  lemma GrantEdges(tables: Tables, t: Table, r: Queue)
    requires t in tables && Acyclic(Edges(tables)) && OneWait(tables)
    requires Grown(tables[t], r) && OneEach(r)
    ensures Acyclic(Edges(tables[t := r]))
  {
    var h := Edges(tables[t := r]);
    forall a, b | (a, b) in h && (a, b) !in Edges(tables) ensures forall c: Txn :: (b, c) !in h {
      EdgeOrigin(tables, t, r, a, b);
      QueueEdgesWithin(tables, t);
      var j := GrownEdges(tables[t], r, a, b);
      NewHolderIdle(tables, t, r, j);
      forall c: Txn ensures (b, c) !in h { IdleIsSink(tables[t := r], b, c); }
    }
    EdgesIntoSinks(Edges(tables), h);
  }

  lemma NewHolderIdle(tables: Tables, t: Table, r: Queue, j: nat)
    requires t in tables && OneWait(tables) && Grown(tables[t], r) && OneEach(r)
    requires j < |r| && !tables[t][j].granted && r[j].granted
    ensures Idle(tables[t := r], r[j].txn)
  {
    var tables': Tables := tables[t := r];
    forall u, i | u in tables' && 0 <= i < |tables'[u]| && tables'[u][i].txn == r[j].txn
      ensures tables'[u][i].granted
    {
      if u == t {
        assert i == j;
      } else {
        assert tables[u][i] == tables'[u][i] && tables[t][j].txn == tables[u][i].txn;
      }
    }
  }
}
