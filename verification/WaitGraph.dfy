/** Directed graphs as sets of edges: paths, cycles, and which new edges cannot
    close a cycle. */
module WaitGraph {

  type Txn = nat
  type Graph = set<(Txn, Txn)>

  ghost predicate IsPath(g: Graph, p: seq<Txn>) {
    |p| >= 2 && forall k :: 0 <= k < |p| - 1 ==> (p[k], p[k + 1]) in g
  }

  // A path of at least one edge from a to b
  ghost predicate Leads(g: Graph, a: Txn, b: Txn) {
    exists p :: IsPath(g, p) && p[0] == a && p[|p| - 1] == b
  }

  ghost predicate Acyclic(g: Graph) {
    forall a :: !Leads(g, a, a)
  }

  lemma FirstEdge(g: Graph, a: Txn, b: Txn) returns (c: Txn)
    requires Leads(g, a, b)
    ensures (a, c) in g
  {
    var p :| IsPath(g, p) && p[0] == a && p[|p| - 1] == b;
    assert (p[0], p[0 + 1]) in g;
    c := p[1];
  }

  lemma NoEdges()
    ensures Acyclic({})
  {
    forall a: Txn ensures !Leads({}, a, a) {
      if Leads({}, a, a) { var c := FirstEdge({}, a, a); }
    }
  }

  lemma LeadsEdge(g: Graph, a: Txn, b: Txn)
    requires (a, b) in g
    ensures Leads(g, a, b)
  {
    assert IsPath(g, [a, b]);
  }

  lemma LeadsThen(g: Graph, a: Txn, b: Txn, c: Txn)
    requires Leads(g, a, b) && Leads(g, b, c)
    ensures Leads(g, a, c)
  {
    var p :| IsPath(g, p) && p[0] == a && p[|p| - 1] == b;
    var q :| IsPath(g, q) && q[0] == b && q[|q| - 1] == c;
    var r := p + q[1..];
    forall k | 0 <= k < |r| - 1 ensures (r[k], r[k + 1]) in g {
      if k >= |p| - 1 {
        var m := k - (|p| - 1);
        assert r[k] == q[m] && r[k + 1] == q[m + 1];
      } else {
        assert r[k] == p[k] && r[k + 1] == p[k + 1];
      }
    }
    assert IsPath(g, r) && r[0] == a && r[|r| - 1] == c;
  }

  lemma MoreEdges(g: Graph, h: Graph, a: Txn, b: Txn)
    requires g <= h && Leads(g, a, b)
    ensures Leads(h, a, b)
  {
    var p :| IsPath(g, p) && p[0] == a && p[|p| - 1] == b;
    assert IsPath(h, p);
  }

  lemma FewerEdges(g: Graph, h: Graph)
    requires h <= g && Acyclic(g)
    ensures Acyclic(h)
  {
    forall a ensures !Leads(h, a, a) {
      if Leads(h, a, a) { MoreEdges(h, g, a, a); }
    }
  }

  // A cycle uses no edge into a node that nothing leaves
  lemma CycleAvoidsSinks(g: Graph, h: Graph, a: Txn)
    requires forall a, b :: (a, b) in h && (a, b) !in g ==> forall c :: (b, c) !in h
    requires Leads(h, a, a)
    ensures Leads(g, a, a)
  {
    var p :| IsPath(h, p) && p[0] == a && p[|p| - 1] == a;
    forall k | 0 <= k < |p| - 1 ensures (p[k], p[k + 1]) in g {
      var next := if k + 2 < |p| then p[k + 2] else p[1];
      assert (p[k + 1], next) in h;
    }
    assert IsPath(g, p);
  }

  // New edges into nodes that nothing leaves close no cycle
  lemma EdgesIntoSinks(g: Graph, h: Graph)
    requires Acyclic(g)
    requires forall a, b :: (a, b) in h && (a, b) !in g ==> forall c :: (b, c) !in h
    ensures Acyclic(h)
  {
    forall a ensures !Leads(h, a, a) {
      if Leads(h, a, a) { CycleAvoidsSinks(g, h, a); }
    }
  }

  lemma CycleOldOrThrough(g: Graph, h: Graph, w: Txn, a: Txn)
    requires forall a, b :: (a, b) in h && a != w ==> (a, b) in g
    requires Leads(h, a, a)
    ensures Leads(g, a, a) || Leads(h, w, w)
  {
    var p :| IsPath(h, p) && p[0] == a && p[|p| - 1] == a;
    if k :| 0 <= k < |p| - 1 && p[k] == w {
      CycleThrough(h, p, k);
    } else {
      assert IsPath(g, p);
    }
  }

  // New edges out of w close a cycle only through w
  lemma EdgesOutOf(g: Graph, h: Graph, w: Txn)
    requires Acyclic(g) && !Leads(h, w, w)
    requires forall a, b :: (a, b) in h && a != w ==> (a, b) in g
    ensures Acyclic(h)
  {
    forall a ensures !Leads(h, a, a) {
      if Leads(h, a, a) { CycleOldOrThrough(g, h, w, a); }
    }
  }

  lemma CycleThrough(g: Graph, p: seq<Txn>, k: nat)
    requires IsPath(g, p) && p[0] == p[|p| - 1] && k < |p| - 1
    ensures Leads(g, p[k], p[k])
  {
    var tail := p[k..];
    assert IsPath(g, tail);
    assert Leads(g, p[k], p[0]);
    if k > 0 {
      var head := p[..k + 1];
      assert IsPath(g, head);
      assert Leads(g, p[0], p[k]);
      LeadsThen(g, p[k], p[0], p[k]);
    }
  }

  // Without cycles every chain of waits ends at somebody who waits for nobody
  lemma WaitChainEnds(g: Graph, a: Txn, passed: set<Txn>) returns (b: Txn)
    requires Acyclic(g)
    requires passed <= (set e | e in g :: e.0) && forall v :: v in passed ==> Leads(g, v, a)
    ensures (b == a || Leads(g, a, b)) && forall c :: (b, c) !in g
    decreases (set e | e in g :: e.0) - passed
  {
    if c :| (a, c) in g {
      var sources := set e | e in g :: e.0;
      assert (a, c).0 in sources;
      LeadsEdge(g, a, c);
      forall v | v in passed + {a} ensures Leads(g, v, c) {
        if v != a { LeadsThen(g, v, a, c); }
      }
      assert a !in passed;
      b := WaitChainEnds(g, c, passed + {a});
      if b != c { LeadsThen(g, a, c, b); }
    } else {
      b := a;
    }
  }

  // The nodes a search from w can meet
  ghost function Nodes(g: Graph, w: Txn): set<Txn> {
    {w} + set e | e in g :: e.1
  }

  // A set closed under edges that never point back to w traps every path from w
  lemma {:induction false} ClosedSet(g: Graph, w: Txn, seen: set<Txn>, p: seq<Txn>)
    requires w in seen
    requires forall a, b :: a in seen && (a, b) in g ==> b in seen && b != w
    requires IsPath(g, p) && p[0] in seen
    ensures p[|p| - 1] in seen && p[|p| - 1] != w
  {
    assert (p[0], p[1]) in g;
    if |p| > 2 { ClosedSet(g, w, seen, p[1..]); }
  }

  lemma NoWayBack(g: Graph, w: Txn, seen: set<Txn>)
    requires w in seen
    requires forall a, b :: a in seen && (a, b) in g ==> b in seen && b != w
    ensures !Leads(g, w, w)
  {
    if Leads(g, w, w) {
      var p :| IsPath(g, p) && p[0] == w && p[|p| - 1] == w;
      ClosedSet(g, w, seen, p);
    }
  }
}
