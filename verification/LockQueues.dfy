/** One lockable object: its request queue, the compatibility matrix and the
    granting pass. */
module LockQueues {
  import opened WaitGraph

  datatype Mode = AccessShare | RowExclusive | Exclusive | AccessExclusive

  function Strength(m: Mode): nat {
    match m
    case AccessShare => 0
    case RowExclusive => 1
    case Exclusive => 2
    case AccessExclusive => 3
  }

  // kLockCompatibility[held][requested]
  predicate Compatible(held: Mode, requested: Mode) {
    match held
    case AccessShare => requested != AccessExclusive
    case RowExclusive => requested == AccessShare || requested == RowExclusive
    case Exclusive => requested == AccessShare
    case AccessExclusive => false
  }

  // The matrix is symmetric: AccessExclusive goes with nothing and Exclusive with AccessShare only; and a stronger held
  // mode admits fewer requests
  lemma MatrixShape(a: Mode, b: Mode, c: Mode)
    ensures Compatible(a, b) == Compatible(b, a)
    ensures Compatible(a, b) <==>
              && a != AccessExclusive && b != AccessExclusive
              && (a == Exclusive ==> b == AccessShare) && (b == Exclusive ==> a == AccessShare)
    ensures Strength(a) <= Strength(c) && Compatible(c, b) ==> Compatible(a, b)
  {
  }

  datatype Request = Request(txn: Txn, mode: Mode, granted: bool)

  type Queue = seq<Request>

  predicate CanGrant(q: Queue, txn: Txn, mode: Mode) {
    forall i :: 0 <= i < |q| && q[i].granted && q[i].txn != txn ==>
      Compatible(q[i].mode, mode) && Compatible(mode, q[i].mode)
  }

  // grant_pending from position i on: a grant is visible to the requests after it
  function GrantFrom(q: Queue, i: nat): (r: Queue)
    requires i <= |q|
    ensures |r| == |q|
    decreases |q| - i
  {
    if i == |q| then q
    else if !q[i].granted && CanGrant(q, q[i].txn, q[i].mode) then GrantFrom(q[i := q[i].(granted := true)], i + 1)
    else GrantFrom(q, i + 1)
  }

  // At most one request per transaction
  ghost predicate OneEach(q: Queue) {
    forall i, j :: 0 <= i < j < |q| ==> q[i].txn != q[j].txn
  }

  // Granted requests of different transactions are compatible
  ghost predicate Safe(q: Queue) {
    forall i, j :: 0 <= i < |q| && 0 <= j < |q| && i != j && q[i].granted && q[j].granted ==>
      Compatible(q[i].mode, q[j].mode)
  }

  // Every waiting request up to n has a conflicting granted request of another transaction
  ghost predicate SettledTo(q: Queue, n: nat)
    requires n <= |q|
  {
    forall i :: 0 <= i < n && !q[i].granted ==> !CanGrant(q, q[i].txn, q[i].mode)
  }

  ghost predicate QueueOk(q: Queue) {
    OneEach(q) && Safe(q) && SettledTo(q, |q|)
  }

  // No other request is granted beside an AccessExclusive one, and beside an Exclusive one only AccessShare
  ghost predicate Excludes(q: Queue) {
    forall i, j :: 0 <= i < |q| && 0 <= j < |q| && i != j && q[i].granted && q[j].granted ==>
      q[i].mode != AccessExclusive && (q[i].mode == Exclusive ==> q[j].mode == AccessShare)
  }

  // Request j, granted to somebody else, is why request i waits
  ghost predicate Hinders(q: Queue, j: nat, i: nat)
    requires i < |q| && j < |q|
  {
    && q[j].granted && q[j].txn != q[i].txn
    && match q[i].mode
       case AccessShare => q[j].mode == AccessExclusive
       case RowExclusive => q[j].mode == Exclusive || q[j].mode == AccessExclusive
       case Exclusive => q[j].mode != AccessShare
       case AccessExclusive => true
  }

  // Nobody waits without a reason
  ghost predicate Justified(q: Queue) {
    forall i :: 0 <= i < |q| && !q[i].granted ==> exists j :: 0 <= j < |q| && Hinders(q, j, i)
  }

  // What a sound queue means, mode by mode
  lemma QueueMeaning(q: Queue)
    requires OneEach(q)
    ensures QueueOk(q) <==> Excludes(q) && Justified(q)
  {
    if QueueOk(q) {
      forall i | 0 <= i < |q| && !q[i].granted ensures exists j :: 0 <= j < |q| && Hinders(q, j, i) {
        assert !CanGrant(q, q[i].txn, q[i].mode);
        var j :| 0 <= j < |q| && q[j].granted && q[j].txn != q[i].txn
                 && !(Compatible(q[j].mode, q[i].mode) && Compatible(q[i].mode, q[j].mode));
        assert Hinders(q, j, i);
      }
    }
  }

  // Same requests, possibly more of them granted
  ghost predicate Grown(q: Queue, r: Queue) {
    && |r| == |q|
    && forall i :: 0 <= i < |q| ==> r[i].txn == q[i].txn && r[i].mode == q[i].mode && (q[i].granted ==> r[i].granted)
  }

  lemma GrantOne(q: Queue, i: nat)
    requires i < |q| && OneEach(q) && Safe(q) && SettledTo(q, i)
    requires !q[i].granted && CanGrant(q, q[i].txn, q[i].mode)
    ensures var q' := q[i := q[i].(granted := true)];
            OneEach(q') && Safe(q') && SettledTo(q', i + 1) && Grown(q, q')
  {
    var q' := q[i := q[i].(granted := true)];
    forall k | 0 <= k < i && !q'[k].granted ensures !CanGrant(q', q'[k].txn, q'[k].mode) {
      assert !CanGrant(q, q[k].txn, q[k].mode);
      var j :| 0 <= j < |q| && q[j].granted && q[j].txn != q[k].txn
               && !(Compatible(q[j].mode, q[k].mode) && Compatible(q[k].mode, q[j].mode));
      assert q'[j].granted && q'[j].txn != q'[k].txn;
    }
  }

  // One pass settles the queue, although grants of the pass affect later ones
  lemma {:induction false} PassSettles(q: Queue, i: nat)
    requires i <= |q| && OneEach(q) && Safe(q) && SettledTo(q, i)
    ensures QueueOk(GrantFrom(q, i)) && Grown(q, GrantFrom(q, i))
    decreases |q| - i
  {
    if i < |q| {
      if !q[i].granted && CanGrant(q, q[i].txn, q[i].mode) {
        GrantOne(q, i);
        var q' := q[i := q[i].(granted := true)];
        PassSettles(q', i + 1);
        GrownTwice(q, q', GrantFrom(q', i + 1));
      } else {
        PassSettles(q, i + 1);
      }
    }
  }

  lemma GrownTwice(q: Queue, q': Queue, r: Queue)
    requires Grown(q, q') && Grown(q', r)
    ensures Grown(q, r)
  {
  }

  // A second pass changes nothing
  lemma {:induction false} PassIdle(q: Queue, i: nat)
    requires i <= |q| && SettledTo(q, |q|)
    ensures GrantFrom(q, i) == q
    decreases |q| - i
  {
    if i < |q| { PassIdle(q, i + 1); }
  }

  // A new request is granted at once exactly when nothing granted stands against it,
  // and it changes nobody else
  lemma {:induction false} PassAppended(q: Queue, i: nat, req: Request)
    requires i <= |q| && SettledTo(q, |q|) && !req.granted
    ensures GrantFrom(q + [req], i) == q + [req.(granted := CanGrant(q, req.txn, req.mode))]
    decreases |q| - i
  {
    var qr := q + [req];
    forall t, m ensures CanGrant(qr, t, m) == CanGrant(q, t, m) {
      assert forall k :: 0 <= k < |q| ==> qr[k] == q[k];
      if CanGrant(qr, t, m) {
        forall k | 0 <= k < |q| && q[k].granted && q[k].txn != t
          ensures Compatible(q[k].mode, m) && Compatible(m, q[k].mode)
        {
          assert qr[k] == q[k];
        }
      }
    }
    if i < |q| {
      assert qr[i] == q[i];
      PassAppended(q, i + 1, req);
    } else {
      assert qr[i] == req;
      assert qr[i := req.(granted := true)] == q + [req.(granted := true)];
      assert qr == q + [req.(granted := false)];
    }
  }

  lemma AppendedOk(q: Queue, req: Request)
    requires QueueOk(q) && forall i :: 0 <= i < |q| ==> q[i].txn != req.txn
    requires req.granted == CanGrant(q, req.txn, req.mode)
    ensures QueueOk(q + [req])
  {
    var r := q + [req];
    PassAppended(q, 0, req.(granted := false));
    assert OneEach(q + [req.(granted := false)]) && Safe(q + [req.(granted := false)]);
    PassSettles(q + [req.(granted := false)], 0);
  }

  // ---------------------------------------------------------------------------
  // Removing requests
  // ---------------------------------------------------------------------------

  // The queue without the requests of one transaction
  function Without(q: Queue, txn: Txn): Queue {
    if q == [] then []
    else if q[0].txn == txn then Without(q[1..], txn)
    else [q[0]] + Without(q[1..], txn)
  }

  lemma {:induction false} WithoutAppend(q: Queue, r: Queue, txn: Txn)
    ensures Without(q + r, txn) == Without(q, txn) + Without(r, txn)
  {
    if q == [] {
      assert q + r == r;
    } else {
      assert (q + r)[1..] == q[1..] + r;
      WithoutAppend(q[1..], r, txn);
    }
  }

  lemma {:induction false} WithoutMembers(q: Queue, txn: Txn)
    ensures forall x :: x in Without(q, txn) <==> x in q && x.txn != txn
  {
    if q != [] {
      WithoutMembers(q[1..], txn);
      assert q == [q[0]] + q[1..];
    }
  }

  lemma {:induction false} WithoutKeeps(q: Queue, txn: Txn)
    requires OneEach(q)
    ensures OneEach(Without(q, txn))
  {
    if q != [] {
      WithoutKeeps(q[1..], txn);
      WithoutMembers(q[1..], txn);
      if q[0].txn != txn {
        var rest := Without(q[1..], txn);
        forall k | 0 <= k < |rest| ensures rest[k].txn != q[0].txn {
          assert rest[k] in q[1..];
        }
        ConsOneEach(q[0], rest);
      }
    }
  }

  lemma ConsOneEach(x: Request, rest: Queue)
    requires OneEach(rest) && forall k :: 0 <= k < |rest| ==> rest[k].txn != x.txn
    ensures OneEach([x] + rest)
  {
    var r := [x] + rest;
    assert forall k :: 0 < k < |r| ==> r[k] == rest[k - 1];
  }

  lemma {:induction false} AbsentWithoutSame(q: Queue, txn: Txn)
    requires forall i :: 0 <= i < |q| ==> q[i].txn != txn
    ensures Without(q, txn) == q
  {
    if q != [] { AbsentWithoutSame(q[1..], txn); }
  }

  // With one request per transaction, taking out that request takes out the transaction
  lemma {:induction false} RemovedOne(q: Queue, i: nat)
    requires OneEach(q) && i < |q|
    ensures Without(q, q[i].txn) == q[..i] + q[i + 1..]
    decreases i
  {
    var rest := q[1..];
    assert forall k :: 0 <= k < |rest| ==> rest[k] == q[k + 1];
    if i == 0 {
      AbsentWithoutSame(rest, q[0].txn);
      assert q[..0] + rest == rest;
    } else {
      RemovedOne(rest, i - 1);
      assert q[..i] == [q[0]] + rest[..i - 1] && q[i + 1..] == rest[i..];
      assert [q[0]] + (rest[..i - 1] + rest[i..]) == q[..i] + q[i + 1..];
    }
  }

  lemma AbsentWithout(q: Queue, req: Request)
    requires forall i :: 0 <= i < |q| ==> q[i].txn != req.txn
    ensures Without(q + [req], req.txn) == q
  {
    WithoutAppend(q, [req], req.txn);
    AbsentWithoutSame(q, req.txn);
  }

  // With one request per transaction, safety can be said about members
  lemma SafeMembers(q: Queue)
    requires OneEach(q)
    ensures Safe(q) <==>
              forall x, y :: x in q && y in q && x.txn != y.txn && x.granted && y.granted ==> Compatible(x.mode, y.mode)
  {
    if Safe(q) {
      forall x, y | x in q && y in q && x.txn != y.txn && x.granted && y.granted ensures Compatible(x.mode, y.mode) {
        var i :| 0 <= i < |q| && q[i] == x;
        var j :| 0 <= j < |q| && q[j] == y;
      }
    }
  }

  lemma WithoutSafe(q: Queue, txn: Txn)
    requires OneEach(q) && Safe(q)
    ensures OneEach(Without(q, txn)) && Safe(Without(q, txn))
  {
    WithoutKeeps(q, txn);
    WithoutMembers(q, txn);
    SafeMembers(q);
    SafeMembers(Without(q, txn));
  }

  // Dropping a waiting request disturbs nobody
  lemma DropWaiting(q: Queue, txn: Txn)
    requires QueueOk(q)
    requires forall i :: 0 <= i < |q| && q[i].txn == txn ==> !q[i].granted
    ensures QueueOk(Without(q, txn))
  {
    var r := Without(q, txn);
    WithoutSafe(q, txn);
    WithoutMembers(q, txn);
    forall k | 0 <= k < |r| && !r[k].granted ensures !CanGrant(r, r[k].txn, r[k].mode) {
      assert r[k] in q;
      var i :| 0 <= i < |q| && q[i] == r[k];
      assert !CanGrant(q, q[i].txn, q[i].mode);
      var j :| 0 <= j < |q| && q[j].granted && q[j].txn != q[i].txn
               && !(Compatible(q[j].mode, q[i].mode) && Compatible(q[i].mode, q[j].mode));
      assert q[j] in r;
    }
  }

  // ---------------------------------------------------------------------------
  // Upgrading in place
  // ---------------------------------------------------------------------------

  lemma UpgradeOk(q: Queue, i: nat, mode: Mode)
    requires QueueOk(q) && i < |q| && q[i].granted && Strength(q[i].mode) <= Strength(mode)
    requires forall j :: 0 <= j < |q| && j != i && q[j].granted ==> Compatible(q[j].mode, mode)
    ensures QueueOk(q[i := q[i].(mode := mode)])
  {
    var r := q[i := q[i].(mode := mode)];
    forall j | 0 <= j < |q| ensures Compatible(mode, q[j].mode) == Compatible(q[j].mode, mode) {}
    forall k | 0 <= k < |r| && !r[k].granted ensures !CanGrant(r, r[k].txn, r[k].mode) {
      assert !CanGrant(q, q[k].txn, q[k].mode);
      var j :| 0 <= j < |q| && q[j].granted && q[j].txn != q[k].txn
               && !(Compatible(q[j].mode, q[k].mode) && Compatible(q[k].mode, q[j].mode));
      MatrixShape(q[j].mode, q[k].mode, mode);
      MatrixShape(mode, q[k].mode, mode);
      assert r[j].granted && r[j].txn != r[k].txn;
    }
  }
}
