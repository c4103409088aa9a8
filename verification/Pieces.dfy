/** Pieces of a sequence in their places. */
module Pieces {

  // The piece stands in s at p
  ghost predicate Holds<T>(s: seq<T>, p: nat, piece: seq<T>) {
    p + |piece| <= |s| && forall i {:trigger piece[i]} :: 0 <= i < |piece| ==> s[p + i] == piece[i]
  }

  lemma Cut<T>(s: seq<T>, p: nat, piece: seq<T>)
    requires Holds(s, p, piece)
    ensures s[p..p + |piece|] == piece
  {
  }

  lemma Halves<T>(s: seq<T>, p: nat, a: seq<T>, b: seq<T>)
    requires Holds(s, p, a + b)
    ensures Holds(s, p, a) && Holds(s, p + |a|, b)
  {
    forall i | 0 <= i < |a| ensures s[p + i] == a[i] { assert (a + b)[i] == a[i]; }
    forall i | 0 <= i < |b| ensures s[p + |a| + i] == b[i] { assert (a + b)[|a| + i] == b[i]; }
  }

  lemma Whole<T>(s: seq<T>, more: seq<T>)
    ensures Holds(s + more, 0, s)
  {
  }

  // The first n pieces one after the other
  function Concat<T>(ps: seq<seq<T>>, n: nat): (s: seq<T>)
    requires n <= |ps|
    ensures |s| == Offset(ps, n)
  {
    if n == 0 then [] else Concat(ps, n - 1) + ps[n - 1]
  }

  // Where the n-th piece begins
  function Offset<T>(ps: seq<seq<T>>, n: nat): nat
    requires n <= |ps|
  {
    if n == 0 then 0 else Offset(ps, n - 1) + |ps[n - 1]|
  }

  lemma {:induction false} OffsetGrows<T>(ps: seq<seq<T>>, i: nat, n: nat)
    requires i <= n <= |ps|
    ensures Offset(ps, i) <= Offset(ps, n)
    decreases n
  {
    if i < n { OffsetGrows(ps, i, n - 1); }
  }

  // Each piece stands at its offset
  lemma {:induction false} Piece<T>(s: seq<T>, p: nat, ps: seq<seq<T>>, n: nat, i: nat)
    requires i < n <= |ps| && Holds(s, p, Concat(ps, n))
    ensures Holds(s, p + Offset(ps, i), ps[i]) && Offset(ps, i + 1) <= Offset(ps, n)
    decreases n
  {
    Halves(s, p, Concat(ps, n - 1), ps[n - 1]);
    if i < n - 1 { Piece(s, p, ps, n - 1, i); }
  }
}
