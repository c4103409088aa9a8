/** Comparing two sequences place by place, the shorter one first where one is a
    beginning of the other. `cmp` may differ from place to place. */
module Lexicographic {

  function Sign(x: int): int {
    if x < 0 then -1 else if x > 0 then 1 else 0
  }

  function CompareInt(a: int, b: int): int {
    if a < b then -1 else if a > b then 1 else 0
  }

  function Lex<T>(cmp: (nat, T, T) -> int, a: seq<T>, b: seq<T>, i: nat): int
    decreases |a| - i
  {
    if i >= |a| || i >= |b| then CompareInt(|a|, |b|)
    else if cmp(i, a[i], b[i]) != 0 then cmp(i, a[i], b[i])
    else Lex(cmp, a, b, i + 1)
  }

  ghost predicate Antisymmetric<T(!new)>(cmp: (nat, T, T) -> int) {
    forall j: nat, x, y {:trigger cmp(j, x, y)} :: Sign(cmp(j, x, y)) == -Sign(cmp(j, y, x))
  }

  // Not above, and level only through levels
  ghost predicate Transitive<T(!new)>(cmp: (nat, T, T) -> int) {
    forall j: nat, x, y, z {:trigger cmp(j, x, y), cmp(j, y, z)} ::
      cmp(j, x, y) <= 0 && cmp(j, y, z) <= 0 ==>
        cmp(j, x, z) <= 0 && (cmp(j, x, z) == 0 <==> cmp(j, x, y) == 0 && cmp(j, y, z) == 0)
  }

  lemma {:induction false} LexAntisymmetric<T(!new)>(cmp: (nat, T, T) -> int, a: seq<T>, b: seq<T>, i: nat)
    requires Antisymmetric(cmp)
    ensures Sign(Lex(cmp, a, b, i)) == -Sign(Lex(cmp, b, a, i))
    decreases |a| - i
  {
    if i < |a| && i < |b| {
      assert Sign(cmp(i, a[i], b[i])) == -Sign(cmp(i, b[i], a[i]));
      LexAntisymmetric(cmp, a, b, i + 1);
    }
  }

  lemma {:induction false} LexTransitive<T(!new)>(cmp: (nat, T, T) -> int, a: seq<T>, b: seq<T>, c: seq<T>, i: nat)
    requires Transitive(cmp) && i <= |a| && i <= |b| && i <= |c|
    requires Lex(cmp, a, b, i) <= 0 && Lex(cmp, b, c, i) <= 0
    ensures Lex(cmp, a, c, i) <= 0
    ensures Lex(cmp, a, c, i) == 0 <==> Lex(cmp, a, b, i) == 0 && Lex(cmp, b, c, i) == 0
    decreases |a| - i
  {
    if i < |a| && i < |b| && i < |c| {
      var x, y, z := a[i], b[i], c[i];
      assert cmp(i, x, y) <= 0 && cmp(i, y, z) <= 0;
      if cmp(i, x, y) == 0 && cmp(i, y, z) == 0 { LexTransitive(cmp, a, b, c, i + 1); }
    }
  }

  // Level exactly if of one length and level at every place
  lemma {:induction false} LexLevel<T>(cmp: (nat, T, T) -> int, a: seq<T>, b: seq<T>, i: nat)
    requires i <= |a| && i <= |b|
    ensures Lex(cmp, a, b, i) == 0 <==> |a| == |b| && forall k :: i <= k < |a| ==> cmp(k, a[k], b[k]) == 0
    decreases |a| - i
  {
    if i < |a| && i < |b| { LexLevel(cmp, a, b, i + 1); }
  }

  // A first difference decides
  lemma {:induction false} LexDecides<T>(cmp: (nat, T, T) -> int, a: seq<T>, b: seq<T>, i: nat, k: nat)
    requires i <= k < |a| && k < |b| && cmp(k, a[k], b[k]) != 0
    requires forall j :: i <= j < k ==> cmp(j, a[j], b[j]) == 0
    ensures Lex(cmp, a, b, i) == cmp(k, a[k], b[k])
    decreases k - i
  {
    if i < k { LexDecides(cmp, a, b, i + 1, k); }
  }

  // Less exactly if there is a place up to which all is level, and where the first is less or ends
  lemma {:induction false} LexBelow<T>(cmp: (nat, T, T) -> int, a: seq<T>, b: seq<T>, i: nat) returns (k: nat)
    requires i <= |a| && i <= |b|
    ensures Lex(cmp, a, b, i) < 0 ==>
              && i <= k <= |a| && k < |b| && (forall j :: i <= j < k ==> cmp(j, a[j], b[j]) == 0)
              && (k < |a| ==> cmp(k, a[k], b[k]) < 0)
    decreases |a| - i
  {
    k := i;
    if i < |a| && i < |b| && cmp(i, a[i], b[i]) == 0 { k := LexBelow(cmp, a, b, i + 1); }
  }

  lemma {:induction false} LexEnds<T>(cmp: (nat, T, T) -> int, a: seq<T>, b: seq<T>, i: nat)
    requires i <= |a| < |b| && forall j :: i <= j < |a| ==> cmp(j, a[j], b[j]) == 0
    ensures Lex(cmp, a, b, i) < 0
    decreases |a| - i
  {
    if i < |a| { LexEnds(cmp, a, b, i + 1); }
  }
}
