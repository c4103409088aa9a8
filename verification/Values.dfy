/** Column values and their byte form: one type byte, then the data. */
module Values {
  import opened Arithmetic
  import opened Pieces
  import opened Options

  type Bytes = seq<nat>

  // Floats are their bit patterns
  datatype Value =
    | Bool(b: bool) | Int32(v: int) | Int64(v: int) | Float(bits: nat) | Double(bits: nat)
    | Varchar(text: Bytes) | Timestamp(v: int) | Datetime(v: int) | Null

  const U16: nat := 0x1_0000
  const U32: nat := 0x1_0000_0000
  const U64: nat := 0x1_0000_0000_0000_0000

  // enum class TypeId
  function TypeOf(v: Value): (t: nat)
    ensures t < 256
  {
    match v
    case Bool(_) => 0
    case Int32(_) => 1
    case Int64(_) => 2
    case Float(_) => 3
    case Double(_) => 4
    case Varchar(_) => 5
    case Timestamp(_) => 6
    case Datetime(_) => 7
    case Null => 255
  }

  // A value the machine types can hold, its text short enough for the length field of w bytes
  predicate Fitting(v: Value, w: nat) {
    match v
    case Bool(_) => true
    case Int32(x) => -0x8000_0000 <= x < 0x8000_0000
    case Int64(x) => -0x8000_0000_0000_0000 <= x < 0x8000_0000_0000_0000
    case Timestamp(x) => -0x8000_0000_0000_0000 <= x < 0x8000_0000_0000_0000
    case Datetime(x) => -0x8000_0000_0000_0000 <= x < 0x8000_0000_0000_0000
    case Float(x) => x < U32
    case Double(x) => x < U64
    case Varchar(s) => |s| < Pow256(w)
    case Null => true
  }

  function Pow256(n: nat): (p: nat)
    ensures p >= 1
  {
    if n == 0 then 1 else 256 * Pow256(n - 1)
  }

  lemma Pows()
    ensures Pow256(2) == U16 && Pow256(4) == U32 && Pow256(8) == U64
  {
    assert Pow256(1) == 256 && Pow256(3) == 0x100_0000;
    assert Pow256(5) == 0x100_0000_0000 && Pow256(6) == 0x1_0000_0000_0000 && Pow256(7) == 0x100_0000_0000_0000;
  }

  // ---------------------------------------------------------------------------
  // Integers, little-endian
  // ---------------------------------------------------------------------------

  function Le(u: nat, n: nat): (b: Bytes)
    ensures |b| == n
  {
    seq(n, i requires 0 <= i < n => u / Pow256(i) % 256)
  }

  function FromLe(b: Bytes): nat {
    if b == [] then 0 else b[0] + 256 * FromLe(b[1..])
  }

  lemma {:induction false} LeInverse(u: nat, n: nat)
    requires u < Pow256(n)
    ensures FromLe(Le(u, n)) == u
    decreases n
  {
    if n > 0 {
      LeInverse(u / 256, n - 1);
      var b, c := Le(u, n), Le(u / 256, n - 1);
      assert b[0] == u % 256 by { assert Pow256(0) == 1; }
      forall i | 0 <= i < n - 1 ensures b[1..][i] == c[i] { NextByte(u, i); }
      assert b[1..] == c;
    }
  }

  // Shifting by one byte
  lemma NextByte(u: nat, i: nat)
    ensures u / Pow256(i + 1) == u / 256 / Pow256(i)
  {
    var p := Pow256(i);
    var q, r := u / 256 / p, u / 256 % p;
    assert u / 256 == p * q + r;
    assert u == 256 * (p * q + r) + u % 256;
    assert 256 * (p * q) == 256 * p * q;
    DivUnique(u, 256 * p, q, 256 * r + u % 256);
  }

  // Two's complement in a modulus m
  function Wrap(v: int, m: nat): nat
    requires m > 0
  {
    v % m
  }

  function ToSigned(u: nat, m: nat): int {
    if u >= m / 2 then u - m else u
  }

  // ---------------------------------------------------------------------------
  // One value, its text preceded by a length of w bytes
  // ---------------------------------------------------------------------------

  // The data bits of a value of fixed size
  function Bits(v: Value): nat {
    match v
    case Bool(x) => if x then 1 else 0
    case Int32(x) => Wrap(x, U32)
    case Int64(x) => Wrap(x, U64)
    case Timestamp(x) => Wrap(x, U64)
    case Datetime(x) => Wrap(x, U64)
    case Float(x) => x
    case Double(x) => x
    case _ => 0
  }

  function Payload(v: Value, w: nat): Bytes {
    if v.Varchar? then Le(|v.text|, w) + v.text else Le(Bits(v), Size(TypeOf(v)))
  }

  function Encoded(v: Value, w: nat): Bytes {
    [TypeOf(v)] + Payload(v, w)
  }

  // The number of data bytes behind each type byte of fixed size
  function Size(t: nat): nat {
    if t == 0 then 1 else if t == 1 || t == 3 then 4 else if t == 2 || t == 4 || t == 6 || t == 7 then 8 else 0
  }

  // n bytes at p, not beyond end
  function Take(b: Bytes, p: nat, end: nat, n: nat): Option<Bytes>
    requires end <= |b|
  {
    if p + n <= end then Some(b[p..p + n]) else None
  }

  // read_value_bounded and the switch of IndexKey::decode; they differ in the length field and in unknown types
  function ReadValue(b: Bytes, p: nat, end: nat, w: nat, lenient: bool): (r: Option<(Value, nat)>)
    requires end <= |b|
    ensures r.Some? ==> p < r.value.1 <= end
  {
    if p >= end then None
    else
      var t := b[p];
      if t == 5 then
        var len := Take(b, p + 1, end, w);
        if len.None? then None
        else
          var n := FromLe(len.value);
          var text := Take(b, p + 1 + w, end, n);
          if text.None? then None else Some((Varchar(text.value), p + 1 + w + n))
      else if t == 255 || (t > 7 && lenient) then Some((Null, p + 1))
      else if t > 7 then None
      else
        var data := Take(b, p + 1, end, Size(t));
        if data.None? then None else Some((FromData(t, data.value), p + 1 + Size(t)))
  }

  function FromData(t: nat, data: Bytes): Value
    requires t != 5 && t <= 7 && |data| == Size(t)
  {
    var u := FromLe(data);
    match t
    case 0 => Bool(u == 1)
    case 1 => Int32(ToSigned(u, U32))
    case 2 => Int64(ToSigned(u, U64))
    case 3 => Float(u)
    case 4 => Double(u)
    case 6 => Timestamp(ToSigned(u, U64))
    case _ => Datetime(ToSigned(u, U64))
  }

  // skip_value_bounded
  function SkipValue(b: Bytes, p: nat, end: nat, w: nat): Option<nat>
    requires end <= |b|
  {
    if p >= end then None
    else
      var t := b[p];
      if t == 5 then
        var len := Take(b, p + 1, end, w);
        if len.None? || p + 1 + w + FromLe(len.value) > end then None else Some(p + 1 + w + FromLe(len.value))
      else if t == 255 then Some(p + 1)
      else if t > 7 || p + 1 + Size(t) > end then None
      else Some(p + 1 + Size(t))
  }

  // Skipping goes where reading goes, and fails where reading fails
  lemma SkipAgrees(b: Bytes, p: nat, end: nat, w: nat)
    requires end <= |b|
    ensures SkipValue(b, p, end, w) ==
            match ReadValue(b, p, end, w, false) { case None => None case Some(r) => Some(r.1) }
  {
  }

  lemma LeBack(b: Bytes, p: nat, u: nat, n: nat)
    requires u < Pow256(n) && Holds(b, p, Le(u, n))
    ensures FromLe(b[p..p + n]) == u
  {
    Cut(b, p, Le(u, n));
    LeInverse(u, n);
  }

  // Reading gives back what was encoded
  lemma ReadBack(b: Bytes, p: nat, end: nat, v: Value, w: nat, lenient: bool)
    requires end <= |b| && Fitting(v, w) && Holds(b, p, Encoded(v, w)) && p + |Encoded(v, w)| <= end
    ensures ReadValue(b, p, end, w, lenient) == Some((v, p + |Encoded(v, w)|))
  {
    Halves(b, p, [TypeOf(v)], Payload(v, w));
    assert [TypeOf(v)][0] == b[p];
    if v.Varchar? {
      Halves(b, p + 1, Le(|v.text|, w), v.text);
      LeBack(b, p + 1, |v.text|, w);
      Cut(b, p + 1 + w, v.text);
    } else if !v.Null? {
      Cut(b, p + 1, Payload(v, w));
      DataBack(v, w);
    }
  }

  lemma SizePow(t: nat)
    requires t <= 7 && t != 5
    ensures Pow256(Size(t)) == if t == 0 then 256 else if t == 1 || t == 3 then U32 else U64
  {
    Pows();
  }

  lemma DataBack(v: Value, w: nat)
    requires Fitting(v, w) && !v.Varchar? && !v.Null?
    ensures |Payload(v, w)| == Size(TypeOf(v)) && FromData(TypeOf(v), Payload(v, w)) == v
  {
    SizePow(TypeOf(v));
    if v.Int32? {
      SignedBack(v.v, U32);
    } else if v.Int64? || v.Timestamp? || v.Datetime? {
      SignedBack(v.v, U64);
    }
    LeInverse(Bits(v), Size(TypeOf(v)));
  }

  lemma SignedBack(x: int, m: nat)
    requires m > 0 && m % 2 == 0 && -(m / 2) <= x < m / 2
    ensures Wrap(x, m) < m && ToSigned(Wrap(x, m), m) == x
  {
    if x >= 0 { DivUnique(x, m, 0, x); } else { DivUnique(x, m, -1, x + m); }
  }
}
