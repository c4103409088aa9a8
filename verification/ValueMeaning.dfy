/** What it means for one value, or one index key, to come before another: said with numbers,
    texts and columns, without the code that compares them. */
module ValueMeanings {
  import opened Values

  // ---------------------------------------------------------------------------
  // Floats
  // ---------------------------------------------------------------------------

  function Power2(n: nat): (p: nat)
    ensures p >= 1
  {
    if n == 0 then 1 else 2 * Power2(n - 1)
  }

  // A float format (IEEE 754, section 3.4): how many bits the fraction has, where the sign bit stands, and the pattern
  // of infinity
  datatype Format = Format(fraction: nat, signBit: nat, infinity: nat)

  const SINGLE: Format := Format(23, 0x8000_0000, 0x7f80_0000)
  const DOUBLE: Format := Format(52, 0x8000_0000_0000_0000, 0x7ff0_0000_0000_0000)

  // The pattern without its sign
  function Magnitude(f: Format, bits: nat): nat {
    if bits >= f.signBit then bits - f.signBit else bits
  }

  predicate NotANumber(f: Format, bits: nat) {
    Magnitude(f, bits) > f.infinity
  }

  // The number that exponent and fraction stand for, in units of the smallest positive number of the format: patterns
  // with exponent 0 or 1 count these, and one more in the exponent doubles. Infinity comes out above all finite
  // numbers.
  ghost function Amount(f: Format, m: nat): nat
    decreases m
  {
    var unit := Power2(f.fraction);
    if m < 2 * unit then m else 2 * Amount(f, m - unit)
  }

  // Which is the number of the standard: fraction, the hidden bit unless the exponent is 0, and a power of two
  lemma {:induction false} AmountIs(f: Format, exponent: nat, fraction: nat, m: nat)
    requires fraction < Power2(f.fraction) && m == exponent * Power2(f.fraction) + fraction
    ensures Amount(f, m) ==
            if exponent == 0 then fraction else Power2(exponent - 1) * (Power2(f.fraction) + fraction)
    decreases exponent
  {
    var unit := Power2(f.fraction);
    if exponent == 1 {
      assert m == unit + fraction;
    } else if exponent > 1 {
      OneLess(exponent, unit, fraction);
      AmountIs(f, exponent - 1, fraction, m - unit);
      Twice(Power2(exponent - 2), unit + fraction);
    }
  }

  lemma OneLess(e: nat, unit: nat, r: nat)
    requires e > 1
    ensures e * unit + r - unit == (e - 1) * unit + r && e * unit + r >= 2 * unit
  {
    assert e * unit == (e - 2) * unit + 2 * unit;
    assert (e - 2) * unit >= 0;
  }

  lemma Twice(p: nat, x: nat)
    ensures 2 * (p * x) == 2 * p * x
  {
  }

  ghost function Number(f: Format, bits: nat): int {
    var n: int := Amount(f, Magnitude(f, bits));
    if bits >= f.signBit then -n else n
  }

  // By number, and NaN above everything
  ghost predicate FloatBelow(f: Format, a: nat, b: nat) {
    !NotANumber(f, a) && (NotANumber(f, b) || Number(f, a) < Number(f, b))
  }

  lemma {:induction false} AmountAtLeast(f: Format, m: nat)
    ensures Amount(f, m) >= m
    decreases m
  {
    if m >= 2 * Power2(f.fraction) { AmountAtLeast(f, m - Power2(f.fraction)); }
  }

  // The larger the pattern, the larger the number
  lemma {:induction false} AmountRises(f: Format, a: nat, b: nat)
    requires a < b
    ensures Amount(f, a) < Amount(f, b)
    decreases b
  {
    var unit := Power2(f.fraction);
    AmountAtLeast(f, b);
    if a >= 2 * unit { AmountRises(f, a - unit, b - unit); }
  }

  lemma SameOrder(f: Format, m: nat, n: nat)
    ensures m < n <==> Amount(f, m) < Amount(f, n)
  {
    if m < n { AmountRises(f, m, n); }
    if n < m { AmountRises(f, n, m); }
  }

  // So numbers compare as signed patterns do
  lemma NumberOrder(f: Format, a: nat, b: nat)
    ensures var m: int, n: int := Magnitude(f, a), Magnitude(f, b);
            Number(f, a) < Number(f, b) <==> (if a >= f.signBit then -m else m) < if b >= f.signBit then -n else n
  {
    var m, n := Magnitude(f, a), Magnitude(f, b);
    SameOrder(f, m, n);
    SameOrder(f, n, m);
    SameOrder(f, 0, m);
    SameOrder(f, 0, n);
  }

  // ---------------------------------------------------------------------------
  // Values
  // ---------------------------------------------------------------------------

  // A proper beginning, or a smaller byte where the texts part
  ghost predicate TextBelow(s: Bytes, t: Bytes) {
    s < t || exists k :: 0 <= k < |s| && k < |t| && s[..k] == t[..k] && s[k] < t[k]
  }

  // Different types by their numbers, as stored in front of every value
  ghost predicate Below(a: Value, b: Value) {
    if TypeOf(a) != TypeOf(b) then TypeOf(a) < TypeOf(b)
    else
      match a
      case Null => false
      case Bool(x) => !x && b.b
      case Int32(x) => x < b.v
      case Int64(x) => x < b.v
      case Timestamp(x) => x < b.v
      case Datetime(x) => x < b.v
      case Float(x) => FloatBelow(SINGLE, x, b.bits)
      case Double(x) => FloatBelow(DOUBLE, x, b.bits)
      case Varchar(s) => TextBelow(s, b.text)
  }

  // The bits of a float are no more than the format has
  predicate Proper(v: Value) {
    (v.Float? ==> v.bits < U32) && (v.Double? ==> v.bits < U64)
  }

  // ---------------------------------------------------------------------------
  // Keys
  // ---------------------------------------------------------------------------

  // How a column of an index is ordered
  datatype Column = Column(descending: bool, nullsFirst: bool)

  // Beyond the end of the schema columns ascend, with NULLs first
  function ColumnAt(schema: seq<Column>, i: nat): Column {
    if i < |schema| then schema[i] else Column(false, true)
  }

  // Column i puts a before b: a descending column turns everything round, NULLs included
  ghost predicate ColumnBelow(schema: seq<Column>, i: nat, a: Value, b: Value) {
    var c := ColumnAt(schema, i);
    if a.Null? || b.Null? then a.Null? != b.Null? && (a.Null? <==> c.nullsFirst != c.descending)
    else if c.descending then Below(b, a) else Below(a, b)
  }

  // The keys agree up to column k, and there a comes first or ends
  ghost predicate PartsAt(schema: seq<Column>, a: seq<Value>, b: seq<Value>, k: nat) {
    && k <= |a| && k < |b|
    && (forall j :: 0 <= j < k ==> !ColumnBelow(schema, j, a[j], b[j]) && !ColumnBelow(schema, j, b[j], a[j]))
    && (k < |a| ==> ColumnBelow(schema, k, a[k], b[k]))
  }

  ghost predicate KeyBelow(schema: seq<Column>, a: seq<Value>, b: seq<Value>) {
    exists k: nat :: PartsAt(schema, a, b, k)
  }
}
