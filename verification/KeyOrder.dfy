/** How values and index keys compare, and that this orders them: NULLs, floats with NaN
    and two zeros, text, several columns with their own directions. */
module KeyOrders {
  import opened Lexicographic
  import opened Arithmetic
  import opened ValueMeanings
  import opened Values

  // ---------------------------------------------------------------------------
  // Values
  // ---------------------------------------------------------------------------

  // The sign bit of a float of w bytes, and the pattern of infinity (IEEE 754, section 3.4)
  function SignBit(w: nat): nat {
    if w == 4 then 0x8000_0000 else 0x8000_0000_0000_0000
  }

  function Infinity(w: nat): nat {
    if w == 4 then 0x7f80_0000 else 0x7ff0_0000_0000_0000
  }

  // x != x
  predicate IsNan(w: nat, bits: nat) {
    bits % SignBit(w) > Infinity(w)
  }

  // The number a float that is none stands for, on a scale that keeps the order: both zeros are 0
  function Measure(w: nat, bits: nat): int {
    if bits >= SignBit(w) then -(bits % SignBit(w)) else bits
  }

  // NaN is the greatest and equal to itself
  function CompareFloat(w: nat, a: nat, b: nat): int {
    if IsNan(w, a) || IsNan(w, b) then (if IsNan(w, a) then (if IsNan(w, b) then 0 else 1) else -1)
    else CompareInt(Measure(w, a), Measure(w, b))
  }

  function ByteDifference(i: nat, a: nat, b: nat): int {
    a - b
  }

  // String::compare: bytes first, then the length
  function CompareText(a: Bytes, b: Bytes): int {
    Lex(ByteDifference, a, b, 0)
  }

  // Value::compare
  function Compare(a: Value, b: Value): int {
    if TypeOf(a) != TypeOf(b) then TypeOf(a) - TypeOf(b)
    else
      match a
      case Null => 0
      case Bool(x) => CompareInt(if x then 1 else 0, if b.Bool? && b.b then 1 else 0)
      case Int32(x) => CompareInt(x, b.v)
      case Int64(x) => CompareInt(x, b.v)
      case Timestamp(x) => CompareInt(x, b.v)
      case Datetime(x) => CompareInt(x, b.v)
      case Float(x) => CompareFloat(4, x, b.bits)
      case Double(x) => CompareFloat(8, x, b.bits)
      case Varchar(s) => CompareText(s, b.text)
  }

  // Where a float stands among all floats of its width
  function FloatPlace(w: nat, bits: nat): int {
    if IsNan(w, bits) then SignBit(w) else Measure(w, bits)
  }

  lemma FloatPlaces(w: nat, a: nat, b: nat)
    ensures CompareFloat(w, a, b) == CompareInt(FloatPlace(w, a), FloatPlace(w, b))
  {
  }

  // Where a value that is no text stands among those of its type
  function Place(v: Value): int {
    match v
    case Bool(x) => if x then 1 else 0
    case Int32(x) => x
    case Int64(x) => x
    case Timestamp(x) => x
    case Datetime(x) => x
    case Float(x) => FloatPlace(4, x)
    case Double(x) => FloatPlace(8, x)
    case Varchar(_) => 0
    case Null => 0
  }

  lemma ComparePlaces(a: Value, b: Value)
    requires TypeOf(a) == TypeOf(b) && !a.Varchar?
    ensures Compare(a, b) == CompareInt(Place(a), Place(b))
  {
    if a.Float? { FloatPlaces(4, a.bits, b.bits); }
    if a.Double? { FloatPlaces(8, a.bits, b.bits); }
  }

  lemma CompareTurned(a: Value, b: Value)
    ensures Sign(Compare(a, b)) == -Sign(Compare(b, a))
  {
    if TypeOf(a) == TypeOf(b) {
      if a.Varchar? {
        LexAntisymmetric(ByteDifference, a.text, b.text, 0);
      } else {
        ComparePlaces(a, b);
        ComparePlaces(b, a);
      }
    }
  }

  lemma CompareChained(a: Value, b: Value, c: Value)
    requires Compare(a, b) <= 0 && Compare(b, c) <= 0
    ensures Compare(a, c) <= 0 && (Compare(a, c) == 0 <==> Compare(a, b) == 0 && Compare(b, c) == 0)
  {
    if TypeOf(a) == TypeOf(b) == TypeOf(c) {
      if a.Varchar? {
        LexTransitive(ByteDifference, a.text, b.text, c.text, 0);
      } else {
        ComparePlaces(a, b);
        ComparePlaces(b, c);
        ComparePlaces(a, c);
      }
    }
  }

  // One value to the comparison: the same, or floats that are both NaN or both zero
  ghost predicate Level(a: Value, b: Value) {
    || a == b
    || (a.Float? && b.Float? && LevelFloats(4, a.bits, b.bits))
    || (a.Double? && b.Double? && LevelFloats(8, a.bits, b.bits))
  }

  ghost predicate LevelFloats(w: nat, a: nat, b: nat) {
    || (IsNan(w, a) && IsNan(w, b))
    || (a % SignBit(w) == 0 && b % SignBit(w) == 0)
  }

  lemma WithoutSign(w: nat, bits: nat)
    requires bits < 2 * SignBit(w)
    ensures bits % SignBit(w) == if bits >= SignBit(w) then bits - SignBit(w) else bits
  {
  }

  lemma LevelFloat(w: nat, a: nat, b: nat)
    requires a < 2 * SignBit(w) && b < 2 * SignBit(w)
    ensures CompareFloat(w, a, b) == 0 <==> a == b || LevelFloats(w, a, b)
  {
    WithoutSign(w, a);
    WithoutSign(w, b);
  }

  lemma LevelValues(a: Value, b: Value)
    requires Fitting(a, 2) && Fitting(b, 2)
    ensures Compare(a, b) == 0 <==> Level(a, b)
  {
    if TypeOf(a) == TypeOf(b) {
      match a {
        case Varchar(s) => LexLevel(ByteDifference, s, b.text, 0);
        case Float(x) => LevelFloat(4, x, b.bits);
        case Double(x) => LevelFloat(8, x, b.bits);
        case _ =>
      }
    }
  }

  // ---------------------------------------------------------------------------
  // What the sign says
  // ---------------------------------------------------------------------------

  lemma TextMeans(s: Bytes, t: Bytes)
    ensures CompareText(s, t) < 0 <==> TextBelow(s, t)
  {
    var k := LexBelow(ByteDifference, s, t, 0);
    if CompareText(s, t) < 0 {
      assert forall j :: 0 <= j < k ==> s[j] == t[j] by {
        assert forall j :: 0 <= j < k ==> ByteDifference(j, s[j], t[j]) == 0;
      }
      assert s[..k] == t[..k];
      assert k == |s| ==> s == s[..k];
    }
    if s < t {
      LexEnds(ByteDifference, s, t, 0);
    } else if k :| 0 <= k < |s| && k < |t| && s[..k] == t[..k] && s[k] < t[k] {
      assert forall j :: 0 <= j < k ==> s[j] == s[..k][j] == t[j];
      LexDecides(ByteDifference, s, t, 0, k);
    }
  }

  lemma FloatMeans(w: nat, f: Format, a: nat, b: nat)
    requires (w == 4 && f == SINGLE) || (w == 8 && f == DOUBLE)
    requires a < 2 * SignBit(w) && b < 2 * SignBit(w)
    ensures CompareFloat(w, a, b) < 0 <==> FloatBelow(f, a, b)
  {
    WithoutSign(w, a);
    WithoutSign(w, b);
    NumberOrder(f, a, b);
  }

  // The comparison is negative exactly if the first value comes before the second
  lemma CompareMeans(a: Value, b: Value)
    requires Proper(a) && Proper(b)
    ensures Compare(a, b) < 0 <==> Below(a, b)
    ensures Compare(a, b) > 0 <==> Below(b, a)
  {
    CompareTurned(a, b);
    OneSided(a, b);
    OneSided(b, a);
  }

  lemma OneSided(a: Value, b: Value)
    requires Proper(a) && Proper(b)
    ensures Compare(a, b) < 0 <==> Below(a, b)
  {
    if TypeOf(a) == TypeOf(b) {
      match a {
        case Varchar(s) => TextMeans(s, b.text);
        case Float(x) => FloatMeans(4, SINGLE, x, b.bits);
        case Double(x) => FloatMeans(8, DOUBLE, x, b.bits);
        case _ =>
      }
    }
  }

  // ---------------------------------------------------------------------------
  // Keys
  // ---------------------------------------------------------------------------

  // compare_value_with_null_order
  function CompareNulls(a: Value, b: Value, nullsFirst: bool): int {
    if a.Null? || b.Null? then
      if a.Null? && b.Null? then 0 else if a.Null? then (if nullsFirst then -1 else 1) else if nullsFirst then 1 else -1
    else Compare(a, b)
  }

  // Column i; without a schema, or beyond its end, ascending with NULLs first
  function CompareColumn(schema: seq<Column>, i: nat, a: Value, b: Value): int {
    var descending := i < |schema| && schema[i].descending;
    var nullsFirst := i < |schema| ==> schema[i].nullsFirst;
    var c := CompareNulls(a, b, nullsFirst);
    if descending then -c else c
  }

  function ColumnOrder(schema: seq<Column>): (nat, Value, Value) -> int {
    (i: nat, a: Value, b: Value) => CompareColumn(schema, i, a, b)
  }

  // Columns from the left, then the shorter key first
  function CompareFrom(schema: seq<Column>, a: seq<Value>, b: seq<Value>, i: nat): int {
    Lex(ColumnOrder(schema), a, b, i)
  }

  lemma ColumnMeans(schema: seq<Column>, i: nat, a: Value, b: Value)
    requires Proper(a) && Proper(b)
    ensures CompareColumn(schema, i, a, b) < 0 <==> ColumnBelow(schema, i, a, b)
    ensures CompareColumn(schema, i, a, b) > 0 <==> ColumnBelow(schema, i, b, a)
  {
    CompareMeans(a, b);
  }

  ghost predicate AllProper(a: seq<Value>) {
    forall i :: 0 <= i < |a| ==> Proper(a[i])
  }

  // Comparing keys is negative exactly if the first comes before the second, by the first column that tells them apart
  lemma KeysMean(schema: seq<Column>, a: seq<Value>, b: seq<Value>)
    requires AllProper(a) && AllProper(b)
    ensures CompareFrom(schema, a, b, 0) < 0 <==> KeyBelow(schema, a, b)
  {
    var cmp := ColumnOrder(schema);
    forall j | 0 <= j < |a| && j < |b|
      ensures cmp(j, a[j], b[j]) < 0 <==> ColumnBelow(schema, j, a[j], b[j])
      ensures cmp(j, a[j], b[j]) > 0 <==> ColumnBelow(schema, j, b[j], a[j])
    {
      ColumnMeans(schema, j, a[j], b[j]);
    }
    var k := LexBelow(cmp, a, b, 0);
    if CompareFrom(schema, a, b, 0) < 0 { assert PartsAt(schema, a, b, k); }
    if KeyBelow(schema, a, b) {
      var k: nat :| PartsAt(schema, a, b, k);
      if k < |a| { LexDecides(cmp, a, b, 0, k); } else { LexEnds(cmp, a, b, 0); }
    }
  }

  // IndexKey::compare
  method CompareKeys(schema: seq<Column>, a: seq<Value>, b: seq<Value>) returns (c: int)
    ensures c == CompareFrom(schema, a, b, 0)
    ensures AllProper(a) && AllProper(b) ==> (c < 0 <==> KeyBelow(schema, a, b)) && (c > 0 <==> KeyBelow(schema, b, a))
    ensures c == 0 <==> |a| == |b| && forall k :: 0 <= k < |a| ==> CompareColumn(schema, k, a[k], b[k]) == 0
  {
    LexLevel(ColumnOrder(schema), a, b, 0);
    if AllProper(a) && AllProper(b) {
      KeysTurned(schema, a, b);
      KeysMean(schema, a, b);
      KeysMean(schema, b, a);
    }
    var n := if |a| < |b| then |a| else |b|;
    for i := 0 to n
      invariant CompareFrom(schema, a, b, 0) == CompareFrom(schema, a, b, i)
    {
      var descending := i < |schema| && schema[i].descending;
      var nullsFirst := i < |schema| ==> schema[i].nullsFirst;
      var cmp := CompareNulls(a[i], b[i], nullsFirst);
      if cmp != 0 { return if descending then -cmp else cmp; }
    }
    if |a| == |b| { return 0; }
    return if |a| < |b| then -1 else 1;
  }

  lemma ColumnTurned(schema: seq<Column>, i: nat, a: Value, b: Value)
    ensures Sign(CompareColumn(schema, i, a, b)) == -Sign(CompareColumn(schema, i, b, a))
  {
    CompareTurned(a, b);
  }

  lemma ColumnChained(schema: seq<Column>, i: nat, a: Value, b: Value, c: Value)
    requires CompareColumn(schema, i, a, b) <= 0 && CompareColumn(schema, i, b, c) <= 0
    ensures CompareColumn(schema, i, a, c) <= 0
    ensures CompareColumn(schema, i, a, c) == 0 <==>
              CompareColumn(schema, i, a, b) == 0 && CompareColumn(schema, i, b, c) == 0
  {
    CompareTurned(a, b);
    CompareTurned(b, c);
    CompareTurned(a, c);
    if !a.Null? && !b.Null? && !c.Null? {
      if i < |schema| && schema[i].descending { CompareChained(c, b, a); } else { CompareChained(a, b, c); }
    }
  }

  lemma ColumnsOrdered(schema: seq<Column>)
    ensures Antisymmetric(ColumnOrder(schema)) && Transitive(ColumnOrder(schema))
  {
    var cmp := ColumnOrder(schema);
    forall j: nat, x, y {:trigger cmp(j, x, y)} ensures Sign(cmp(j, x, y)) == -Sign(cmp(j, y, x)) {
      ColumnTurned(schema, j, x, y);
    }
    forall j: nat, x, y, z {:trigger cmp(j, x, y), cmp(j, y, z)} | cmp(j, x, y) <= 0 && cmp(j, y, z) <= 0
      ensures cmp(j, x, z) <= 0 && (cmp(j, x, z) == 0 <==> cmp(j, x, y) == 0 && cmp(j, y, z) == 0)
    {
      ColumnChained(schema, j, x, y, z);
    }
  }

  // Whichever way round two keys are compared, the verdict is the same
  lemma KeysTurned(schema: seq<Column>, a: seq<Value>, b: seq<Value>)
    ensures Sign(CompareFrom(schema, a, b, 0)) == -Sign(CompareFrom(schema, b, a, 0))
  {
    ColumnsOrdered(schema);
    LexAntisymmetric(ColumnOrder(schema), a, b, 0);
  }

  lemma KeysChained(schema: seq<Column>, a: seq<Value>, b: seq<Value>, c: seq<Value>)
    requires CompareFrom(schema, a, b, 0) <= 0 && CompareFrom(schema, b, c, 0) <= 0
    ensures CompareFrom(schema, a, c, 0) <= 0
    ensures CompareFrom(schema, a, c, 0) == 0 <==>
              CompareFrom(schema, a, b, 0) == 0 && CompareFrom(schema, b, c, 0) == 0
  {
    ColumnsOrdered(schema);
    LexTransitive(ColumnOrder(schema), a, b, c, 0);
  }

  // ---------------------------------------------------------------------------
  // Keys as numbers
  // ---------------------------------------------------------------------------

  // The keys of a collection that come before k
  ghost function Before(keys: set<seq<Value>>, k: seq<Value>): set<seq<Value>> {
    set x | x in keys && CompareFrom([], x, k, 0) < 0
  }

  ghost function Rank(keys: set<seq<Value>>, k: seq<Value>): nat {
    |Before(keys, k)|
  }

  lemma BeforeGrows(keys: set<seq<Value>>, a: seq<Value>, b: seq<Value>)
    requires CompareFrom([], a, b, 0) <= 0
    ensures Before(keys, a) <= Before(keys, b)
  {
    forall x | x in Before(keys, a) ensures x in Before(keys, b) { KeysChained([], x, a, b); }
  }

  // Numbers can stand for the keys of any collection: ranks compare as the keys do
  lemma RanksCompare(keys: set<seq<Value>>, a: seq<Value>, b: seq<Value>)
    requires a in keys && b in keys
    ensures Sign(CompareFrom([], a, b, 0)) == CompareInt(Rank(keys, a), Rank(keys, b))
    ensures Rank(keys, a) < |keys|
  {
    KeysTurned([], a, a);
    KeysTurned([], a, b);
    assert a !in Before(keys, a);
    RankBelow(keys, a, b);
    RankBelow(keys, b, a);
    SubsetSize(Before(keys, a), keys - {a});
  }

  lemma RankBelow(keys: set<seq<Value>>, a: seq<Value>, b: seq<Value>)
    requires a in keys && b in keys
    ensures CompareFrom([], a, b, 0) < 0 ==> Rank(keys, a) < Rank(keys, b)
    ensures CompareFrom([], a, b, 0) == 0 ==> Rank(keys, a) <= Rank(keys, b)
  {
    if CompareFrom([], a, b, 0) <= 0 {
      KeysTurned([], a, a);
      BeforeGrows(keys, a, b);
      assert a !in Before(keys, a);
      SubsetSize(Before(keys, a), Before(keys, b));
      if CompareFrom([], a, b, 0) < 0 { SubsetSize(Before(keys, a), Before(keys, b) - {a}); }
    }
  }
}
