/** Rows as stored in a page: a header, a bitmap of NULL columns, and the other values in order. */
module Tuples {
  import opened Pieces
  import opened Values
  import opened Options

  const HEADER: nat := 30
  // kMaxTupleColumns
  const MAX_COLUMNS: nat := 4096

  // ---------------------------------------------------------------------------
  // The NULL bitmap
  // ---------------------------------------------------------------------------

  // x & 1 << k
  predicate Bit(x: nat, k: nat) {
    if k == 0 then x % 2 == 1 else Bit(x / 2, k - 1)
  }

  // x | 1 << k
  function SetBit(x: nat, k: nat): nat {
    if k == 0 then (if x % 2 == 1 then x else x + 1) else 2 * SetBit(x / 2, k - 1) + x % 2
  }

  lemma {:induction false} BitSet(x: nat, k: nat, j: nat)
    ensures Bit(SetBit(x, k), j) <==> Bit(x, j) || j == k
    decreases k
  {
    if k == 0 {
      if j > 0 { assert SetBit(x, 0) / 2 == x / 2; }
    } else {
      var y := SetBit(x, k);
      assert y / 2 == SetBit(x / 2, k - 1) && y % 2 == x % 2;
      if j > 0 { BitSet(x / 2, k - 1, j - 1); }
    }
  }

  // Byte j of the bitmap after the first n columns
  function Marked(values: seq<Value>, n: nat, j: nat): nat
    requires n <= |values|
  {
    if n == 0 then 0
    else
      var x := Marked(values, n - 1, j);
      if values[n - 1].Null? && (n - 1) / 8 == j then SetBit(x, (n - 1) % 8) else x
  }

  // The bit of column m says whether it is NULL
  lemma {:induction false} MarkedBit(values: seq<Value>, n: nat, m: nat)
    requires n <= |values|
    ensures Bit(Marked(values, n, m / 8), m % 8) <==> m < n && values[m].Null?
    decreases n
  {
    if n == 0 {
      NoBit(m % 8);
    } else {
      MarkedBit(values, n - 1, m);
      if values[n - 1].Null? && (n - 1) / 8 == m / 8 {
        BitSet(Marked(values, n - 1, m / 8), (n - 1) % 8, m % 8);
        assert (n - 1) % 8 == m % 8 <==> n - 1 == m;
      }
    }
  }

  lemma {:induction false} NoBit(k: nat)
    ensures !Bit(0, k)
    decreases k
  {
    if k > 0 { NoBit(k - 1); }
  }

  function BitmapSize(n: nat): nat {
    (n + 7) / 8
  }

  // Just enough bytes for n bits
  lemma BitmapFits(n: nat)
    ensures n <= 8 * BitmapSize(n) < n + 8
  {
  }

  function Bitmap(values: seq<Value>): Bytes {
    seq(BitmapSize(|values|), j requires 0 <= j => Marked(values, |values|, j))
  }

  // memset, then one |= per NULL
  method MakeBitmap(values: seq<Value>) returns (bits: Bytes)
    ensures bits == Bitmap(values)
  {
    var n := |values|;
    bits := seq(BitmapSize(n), _ => 0);
    for i := 0 to n
      invariant |bits| == BitmapSize(n)
      invariant forall j :: 0 <= j < |bits| ==> bits[j] == Marked(values, i, j)
    {
      if values[i].Null? { bits := bits[i / 8 := SetBit(bits[i / 8], i % 8)]; }
    }
  }

  // ---------------------------------------------------------------------------
  // Reading a row
  // ---------------------------------------------------------------------------

  // The number of stored columns
  function Count(b: Bytes): nat
    requires |b| >= HEADER
  {
    FromLe(b[26..30])
  }

  // Header and bitmap are there
  predicate Framed(b: Bytes) {
    |b| >= HEADER && HEADER + BitmapSize(Count(b)) <= |b|
  }

  predicate NullAt(b: Bytes, i: nat)
    requires Framed(b) && i < Count(b)
  {
    Bit(b[HEADER + i / 8], i % 8)
  }

  // Column i read at p
  function Step(b: Bytes, p: nat, i: nat): Option<(Value, nat)>
    requires Framed(b) && i < Count(b)
  {
    if NullAt(b, i) then Some((Null, p)) else ReadValue(b, p, |b|, 4, false)
  }

  // Where column i begins, if the columns before it can be read
  function Pos(b: Bytes, i: nat): Option<nat>
    requires Framed(b) && i <= Count(b)
  {
    if i == 0 then Some(HEADER + BitmapSize(Count(b)))
    else
      match Pos(b, i - 1)
      case None => None
      case Some(p) => (match Step(b, p, i - 1) case None => None case Some(r) => Some(r.1))
  }

  // All columns can be read
  ghost predicate Sound(b: Bytes) {
    Framed(b) && Pos(b, Count(b)).Some?
  }

  // And there are not more than whole rows may have
  ghost predicate WellFormed(b: Bytes) {
    Sound(b) && Count(b) <= MAX_COLUMNS
  }

  // Column i, if it and everything before it can be read
  ghost function ColumnRead(b: Bytes, i: nat): Option<Value>
    requires Framed(b) && i < Count(b)
  {
    match Pos(b, i)
    case None => None
    case Some(p) => (match Step(b, p, i) case None => None case Some(r) => Some(r.0))
  }

  ghost function ColumnAt(b: Bytes, i: nat): Value
    requires Framed(b) && i < Count(b)
  {
    match Pos(b, i)
    case None => Null
    case Some(p) => (match Step(b, p, i) case None => Null case Some(r) => r.0)
  }

  lemma {:induction false} PosBefore(b: Bytes, i: nat, n: nat)
    requires Framed(b) && i <= n <= Count(b) && Pos(b, n).Some?
    ensures Pos(b, i).Some?
    decreases n
  {
    if i < n { PosBefore(b, i, n - 1); }
  }

  // In a sound row column i is where it should be, and the next one behind it
  lemma ColumnHere(b: Bytes, i: nat)
    requires Sound(b) && i < Count(b)
    ensures Pos(b, i).Some? && Pos(b, i + 1).Some?
    ensures Step(b, Pos(b, i).value, i) == Some((ColumnAt(b, i), Pos(b, i + 1).value))
  {
    PosBefore(b, i, Count(b));
    PosBefore(b, i + 1, Count(b));
  }

  lemma PosNext(b: Bytes, i: nat, p: nat)
    requires Framed(b) && i < Count(b) && Pos(b, i) == Some(p)
    ensures var r := Step(b, p, i);
            if r.None? then Pos(b, i + 1) == None else Pos(b, i + 1) == Some(r.value.1) && ColumnAt(b, i) == r.value.0
  {
  }

  // A row as its table shows it: stored columns as far as the schema goes, then defaults
  ghost function Shown(b: Bytes, defaults: seq<Value>): seq<Value>
    requires Framed(b)
  {
    seq(|defaults|, i requires 0 <= i < |defaults| => if i < Count(b) then ColumnAt(b, i) else defaults[i])
  }

  // deserialize_from_page; defaults[i] is the default of column i, NULL where none is declared
  method ReadRow(b: Bytes, defaults: seq<Value>) returns (values: seq<Value>)
    ensures WellFormed(b) ==> values == Shown(b, defaults)
    ensures !WellFormed(b) ==> values == []
  {
    values := [];
    if |b| < HEADER { return; }
    var n := FromLe(b[26..30]);
    if n > MAX_COLUMNS || HEADER + BitmapSize(n) > |b| { return; }
    var ok, stored := ReadStored(b, |defaults|);
    if !ok { return; }
    values := stored;
    while |values| < |defaults|
      invariant |values| <= |defaults| && |values| >= if n < |defaults| then n else |defaults|
      invariant forall j :: 0 <= j < |values| ==> values[j] == if j < n then ColumnAt(b, j) else defaults[j]
    {
      values := values + [defaults[|values|]];
    }
  }

  // All stored columns are read, those within the schema kept
  method ReadStored(b: Bytes, limit: nat) returns (ok: bool, values: seq<Value>)
    requires Framed(b)
    ensures ok <==> Sound(b)
    ensures ok ==> |values| == if Count(b) < limit then Count(b) else limit
    ensures ok ==> forall j :: 0 <= j < |values| ==> values[j] == ColumnAt(b, j)
  {
    var n := Count(b);
    values := [];
    var p := HEADER + BitmapSize(n);
    for i := 0 to n
      invariant Pos(b, i) == Some(p)
      invariant |values| == if i < limit then i else limit
      invariant forall j :: 0 <= j < |values| ==> values[j] == ColumnAt(b, j)
    {
      var r := Step(b, p, i);
      PosNext(b, i, p);
      if r.None? {
        if Pos(b, n).Some? { PosBefore(b, i + 1, n); }
        return false, [];
      }
      if i < limit { values := values + [r.value.0]; }
      p := r.value.1;
    }
    return true, values;
  }

  // read_column_from_page: skip to one column. It does not ask how many columns there are, so it also answers on rows
  // that are too wide to be read as a whole.
  method ReadColumn(b: Bytes, defaults: seq<Value>, idx: nat) returns (r: Option<Value>)
    ensures |b| < HEADER || idx >= |defaults| ==> r == None
    ensures |b| >= HEADER && Count(b) <= idx < |defaults| ==> r == Some(defaults[idx])
    ensures |b| >= HEADER && idx < Count(b) < U32 - 7 && idx < |defaults| ==>
              r == if Framed(b) then ColumnRead(b, idx) else None
    ensures Sound(b) && Count(b) < U32 - 7 && idx < |defaults| ==> r == Some(Shown(b, defaults)[idx])
  {
    if |b| < HEADER || idx >= |defaults| { return None; }
    var n := FromLe(b[26..30]);
    if idx >= n { return Some(defaults[idx]); }
    if HEADER + BitmapSize(n) > |b| { return None; }
    var p: nat := HEADER + BitmapSize(n);
    if Sound(b) { ColumnHere(b, idx); }
    for i := 0 to idx
      invariant Pos(b, i) == Some(p)
    {
      PosNext(b, i, p);
      if !Bit(b[HEADER + i / 8], i % 8) {
        SkipAgrees(b, p, |b|, 4);
        var q := SkipValue(b, p, |b|, 4);
        if q.None? {
          if Pos(b, idx).Some? { PosBefore(b, i + 1, idx); }
          return None;
        }
        p := q.value;
      }
    }
    if Bit(b[HEADER + idx / 8], idx % 8) { return Some(Null); }
    var v := ReadValue(b, p, |b|, 4, false);
    return if v.None? then None else Some(v.value.0);
  }

  // ---------------------------------------------------------------------------
  // Reading some columns of a row
  // ---------------------------------------------------------------------------

  // Output k of a projection. A column asked for twice is delivered only the last time.
  ghost function Output(b: Bytes, defaults: seq<Value>, cols: seq<nat>, k: nat): Value
    requires Framed(b) && k < |cols|
  {
    var c := cols[k];
    if c < Count(b) then (if AskedAgain(cols, k) then Null else ColumnAt(b, c))
    else if c < |defaults| then defaults[c]
    else Null
  }

  ghost predicate AskedAgain(cols: seq<nat>, k: nat)
    requires k < |cols|
  {
    exists j :: k < j < |cols| && cols[j] == cols[k]
  }

  // For distinct columns of the schema: the projection of the whole row
  lemma ProjectionIs(b: Bytes, defaults: seq<Value>, cols: seq<nat>, k: nat)
    requires Framed(b) && k < |cols|
    requires forall j :: 0 <= j < |cols| ==> cols[j] < |defaults|
    requires forall i, j :: 0 <= i < j < |cols| ==> cols[i] != cols[j]
    ensures Output(b, defaults, cols, k) == Shown(b, defaults)[cols[k]]
  {
  }

  // Where each stored column goes: to the last output that asks for it
  ghost predicate Routes(route: seq<int>, cols: seq<nat>, n: nat) {
    && n <= |cols|
    && forall c {:trigger route[c]} :: 0 <= c < |route| ==>
         && -1 <= route[c] < n
         && (route[c] >= 0 ==> cols[route[c]] == c)
         && (forall k {:trigger cols[k]} :: route[c] < k < n && 0 <= k ==> cols[k] != c)
  }

  method MakeRoutes(cols: seq<nat>, n: nat) returns (route: seq<int>)
    ensures |route| == n && Routes(route, cols, |cols|)
  {
    route := seq(n, _ => -1);
    for i := 0 to |cols|
      invariant |route| == n && Routes(route, cols, i)
    {
      if cols[i] < n { route := route[cols[i] := i]; }
    }
  }

  lemma RouteIsLast(route: seq<int>, cols: seq<nat>, k: nat)
    requires Routes(route, cols, |cols|) && k < |cols| && cols[k] < |route|
    ensures route[cols[k]] == k <==> !AskedAgain(cols, k)
  {
    var c := cols[k];
    assert route[c] >= k;
    if route[c] > k { assert cols[route[c]] == c; }
  }

  // The outputs filled from the first i stored columns
  ghost predicate Filled(b: Bytes, route: seq<int>, cols: seq<nat>, values: seq<Value>, i: nat)
    requires Framed(b) && i <= Count(b) == |route|
  {
    && |values| == |cols|
    && forall k {:trigger values[k]} :: 0 <= k < |cols| ==>
         values[k] == if cols[k] < i && route[cols[k]] == k then ColumnAt(b, cols[k]) else Null
  }

  // deserialize_projected_from_page; without a list of columns it reads the row by the output schema
  method ReadProjected(b: Bytes, defaults: seq<Value>, outputDefaults: seq<Value>, cols: seq<nat>)
    returns (values: seq<Value>)
    ensures cols == [] ==> values == if WellFormed(b) then Shown(b, outputDefaults) else []
    ensures cols != [] && !WellFormed(b) ==> values == []
    ensures cols != [] && WellFormed(b) ==>
              |values| == |cols| && forall k :: 0 <= k < |cols| ==> values[k] == Output(b, defaults, cols, k)
  {
    if cols == [] {
      values := ReadRow(b, outputDefaults);
      return;
    }
    values := [];
    if |b| < HEADER { return; }
    var n := FromLe(b[26..30]);
    if n > MAX_COLUMNS || HEADER + BitmapSize(n) > |b| { return; }
    var route := MakeRoutes(cols, n);
    values := seq(|cols|, _ => Null);
    var p: nat := HEADER + BitmapSize(n);
    for i := 0 to n
      invariant Pos(b, i) == Some(p)
      invariant |values| == |cols| && Filled(b, route, cols, values, i)
    {
      PosNext(b, i, p);
      if Pos(b, n).Some? { PosBefore(b, i + 1, n); }
      if !NullAt(b, i) {
        if route[i] >= 0 {
          var r := ReadValue(b, p, |b|, 4, false);
          if r.None? { return []; }
          values := values[route[i] := r.value.0];
          p := r.value.1;
        } else {
          SkipAgrees(b, p, |b|, 4);
          var q := SkipValue(b, p, |b|, 4);
          if q.None? { return []; }
          p := q.value;
        }
      }
    }
    values := PadDefaults(b, defaults, cols, route, values);
  }

  // Columns added after the row was stored
  method PadDefaults(b: Bytes, defaults: seq<Value>, cols: seq<nat>, ghost route: seq<int>, stored: seq<Value>)
    returns (values: seq<Value>)
    requires Framed(b) && |route| == Count(b) && Routes(route, cols, |cols|) && |stored| == |cols|
    ensures |values| == |cols|
    ensures Filled(b, route, cols, stored, Count(b)) ==> forall k :: 0 <= k < |cols| ==>
              values[k] == Output(b, defaults, cols, k)
  {
    var n := Count(b);
    values := stored;
    for i := 0 to |cols|
      invariant |values| == |cols|
      invariant forall k :: i <= k < |cols| ==> values[k] == stored[k]
      invariant Filled(b, route, cols, stored, n) ==> forall k :: 0 <= k < i ==>
                  values[k] == Output(b, defaults, cols, k)
    {
      if cols[i] < n {
        RouteIsLast(route, cols, i);
      } else if cols[i] < |defaults| {
        values := values[i := defaults[cols[i]]];
      }
    }
  }

  // ---------------------------------------------------------------------------
  // Writing a row
  // ---------------------------------------------------------------------------

  datatype Row = Row(xmin: nat, xmax: nat, nextPage: nat, nextSlot: nat, values: seq<Value>)

  ghost predicate RowOk(r: Row) {
    && r.xmin < U64 && r.xmax < U64 && r.nextPage < U64 && r.nextSlot < U16 && |r.values| < U32 - 7
    && forall i {:trigger Fitting(r.values[i], 4)} :: 0 <= i < |r.values| ==> Fitting(r.values[i], 4)
  }

  function Head(r: Row): (b: Bytes)
    ensures |b| == HEADER
  {
    Le(r.xmin, 8) + Le(r.xmax, 8) + Le(r.nextPage, 8) + Le(r.nextSlot, 2) + Le(|r.values|, 4)
  }

  // A NULL takes no room of its own
  function Cell(v: Value): Bytes {
    if v.Null? then [] else Encoded(v, 4)
  }

  ghost function Cells(values: seq<Value>): (ps: seq<Bytes>)
    ensures |ps| == |values|
  {
    seq(|values|, i requires 0 <= i < |values| => Cell(values[i]))
  }

  ghost function Serialized(r: Row): Bytes {
    Head(r) + Bitmap(r.values) + Concat(Cells(r.values), |r.values|)
  }

  method Serialize(r: Row) returns (b: Bytes)
    ensures b == Serialized(r)
  {
    var bits := MakeBitmap(r.values);
    b := AppendCells(Head(r) + bits, r.values);
  }

  method AppendCells(front: Bytes, values: seq<Value>) returns (b: Bytes)
    ensures b == front + Concat(Cells(values), |values|)
  {
    b := front;
    ghost var done: Bytes := [];
    for i := 0 to |values|
      invariant done == Concat(Cells(values), i) && b == front + done
    {
      CellsNext(values, i, done);
      ghost var was := b;
      if !values[i].Null? { b := b + Encoded(values[i], 4); }
      Append(was, b, front, done, values[i]);
      done := done + Cell(values[i]);
    }
  }

  lemma CellsNext(values: seq<Value>, i: nat, done: Bytes)
    requires i < |values| && done == Concat(Cells(values), i)
    ensures done + Cell(values[i]) == Concat(Cells(values), i + 1)
  {
    assert Cells(values)[i] == Cell(values[i]);
  }

  lemma Append(b: Bytes, b': Bytes, front: Bytes, done: Bytes, v: Value)
    requires b == front + done && b' == if v.Null? then b else b + Encoded(v, 4)
    ensures b' == front + (done + Cell(v))
  {
    var cell := Cell(v);
    assert front + done + cell == front + (done + cell);
    if v.Null? { assert done + cell == done; }
  }

  lemma HeadBack(b: Bytes, r: Row)
    requires RowOk(r) && Holds(b, 0, Head(r))
    ensures FromLe(b[0..8]) == r.xmin && FromLe(b[8..16]) == r.xmax && FromLe(b[16..24]) == r.nextPage
    ensures FromLe(b[24..26]) == r.nextSlot && FromLe(b[26..30]) == |r.values|
  {
    Pows();
    Halves(b, 0, Le(r.xmin, 8) + Le(r.xmax, 8) + Le(r.nextPage, 8) + Le(r.nextSlot, 2), Le(|r.values|, 4));
    Halves(b, 0, Le(r.xmin, 8) + Le(r.xmax, 8) + Le(r.nextPage, 8), Le(r.nextSlot, 2));
    Halves(b, 0, Le(r.xmin, 8) + Le(r.xmax, 8), Le(r.nextPage, 8));
    Halves(b, 0, Le(r.xmin, 8), Le(r.xmax, 8));
    LeBack(b, 0, r.xmin, 8);
    LeBack(b, 8, r.xmax, 8);
    LeBack(b, 16, r.nextPage, 8);
    LeBack(b, 24, r.nextSlot, 2);
    LeBack(b, 26, |r.values|, 4);
  }

  // The parts of a stored row, each in its place
  ghost predicate PartsOf(b: Bytes, values: seq<Value>) {
    && Framed(b) && Count(b) == |values| && Holds(b, HEADER, Bitmap(values))
    && Holds(b, HEADER + BitmapSize(|values|), Concat(Cells(values), |values|))
  }

  lemma PartsBack(r: Row)
    requires RowOk(r)
    ensures PartsOf(Serialized(r), r.values)
  {
    var b := Serialized(r);
    Whole(b, []);
    assert b + [] == b;
    Halves(b, 0, Head(r) + Bitmap(r.values), Concat(Cells(r.values), |r.values|));
    Halves(b, 0, Head(r), Bitmap(r.values));
    HeadBack(b, r);
  }

  // Where column i is written
  ghost function Place(values: seq<Value>, i: nat): nat
    requires i <= |values|
  {
    HEADER + BitmapSize(|values|) + Offset(Cells(values), i)
  }

  lemma NullBack(b: Bytes, values: seq<Value>, i: nat)
    requires PartsOf(b, values) && i < |values|
    ensures NullAt(b, i) <==> values[i].Null?
  {
    var bits := Bitmap(values);
    assert bits[i / 8] == b[HEADER + i / 8];
    MarkedBit(values, |values|, i);
  }

  // Reading column i where it was written
  lemma CellBack(b: Bytes, values: seq<Value>, i: nat)
    requires PartsOf(b, values) && i < |values| && Fitting(values[i], 4)
    ensures LaidAt(b, values, i)
  {
    NullBack(b, values, i);
    CellPlace(b, values, i);
    StepIs(b, Place(values, i), i, values[i], Place(values, i + 1));
  }

  lemma CellPlace(b: Bytes, values: seq<Value>, i: nat)
    requires PartsOf(b, values) && i < |values|
    ensures Holds(b, Place(values, i), Cell(values[i])) && Place(values, i + 1) == Place(values, i) + |Cell(values[i])|
  {
    assert Cells(values)[i] == Cell(values[i]);
    Piece(b, HEADER + BitmapSize(|values|), Cells(values), |values|, i);
  }

  lemma StepIs(b: Bytes, p: nat, i: nat, v: Value, q: nat)
    requires Framed(b) && i < Count(b) && (NullAt(b, i) <==> v.Null?) && Fitting(v, 4)
    requires Holds(b, p, Cell(v)) && q == p + |Cell(v)|
    ensures Step(b, p, i) == Some((v, q))
  {
    if !v.Null? { ReadBack(b, p, |b|, v, 4, false); }
  }

  // Every column can be read where it was written
  ghost predicate Lays(b: Bytes, values: seq<Value>) {
    && Framed(b) && Count(b) == |values|
    && forall i {:trigger LaidAt(b, values, i)} :: 0 <= i < |values| ==> LaidAt(b, values, i)
  }

  ghost predicate LaidAt(b: Bytes, values: seq<Value>, i: nat)
    requires Framed(b) && i < Count(b) == |values|
  {
    Step(b, Place(values, i), i) == Some((values[i], Place(values, i + 1)))
  }

  lemma {:induction false} PosBack(b: Bytes, values: seq<Value>, i: nat)
    requires Lays(b, values) && i <= |values|
    ensures Pos(b, i) == Some(Place(values, i))
    decreases i
  {
    if i > 0 {
      PosBack(b, values, i - 1);
      assert LaidAt(b, values, i - 1);
      PosStep(b, i, Place(values, i - 1), values[i - 1], Place(values, i));
    }
  }

  lemma PosStep(b: Bytes, i: nat, p: nat, v: Value, q: nat)
    requires Framed(b) && 0 < i <= Count(b) && Pos(b, i - 1) == Some(p) && Step(b, p, i - 1) == Some((v, q))
    ensures Pos(b, i) == Some(q)
  {
  }

  lemma ShownBack(b: Bytes, values: seq<Value>, defaults: seq<Value>)
    requires Lays(b, values)
    ensures Sound(b)
    ensures Shown(b, defaults) ==
              seq(|defaults|, i requires 0 <= i < |defaults| => if i < |values| then values[i] else defaults[i])
  {
    PosBack(b, values, |values|);
    forall i | 0 <= i < |defaults| ensures Shown(b, defaults)[i] == if i < |values| then values[i] else defaults[i] {
      if i < |values| {
        PosBack(b, values, i);
        assert LaidAt(b, values, i);
      }
    }
  }

  lemma SerializedLays(r: Row, b: Bytes)
    requires RowOk(r) && b == Serialized(r)
    ensures Lays(b, r.values)
  {
    PartsBack(r);
    forall i | 0 <= i < |r.values| ensures LaidAt(b, r.values, i) {
      assert Fitting(r.values[i], 4);
      CellBack(b, r.values, i);
    }
  }

  // A serialized row is sound; its values, padded with defaults or cut to the schema, are what is read: as a whole
  // exactly if it has not too many columns, and column by column always
  lemma RowRoundTrip(r: Row, defaults: seq<Value>)
    requires RowOk(r)
    ensures Sound(Serialized(r)) && Count(Serialized(r)) == |r.values|
    ensures WellFormed(Serialized(r)) <==> |r.values| <= MAX_COLUMNS
    ensures Shown(Serialized(r), defaults) ==
            seq(|defaults|, i requires 0 <= i < |defaults| => if i < |r.values| then r.values[i] else defaults[i])
  {
    SerializedLays(r, Serialized(r));
    ShownBack(Serialized(r), r.values, defaults);
  }

  // read_header_from_page
  lemma HeaderRoundTrip(r: Row)
    requires RowOk(r)
    ensures var b := Serialized(r);
            && |b| >= HEADER && FromLe(b[0..8]) == r.xmin && FromLe(b[8..16]) == r.xmax
            && FromLe(b[16..24]) == r.nextPage && FromLe(b[24..26]) == r.nextSlot
  {
    var rest := Bitmap(r.values) + Concat(Cells(r.values), |r.values|);
    assert Serialized(r) == Head(r) + rest;
    Whole(Head(r), rest);
    HeadBack(Serialized(r), r);
  }

  // A row of NULLs takes its header and a bit for each
  lemma NullRowSize(r: Row)
    requires forall i :: 0 <= i < |r.values| ==> r.values[i].Null?
    ensures |Serialized(r)| == HEADER + BitmapSize(|r.values|)
  {
    NoCells(r.values, |r.values|);
  }

  lemma {:induction false} NoCells(values: seq<Value>, n: nat)
    requires n <= |values| && forall i :: 0 <= i < |values| ==> values[i].Null?
    ensures Concat(Cells(values), n) == []
  {
    if n > 0 { NoCells(values, n - 1); }
  }

  // 4097 NULLs: 543 bytes that no whole row comes out of, while every single column does
  lemma TooWide(r: Row, defaults: seq<Value>)
    requires RowOk(r) && |r.values| == MAX_COLUMNS + 1 && forall i :: 0 <= i < |r.values| ==> r.values[i].Null?
    ensures |Serialized(r)| == 543 && Sound(Serialized(r)) && !WellFormed(Serialized(r))
  {
    NullRowSize(r);
    RowRoundTrip(r, defaults);
  }
}
