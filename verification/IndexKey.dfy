/** Composite index keys: their slot encoding, and comparing a slot in place. */
module IndexKeys {
  import opened Pieces
  import opened Values
  import opened Options
  import opened Lexicographic
  import opened KeyOrders

  const MAGIC: nat := 0x494b

  // ---------------------------------------------------------------------------
  // Encoding
  // ---------------------------------------------------------------------------

  function ItemSize(v: Value): nat {
    1 + if v.Varchar? then 2 + |v.text| else Size(TypeOf(v))
  }

  // Bytes of the first n values
  function BodySize(k: seq<Value>, n: nat): nat
    requires n <= |k|
  {
    if n == 0 then 0 else BodySize(k, n - 1) + ItemSize(k[n - 1])
  }

  function EncodedSize(k: seq<Value>): nat {
    6 + BodySize(k, |k|)
  }

  predicate Fits(k: seq<Value>, slotSize: nat) {
    EncodedSize(k) <= slotSize && |k| <= 255
  }

  ghost predicate AllFitting(k: seq<Value>) {
    forall i {:trigger Fitting(k[i], 2)} :: 0 <= i < |k| ==> Fitting(k[i], 2)
  }

  ghost function Items(k: seq<Value>): (ps: seq<Bytes>)
    ensures |ps| == |k|
  {
    seq(|k|, i requires 0 <= i < |k| => Encoded(k[i], 2))
  }

  function Header(count: nat, payload: nat): (b: Bytes)
    ensures |b| == 6
  {
    Le(MAGIC, 2) + Le(count % U16, 2) + Le(payload % U16, 2)
  }

  // Magic, count, payload size, and the values one after the other
  ghost function EncodedKey(k: seq<Value>): Bytes {
    Header(|k|, BodySize(k, |k|)) + Concat(Items(k), |k|)
  }

  lemma EncodedLength(v: Value)
    requires Fitting(v, 2)
    ensures |Encoded(v, 2)| == ItemSize(v)
  {
    if !v.Varchar? && !v.Null? { DataBack(v, 2); }
  }

  lemma {:induction false} SizesAdd(ps: seq<Bytes>, k: seq<Value>, n: nat)
    requires n <= |k| == |ps| && forall i :: 0 <= i < |k| ==> |ps[i]| == ItemSize(k[i])
    ensures Offset(ps, n) == BodySize(k, n)
    decreases n
  {
    if n > 0 { SizesAdd(ps, k, n - 1); }
  }

  lemma BodyLength(k: seq<Value>, n: nat)
    requires AllFitting(k) && n <= |k|
    ensures Offset(Items(k), n) == BodySize(k, n)
  {
    forall i | 0 <= i < |k| ensures |Items(k)[i]| == ItemSize(k[i]) {
      assert Fitting(k[i], 2);
      EncodedLength(k[i]);
    }
    SizesAdd(Items(k), k, n);
  }

  lemma KeyLength(k: seq<Value>)
    requires AllFitting(k)
    ensures |EncodedKey(k)| == EncodedSize(k)
  {
    BodyLength(k, |k|);
  }

  // The magic number, and each value by its type's number first
  lemma KeyBegins(k: seq<Value>)
    ensures |EncodedKey(k)| >= 6 && EncodedKey(k)[..2] == [0x4b, 0x49]
    ensures k != [] ==> |EncodedKey(k)| > 6 && EncodedKey(k)[6] == TypeOf(k[0])
  {
    MagicBytes();
    if k != [] { FirstItem(k, |k|); }
  }

  lemma MagicBytes()
    ensures Le(MAGIC, 2) == [0x4b, 0x49]
  {
    assert Pow256(0) == 1 && Pow256(1) == 256;
    assert Le(MAGIC, 2)[0] == MAGIC / 1 % 256 && Le(MAGIC, 2)[1] == MAGIC / 256 % 256;
  }

  lemma {:induction false} FirstItem(k: seq<Value>, n: nat)
    requires 0 < n <= |k|
    ensures |Concat(Items(k), n)| > 0 && Concat(Items(k), n)[0] == TypeOf(k[0])
    decreases n
  {
    if n > 1 { FirstItem(k, n - 1); }
  }

  // encode: a moving pointer over the slot
  method Encode(k: seq<Value>, slot: array<nat>) returns (ok: bool)
    requires AllFitting(k)
    modifies slot
    ensures ok <==> |EncodedKey(k)| <= slot.Length && |k| <= 255
    ensures ok ==> slot[..|EncodedKey(k)|] == EncodedKey(k)
    ensures ok ==> forall i :: |EncodedKey(k)| <= i < slot.Length ==>
                     slot[i] == if i == |EncodedKey(k)| then 0 else old(slot[i])
    ensures !ok ==> slot[..] == old(slot[..])
  {
    KeyLength(k);
    if !Fits(k, slot.Length) { return false; }
    var actual := EncodedSize(k);
    var cleared := if actual < slot.Length then actual + 1 else slot.Length;
    forall i | 0 <= i < cleared { slot[i] := 0; }
    PutHeader(slot, |k|, actual - 6);
    PutBody(k, slot, 6);
    return true;
  }

  method PutHeader(slot: array<nat>, count: nat, payload: nat)
    requires slot.Length >= 6
    modifies slot
    ensures slot[..6] == Header(count, payload)
    ensures forall j :: 6 <= j < slot.Length ==> slot[j] == old(slot[j])
  {
    ghost var header := Header(count, payload);
    var p := Put(slot, 0, Header(count, payload));
    assert slot[..p] == header;
  }

  method PutBody(k: seq<Value>, slot: array<nat>, start: nat)
    requires AllFitting(k) && start + BodySize(k, |k|) <= slot.Length
    modifies slot
    ensures slot[..start + BodySize(k, |k|)] == old(slot[..start]) + Concat(Items(k), |k|)
    ensures forall j :: start + BodySize(k, |k|) <= j < slot.Length ==> slot[j] == old(slot[j])
  {
    ghost var front := slot[..start];
    ghost var total := start + BodySize(k, |k|);
    var p := start;
    ghost var done: Bytes := [];
    for i := 0 to |k|
      invariant done == Concat(Items(k), i) && |done| <= BodySize(k, |k|)
      invariant Written(slot[..], front, done, p)
      invariant forall j :: total <= j < slot.Length ==> slot[j] == old(slot[j])
    {
      Next(k, i, done);
      Room(k, i);
      p, done := PutItem(k[i], slot, p, front, done);
    }
    BodyLength(k, |k|);
  }

  // One value behind what is written
  method PutItem(v: Value, slot: array<nat>, p: nat, ghost front: Bytes, ghost done: Bytes)
    returns (q: nat, ghost done': Bytes)
    requires p + |Encoded(v, 2)| <= slot.Length && Written(slot[..], front, done, p)
    modifies slot
    ensures done' == done + Encoded(v, 2) && Written(slot[..], front, done', q)
    ensures forall j :: q <= j < slot.Length ==> slot[j] == old(slot[j])
  {
    ghost var was := slot[..];
    var piece := Encoded(v, 2);
    q := Put(slot, p, piece);
    WrittenMore(was, slot[..], front, done, piece, p);
    done' := done + piece;
  }

  ghost predicate Written(s: Bytes, front: Bytes, done: Bytes, p: nat) {
    p == |front| + |done| <= |s| && s[..p] == front + done
  }

  lemma WrittenMore(s: Bytes, s': Bytes, front: Bytes, done: Bytes, piece: Bytes, p: nat)
    requires Written(s, front, done, p) && p + |piece| <= |s'| && s'[..p + |piece|] == s[..p] + piece
    ensures Written(s', front, done + piece, p + |piece|)
  {
    assert front + done + piece == front + (done + piece);
  }

  lemma Next(k: seq<Value>, i: nat, done: Bytes)
    requires i < |k| && done == Concat(Items(k), i)
    ensures done + Encoded(k[i], 2) == Concat(Items(k), i + 1)
  {
    assert Items(k)[i] == Encoded(k[i], 2);
  }

  // One more value fits
  lemma Room(k: seq<Value>, i: nat)
    requires AllFitting(k) && i < |k|
    ensures |Concat(Items(k), i)| + |Encoded(k[i], 2)| <= BodySize(k, |k|)
  {
    assert |Items(k)[i]| == |Encoded(k[i], 2)|;
    OffsetGrows(Items(k), i + 1, |k|);
    BodyLength(k, |k|);
  }

  method Put(slot: array<nat>, p: nat, piece: Bytes) returns (q: nat)
    requires p + |piece| <= slot.Length
    modifies slot
    ensures q == p + |piece| && slot[..q] == old(slot[..p]) + piece
    ensures forall j :: q <= j < slot.Length ==> slot[j] == old(slot[j])
  {
    forall i | 0 <= i < |piece| { slot[p + i] := piece[i]; }
    q := p + |piece|;
  }

  // ---------------------------------------------------------------------------
  // Decoding
  // ---------------------------------------------------------------------------

  // The magic number, and the payload within the slot
  ghost predicate HeaderOk(b: Bytes) {
    |b| >= 6 && FromLe(b[0..2]) == MAGIC && 6 + FromLe(b[4..6]) <= |b|
  }

  // Up to n values from p
  function DecodeFrom(b: Bytes, p: nat, end: nat, n: nat): Option<seq<Value>>
    requires end <= |b|
    decreases n
  {
    if n == 0 || p >= end then Some([])
    else
      match ReadValue(b, p, end, 2, true)
      case None => None
      case Some(r) =>
        match DecodeFrom(b, r.1, end, n - 1)
        case None => None
        case Some(vs) => Some([r.0] + vs)
  }

  // Damaged slots read as the empty key
  function DecodeKey(b: Bytes): seq<Value> {
    if |b| < 6 || FromLe(b[0..2]) != MAGIC || FromLe(b[4..6]) + 6 > |b| then []
    else
      match DecodeFrom(b, 6, 6 + FromLe(b[4..6]), FromLe(b[2..4]))
      case None => []
      case Some(vs) => vs
  }

  lemma {:induction false} DecodeBound(b: Bytes, p: nat, end: nat, n: nat)
    requires end <= |b|
    ensures DecodeFrom(b, p, end, n).Some? ==> |DecodeFrom(b, p, end, n).value| <= n
    decreases n
  {
    if n > 0 && p < end {
      var r := ReadValue(b, p, end, 2, true);
      if r.Some? { DecodeBound(b, r.value.1, end, n - 1); }
    }
  }

  // Values only come from a slot with a sound header, and no more than it announces
  lemma DecodedFrom(b: Bytes)
    ensures DecodeKey(b) != [] ==> HeaderOk(b) && |DecodeKey(b)| <= FromLe(b[2..4])
  {
    if HeaderOk(b) { DecodeBound(b, 6, 6 + FromLe(b[4..6]), FromLe(b[2..4])); }
  }

  method Decode(b: Bytes) returns (k: seq<Value>)
    ensures k == DecodeKey(b)
  {
    if |b| < 6 { return []; }
    var magic, count, payload := FromLe(b[0..2]), FromLe(b[2..4]), FromLe(b[4..6]);
    if magic != MAGIC || payload + 6 > |b| { return []; }
    var end := 6 + payload;
    var p: nat := 6;
    k := [];
    var i := 0;
    assert forall vs: seq<Value> :: [] + vs == vs;
    while i < count && p < end
      invariant i <= count && p <= end
      invariant DecodeFrom(b, 6, end, count) ==
                match DecodeFrom(b, p, end, count - i) { case None => None case Some(vs) => Some(k + vs) }
    {
      var r := ReadValue(b, p, end, 2, true);
      if r.None? { return []; }
      ghost var rest := DecodeFrom(b, r.value.1, end, count - i - 1);
      assert rest.Some? ==> k + ([r.value.0] + rest.value) == k + [r.value.0] + rest.value;
      k := k + [r.value.0];
      p := r.value.1;
      i := i + 1;
    }
    assert k + [] == k;
  }

  lemma DecodeCons(b: Bytes, p: nat, end: nat, n: nat, v: Value, q: nat, vs: seq<Value>)
    requires end <= |b| && n > 0 && ReadValue(b, p, end, 2, true) == Some((v, q))
    requires DecodeFrom(b, q, end, n - 1) == Some(vs)
    ensures DecodeFrom(b, p, end, n) == Some([v] + vs)
  {
  }

  // Value i in its place
  ghost predicate Stands(b: Bytes, k: seq<Value>, i: nat)
    requires i < |k|
  {
    Holds(b, 6 + BodySize(k, i), Encoded(k[i], 2))
  }

  // The slot holds the values of a key from position 6 up to end
  ghost predicate Carries(b: Bytes, k: seq<Value>, end: nat) {
    && AllFitting(k) && end == 6 + BodySize(k, |k|) <= |b|
    && forall i {:trigger Stands(b, k, i)} :: 0 <= i < |k| ==> Stands(b, k, i)
  }

  lemma ItemAt(b: Bytes, k: seq<Value>, i: nat)
    requires AllFitting(k) && i < |k| && Holds(b, 6, Concat(Items(k), |k|))
    ensures Stands(b, k, i)
  {
    BodyLength(k, i);
    PieceAt(b, Items(k), |k|, i, 6 + BodySize(k, i), Encoded(k[i], 2));
  }

  lemma {:induction false} BodyGrows(k: seq<Value>, i: nat, n: nat)
    requires i <= n <= |k|
    ensures BodySize(k, i) <= BodySize(k, n)
    decreases n
  {
    if i < n { BodyGrows(k, i, n - 1); }
  }

  lemma PieceAt(b: Bytes, ps: seq<Bytes>, n: nat, i: nat, p: nat, piece: Bytes)
    requires i < n <= |ps| && Holds(b, 6, Concat(ps, n)) && ps[i] == piece && p == 6 + Offset(ps, i)
    ensures Holds(b, p, piece) && Offset(ps, i + 1) <= Offset(ps, n)
  {
    Piece(b, 6, ps, n, i);
  }

  // From value i on the slot decodes to the rest of the key
  ghost predicate DecodesTo(b: Bytes, k: seq<Value>, end: nat, i: nat)
    requires i <= |k| && end <= |b|
  {
    DecodeFrom(b, 6 + BodySize(k, i), end, |k| - i) == Some(k[i..])
  }

  lemma BodyBack(b: Bytes, k: seq<Value>, end: nat)
    requires Carries(b, k, end)
    ensures DecodesTo(b, k, end, 0)
  {
    var i := |k|;
    assert k[|k|..] == [];
    while i > 0
      invariant 0 <= i <= |k| && DecodesTo(b, k, end, i)
    {
      i := i - 1;
      ItemRead(b, k, end, i, true);
      BodyBackStep(b, k, end, i);
    }
  }

  // Value i can be read, and the next one begins behind it
  ghost predicate ItemReads(b: Bytes, k: seq<Value>, end: nat, i: nat, lenient: bool)
    requires i < |k| && end <= |b|
  {
    var next: nat := 6 + BodySize(k, i + 1);
    ReadValue(b, 6 + BodySize(k, i), end, 2, lenient) == Some((k[i], next))
  }

  lemma ItemRead(b: Bytes, k: seq<Value>, end: nat, i: nat, lenient: bool)
    requires Carries(b, k, end) && i < |k|
    ensures ItemReads(b, k, end, i, lenient)
  {
    assert Stands(b, k, i) && Fitting(k[i], 2);
    EncodedLength(k[i]);
    BodyGrows(k, i + 1, |k|);
    ReadItem(b, 6 + BodySize(k, i), 6 + BodySize(k, i + 1), end, k[i], lenient);
  }

  lemma ReadItem(b: Bytes, p: nat, q: nat, end: nat, v: Value, lenient: bool)
    requires Fitting(v, 2) && Holds(b, p, Encoded(v, 2)) && q == p + |Encoded(v, 2)| <= end <= |b|
    ensures ReadValue(b, p, end, 2, lenient) == Some((v, q))
  {
    ReadBack(b, p, end, v, 2, lenient);
  }

  lemma BodyBackStep(b: Bytes, k: seq<Value>, end: nat, i: nat)
    requires i < |k| && end <= |b| && DecodesTo(b, k, end, i + 1)
    requires ItemReads(b, k, end, i, true)
    ensures DecodesTo(b, k, end, i)
  {
    DecodeCons(b, 6 + BodySize(k, i), end, |k| - i, k[i], 6 + BodySize(k, i + 1), k[i + 1..]);
    assert [k[i]] + k[i + 1..] == k[i..];
  }

  lemma HeaderBack(b: Bytes, count: nat, payload: nat)
    requires count < U16 && payload < U16 && Holds(b, 0, Header(count, payload))
    ensures FromLe(b[0..2]) == MAGIC && FromLe(b[2..4]) == count && FromLe(b[4..6]) == payload
  {
    Pows();
    Halves(b, 0, Le(MAGIC, 2) + Le(count, 2), Le(payload, 2));
    Halves(b, 0, Le(MAGIC, 2), Le(count, 2));
    LeBack(b, 0, MAGIC, 2);
    LeBack(b, 2, count, 2);
    LeBack(b, 4, payload, 2);
  }

  lemma SlotStart(b: Bytes, k: seq<Value>, rest: Bytes)
    requires AllFitting(k) && |k| <= 255 && BodySize(k, |k|) < U16 && b == EncodedKey(k) + rest
    ensures |b| >= 6 && FromLe(b[0..2]) == MAGIC && FromLe(b[2..4]) == |k| && FromLe(b[4..6]) == BodySize(k, |k|)
    ensures Carries(b, k, 6 + BodySize(k, |k|))
  {
    SlotHalves(b, k, rest);
    HeaderBack(b, |k|, BodySize(k, |k|));
    forall i | 0 <= i < |k| ensures Stands(b, k, i) { ItemAt(b, k, i); }
  }

  lemma SlotHalves(b: Bytes, k: seq<Value>, rest: Bytes)
    requires AllFitting(k) && b == EncodedKey(k) + rest
    ensures Holds(b, 0, Header(|k|, BodySize(k, |k|))) && Holds(b, 6, Concat(Items(k), |k|))
    ensures 6 + BodySize(k, |k|) <= |b|
  {
    Whole(EncodedKey(k), rest);
    BodyLength(k, |k|);
    Halves(b, 0, Header(|k|, BodySize(k, |k|)), Concat(Items(k), |k|));
  }

  // decode(encode(k)) is k, whatever stands behind it in the slot
  lemma KeyRoundTrip(k: seq<Value>, rest: Bytes)
    requires AllFitting(k) && |k| <= 255 && BodySize(k, |k|) < U16
    ensures DecodeKey(EncodedKey(k) + rest) == k
  {
    var b := EncodedKey(k) + rest;
    SlotStart(b, k, rest);
    BodyBack(b, k, 6 + BodySize(k, |k|));
    DecodeKeyIs(b, k, 6 + BodySize(k, |k|));
  }

  lemma DecodeKeyIs(b: Bytes, k: seq<Value>, end: nat)
    requires 6 <= end <= |b| && FromLe(b[0..2]) == MAGIC && FromLe(b[2..4]) == |k| && FromLe(b[4..6]) == end - 6
    requires DecodesTo(b, k, end, 0)
    ensures DecodeKey(b) == k
  {
    assert k[0..] == k;
  }

  // ---------------------------------------------------------------------------
  // Comparing a slot without decoding it
  // ---------------------------------------------------------------------------

  // The first difference from column i on lies behind a pair of texts
  predicate Undecided(a: seq<Value>, b: seq<Value>, i: nat)
    decreases |a| - i
  {
    i < |a| && i < |b| && TypeOf(a[i]) == TypeOf(b[i]) &&
    (a[i].Varchar? || (Compare(a[i], b[i]) == 0 && Undecided(a, b, i + 1)))
  }

  // Columns by Value::compare alone, which puts NULL last
  function ValueOrder(): (nat, Value, Value) -> int {
    (i: nat, a: Value, b: Value) => Compare(a, b)
  }

  function CompareValues(a: seq<Value>, b: seq<Value>, i: nat): int {
    Lex(ValueOrder(), a, b, i)
  }

  // The first column that differs has a NULL on one side
  ghost predicate NullDecides(a: seq<Value>, b: seq<Value>, i: nat)
    decreases |a| - i
  {
    i < |a| && i < |b| && (a[i].Null? != b[i].Null? || (Compare(a[i], b[i]) == 0 && NullDecides(a, b, i + 1)))
  }

  // Comparing slots and comparing keys agree exactly if no NULL decides, and are opposite if one does
  lemma {:induction false} SlotOrderAgrees(a: seq<Value>, b: seq<Value>, i: nat)
    requires i <= |a| && i <= |b|
    ensures Sign(CompareValues(a, b, i)) == Sign(CompareFrom([], a, b, i)) <==> !NullDecides(a, b, i)
    ensures NullDecides(a, b, i) ==> Sign(CompareValues(a, b, i)) == -Sign(CompareFrom([], a, b, i)) != 0
    decreases |a| - i
  {
    if i < |a| && i < |b| {
      var c, v := ColumnOrder([])(i, a[i], b[i]), ValueOrder()(i, a[i], b[i]);
      assert c == CompareNulls(a[i], b[i], true) && v == Compare(a[i], b[i]);
      SlotOrderAgrees(a, b, i + 1);
    }
  }

  // The values that can be read one after the other from p, at most n, and where they end
  ghost function Readable(b: Bytes, p: nat, end: nat, n: nat): (r: (seq<Value>, nat))
    requires end <= |b|
    ensures |r.0| <= n
    decreases n
  {
    if n == 0 then ([], p)
    else
      match ReadValue(b, p, end, 2, false)
      case None => ([], p)
      case Some(v) =>
        var rest := Readable(b, v.1, end, n - 1);
        ([v.0] + rest.0, rest.1)
  }

  // The first n columns are level, and none of them is a text
  ghost predicate LevelTo(a: seq<Value>, b: seq<Value>, n: nat) {
    n <= |a| && n <= |b| && forall j :: 0 <= j < n ==> !a[j].Varchar? && Compare(a[j], b[j]) == 0
  }

  // What column n answers, once all before it are level: nothing if it is a pair of texts, the order of two values that
  // differ, and where the slot cannot be read any further at most the order of the types
  ghost predicate Answers(b: Bytes, end: nat, vs: seq<Value>, q: nat, key: seq<Value>, count: nat, n: nat,
                          r: Option<int>)
    requires end <= |b|
  {
    if n == |key| || n == count then r == Some(CompareInt(count, |key|))
    else if n < |vs| && n < |key| then
      if vs[n].Varchar? && key[n].Varchar? then r == None
      else Compare(vs[n], key[n]) != 0 && r == Some(Sign(Compare(vs[n], key[n])))
    else n < |key| && r == if q < end && b[q] != TypeOf(key[n]) then Some(Sign(b[q] - TypeOf(key[n]))) else None
  }

  // A slot that begins with the encoding of k
  ghost predicate BeginsWith(b: Bytes, k: seq<Value>) {
    AllFitting(k) && |k| <= 255 && BodySize(k, |k|) < U16 && EncodedKey(k) <= b
  }

  // No answer exactly if texts come before a difference; else the sign of the comparison by values, which is that of
  // the comparison of keys exactly if no NULL decides
  ghost predicate SlotAgrees(k: seq<Value>, key: seq<Value>, r: Option<int>) {
    && (r.None? <==> Undecided(k, key, 0))
    && (r.Some? ==> r.value == Sign(CompareValues(k, key, 0)))
    && (r.Some? ==> (r.value == Sign(CompareFrom([], k, key, 0)) <==> !NullDecides(k, key, 0)))
  }

  // No answer without a sound header; else the first column n that is not level answers
  ghost predicate Verdict(b: Bytes, key: seq<Value>, n: nat, r: Option<int>) {
    if !HeaderOk(b) then r == None
    else
      var count, end := FromLe(b[2..4]), 6 + FromLe(b[4..6]);
      var vs := Readable(b, 6, end, count);
      LevelTo(vs.0, key, n) && Answers(b, end, vs.0, vs.1, key, count, n, r)
  }

  // compare_slot_key, on any bytes. On the encoding of a key it gives up exactly at a pair of texts, and else has the
  // sign of the comparison.
  method CompareSlotKey(b: Bytes, key: seq<Value>) returns (r: Option<int>, ghost n: nat)
    ensures Verdict(b, key, n, r)
    ensures forall k :: BeginsWith(b, k) ==> SlotAgrees(k, key, r)
  {
    r, n := ReadSlot(b, key);
    forall k | BeginsWith(b, k) ensures SlotAgrees(k, key, r) {
      VerdictMeans(b, key, k, n, r);
    }
  }

  method ReadSlot(b: Bytes, key: seq<Value>) returns (r: Option<int>, ghost n: nat)
    ensures Verdict(b, key, n, r)
  {
    if |b| < 6 { return None, 0; }
    var magic, count, payload := FromLe(b[0..2]), FromLe(b[2..4]), FromLe(b[4..6]);
    if magic != MAGIC || payload + 6 > |b| { return None, 0; }
    ghost var vs := Readable(b, 6, 6 + payload, count);
    r, n := CompareColumns(b, key, 6 + payload, count, vs.0, vs.1);
  }

  lemma VerdictMeans(b: Bytes, key: seq<Value>, k: seq<Value>, n: nat, r: Option<int>)
    requires BeginsWith(b, k) && Verdict(b, key, n, r)
    ensures SlotAgrees(k, key, r)
  {
    AnswersKey(b, k);
    var end := 6 + FromLe(b[4..6]);
    AnswerMeans(b, end, k, Readable(b, 6, end, |k|).1, key, n, r);
  }

  // An encoded key is all there to be read
  lemma AnswersKey(b: Bytes, k: seq<Value>)
    requires BeginsWith(b, k)
    ensures HeaderOk(b) && FromLe(b[2..4]) == |k| && Readable(b, 6, 6 + FromLe(b[4..6]), |k|).0 == k
  {
    var rest := b[|EncodedKey(k)|..];
    assert b == EncodedKey(k) + rest;
    SlotStart(b, k, rest);
    AllBack(b, k, 6 + BodySize(k, |k|));
  }

  method CompareColumns(b: Bytes, key: seq<Value>, end: nat, count: nat, ghost vs: seq<Value>, ghost q: nat)
    returns (r: Option<int>, ghost n: nat)
    requires end <= |b| && Readable(b, 6, end, count) == (vs, q)
    ensures LevelTo(vs, key, n) && Answers(b, end, vs, q, key, count, n, r)
  {
    var p: nat := 6;
    var columns := if count < |key| then count else |key|;
    for i := 0 to columns
      invariant LevelTo(vs, key, i) && Readable(b, p, end, count - i) == (vs[i..], q)
    {
      n := i;
      if p >= end { return None, n; }
      var c := CompareItem(b, p, end, key[i]);
      ColumnSays(b, p, end, count, vs, q, key, i, c);
      match c {
        case Undetermined => return None, n;
        case Differs(d) => return Some(d), n;
        case Same(next) => p := next;
      }
    }
    n := columns;
    if count == |key| { return Some(0), n; }
    return Some(if count < |key| then -1 else 1), n;
  }

  datatype Outcome = Undetermined | Differs(sign: int) | Same(next: nat)

  // One column: where a value can be read the comparison with it, else at most the order of the types
  ghost predicate ItemSays(b: Bytes, p: nat, end: nat, key: Value, c: Outcome)
    requires p < end <= |b|
  {
    match ReadValue(b, p, end, 2, false)
    case None => c == if b[p] != TypeOf(key) then Differs(Sign(b[p] - TypeOf(key))) else Undetermined
    case Some(v) =>
      c == if v.0.Varchar? && key.Varchar? then Undetermined
           else if Compare(v.0, key) != 0 then Differs(Sign(Compare(v.0, key)))
           else Same(v.1)
  }

  // What the outcome of column i says about the slot
  lemma ColumnSays(b: Bytes, p: nat, end: nat, count: nat, vs: seq<Value>, q: nat, key: seq<Value>, i: nat, c: Outcome)
    requires p < end <= |b| && i < count && i < |key| && ItemSays(b, p, end, key[i], c)
    requires LevelTo(vs, key, i) && Readable(b, p, end, count - i) == (vs[i..], q)
    ensures c.Undetermined? ==> Answers(b, end, vs, q, key, count, i, None)
    ensures c.Differs? ==> Answers(b, end, vs, q, key, count, i, Some(c.sign))
    ensures c.Same? ==> LevelTo(vs, key, i + 1) && Readable(b, c.next, end, count - i - 1) == (vs[i + 1..], q)
  {
    var r := ReadValue(b, p, end, 2, false);
    if r.Some? {
      var rest := Readable(b, r.value.1, end, count - i - 1);
      assert vs[i..] == [r.value.0] + rest.0;
      assert vs[i] == r.value.0 && vs[i + 1..] == vs[i..][1..] == rest.0;
    } else {
      assert vs[i..] == [] && q == p;
    }
  }

  method CompareItem(b: Bytes, p: nat, end: nat, key: Value) returns (c: Outcome)
    requires p < end <= |b|
    ensures ItemSays(b, p, end, key, c)
  {
    var t := b[p];
    if t != TypeOf(key) { return Differs(Sign(t - TypeOf(key))); }
    if t == 5 { return Undetermined; }
    if t == 255 { return Same(p + 1); }
    if p + 1 + Size(t) > end { return Undetermined; }
    var v := FromData(t, b[p + 1..p + 1 + Size(t)]);
    var d := Compare(v, key);
    SignOfCompare(v, key);
    return if d != 0 then Differs(d) else Same(p + 1 + Size(t));
  }

  // From value i on the rest of the key can be read
  ghost predicate ReadsTo(b: Bytes, k: seq<Value>, end: nat, i: nat)
    requires i <= |k| && end <= |b|
  {
    Readable(b, 6 + BodySize(k, i), end, |k| - i).0 == k[i..]
  }

  lemma AllBack(b: Bytes, k: seq<Value>, end: nat)
    requires Carries(b, k, end)
    ensures Readable(b, 6, end, |k|).0 == k
  {
    var i := |k|;
    while i > 0
      invariant 0 <= i <= |k| && ReadsTo(b, k, end, i)
    {
      i := i - 1;
      ItemRead(b, k, end, i, false);
      AllBackStep(b, k, end, i);
    }
    assert k[0..] == k;
  }

  lemma AllBackStep(b: Bytes, k: seq<Value>, end: nat, i: nat)
    requires i < |k| && end <= |b| && ReadsTo(b, k, end, i + 1)
    requires ItemReads(b, k, end, i, false)
    ensures ReadsTo(b, k, end, i)
  {
    assert [k[i]] + k[i + 1..] == k[i..];
  }

  // What level columns leave to those behind them
  lemma {:induction false} BehindLevel(k: seq<Value>, key: seq<Value>, n: nat)
    requires LevelTo(k, key, n)
    ensures CompareValues(k, key, 0) == CompareValues(k, key, n) && Undecided(k, key, 0) == Undecided(k, key, n)
    decreases n
  {
    if n > 0 {
      BehindLevel(k, key, n - 1);
      assert ValueOrder()(n - 1, k[n - 1], key[n - 1]) == Compare(k[n - 1], key[n - 1]) == 0;
    }
  }

  lemma AnswerMeans(b: Bytes, end: nat, k: seq<Value>, q: nat, key: seq<Value>, n: nat, r: Option<int>)
    requires end <= |b| && LevelTo(k, key, n) && Answers(b, end, k, q, key, |k|, n, r)
    ensures SlotAgrees(k, key, r)
  {
    SlotOrderAgrees(k, key, 0);
    BehindLevel(k, key, n);
    if n < |k| && n < |key| { assert ValueOrder()(n, k[n], key[n]) == Compare(k[n], key[n]); }
  }

  lemma SignOfCompare(a: Value, b: Value)
    requires TypeOf(a) == TypeOf(b) && !a.Varchar?
    ensures -1 <= Compare(a, b) <= 1
  {
  }
}
