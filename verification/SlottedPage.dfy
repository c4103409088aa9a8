/** The 8 KB slotted page: line pointers growing up from the header, tuple data
    growing down from the reserved tail. */
module SlottedPages {
  import opened Arithmetic

  const PAGE_SIZE: nat := 8192
  const HEADER: nat := 24
  const LP_SIZE: nat := 6
  // kDataUpperBound: page size less the eight reserved bytes
  const DATA_END: nat := 8184
  // kNullSlot
  const NULL_SLOT: nat := 0xFFFF

  datatype Flag = Unused | Normal | Redirect | Dead

  datatype LinePointer = LinePointer(offset: nat, length: nat, flag: Flag) {
    predicate IsValid() { flag == Normal && offset > 0 && length > 0 }
    predicate IsUsable() { flag == Unused || flag == Dead }
    // Occupies bytes of the data area
    predicate HasRegion() { (flag == Normal || flag == Dead) && length > 0 }
  }

  type Pointers = seq<LinePointer>

  // max_align on u16: round up to a multiple of eight, modulo 2^16
  function Align(n: nat): nat {
    ((n + 7) / 8 * 8) % 0x1_0000
  }

  // Rounding goes wrong exactly for the last seven u16 values
  lemma AlignBounds(n: nat)
    requires n <= 0xFFFF
    ensures n <= Align(n) <==> n <= 0xFFF8
    ensures n <= 0xFFF8 ==> n <= Align(n) < n + 8 && Align(n) % 8 == 0
  {
  }

  function LpEnd(n: nat): nat {
    HEADER + n * LP_SIZE
  }

  ghost predicate LpOk(lp: LinePointer, n: nat) {
    match lp.flag
    case Unused => lp.offset == 0 && lp.length == 0
    case Redirect => lp.length == 0 && lp.offset < n
    case Normal => lp.length <= 0xFFF8 && LpEnd(n) <= lp.offset && lp.offset + Align(lp.length) <= DATA_END
    case Dead => 0 < lp.length <= 0xFFF8 && LpEnd(n) <= lp.offset && lp.offset + Align(lp.length) <= DATA_END
  }

  ghost predicate Apart(a: LinePointer, b: LinePointer) {
    a.HasRegion() && b.HasRegion() ==> a.offset + Align(a.length) <= b.offset || b.offset + Align(b.length) <= a.offset
  }

  // Tuple regions lie above the line pointers and below the reserved tail, pairwise disjoint
  ghost predicate LayoutOk(lps: Pointers) {
    && LpEnd(|lps|) <= DATA_END
    && (forall i {:trigger LpOk(lps[i], |lps|)} :: 0 <= i < |lps| ==> LpOk(lps[i], |lps|))
    && (forall i, j {:trigger Apart(lps[i], lps[j])} :: 0 <= i < |lps| && 0 <= j < |lps| && i != j ==>
          Apart(lps[i], lps[j]))
  }

  // The smallest nonzero offset of the first n line pointers
  function MinOffset(lps: Pointers, n: nat): nat
    requires n <= |lps|
  {
    if n == 0 then DATA_END
    else
      var m := MinOffset(lps, n - 1);
      if lps[n - 1].offset > 0 && lps[n - 1].offset < m then lps[n - 1].offset else m
  }

  lemma {:induction false} MinOffsetBelow(lps: Pointers, n: nat, i: nat)
    requires n <= |lps| && i < n && lps[i].offset > 0
    ensures MinOffset(lps, n) <= lps[i].offset
    decreases n
  {
    if i < n - 1 { MinOffsetBelow(lps, n - 1, i); }
  }

  lemma {:induction false} MinOffsetRange(lps: Pointers, n: nat)
    requires n <= |lps|
    ensures 0 < MinOffset(lps, n) <= DATA_END
    ensures MinOffset(lps, n) < DATA_END ==> exists i :: 0 <= i < n && lps[i].offset == MinOffset(lps, n)
    decreases n
  {
    if n > 0 { MinOffsetRange(lps, n - 1); }
  }

  // A dead slot whose room suffices
  predicate DeadFits(lp: LinePointer, length: nat) {
    lp.flag == Dead && Align(length) <= Align(lp.length)
  }

  // Appending: the line-pointer array after the insert must stay below the new tuple
  predicate AppendFits(lps: Pointers, length: nat, grow: bool) {
    var lo := MinOffset(lps, |lps|);
    Align(length) <= lo && LpEnd(if grow then |lps| + 1 else |lps|) <= lo - Align(length)
  }

  lemma {:induction false} MinOffsetSame(lps: Pointers, lps': Pointers, n: nat)
    requires n <= |lps| == |lps'| && forall i :: 0 <= i < n ==> lps[i].offset == lps'[i].offset
    ensures MinOffset(lps, n) == MinOffset(lps', n)
    decreases n
  {
    if n > 0 { MinOffsetSame(lps, lps', n - 1); }
  }

  // The slot number a redirect leads to counts as an offset, and a low one: nothing can be appended any more, unless
  // the redirect leads to slot 0
  lemma RedirectBlocks(lps: Pointers, idx: nat, target: nat, length: nat, grow: bool)
    requires LayoutOk(lps) && idx < |lps| && target < |lps|
    ensures AppendFits(lps[idx := LinePointer(target, 0, Redirect)], length, grow) <==>
            target == 0 && AppendFits(lps[idx := LinePointer(0, 0, Unused)], length, grow)
  {
    var lps' := lps[idx := LinePointer(target, 0, Redirect)];
    if target > 0 {
      MinOffsetBelow(lps', |lps'|, idx);
    } else {
      MinOffsetSame(lps', lps[idx := LinePointer(0, 0, Unused)], |lps|);
    }
  }

  // ---------------------------------------------------------------------------
  // What the operations keep
  // ---------------------------------------------------------------------------

  // Put a tuple below everything else, into slot `at`
  function Appended(lps: Pointers, at: nat, length: nat): Pointers
    requires at <= |lps|
  {
    var lo := MinOffset(lps, |lps|);
    var lp := LinePointer(if lo >= Align(length) then lo - Align(length) else 0, length, Normal);
    if at == |lps| then lps + [lp] else lps[at := lp]
  }

  lemma AppendedOk(lps: Pointers, at: nat, length: nat)
    requires LayoutOk(lps) && length <= 0xFFF8 && at <= |lps|
    requires AppendFits(lps, length, at == |lps|)
    ensures LayoutOk(Appended(lps, at, length))
  {
    var lps' := Appended(lps, at, length);
    MinOffsetRange(lps, |lps|);
    forall i | 0 <= i < |lps'| ensures LpOk(lps'[i], |lps'|) {
      if i != at {
        assert LpOk(lps[i], |lps|);
        if lps[i].offset > 0 { MinOffsetBelow(lps, |lps|, i); }
      }
    }
    forall i, j | 0 <= i < |lps'| && 0 <= j < |lps'| && i != j ensures Apart(lps'[i], lps'[j]) {
      if i != at && j != at { assert Apart(lps[i], lps[j]); }
      if i != at && lps[i].HasRegion() { assert LpOk(lps[i], |lps|); MinOffsetBelow(lps, |lps|, i); }
      if j != at && lps[j].HasRegion() { assert LpOk(lps[j], |lps|); MinOffsetBelow(lps, |lps|, j); }
    }
  }

  // Replacing one line pointer by one with no more room, or none
  ghost predicate Shrunk(lp: LinePointer, lp': LinePointer) {
    lp'.HasRegion() ==> lp.HasRegion() && lp'.offset == lp.offset && Align(lp'.length) <= Align(lp.length)
  }

  lemma ShrunkOk(lps: Pointers, i: nat, lp: LinePointer)
    requires LayoutOk(lps) && i < |lps| && Shrunk(lps[i], lp) && LpOk(lp, |lps|)
    ensures LayoutOk(lps[i := lp])
  {
    var lps' := lps[i := lp];
    forall k | 0 <= k < |lps'| ensures LpOk(lps'[k], |lps'|) {
      assert LpOk(lps[k], |lps|);
    }
    forall k, j | 0 <= k < |lps'| && 0 <= j < |lps'| && k != j ensures Apart(lps'[k], lps'[j]) {
      assert Apart(lps[k], lps[j]);
    }
  }

  // ---------------------------------------------------------------------------
  // Compaction
  // ---------------------------------------------------------------------------

  // Where the data of the first n valid tuples ends, packed down from the tail
  function PackedEnd(lps: Pointers, n: nat): int
    requires n <= |lps|
  {
    if n == 0 then DATA_END
    else PackedEnd(lps, n - 1) - (if lps[n - 1].IsValid() then Align(lps[n - 1].length) else 0)
  }

  ghost function Cells(lo: int, hi: int): (c: set<int>)
    ensures forall x :: x in c <==> lo <= x < hi
    ensures lo <= hi ==> |c| == hi - lo
    decreases hi - lo
  {
    if lo >= hi then {} else Cells(lo, hi - 1) + {hi - 1}
  }

  // The bytes the first n valid tuples occupy
  ghost function Occupied(lps: Pointers, n: nat): set<int>
    requires n <= |lps|
  {
    if n == 0 then {}
    else Occupied(lps, n - 1) +
         (if lps[n - 1].IsValid() then Cells(lps[n - 1].offset, lps[n - 1].offset + Align(lps[n - 1].length)) else {})
  }

  lemma {:induction false} OccupiedBy(lps: Pointers, n: nat, x: int)
    requires n <= |lps| && x in Occupied(lps, n)
    ensures exists i :: 0 <= i < n && lps[i].IsValid() && lps[i].offset <= x < lps[i].offset + Align(lps[i].length)
    decreases n
  {
    if x in Occupied(lps, n - 1) { OccupiedBy(lps, n - 1, x); }
  }

  // The next valid tuple shares no byte with those before it
  lemma OccupiedApart(lps: Pointers, n: nat)
    requires LayoutOk(lps) && n < |lps| && lps[n].IsValid()
    ensures Occupied(lps, n) !! Cells(lps[n].offset, lps[n].offset + Align(lps[n].length))
  {
    forall x | x in Occupied(lps, n) ensures x !in Cells(lps[n].offset, lps[n].offset + Align(lps[n].length)) {
      OccupiedBy(lps, n, x);
      var i :| 0 <= i < n && lps[i].IsValid() && lps[i].offset <= x < lps[i].offset + Align(lps[i].length);
      assert Apart(lps[i], lps[n]);
    }
  }

  lemma {:induction false} OccupiedRange(lps: Pointers, n: nat)
    requires LayoutOk(lps) && n <= |lps|
    ensures Occupied(lps, n) <= Cells(LpEnd(|lps|), DATA_END)
    decreases n
  {
    if n > 0 {
      OccupiedRange(lps, n - 1);
      assert LpOk(lps[n - 1], |lps|);
    }
  }

  lemma UnionSize(a: set<int>, b: set<int>)
    requires a !! b
    ensures |a + b| == |a| + |b|
  {
  }

  // Disjoint regions: as many bytes as the lengths add up to
  lemma {:induction false} OccupiedCount(lps: Pointers, n: nat)
    requires LayoutOk(lps) && n <= |lps|
    ensures |Occupied(lps, n)| == DATA_END - PackedEnd(lps, n)
    decreases n
  {
    if n > 0 {
      OccupiedCount(lps, n - 1);
      var lp := lps[n - 1];
      if lp.IsValid() {
        OccupiedApart(lps, n - 1);
        UnionSize(Occupied(lps, n - 1), Cells(lp.offset, lp.offset + Align(lp.length)));
      }
    }
  }

  // The compaction cursor never runs into the line pointers
  lemma CursorStaysAbove(lps: Pointers, n: nat)
    requires LayoutOk(lps) && n <= |lps|
    ensures LpEnd(|lps|) <= PackedEnd(lps, n) <= DATA_END
  {
    OccupiedCount(lps, n);
    OccupiedRange(lps, n);
    SubsetSize(Occupied(lps, n), Cells(LpEnd(|lps|), DATA_END));
  }

  lemma {:induction false} PackedFalls(lps: Pointers, m: nat, n: nat)
    requires m <= n <= |lps|
    ensures PackedEnd(lps, n) <= PackedEnd(lps, m)
    decreases n
  {
    if m < n { PackedFalls(lps, m, n - 1); }
  }

  // The first n line pointers moved to their packed places
  ghost predicate PackedPointers(lps: Pointers, lps': Pointers, n: nat)
    requires n <= |lps| == |lps'|
  {
    && (forall i :: 0 <= i < n ==> lps'[i] == if lps[i].IsValid() && PackedEnd(lps, i + 1) >= 0
                                            then lps[i].(offset := PackedEnd(lps, i + 1)) else lps[i])
    && (forall i :: n <= i < |lps| ==> lps'[i] == lps[i])
  }

  lemma PackedPlace(lps: Pointers, lps': Pointers, i: nat)
    requires LayoutOk(lps) && |lps| == |lps'| && PackedPointers(lps, lps', |lps|) && i < |lps| && lps[i].flag != Dead
    ensures LpOk(lps'[i], |lps'|)
    ensures lps'[i].HasRegion() ==>
              lps'[i].offset == PackedEnd(lps, i + 1) && PackedEnd(lps, i) == lps'[i].offset + Align(lps'[i].length)
  {
    assert LpOk(lps[i], |lps|);
    CursorStaysAbove(lps, i);
    CursorStaysAbove(lps, i + 1);
  }

  lemma PackedOk(lps: Pointers, lps': Pointers)
    requires LayoutOk(lps) && |lps| == |lps'| && PackedPointers(lps, lps', |lps|)
    requires forall i :: 0 <= i < |lps| ==> lps[i].flag != Dead
    ensures LayoutOk(lps')
  {
    forall i | 0 <= i < |lps| ensures LpOk(lps'[i], |lps'|) { PackedPlace(lps, lps', i); }
    forall i, j | 0 <= i < |lps'| && 0 <= j < |lps'| && i != j ensures Apart(lps'[i], lps'[j]) {
      PackedPlace(lps, lps', i);
      PackedPlace(lps, lps', j);
      if i < j { PackedFalls(lps, i + 1, j); } else { PackedFalls(lps, j + 1, i); }
    }
  }

  // ---------------------------------------------------------------------------
  // The page
  // ---------------------------------------------------------------------------

  ghost function Bytes(d: seq<nat>, lp: LinePointer): seq<nat>
    requires lp.offset + lp.length <= |d|
  {
    d[lp.offset..lp.offset + lp.length]
  }

  lemma RegionInside(lps: Pointers, i: nat)
    requires LayoutOk(lps) && i < |lps| && lps[i].HasRegion()
    ensures LpEnd(|lps|) <= lps[i].offset && lps[i].offset + lps[i].length <= DATA_END
  {
    assert LpOk(lps[i], |lps|);
    AlignBounds(lps[i].length);
  }

  // Every slot other than `slot` keeps its line pointer and its bytes
  ghost predicate KeepsOthers(lps: Pointers, d: seq<nat>, lps': Pointers, d': seq<nat>, slot: nat)
    requires LayoutOk(lps) && |d| == PAGE_SIZE == |d'|
  {
    |lps| <= |lps'| && forall i {:trigger SameTuple(lps, d, lps', d', i)} :: 0 <= i < |lps| && i != slot ==>
      SameTuple(lps, d, lps', d', i)
  }

  ghost predicate SameTuple(lps: Pointers, d: seq<nat>, lps': Pointers, d': seq<nat>, i: nat)
    requires LayoutOk(lps) && i < |lps| <= |lps'| && |d| == PAGE_SIZE == |d'|
  {
    lps'[i] == lps[i] && (lps[i].HasRegion() ==> (RegionInside(lps, i); Bytes(d', lps[i]) == Bytes(d, lps[i])))
  }

  // The reserved tail is out of reach
  lemma SpliceTail(d: seq<nat>, o: nat, tuple: seq<nat>)
    requires |d| == PAGE_SIZE && o + |tuple| <= DATA_END
    ensures Splice(d, o, tuple)[DATA_END..] == d[DATA_END..]
  {
  }

  // Writing a tuple into its own region leaves the bytes of all others alone
  lemma WriteOwnRegion(lps: Pointers, d: seq<nat>, lps': Pointers, slot: nat, tuple: seq<nat>)
    requires LayoutOk(lps) && LayoutOk(lps') && |d| == PAGE_SIZE && |lps| <= |lps'| && slot < |lps'|
    requires forall i :: 0 <= i < |lps| && i != slot ==> lps'[i] == lps[i]
    requires lps'[slot].flag == Normal && lps'[slot].length == |tuple|
    requires lps'[slot].offset + |tuple| <= DATA_END
    ensures var o := lps'[slot].offset;
            KeepsOthers(lps, d, lps', Splice(d, o, tuple), slot)
  {
    var o := lps'[slot].offset;
    var d' := Splice(d, o, tuple);
    AlignBounds(|tuple|);
    assert LpOk(lps'[slot], |lps'|);
    forall i | 0 <= i < |lps| && i != slot ensures SameTuple(lps, d, lps', d', i) {
      if lps[i].HasRegion() {
        RegionInside(lps, i);
        assert Apart(lps'[i], lps'[slot]);
        AlignBounds(lps[i].length);
        SpliceKeeps(d, o, tuple, lps[i].offset, lps[i].length);
      }
    }
  }

  // d with a tuple written at o
  ghost function Splice(d: seq<nat>, o: nat, tuple: seq<nat>): (r: seq<nat>)
    requires o + |tuple| <= |d|
    ensures |r| == |d| && forall x :: 0 <= x < |d| ==> r[x] == if o <= x < o + |tuple| then tuple[x - o] else d[x]
  {
    d[..o] + tuple + d[o + |tuple|..]
  }

  lemma SpliceKeeps(d: seq<nat>, o: nat, tuple: seq<nat>, at: nat, n: nat)
    requires o + |tuple| <= |d| && at + n <= |d| && (tuple == [] || at + n <= o || o + |tuple| <= at)
    ensures Splice(d, o, tuple)[at..at + n] == d[at..at + n]
  {
    var e := Splice(d, o, tuple);
    assert forall x :: at <= x < at + n ==> e[x] == d[x];
  }

  lemma SpliceHolds(d: seq<nat>, o: nat, tuple: seq<nat>)
    requires o + |tuple| <= |d|
    ensures Splice(d, o, tuple)[o..o + |tuple|] == tuple
  {
  }

  lemma AppendStep(lps: Pointers, d: seq<nat>, at: nat, tuple: seq<nat>)
    requires LayoutOk(lps) && |d| == PAGE_SIZE && |tuple| <= 0xFFF8 && at <= |lps|
    requires AppendFits(lps, |tuple|, at == |lps|)
    ensures MinOffset(lps, |lps|) - Align(|tuple|) + |tuple| <= DATA_END
    ensures LayoutOk(Appended(lps, at, |tuple|))
    ensures KeepsOthers(lps, d, Appended(lps, at, |tuple|), Splice(d, MinOffset(lps, |lps|) - Align(|tuple|), tuple),
              at)
  {
    AppendedOk(lps, at, |tuple|);
    MinOffsetRange(lps, |lps|);
    AlignBounds(|tuple|);
    WriteOwnRegion(lps, d, Appended(lps, at, |tuple|), at, tuple);
  }

  // has_enough_space, as a property of the line pointers
  ghost predicate HasSpace(lps: Pointers, length: nat) {
    || (exists i :: 0 <= i < |lps| && DeadFits(lps[i], length))
    || AppendFits(lps, length, forall i :: 0 <= i < |lps| ==> lps[i].flag != Unused)
  }

  // In bytes: a dead slot of no smaller aligned size, or room for the aligned tuple between the line pointers, one more
  // of them if no slot is unused, and whatever lies lowest above them
  lemma SpaceMeans(lps: Pointers, length: nat, n: nat)
    requires n == |lps| + if exists i :: 0 <= i < |lps| && lps[i].flag == Unused then 0 else 1
    ensures HasSpace(lps, length) <==>
              || (exists i :: 0 <= i < |lps| && lps[i].flag == Dead && Align(length) <= Align(lps[i].length))
              || (&& 24 + 6 * n + Align(length) <= 8184
                  && forall i :: 0 <= i < |lps| && lps[i].offset > 0 ==>
                       24 + 6 * n + Align(length) <= lps[i].offset)
  {
    var lo := MinOffset(lps, |lps|);
    MinOffsetRange(lps, |lps|);
    forall i | 0 <= i < |lps| && lps[i].offset > 0 ensures lo <= lps[i].offset { MinOffsetBelow(lps, |lps|, i); }
    assert (exists i :: 0 <= i < |lps| && DeadFits(lps[i], length)) <==>
           exists i :: 0 <= i < |lps| && lps[i].flag == Dead && Align(length) <= Align(lps[i].length);
    var grow := forall i :: 0 <= i < |lps| ==> lps[i].flag != Unused;
    assert n == if grow then |lps| + 1 else |lps|;
    assert AppendFits(lps, length, grow) <==> 24 + 6 * n + Align(length) <= lo;
  }

  // The slot an insertion takes: the first dead slot with room, else the first unused one, else a new one
  ghost predicate Chosen(lps: Pointers, length: nat, slot: nat) {
    if exists i :: 0 <= i < |lps| && DeadFits(lps[i], length) then
      slot < |lps| && DeadFits(lps[slot], length) && forall j :: 0 <= j < slot ==> !DeadFits(lps[j], length)
    else
      slot <= |lps| && (slot < |lps| ==> lps[slot].flag == Unused) && forall j :: 0 <= j < slot ==>
        lps[j].flag != Unused
  }

  // Every dead slot freed, its bytes given up
  function Cleared(lps: Pointers): Pointers {
    seq(|lps|, i requires 0 <= i < |lps| => if lps[i].flag == Dead then LinePointer(0, 0, Unused) else lps[i])
  }

  lemma ClearedOk(lps: Pointers)
    requires LayoutOk(lps)
    ensures LayoutOk(Cleared(lps))
  {
    var c := Cleared(lps);
    forall k | 0 <= k < |c| ensures LpOk(c[k], |c|) { assert LpOk(lps[k], |lps|); }
    forall k, j | 0 <= k < |c| && 0 <= j < |c| && k != j ensures Apart(c[k], c[j]) { assert Apart(lps[k], lps[j]); }
  }

  function DeadCount(lps: Pointers, n: nat): nat
    requires n <= |lps|
  {
    if n == 0 then 0 else DeadCount(lps, n - 1) + if lps[n - 1].flag == Dead then 1 else 0
  }

  // The bytes of tuple k stand at its packed place
  ghost predicate Landed(from: seq<nat>, to: seq<nat>, lps: Pointers, k: nat)
    requires k < |lps| && |from| == |to| == PAGE_SIZE
  {
    var at := PackedEnd(lps, k + 1);
    && 0 <= at && at + lps[k].length <= DATA_END && lps[k].offset + lps[k].length <= DATA_END
    && to[at..at + lps[k].length] == from[lps[k].offset..lps[k].offset + lps[k].length]
  }

  ghost predicate AllLanded(from: seq<nat>, to: seq<nat>, lps: Pointers, n: nat)
    requires n <= |lps| && |from| == |to| == PAGE_SIZE
  {
    forall k {:trigger Landed(from, to, lps, k)} :: 0 <= k < n && lps[k].IsValid() ==> Landed(from, to, lps, k)
  }

  lemma PackedInside(lps: Pointers, k: nat)
    requires LayoutOk(lps) && k < |lps| && lps[k].IsValid()
    ensures LpEnd(|lps|) <= PackedEnd(lps, k + 1)
    ensures PackedEnd(lps, k + 1) + lps[k].length <= PackedEnd(lps, k) <= DATA_END
    ensures lps[k].offset + lps[k].length <= DATA_END
  {
    CursorStaysAbove(lps, k + 1);
    CursorStaysAbove(lps, k);
    RegionInside(lps, k);
    assert LpOk(lps[k], |lps|);
    AlignBounds(lps[k].length);
  }

  // Nothing from lo on has changed
  ghost predicate SameFrom(d: seq<nat>, d': seq<nat>, lo: int) {
    |d| == |d'| && forall x :: 0 <= x < |d| && lo <= x ==> d'[x] == d[x]
  }

  lemma SliceKept(d: seq<nat>, d': seq<nat>, lo: int, at: nat, n: nat)
    requires SameFrom(d, d', lo) && lo <= at && at + n <= |d|
    ensures d'[at..at + n] == d[at..at + n]
  {
  }

  lemma LandedStays(from: seq<nat>, to: seq<nat>, to': seq<nat>, lps: Pointers, k: nat, n: nat)
    requires k < n <= |lps| && |from| == |to| == |to'| == PAGE_SIZE && lps[k].IsValid() && AllLanded(from, to, lps, n)
    requires SameFrom(to, to', PackedEnd(lps, n))
    ensures Landed(from, to', lps, k)
  {
    assert Landed(from, to, lps, k);
    PackedFalls(lps, k + 1, n);
    SliceKept(to, to', PackedEnd(lps, n), PackedEnd(lps, k + 1), lps[k].length);
  }

  lemma SameAtStays(lps: Pointers, a: seq<nat>, b: seq<nat>, b': seq<nat>, k: nat, n: nat)
    requires k < n <= |lps| && |a| == |b| == |b'| == PAGE_SIZE && SameAt(lps, a, b, k)
    requires SameFrom(b, b', PackedEnd(lps, n))
    ensures SameAt(lps, a, b', k)
  {
    PackedFalls(lps, k + 1, n);
    SliceKept(b, b', PackedEnd(lps, n), PackedEnd(lps, k + 1), lps[k].length);
  }

  // One more tuple lands below those that have landed
  lemma LandNext(from: seq<nat>, to: seq<nat>, to': seq<nat>, lps: Pointers, n: nat)
    requires n < |lps| && |from| == |to| == |to'| == PAGE_SIZE && AllLanded(from, to, lps, n)
    requires lps[n].IsValid() ==> Landed(from, to', lps, n)
    requires SameFrom(to, to', PackedEnd(lps, n))
    ensures AllLanded(from, to', lps, n + 1)
  {
    forall k | 0 <= k < n + 1 && lps[k].IsValid() ensures Landed(from, to', lps, k) {
      if k < n { LandedStays(from, to, to', lps, k, n); }
    }
  }

  lemma LandedTwice(a: seq<nat>, b: seq<nat>, c: seq<nat>, lps: Pointers, k: nat)
    requires k < |lps| && |a| == |b| == |c| == PAGE_SIZE && Landed(a, b, lps, k)
    requires var at := PackedEnd(lps, k + 1); c[at..at + lps[k].length] == b[at..at + lps[k].length]
    ensures Landed(a, c, lps, k)
  {
  }

  // What pruning does to a slot: a dead one is freed, a live tuple keeps its number, length and bytes
  ghost predicate Pruned(lps: Pointers, d: seq<nat>, lps': Pointers, d': seq<nat>, i: nat)
    requires i < |lps| == |lps'| && |d| == |d'| == PAGE_SIZE
  {
    && (lps[i].flag == Dead ==> lps'[i] == LinePointer(0, 0, Unused))
    && (lps[i].flag != Dead && !lps[i].IsValid() ==> lps'[i] == lps[i])
    && (lps[i].IsValid() ==>
          && lps'[i].IsValid() && lps'[i].length == lps[i].length
          && lps[i].offset + lps[i].length <= PAGE_SIZE && lps'[i].offset + lps[i].length <= PAGE_SIZE
          && Bytes(d', lps'[i]) == Bytes(d, lps[i]))
  }

  // The packed place of tuple k holds the same bytes in both pages
  ghost predicate SameAt(lps: Pointers, a: seq<nat>, b: seq<nat>, k: nat)
    requires k < |lps| && |a| == |b| == PAGE_SIZE
  {
    var at := PackedEnd(lps, k + 1);
    0 <= at && at + lps[k].length <= DATA_END && b[at..at + lps[k].length] == a[at..at + lps[k].length]
  }

  lemma SameAtNext(lps: Pointers, a: seq<nat>, b: seq<nat>, b': seq<nat>, n: nat)
    requires n < |lps| && |a| == |b| == |b'| == PAGE_SIZE
    requires forall k {:trigger SameAt(lps, a, b, k)} :: 0 <= k < n && lps[k].IsValid() ==> SameAt(lps, a, b, k)
    requires SameAt(lps, a, b', n)
    requires SameFrom(b, b', PackedEnd(lps, n))
    ensures forall k {:trigger SameAt(lps, a, b', k)} :: 0 <= k < n + 1 && lps[k].IsValid() ==> SameAt(lps, a, b', k)
  {
    forall k | 0 <= k < n + 1 && lps[k].IsValid() ensures SameAt(lps, a, b', k) {
      if k < n {
        assert SameAt(lps, a, b, k);
        SameAtStays(lps, a, b, b', k, n);
      }
    }
  }

  // The first n tuples copied back
  ghost predicate Scattered(lps: Pointers, tmp: seq<nat>, lps': Pointers, d: seq<nat>, n: nat) {
    && n <= |lps| == |lps'| && |tmp| == |d| == PAGE_SIZE && PackedPointers(lps, lps', n)
    && forall k {:trigger SameAt(lps, tmp, d, k)} :: 0 <= k < n && lps[k].IsValid() ==> SameAt(lps, tmp, d, k)
  }

  lemma ScatterNext(lps: Pointers, tmp: seq<nat>, lps': Pointers, d: seq<nat>, n: nat)
    requires LayoutOk(lps) && Scattered(lps, tmp, lps', d, n) && n < |lps| && lps[n].IsValid()
    requires 0 <= PackedEnd(lps, n + 1) && PackedEnd(lps, n + 1) + lps[n].length <= PackedEnd(lps, n) <= DATA_END
    ensures var at := PackedEnd(lps, n + 1);
            Scattered(lps, tmp, lps'[n := lps[n].(offset := at)], Splice(d, at, tmp[at..at + lps[n].length]), n + 1)
  {
    var at := PackedEnd(lps, n + 1);
    var part := tmp[at..at + lps[n].length];
    SpliceHolds(d, at, part);
    SameAtNext(lps, tmp, d, Splice(d, at, part), n);
  }

  lemma PruneKeeps(lps: Pointers, d: seq<nat>, tmp: seq<nat>, lps': Pointers, d': seq<nat>, i: nat)
    requires LayoutOk(lps) && i < |lps| == |lps'| && |d| == |tmp| == |d'| == PAGE_SIZE
    requires PackedPointers(Cleared(lps), lps', |lps'|)
    requires AllLanded(d, tmp, Cleared(lps), |lps|)
    requires Cleared(lps)[i].IsValid() ==> SameAt(Cleared(lps), tmp, d', i)
    ensures lps'[i].flag != Dead && Pruned(lps, d, lps', d', i)
  {
    var c := Cleared(lps);
    if lps[i].IsValid() {
      ClearedOk(lps);
      PackedInside(c, i);
      assert Landed(d, tmp, c, i);
      LandedTwice(d, tmp, d', c, i);
    }
  }

  lemma {:induction false} DeadCountPositive(lps: Pointers, i: nat, n: nat)
    requires i < n <= |lps| && lps[i].flag == Dead
    ensures DeadCount(lps, n) > 0
    decreases n
  {
    if i < n - 1 { DeadCountPositive(lps, i, n - 1); }
  }

  // The line pointers after pruning: dead slots free, live tuples packed against the tail in slot order; as they were
  // if no slot is dead
  ghost function PrunedPointers(lps: Pointers): Pointers
    requires LayoutOk(lps)
  {
    if forall i :: 0 <= i < |lps| ==> lps[i].flag != Dead then lps
    else
      seq(|lps|, i requires 0 <= i < |lps| =>
        var c := Cleared(lps);
        ClearedOk(lps);
        CursorStaysAbove(c, i + 1);
        if c[i].IsValid() then c[i].(offset := PackedEnd(c, i + 1)) else c[i])
  }

  // No redirects and no empty tuples
  ghost predicate Plain(lps: Pointers) {
    forall i :: 0 <= i < |lps| ==> lps[i].IsUsable() || lps[i].IsValid()
  }

  // Compaction leaves one contiguous hole: the lowest offset accounts for the live tuples alone
  lemma {:induction false} PackedDense(lps: Pointers, lps': Pointers, n: nat)
    requires LayoutOk(lps) && Plain(lps) && n <= |lps| == |lps'| && PackedPointers(Cleared(lps), lps', |lps|)
    ensures MinOffset(lps', n) == PackedEnd(lps, n) == PackedEnd(Cleared(lps), n)
    decreases n
  {
    if n > 0 {
      PackedDense(lps, lps', n - 1);
      ClearedOk(lps);
      CursorStaysAbove(Cleared(lps), n);
      assert LpOk(lps[n - 1], |lps|);
      AlignBounds(lps[n - 1].length);
    }
  }

  lemma PackedArePruned(lps: Pointers, lps': Pointers)
    requires LayoutOk(lps) && |lps| == |lps'| && PackedPointers(Cleared(lps), lps', |lps'|)
    requires exists i :: 0 <= i < |lps| && lps[i].flag == Dead
    ensures lps' == PrunedPointers(lps)
  {
    var c := Cleared(lps);
    ClearedOk(lps);
    forall i | 0 <= i < |lps| ensures lps'[i] == PrunedPointers(lps)[i] { CursorStaysAbove(c, i + 1); }
  }

  class Page {
    var lps: Pointers
    var data: array<nat>

    ghost predicate Valid()
      reads this, data
    {
      data.Length == PAGE_SIZE && LayoutOk(lps)
    }

    // What a slot holds
    ghost predicate Stores(slot: nat, tuple: seq<nat>)
      reads this, data
    {
      && slot < |lps| && lps[slot].flag == Normal && lps[slot].length == |tuple|
      && lps[slot].offset + |tuple| <= data.Length && data[lps[slot].offset..lps[slot].offset + |tuple|] == tuple
    }

    constructor ()
      ensures Valid() && lps == [] && fresh(data)
    {
      lps := [];
      data := new nat[PAGE_SIZE](_ => 0);
    }

    // A page with given contents, as it comes out of the buffer pool
    constructor Load(pointers: Pointers, bytes: seq<nat>)
      requires LayoutOk(pointers) && |bytes| == PAGE_SIZE
      ensures Valid() && lps == pointers && data[..] == bytes && fresh(data)
    {
      lps := pointers;
      data := new nat[PAGE_SIZE](i requires 0 <= i < PAGE_SIZE => bytes[i]);
    }

    method CopyIn(offset: nat, tuple: seq<nat>)
      requires offset + |tuple| <= data.Length
      modifies data
      ensures data[..] == Splice(old(data[..]), offset, tuple)
    {
      forall i | 0 <= i < |tuple| { data[offset + i] := tuple[i]; }
    }

    method SmallestOffset() returns (lo: nat)
      ensures lo == MinOffset(lps, |lps|)
    {
      lo := DATA_END;
      for i := 0 to |lps|
        invariant lo == MinOffset(lps, i)
      {
        if lps[i].offset > 0 && lps[i].offset < lo { lo := lps[i].offset; }
      }
    }

    method HasEnoughSpace(length: nat) returns (yes: bool)
      requires Valid()
      ensures yes <==> HasSpace(lps, length)
    {
      var hasUnused := false;
      for i := 0 to |lps|
        invariant hasUnused <==> exists k :: 0 <= k < i && lps[k].flag == Unused
        invariant forall k :: 0 <= k < i ==> !DeadFits(lps[k], length)
      {
        if !lps[i].IsUsable() { continue; }
        if lps[i].flag == Unused { hasUnused := true; continue; }
        if lps[i].flag == Dead && Align(length) <= Align(lps[i].length) { return true; }
      }
      var lpEnd := LpEnd(if hasUnused then |lps| else |lps| + 1);
      var lo := SmallestOffset();
      if Align(length) > lo { return false; }
      return lpEnd <= lo - Align(length);
    }

    method InsertTuple(tuple: seq<nat>) returns (slot: nat)
      requires Valid() && |tuple| <= 0xFFF8
      modifies this`lps, data
      ensures Valid()
      ensures slot != NULL_SLOT <==> HasSpace(old(lps), |tuple|)
      ensures slot == NULL_SLOT ==> lps == old(lps) && data[..] == old(data[..])
      ensures slot != NULL_SLOT ==> Stores(slot, tuple) && KeepsOthers(old(lps), old(data[..]), lps, data[..], slot)
      ensures slot != NULL_SLOT ==> Chosen(old(lps), |tuple|, slot)
      ensures slot != NULL_SLOT ==>
                lps == if slot < |old(lps)| && DeadFits(old(lps)[slot], |tuple|)
                       then old(lps)[slot := LinePointer(old(lps)[slot].offset, |tuple|, Normal)]
                       else Appended(old(lps), slot, |tuple|)
      ensures data[DATA_END..] == old(data[DATA_END..])
    {
      var reusable: nat := NULL_SLOT;
      var num := |lps|;
      FewPointers(lps);
      for i := 0 to num
        invariant reusable == NULL_SLOT ==> forall k :: 0 <= k < i ==> lps[k].flag != Unused
        invariant reusable != NULL_SLOT ==> reusable < i && lps[reusable].flag == Unused
        invariant reusable != NULL_SLOT ==> forall k :: 0 <= k < reusable ==> lps[k].flag != Unused
        invariant forall k :: 0 <= k < i ==> !DeadFits(lps[k], |tuple|)
      {
        assert LpOk(lps[i], |lps|);
        if lps[i].IsUsable() {
          if lps[i].flag == Unused && reusable == NULL_SLOT { reusable := i; }
          if lps[i].length > 0 && Align(|tuple|) <= Align(lps[i].length) {
            ReuseDead(i, tuple);
            return i;
          }
        }
      }
      var at := if reusable == NULL_SLOT then num else reusable;
      var ok := AppendAt(at, tuple);
      return if ok then at else NULL_SLOT;
    }

    // The room of a dead tuple, taken over in place
    method ReuseDead(i: nat, tuple: seq<nat>)
      requires Valid() && |tuple| <= 0xFFF8 && i < |lps| && DeadFits(lps[i], |tuple|)
      modifies this`lps, data
      ensures Valid() && Stores(i, tuple) && KeepsOthers(old(lps), old(data[..]), lps, data[..], i)
      ensures lps == old(lps)[i := LinePointer(old(lps)[i].offset, |tuple|, Normal)]
      ensures data[DATA_END..] == old(data[DATA_END..])
    {
      var lp := LinePointer(lps[i].offset, |tuple|, Normal);
      assert LpOk(lps[i], |lps|);
      AlignBounds(|tuple|);
      ShrunkOk(lps, i, lp);
      WriteOwnRegion(lps, data[..], lps[i := lp], i, tuple);
      lps := lps[i := lp];
      CopyIn(lp.offset, tuple);
      SpliceHolds(old(data[..]), lp.offset, tuple);
    }

    // A tuple below all others, in a given slot
    method AppendAt(at: nat, tuple: seq<nat>) returns (ok: bool)
      requires Valid() && |tuple| <= 0xFFF8 && at <= |lps|
      modifies this`lps, data
      ensures Valid() && (ok <==> AppendFits(old(lps), |tuple|, at == |old(lps)|))
      ensures !ok ==> lps == old(lps) && data[..] == old(data[..])
      ensures ok ==> Stores(at, tuple) && KeepsOthers(old(lps), old(data[..]), lps, data[..], at)
      ensures ok ==> lps == Appended(old(lps), at, |tuple|)
      ensures data[DATA_END..] == old(data[DATA_END..])
    {
      var lpEnd := LpEnd(if at == |lps| then |lps| + 1 else |lps|);
      var lo := SmallestOffset();
      if Align(|tuple|) > lo { return false; }
      var offset := lo - Align(|tuple|);
      if lpEnd > offset { return false; }
      AppendStep(lps, data[..], at, tuple);
      var lp := LinePointer(offset, |tuple|, Normal);
      lps := if at == |lps| then lps + [lp] else lps[at := lp];
      assert lps == Appended(old(lps), at, |tuple|);
      CopyIn(offset, tuple);
      SpliceHolds(old(data[..]), offset, tuple);
      SpliceTail(old(data[..]), offset, tuple);
      return true;
    }

    method InsertTupleAt(tuple: seq<nat>, target: nat) returns (slot: nat)
      requires Valid() && |tuple| <= 0xFFF8
      modifies this`lps, data
      ensures Valid()
      ensures slot == NULL_SLOT || slot == target
      ensures slot != NULL_SLOT <==>
                target <= |old(lps)| && (target < |old(lps)| ==> !old(lps)[target].IsValid())
                && AppendFits(old(lps), |tuple|, target == |old(lps)|)
      ensures slot == NULL_SLOT ==> lps == old(lps) && data[..] == old(data[..])
      ensures slot != NULL_SLOT ==> Stores(slot, tuple) && KeepsOthers(old(lps), old(data[..]), lps, data[..], slot)
      ensures slot != NULL_SLOT ==> lps == Appended(old(lps), slot, |tuple|)
      ensures data[DATA_END..] == old(data[DATA_END..])
    {
      FewPointers(lps);
      if target > |lps| { return NULL_SLOT; }
      if target < |lps| && lps[target].IsValid() { return NULL_SLOT; }
      var ok := AppendAt(target, tuple);
      return if ok then target else NULL_SLOT;
    }

    // First pass of the compaction: the live tuples gathered in the scratch page
    method Gather(tmp: array<nat>)
      requires Valid() && tmp != data && tmp.Length == PAGE_SIZE
      modifies tmp
      ensures AllLanded(data[..], tmp[..], lps, |lps|)
    {
      var end := DATA_END;
      for i := 0 to |lps|
        invariant end == PackedEnd(lps, i)
        invariant AllLanded(data[..], tmp[..], lps, i)
      {
        ghost var before := tmp[..];
        if lps[i].IsValid() {
          PackedInside(lps, i);
          end := end - Align(lps[i].length);
          CopyRange(data, lps[i].offset, tmp, end, lps[i].length);
          SpliceHolds(before, end, data[lps[i].offset..lps[i].offset + lps[i].length]);
        }
        LandNext(data[..], before, tmp[..], lps, i);
      }
    }

    // Second pass: every live tuple copied back to its packed place, its pointer moved there
    method Scatter(tmp: array<nat>)
      requires Valid() && tmp != data && tmp.Length == PAGE_SIZE
      modifies this`lps, data
      ensures Scattered(old(lps), tmp[..], lps, data[..], |old(lps)|)
      ensures data[DATA_END..] == old(data[DATA_END..])
    {
      ghost var lps0 := lps;
      var end := DATA_END;
      for i := 0 to |lps|
        invariant |lps| == |lps0| && end == PackedEnd(lps0, i)
        invariant Scattered(lps0, tmp[..], lps, data[..], i)
        invariant SameFrom(old(data[..]), data[..], DATA_END)
      {
        ghost var before := data[..];
        if lps[i].IsValid() {
          PackedInside(lps0, i);
          end := end - Align(lps[i].length);
          CopyRange(tmp, end, data, end, lps[i].length);
          ScatterNext(lps0, tmp[..], lps, before, i);
          lps := lps[i := lps[i].(offset := end)];
        }
      }
    }

    method CopyRange(src: array<nat>, from: nat, dst: array<nat>, at: nat, n: nat)
      requires src != dst && from + n <= src.Length && at + n <= dst.Length
      modifies dst
      ensures dst[..] == Splice(old(dst[..]), at, src[from..from + n])
    {
      forall i | 0 <= i < n { dst[at + i] := src[from + i]; }
    }

    method Prune() returns (reclaimed: nat)
      requires Valid()
      modifies this`lps, data
      ensures Valid() && |lps| == |old(lps)|
      ensures reclaimed == DeadCount(old(lps), |old(lps)|)
      ensures forall i :: 0 <= i < |lps| ==> lps[i].flag != Dead && Pruned(old(lps), old(data[..]), lps, data[..], i)
      ensures data[DATA_END..] == old(data[DATA_END..])
      ensures reclaimed == 0 ==> lps == old(lps) && data[..] == old(data[..])
      ensures lps == PrunedPointers(old(lps))
      ensures reclaimed > 0 && Plain(old(lps)) ==> MinOffset(lps, |lps|) == PackedEnd(old(lps), |lps|)
    {
      ghost var lps0, d0 := lps, data[..];
      var anyDead := false;
      for i := 0 to |lps|
        invariant anyDead <==> exists k :: 0 <= k < i && lps[k].flag == Dead
        invariant !anyDead ==> DeadCount(lps, i) == 0
      {
        if lps[i].flag == Dead {
          DeadCountPositive(lps, i, |lps|);
          anyDead := true;
          break;
        }
      }
      if !anyDead {
        forall i | 0 <= i < |lps| && lps[i].IsValid()
          ensures lps[i].offset + lps[i].length <= PAGE_SIZE
        {
          RegionInside(lps, i);
        }
        return 0;
      }
      reclaimed := ClearDead();
      ClearedOk(lps0);
      var tmp := new nat[PAGE_SIZE](_ => 0);
      Gather(tmp);
      Scatter(tmp);
      PackedOk(Cleared(lps0), lps);
      forall i | 0 <= i < |lps| ensures lps[i].flag != Dead && Pruned(lps0, d0, lps, data[..], i) {
        PruneKeeps(lps0, d0, tmp[..], lps, data[..], i);
      }
      if Plain(lps0) { PackedDense(lps0, lps, |lps|); }
      PackedArePruned(lps0, lps);
    }

    method ClearDead() returns (reclaimed: nat)
      modifies this`lps
      ensures lps == Cleared(old(lps)) && reclaimed == DeadCount(old(lps), |old(lps)|)
    {
      reclaimed := 0;
      for i := 0 to |lps|
        invariant |lps| == |old(lps)| && reclaimed == DeadCount(old(lps), i)
        invariant forall k :: 0 <= k < |lps| ==> lps[k] == if k < i then Cleared(old(lps))[k] else old(lps)[k]
      {
        if lps[i].flag == Dead {
          lps := lps[i := LinePointer(0, 0, Unused)];
          reclaimed := reclaimed + 1;
        }
      }
    }

    method MarkDead(idx: nat) returns (ok: bool)
      requires Valid()
      modifies this`lps
      ensures Valid()
      ensures ok <==> idx < |old(lps)| && old(lps)[idx].IsValid()
      ensures lps == if ok then old(lps)[idx := old(lps)[idx].(flag := Dead)] else old(lps)
    {
      if idx >= |lps| || !lps[idx].IsValid() { return false; }
      assert LpOk(lps[idx], |lps|);
      ShrunkOk(lps, idx, lps[idx].(flag := Dead));
      lps := lps[idx := lps[idx].(flag := Dead)];
      return true;
    }

    method ReclaimSlot(idx: nat) returns (ok: bool)
      requires Valid()
      modifies this`lps
      ensures Valid() && (ok <==> idx < |old(lps)|)
      ensures lps == if ok then old(lps)[idx := LinePointer(0, 0, Unused)] else old(lps)
    {
      if idx >= |lps| { return false; }
      ShrunkOk(lps, idx, LinePointer(0, 0, Unused));
      lps := lps[idx := LinePointer(0, 0, Unused)];
      return true;
    }

    method RedirectSlot(idx: nat, target: nat) returns (ok: bool)
      requires Valid()
      modifies this`lps
      ensures Valid() && (ok <==> idx < |old(lps)| && target < |old(lps)|)
      ensures lps == if ok then old(lps)[idx := LinePointer(target, 0, Redirect)] else old(lps)
      ensures ok && target > 0 ==> forall length: nat {:trigger HasSpace(lps, length)} ::
                HasSpace(lps, length) <==> exists i :: 0 <= i < |lps| && DeadFits(lps[i], length)
    {
      if idx >= |lps| || target >= |lps| { return false; }
      ShrunkOk(lps, idx, LinePointer(target, 0, Redirect));
      lps := lps[idx := LinePointer(target, 0, Redirect)];
      forall length: nat, grow: bool ensures AppendFits(lps, length, grow) ==> target == 0 {
        RedirectBlocks(old(lps), idx, target, length, grow);
      }
      return true;
    }
  }

  lemma FewPointers(lps: Pointers)
    requires LayoutOk(lps)
    ensures |lps| <= 1360
  {
  }
}
