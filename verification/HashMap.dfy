/** The open-addressing hash map: linear probing with tombstones in a table whose
    capacity is a power of two. */
module HashMaps {
  import opened Arithmetic
  import opened Options

  // A slot of the table: never used, in use, or emptied by erase
  datatype Slot<K, V> = Empty | Live(key: K, value: V) | Tomb

  const U64: nat := 0x1_0000_0000_0000_0000
  const U32: nat := 0x1_0000_0000
  const MAX_SLOTS: nat := 0x8000_0000

  // 2 to the k
  function Power(k: nat): (p: nat)
    ensures p >= 1
  {
    if k == 0 then 1 else 2 * Power(k - 1)
  }

  lemma {:induction false} PowerSum(a: nat, b: nat)
    ensures Power(a + b) == Power(a) * Power(b)
    decreases b
  {
    if b > 0 {
      PowerSum(a, b - 1);
      assert Power(a) * Power(b) == 2 * (Power(a) * Power(b - 1));
    }
  }

  lemma Power64()
    ensures Power(64) == U64
  {
    PowerSum(8, 8);
    PowerSum(16, 16);
    PowerSum(32, 32);
    assert Power(8) == 256;
  }

  lemma AtLeast16(k: nat)
    requires k >= 4
    ensures Power(k) >= 16
  {
    assert Power(4) == 16;
    PowerSum(4, k - 4);
    MulAtLeast(16, Power(k - 4));
  }

  lemma Power31()
    ensures Power(31) == MAX_SLOTS
  {
    assert Power(7) == 128 && Power(8) == 256;
    PowerSum(8, 8);
    PowerSum(8, 7);
    PowerSum(16, 15);
  }

  lemma {:induction false} PowerRises(a: nat, b: nat)
    requires a < b
    ensures 2 * Power(a) <= Power(b)
  {
    if a < b - 1 { PowerRises(a, b - 1); }
  }

  // Of the capacities up to 2^31 only the last is too large to double
  lemma SmallPower(k: nat)
    requires k <= 31
    ensures Power(k) <= MAX_SLOTS && (k == 31 <==> Power(k) == MAX_SLOTS)
  {
    Power31();
    if k < 31 { PowerRises(k, 31); }
  }

  // Adding a multiple changes no remainder
  lemma ModShift(r: nat, n: nat, k: nat)
    requires n > 0
    ensures (n * k + r) % n == r % n
  {
    var a, b := r / n, r % n;
    assert r == n * a + b;
    assert n * k + r == n * (k + a) + b by { assert n * (k + a) == n * k + n * a; }
    DivUnique(n * k + r, n, k + a, b);
  }

  // (h + i) % capacity on 64-bit unsigned integers
  function ProbeIndex(h: nat, i: nat, cap: nat): (idx: nat)
    requires cap > 0
    ensures idx < cap
  {
    ((h + i) % U64) % cap
  }

  // Slot i of the probe sequence that starts at s, wrapping at the end of the table
  function At(s: nat, i: nat, cap: nat): (idx: nat)
    requires s < cap && i < cap
    ensures idx < cap
  {
    if s + i < cap then s + i else s + i - cap
  }

  // The place of a slot in that sequence
  function Place(s: nat, idx: nat, cap: nat): (i: nat)
    requires s < cap && idx < cap
    ensures i < cap && At(s, i, cap) == idx
  {
    if idx >= s then idx - s else idx + cap - s
  }

  // Wrap-around of the 64-bit sum is harmless: the capacity divides 2^64
  lemma WrapHarmless(h: nat, i: nat, k: nat)
    requires k <= 64 && i < Power(k)
    ensures ProbeIndex(h, i, Power(k)) == At(h % Power(k), i, Power(k))
  {
    Power64();
    PowerSum(k, 64 - k);
    ModOfMod(h + i, Power(k), U64, Power(64 - k));
    ModSum(h, i, Power(k));
  }

  lemma ModOfMod(x: nat, n: nat, m: nat, q: nat)
    requires n > 0 && m > 0 && m == n * q
    ensures (x % m) % n == x % n
  {
    var k, r := x / m, x % m;
    assert x == m * k + r;
    assert x == n * (q * k) + r by { assert m * k == n * (q * k); }
    MulNonNegative(q, k);
    ModShift(r, n, q * k);
  }

  lemma ModSum(h: nat, i: nat, cap: nat)
    requires cap > 0 && i < cap
    ensures (h + i) % cap == At(h % cap, i, cap)
  {
    var s, k := h % cap, h / cap;
    assert h == cap * k + s;
    if s + i < cap {
      DivUnique(h + i, cap, k, s + i);
    } else {
      assert cap * (k + 1) == cap * k + cap;
      DivUnique(h + i, cap, k + 1, s + i - cap);
    }
  }

  // ---------------------------------------------------------------------------
  // Tables that stand for a map
  // ---------------------------------------------------------------------------

  function Home<K>(hash: K -> nat, key: K, cap: nat): (s: nat)
    requires cap > 0
    ensures s < cap
  {
    hash(key) % cap
  }

  // The first n slots of the probe sequence have all been used at some time
  ghost predicate Used<K, V>(t: seq<Slot<K, V>>, s: nat, n: nat)
    requires s < |t| && n <= |t|
  {
    forall i :: 0 <= i < n ==> !t[At(s, i, |t|)].Empty?
  }

  // A live slot holds a pair of the map and can be reached from its home
  ghost predicate SlotOk<K, V>(t: seq<Slot<K, V>>, hash: K -> nat, m: map<K, V>, idx: nat)
    requires idx < |t|
  {
    t[idx].Live? ==>
      && t[idx].key in m && m[t[idx].key] == t[idx].value
      && Used(t, Home(hash, t[idx].key, |t|), Place(Home(hash, t[idx].key, |t|), idx, |t|))
  }

  ghost predicate Holds<K, V>(t: seq<Slot<K, V>>, key: K) {
    exists i :: 0 <= i < |t| && t[i].Live? && t[i].key == key
  }

  ghost predicate NoRepeats<K, V>(t: seq<Slot<K, V>>) {
    forall i, j :: 0 <= i < j < |t| && t[i].Live? && t[j].Live? ==> t[i].key != t[j].key
  }

  // The live slots of t are exactly the pairs of m, each once and within reach
  ghost predicate Stands<K, V>(t: seq<Slot<K, V>>, hash: K -> nat, m: map<K, V>) {
    && (forall i {:trigger SlotOk(t, hash, m, i)} :: 0 <= i < |t| ==> SlotOk(t, hash, m, i))
    && NoRepeats(t)
    && (forall k {:trigger Holds(t, k)} :: k in m ==> Holds(t, k))
  }

  // Nothing of the key in the first n slots of its probe sequence
  ghost predicate Missed<K, V>(t: seq<Slot<K, V>>, s: nat, n: nat, key: K)
    requires s < |t| && n <= |t|
  {
    forall i :: 0 <= i < n ==> !(t[At(s, i, |t|)].Live? && t[At(s, i, |t|)].key == key)
  }

  lemma Stored<K, V>(t: seq<Slot<K, V>>, hash: K -> nat, m: map<K, V>, key: K) returns (idx: nat)
    requires |t| > 0 && Stands(t, hash, m) && key in m
    ensures idx < |t| && t[idx].Live? && t[idx].key == key
    ensures Used(t, Home(hash, key, |t|), Place(Home(hash, key, |t|), idx, |t|))
  {
    assert Holds(t, key);
    idx :| 0 <= idx < |t| && t[idx].Live? && t[idx].key == key;
    assert SlotOk(t, hash, m, idx);
  }

  // A probe that ends at a never-used slot, or has gone all the way round, has not missed the key
  lemma NotThere<K, V>(t: seq<Slot<K, V>>, hash: K -> nat, m: map<K, V>, key: K, n: nat)
    requires |t| > 0 && Stands(t, hash, m) && n <= |t|
    requires Missed(t, Home(hash, key, |t|), n, key)
    requires n == |t| || t[At(Home(hash, key, |t|), n, |t|)].Empty?
    ensures key !in m
  {
    if key in m { var idx := Stored(t, hash, m, key); }
  }

  lemma Overwrite<K, V>(t: seq<Slot<K, V>>, hash: K -> nat, m: map<K, V>, idx: nat, value: V)
    requires |t| > 0 && Stands(t, hash, m) && idx < |t| && t[idx].Live?
    ensures Stands(t[idx := Live(t[idx].key, value)], hash, m[t[idx].key := value])
  {
    var key := t[idx].key;
    var t', m' := t[idx := Live(key, value)], m[key := value];
    forall i | 0 <= i < |t'| ensures SlotOk(t', hash, m', i) {
      assert SlotOk(t, hash, m, i);
    }
    forall k | k in m' ensures Holds(t', k) {
      if k == key {
        assert t'[idx].key == k;
      } else {
        assert Holds(t, k);
        var i :| 0 <= i < |t| && t[i].Live? && t[i].key == k;
        assert t'[i] == t[i];
      }
    }
  }

  // A new pair in a free slot within reach
  lemma Occupy<K, V>(t: seq<Slot<K, V>>, hash: K -> nat, m: map<K, V>, idx: nat, key: K, value: V)
    requires |t| > 0 && Stands(t, hash, m) && idx < |t| && !t[idx].Live? && key !in m
    requires Used(t, Home(hash, key, |t|), Place(Home(hash, key, |t|), idx, |t|))
    ensures Stands(t[idx := Live(key, value)], hash, m[key := value])
  {
    var t', m' := t[idx := Live(key, value)], m[key := value];
    forall i | 0 <= i < |t'| ensures SlotOk(t', hash, m', i) {
      assert SlotOk(t, hash, m, i);
    }
    forall i | 0 <= i < |t| && t[i].Live? ensures t[i].key != key {
      assert SlotOk(t, hash, m, i);
    }
    forall k | k in m' ensures Holds(t', k) {
      if k == key {
        assert t'[idx].key == k;
      } else {
        assert Holds(t, k);
        var i :| 0 <= i < |t| && t[i].Live? && t[i].key == k;
        assert t'[i] == t[i];
      }
    }
  }

  // Erasing leaves a tombstone, so nothing behind it gets out of reach
  lemma Bury<K, V>(t: seq<Slot<K, V>>, hash: K -> nat, m: map<K, V>, idx: nat)
    requires |t| > 0 && Stands(t, hash, m) && idx < |t| && t[idx].Live?
    ensures Stands(t[idx := Tomb], hash, m - {t[idx].key}) && t[idx].key in m
  {
    var key := t[idx].key;
    var t', m' := t[idx := Tomb], m - {key};
    assert SlotOk(t, hash, m, idx);
    forall i | 0 <= i < |t'| ensures SlotOk(t', hash, m', i) {
      assert SlotOk(t, hash, m, i);
      if i != idx && t[i].Live? { assert t[i].key != key; }
    }
    forall k | k in m' ensures Holds(t', k) {
      assert Holds(t, k);
      var i :| 0 <= i < |t| && t[i].Live? && t[i].key == k;
      assert t'[i] == t[i];
    }
  }

  // A table with fewer pairs than slots has a slot to spare
  lemma RoomLeft<K, V>(t: seq<Slot<K, V>>, hash: K -> nat, m: map<K, V>)
    requires Stands(t, hash, m) && |m| < |t|
    ensures exists i :: 0 <= i < |t| && !t[i].Live?
  {
    if forall i :: 0 <= i < |t| ==> t[i].Live? {
      var keys := LiveKeys(t, hash, m, |t|);
      SubsetSize(keys, m.Keys);
    }
  }

  lemma {:induction false} LiveKeys<K, V>(t: seq<Slot<K, V>>, hash: K -> nat, m: map<K, V>, n: nat)
    returns (keys: set<K>)
    requires Stands(t, hash, m) && n <= |t|
    requires forall i :: 0 <= i < |t| ==> t[i].Live?
    ensures keys <= m.Keys && |keys| == n
    ensures forall k :: k in keys ==> exists i :: 0 <= i < n && t[i].key == k
    decreases n
  {
    if n == 0 {
      keys := {};
    } else {
      keys := LiveKeys(t, hash, m, n - 1);
      assert SlotOk(t, hash, m, n - 1);
      assert t[n - 1].key !in keys;
      keys := keys + {t[n - 1].key};
    }
  }

  lemma AllEmptyStands<K, V>(t: seq<Slot<K, V>>, hash: K -> nat)
    requires forall i :: 0 <= i < |t| ==> t[i].Empty?
    ensures Stands(t, hash, map[])
  {
  }

  ghost predicate AllLive<K, V>(t: seq<Slot<K, V>>, s: nat, n: nat)
    requires s < |t| && n <= |t|
  {
    forall k :: 0 <= k < n ==> t[At(s, k, |t|)].Live?
  }

  // A probe under way: no never-used slot and no match so far, and the first tombstone noted
  ghost predicate Passing<K, V>(t: seq<Slot<K, V>>, s: nat, n: nat, key: K, first: nat)
    requires s < |t| && n <= |t|
  {
    && Missed(t, s, n, key) && Used(t, s, n) && first <= |t|
    && (first < |t| ==> t[first].Tomb? && Place(s, first, |t|) < n && AllLive(t, s, Place(s, first, |t|)))
    && (first == |t| ==> AllLive(t, s, n))
  }

  lemma PassNext<K, V>(t: seq<Slot<K, V>>, s: nat, n: nat, key: K, first: nat)
    requires s < |t| && n < |t| && Passing(t, s, n, key, first)
    requires var x := t[At(s, n, |t|)]; !x.Empty? && !(x.Live? && x.key == key)
    ensures Passing(t, s, n + 1, key, if first == |t| && t[At(s, n, |t|)].Tomb? then At(s, n, |t|) else first)
  {
  }

  // The pairs of the first n slots
  ghost predicate MovedTo<K, V>(t: seq<Slot<K, V>>, m: map<K, V>, moved: map<K, V>, n: nat) {
    && n <= |t|
    && (forall x :: x in moved ==> x in m && moved[x] == m[x])
    && (forall x :: x in moved ==> exists j :: 0 <= j < n && t[j].Live? && t[j].key == x)
    && (forall j :: 0 <= j < n && t[j].Live? ==> t[j].key in moved)
  }

  lemma MoveNext<K, V>(t: seq<Slot<K, V>>, hash: K -> nat, m: map<K, V>, moved: map<K, V>, n: nat)
    requires Stands(t, hash, m) && MovedTo(t, m, moved, n) && n < |t| && t[n].Live?
    ensures t[n].key in m && m[t[n].key] == t[n].value && t[n].key !in moved
    ensures MovedTo(t, m, moved[t[n].key := t[n].value], n + 1)
  {
    assert SlotOk(t, hash, m, n);
    var moved' := moved[t[n].key := t[n].value];
    forall x | x in moved' ensures exists j :: 0 <= j < n + 1 && t[j].Live? && t[j].key == x {
      if x == t[n].key { assert t[n].Live?; }
    }
  }

  lemma AllMoved<K, V>(t: seq<Slot<K, V>>, hash: K -> nat, m: map<K, V>, moved: map<K, V>)
    requires Stands(t, hash, m) && MovedTo(t, m, moved, |t|)
    ensures moved == m
  {
    forall x | x in m ensures x in moved { assert Holds(t, x); }
  }

  class HashMap<K(==), V> {
    const hash: K -> nat
    var table: array<Slot<K, V>>
    var size: nat

    // what the map holds
    ghost var contents: map<K, V>
    // the capacity is 2 to this power, or there is no table yet
    ghost var log2: nat

    ghost predicate Valid()
      reads this, table
    {
      && Stands(table[..], hash, contents)
      && |contents| <= size
      && (table.Length == 0 ==> contents == map[]) && (table.Length > 0 ==> |contents| < table.Length)
      && (table.Length == 0 || (4 <= log2 <= 31 && table.Length == Power(log2)))
    }

    // The capacity is a 32-bit number: doubling 2^31 slots gives none
    predicate Overflows()
      reads this`table, this`size
    {
      table.Length == MAX_SLOTS && 10 * size > 7 * table.Length
    }

    constructor (hash: K -> nat)
      ensures Valid() && size == 0 && contents == map[] && this.hash == hash && table.Length == 0 && fresh(table)
    {
      this.hash := hash;
      table := new Slot<K, V>[0];
      size := 0;
      contents := map[];
      log2 := 0;
    }

    // Probe until the key or a never-used slot
    method Probe(key: K) returns (found: bool, idx: nat)
      requires Valid()
      ensures found <==> key in contents
      ensures found ==> idx < table.Length && table[idx].Live? && table[idx].key == key
    {
      found, idx := false, 0;
      if table.Length == 0 { return; }
      var cap, h := table.Length, hash(key);
      ghost var t, s := table[..], Home(hash, key, cap);
      for i := 0 to cap
        invariant Missed(t, s, i, key)
      {
        WrapHarmless(h, i, log2);
        idx := ProbeIndex(h, i, cap);
        assert table[idx] == t[idx] && idx == At(s, i, cap);
        if table[idx].Empty? {
          NotThere(t, hash, contents, key, i);
          return;
        }
        if table[idx].Live? && table[idx].key == key {
          assert SlotOk(t, hash, contents, idx);
          return true, idx;
        }
      }
      NotThere(t, hash, contents, key, cap);
    }

    method Find(key: K) returns (r: Option<V>)
      requires Valid()
      ensures r == if key in contents then Some(contents[key]) else None
    {
      var found, idx := Probe(key);
      if !found { return None; }
      assert SlotOk(table[..], hash, contents, idx);
      return Some(table[idx].value);
    }

    // The slot that holds the key, or the one a new pair goes to: the first on the way that is not in use
    method Locate(key: K) returns (hit: bool, idx: nat)
      requires Valid() && table.Length > 0
      ensures idx < table.Length && (hit <==> key in contents)
      ensures hit ==> table[idx].Live? && table[idx].key == key
      ensures !hit ==> !table[idx].Live? &&
                       var s := Home(hash, key, table.Length); AllLive(table[..], s, Place(s, idx, table.Length))
    {
      var cap, h := table.Length, hash(key);
      ghost var t, s := table[..], Home(hash, key, cap);
      var firstDeleted: nat := cap;
      for i := 0 to cap
        invariant Passing(t, s, i, key, firstDeleted)
      {
        WrapHarmless(h, i, log2);
        idx := ProbeIndex(h, i, cap);
        assert table[idx] == t[idx] && idx == At(s, i, cap);
        ghost var passed := firstDeleted;
        if table[idx].Live? && table[idx].key == key {
          assert SlotOk(t, hash, contents, idx);
          return true, idx;
        }
        if table[idx].Tomb? {
          if firstDeleted == cap { firstDeleted := idx; }
          PassNext(t, s, i, key, passed);
          continue;
        }
        if table[idx].Empty? {
          NotThere(t, hash, contents, key, i);
          if firstDeleted < cap { idx := firstDeleted; }
          return false, idx;
        }
        PassNext(t, s, i, key, passed);
      }
      NotThere(t, hash, contents, key, cap);
      if firstDeleted == cap {
        RoomLeft(t, hash, contents);
        AllRound(t, s);
        assert false;
      }
      return false, firstDeleted;
    }

    // Put a pair the new table does not have yet into the first unoccupied slot
    method PlaceNew(t: array<Slot<K, V>>, key: K, value: V, ghost k: nat, ghost m: map<K, V>)
      requires k <= 64 && t.Length == Power(k) && Stands(t[..], hash, m) && key !in m && |m| < t.Length
      requires forall i :: 0 <= i < t.Length ==> !t[i].Tomb?
      modifies t
      ensures Stands(t[..], hash, m[key := value])
      ensures forall i :: 0 <= i < t.Length ==> !t[i].Tomb?
    {
      var cap, h := t.Length, hash(key);
      ghost var t0, s := t[..], Home(hash, key, cap);
      for j := 0 to cap
        invariant t[..] == t0 && forall i :: 0 <= i < j ==> t0[At(s, i, cap)].Live?
      {
        WrapHarmless(h, j, k);
        var idx := ProbeIndex(h, j, cap);
        assert t[idx] == t0[idx];
        if !t[idx].Live? {
          Occupy(t0, hash, m, idx, key, value);
          t[idx] := Live(key, value);
          assert t[..] == t0[idx := Live(key, value)];
          return;
        }
      }
      RoomLeft(t0, hash, m);
      AllRound(t0, s);
      assert false;
    }

    // The live pairs, in a table of 2^k slots
    method Moved(ghost k: nat, newCap: nat) returns (grown: array<Slot<K, V>>)
      requires Valid() && k <= 64 && newCap == Power(k) && table.Length <= newCap
      ensures fresh(grown) && grown.Length == newCap && Stands(grown[..], hash, contents)
      ensures forall j :: 0 <= j < newCap ==> !grown[j].Tomb?
    {
      grown := new Slot<K, V>[newCap](_ => Empty);
      AllEmptyStands(grown[..], hash);
      ghost var moved: map<K, V> := map[];
      for i := 0 to table.Length
        invariant table[..] == old(table[..])
        invariant Stands(grown[..], hash, moved)
        invariant forall j :: 0 <= j < newCap ==> !grown[j].Tomb?
        invariant MovedTo(table[..], contents, moved, i)
      {
        if table[i].Live? {
          MoveNext(table[..], hash, contents, moved, i);
          SubsetSize(moved.Keys, contents.Keys);
          PlaceNew(grown, table[i].key, table[i].value, k, moved);
          moved := moved[table[i].key := table[i].value];
        }
      }
      AllMoved(table[..], hash, contents, moved);
    }

    // Twice the capacity (or 16), live pairs only; with 2^31 slots the new table has none, and no pair finds a place
    method Rehash()
      requires Valid()
      modifies this`table, this`log2, this`contents
      ensures Valid() && fresh(table) && forall i :: 0 <= i < table.Length ==> !table[i].Tomb?
      ensures var n := old(table.Length); table.Length == if n == 0 then 16 else if n == MAX_SLOTS then 0 else 2 * n
      ensures contents == if old(table.Length) == MAX_SLOTS then map[] else old(contents)
    {
      if table.Length > 0 { SmallPower(log2); }
      var newCap := if table.Length == 0 then 16 else 2 * table.Length % U32;
      if newCap == 0 {
        table := new Slot<K, V>[0];
        contents := map[];
        return;
      }
      ghost var k := if table.Length == 0 then 4 else log2 + 1;
      assert newCap == Power(k) by { assert Power(4) == 16; }
      table := Moved(k, newCap);
      log2 := k;
    }

    method GrowIfLoaded()
      requires Valid()
      modifies this`table, this`log2, this`contents
      ensures Valid() && (fresh(table) || table == old(table))
      ensures contents == if old(Overflows()) then map[] else old(contents)
      ensures if old(Overflows()) then table.Length == 0 else 16 <= table.Length && |contents| + 1 < table.Length
      ensures var n := old(table.Length);
              table.Length == if n == 0 then 16 else if 10 * size <= 7 * n then n
                              else if n == MAX_SLOTS then 0 else 2 * n
    {
      if table.Length > 0 { AtLeast16(log2); }
      if table.Length == 0 || 10 * size > 7 * table.Length {
        Rehash();
      }
    }

    method Insert(key: K, value: V)
      requires Valid()
      modifies this`table, this`log2, this`size, this`contents, table
      ensures Valid() && (fresh(table) || table == old(table))
      ensures contents == if old(Overflows()) then map[key := value] else old(contents)[key := value]
      ensures size == old(size) + if old(Overflows()) || key !in old(contents) then 1 else 0
      // doubles beyond a load of 0.7
      ensures var n := old(table.Length);
              table.Length == if n == 0 then 16 else if 10 * old(size) <= 7 * n then n
                              else if n == MAX_SLOTS then 32 else 2 * n
      decreases Overflows()
    {
      GrowIfLoaded();
      if table.Length == 0 {
        Rehash();
        Insert(key, value);
        return;
      }
      var hit, idx := Locate(key);
      ghost var t := table[..];
      if hit {
        Overwrite(t, hash, contents, idx, value);
      } else {
        Occupy(t, hash, contents, idx, key, value);
        size := size + 1;
      }
      table[idx] := Live(key, value);
      assert table[..] == t[idx := Live(key, value)];
      contents := contents[key := value];
    }

    // operator[]: the stored value, or the default, which is then stored
    method Index(key: K, default: V) returns (value: V)
      requires Valid()
      modifies this`table, this`log2, this`size, this`contents, table
      ensures Valid() && (fresh(table) || table == old(table))
      ensures value == if key in old(contents) && !old(Overflows()) then old(contents)[key] else default
      ensures contents == if old(Overflows()) then map[key := default] else old(contents)[key := value]
      ensures size == old(size) + if old(Overflows()) || key !in old(contents) then 1 else 0
      ensures var n := old(table.Length);
              table.Length == if n == 0 || old(Overflows()) then 16 else if 10 * old(size) <= 7 * n then n else 2 * n
    {
      GrowIfLoaded();
      value := default;
      if table.Length == 0 {
        Rehash();
        PlaceNew(table, key, default, log2, contents);
        size := size + 1;
        contents := contents[key := default];
        return;
      }
      var hit, idx := Locate(key);
      ghost var t := table[..];
      if hit {
        assert SlotOk(t, hash, contents, idx);
        value := table[idx].value;
        return;
      }
      Occupy(t, hash, contents, idx, key, default);
      size := size + 1;
      table[idx] := Live(key, default);
      assert table[..] == t[idx := Live(key, default)];
      contents := contents[key := default];
    }

    method Erase(key: K) returns (found: bool)
      requires Valid()
      modifies this`size, this`contents, table
      ensures Valid() && contents == old(contents) - {key} && (found <==> key in old(contents))
      ensures size == old(size) - if found then 1 else 0
    {
      var idx;
      found, idx := Probe(key);
      if !found { return; }
      ghost var t := table[..];
      Bury(t, hash, contents, idx);
      table[idx] := Tomb;
      assert table[..] == t[idx := Tomb];
      size := size - 1;
      contents := contents - {key};
    }

    // begin / next: the first live slot from a position on
    method NextLive(from: nat) returns (idx: nat)
      requires from <= table.Length
      ensures from <= idx <= table.Length
      ensures forall i :: from <= i < idx ==> !table[i].Live?
      ensures idx < table.Length ==> table[idx].Live?
    {
      idx := from;
      while idx < table.Length && !table[idx].Live?
        invariant from <= idx <= table.Length && forall i :: from <= i < idx ==> !table[i].Live?
      {
        idx := idx + 1;
      }
    }

    // A full iteration meets every pair of the map once
    method Entries() returns (pairs: seq<(K, V)>)
      requires Valid()
      ensures forall k :: k in contents ==> (k, contents[k]) in pairs
      ensures forall i :: 0 <= i < |pairs| ==> pairs[i].0 in contents && contents[pairs[i].0] == pairs[i].1
      ensures forall i, j :: 0 <= i < j < |pairs| ==> pairs[i].0 != pairs[j].0
    {
      pairs := [];
      var idx := NextLive(0);
      while idx < table.Length
        invariant idx <= table.Length && (idx < table.Length ==> table[idx].Live?)
        invariant forall j :: 0 <= j < idx && table[j].Live? ==> (table[j].key, table[j].value) in pairs
        invariant forall i :: 0 <= i < |pairs| ==> exists j :: 0 <= j < idx && table[j] == Live(pairs[i].0, pairs[i].1)
        invariant forall i, j :: 0 <= i < j < |pairs| ==> pairs[i].0 != pairs[j].0
      {
        pairs := pairs + [(table[idx].key, table[idx].value)];
        idx := NextLive(idx + 1);
      }
      forall i | 0 <= i < |pairs| ensures pairs[i].0 in contents && contents[pairs[i].0] == pairs[i].1 {
        var j :| 0 <= j < table.Length && table[j] == Live(pairs[i].0, pairs[i].1);
        assert SlotOk(table[..], hash, contents, j);
      }
      forall k | k in contents ensures (k, contents[k]) in pairs {
        assert Holds(table[..], k);
        var j :| 0 <= j < table.Length && table[..][j].Live? && table[..][j].key == k;
        assert SlotOk(table[..], hash, contents, j);
      }
    }
  }

  // The probe sequence visits every slot
  lemma AllRound<K, V>(t: seq<Slot<K, V>>, s: nat)
    requires s < |t| && forall k :: 0 <= k < |t| ==> t[At(s, k, |t|)].Live?
    ensures forall i :: 0 <= i < |t| ==> t[i].Live?
  {
    forall i | 0 <= i < |t| ensures t[i].Live? {
      assert t[At(s, Place(s, i, |t|), |t|)].Live?;
    }
  }
}
