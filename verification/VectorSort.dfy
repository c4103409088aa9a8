/** Vector::sort: insertion sort up to sixteen elements, heap sort above. */
module VectorSort {

  // The comparator is a strict weak order
  ghost predicate StrictWeak<T(!new)>(less: (T, T) -> bool) {
    && (forall x, y :: less(x, y) ==> !less(y, x))
    && (forall x, y, z :: !less(y, x) && !less(z, y) ==> !less(z, x))
  }

  ghost predicate Ordered<T(!new)>(s: seq<T>, less: (T, T) -> bool) {
    forall i, j :: 0 <= i < j < |s| ==> !less(s[j], s[i])
  }

  // Neither child of p is above it, among the first n elements
  ghost predicate ParentOk<T(!new)>(s: seq<T>, less: (T, T) -> bool, p: nat, n: nat)
    requires n <= |s| && p < n
  {
    && (2 * p + 1 < n ==> !less(s[p], s[2 * p + 1]))
    && (2 * p + 2 < n ==> !less(s[p], s[2 * p + 2]))
  }

  ghost predicate HeapFrom<T(!new)>(s: seq<T>, less: (T, T) -> bool, start: nat, n: nat)
    requires n <= |s|
  {
    forall p {:trigger ParentOk(s, less, p, n)} :: start <= p < n ==> ParentOk(s, less, p, n)
  }

  method Swap<T>(a: array<T>, i: nat, j: nat)
    requires i < a.Length && j < a.Length
    modifies a
    ensures a[..] == old(a[..])[i := old(a[j])][j := old(a[i])]
    ensures multiset(a[..]) == multiset(old(a[..]))
  {
    a[i], a[j] := a[j], a[i];
  }

  // A heap except at `hole`, whose children are already below the parent of `hole`
  ghost predicate HeapBut<T(!new)>(s: seq<T>, less: (T, T) -> bool, start: nat, n: nat, hole: nat)
    requires n <= |s|
  {
    && start <= hole < n
    && (forall p {:trigger ParentOk(s, less, p, n)} :: start <= p < n && p != hole ==> ParentOk(s, less, p, n))
    && (forall p :: start <= p < n && (2 * p + 1 == hole || 2 * p + 2 == hole) ==>
          && (2 * hole + 1 < n ==> !less(s[p], s[2 * hole + 1]))
          && (2 * hole + 2 < n ==> !less(s[p], s[2 * hole + 2])))
  }

  ghost predicate BiggerChild<T(!new)>(s: seq<T>, less: (T, T) -> bool, n: nat, hole: nat, child: nat)
    requires n <= |s|
  {
    && child < n && (child == 2 * hole + 1 || child == 2 * hole + 2)
    && !less(s[child], s[2 * hole + 1])
    && (2 * hole + 2 < n ==> !less(s[child], s[2 * hole + 2]))
  }

  lemma SiftStep<T(!new)>(s: seq<T>, less: (T, T) -> bool, start: nat, n: nat, hole: nat, child: nat)
    requires StrictWeak(less) && n <= |s| && HeapBut(s, less, start, n, hole)
    requires BiggerChild(s, less, n, hole, child) && less(s[hole], s[child])
    ensures HeapBut(s[hole := s[child]][child := s[hole]], less, start, n, child)
  {
    var s' := s[hole := s[child]][child := s[hole]];
    assert ParentOk(s, less, child, n);
    forall p | start <= p < n && p != child ensures ParentOk(s', less, p, n) {
      if p != hole { assert ParentOk(s, less, p, n); }
    }
  }

  lemma SiftDone<T(!new)>(s: seq<T>, less: (T, T) -> bool, start: nat, n: nat, hole: nat)
    requires StrictWeak(less) && n <= |s| && HeapBut(s, less, start, n, hole)
    requires 2 * hole + 1 < n ==> !less(s[hole], s[2 * hole + 1])
    requires 2 * hole + 2 < n ==> !less(s[hole], s[2 * hole + 2])
    ensures HeapFrom(s, less, start, n)
  {
    assert ParentOk(s, less, hole, n);
  }

  method SiftDown<T(!new)>(a: array<T>, less: (T, T) -> bool, start: nat, n: nat)
    requires StrictWeak(less) && start < n <= a.Length
    requires HeapFrom(a[..], less, start + 1, n)
    modifies a
    ensures HeapFrom(a[..], less, start, n)
    ensures a[n..] == old(a[n..]) && multiset(a[..n]) == multiset(old(a[..n]))
  {
    var root := start;
    while true
      invariant HeapBut(a[..], less, start, n, root)
      invariant a[n..] == old(a[n..]) && multiset(a[..n]) == multiset(old(a[..n]))
      decreases n - root
    {
      var child := 2 * root + 1;
      if child >= n { break; }
      if child + 1 < n && less(a[child], a[child + 1]) {
        child := child + 1;
      }
      if less(a[root], a[child]) {
        SiftStep(a[..], less, start, n, root, child);
        SwapWithin(a, n, root, child);
        root := child;
      } else {
        break;
      }
    }
    SiftDone(a[..], less, start, n, root);
  }

  method SwapWithin<T>(a: array<T>, n: nat, i: nat, j: nat)
    requires i < n <= a.Length && j < n
    modifies a
    ensures a[..] == old(a[..])[i := old(a[j])][j := old(a[i])]
    ensures a[n..] == old(a[n..]) && multiset(a[..n]) == multiset(old(a[..n]))
  {
    ghost var s := a[..n];
    a[i], a[j] := a[j], a[i];
    assert a[..n] == s[i := s[j]][j := s[i]];
  }

  // The root of a heap is a largest element
  lemma {:induction false} HeapTop<T(!new)>(s: seq<T>, less: (T, T) -> bool, n: nat, k: nat)
    requires StrictWeak(less) && n <= |s| && HeapFrom(s, less, 0, n) && k < n
    ensures !less(s[0], s[k])
  {
    if k > 0 {
      var p := (k - 1) / 2;
      HeapTop(s, less, n, p);
      assert ParentOk(s, less, p, n);
    }
  }

  // The tail from n on is final: ordered and not below anything before it
  ghost predicate TailDone<T(!new)>(s: seq<T>, less: (T, T) -> bool, n: nat)
    requires n <= |s|
  {
    && Ordered(s[n..], less)
    && forall i, j :: 0 <= i < n <= j < |s| ==> !less(s[j], s[i])
  }

  // Rearranging the first n elements leaves a final tail final
  lemma TailKept<T(!new)>(s: seq<T>, t: seq<T>, less: (T, T) -> bool, n: nat)
    requires |s| == |t| && n <= |s| && TailDone(s, less, n)
    requires s[n..] == t[n..] && multiset(s[..n]) == multiset(t[..n])
    ensures TailDone(t, less, n)
  {
    forall i, j | 0 <= i < n <= j < |t| ensures !less(t[j], t[i]) {
      assert t[i] in multiset(t[..n]);
      assert t[i] in s[..n];
      assert t[j] == t[n..][j - n] == s[j];
    }
  }

  // Moving the top of the heap to the end of the heap makes one more element final
  lemma TopMoved<T(!new)>(s: seq<T>, less: (T, T) -> bool, i: nat)
    requires StrictWeak(less) && 0 < i < |s| && HeapFrom(s, less, 0, i + 1) && TailDone(s, less, i + 1)
    ensures TailDone(s[0 := s[i]][i := s[0]], less, i)
    ensures HeapFrom(s[0 := s[i]][i := s[0]], less, 1, i)
  {
    var t := s[0 := s[i]][i := s[0]];
    forall k | 0 <= k < i ensures !less(t[i], t[k]) {
      HeapTop(s, less, i + 1, if k == 0 then i else k);
    }
    forall p | 1 <= p < i ensures ParentOk(t, less, p, i) {
      assert ParentOk(s, less, p, i + 1);
    }
    forall x, y | 0 <= x < y < |t[i..]| ensures !less(t[i..][y], t[i..][x]) {
      if x > 0 { assert t[i..][x] == s[i + 1..][x - 1] && t[i..][y] == s[i + 1..][y - 1]; }
    }
  }

  method MakeHeap<T(!new)>(a: array<T>, less: (T, T) -> bool)
    requires StrictWeak(less)
    modifies a
    ensures HeapFrom(a[..], less, 0, a.Length) && multiset(a[..]) == multiset(old(a[..]))
  {
    var n := a.Length;
    var i := n / 2;
    while i > 0
      invariant 0 <= i <= n / 2
      invariant HeapFrom(a[..], less, i, n)
      invariant multiset(a[..]) == multiset(old(a[..]))
    {
      i := i - 1;
      assert a[..] == a[..n];
      SiftDown(a, less, i, n);
      assert a[..] == a[..n];
    }
  }

  // Move the largest of the first i + 1 elements to position i
  method PopTop<T(!new)>(a: array<T>, less: (T, T) -> bool, i: nat)
    requires StrictWeak(less) && 0 < i < a.Length
    requires HeapFrom(a[..], less, 0, i + 1) && TailDone(a[..], less, i + 1)
    modifies a
    ensures HeapFrom(a[..], less, 0, i) && TailDone(a[..], less, i)
    ensures multiset(a[..]) == multiset(old(a[..]))
  {
    TopMoved(a[..], less, i);
    Swap(a, 0, i);
    ghost var t := a[..];
    SiftDown(a, less, 0, i);
    FrontRearranged(t, a[..], i);
    TailKept(t, a[..], less, i);
  }

  lemma FrontRearranged<T(!new)>(s: seq<T>, t: seq<T>, i: nat)
    requires i <= |s| == |t| && s[i..] == t[i..] && multiset(s[..i]) == multiset(t[..i])
    ensures multiset(s) == multiset(t)
  {
    assert s == s[..i] + s[i..] && t == t[..i] + t[i..];
  }

  method HeapSort<T(!new)>(a: array<T>, less: (T, T) -> bool)
    requires StrictWeak(less) && a.Length > 0
    modifies a
    ensures Ordered(a[..], less) && multiset(a[..]) == multiset(old(a[..]))
  {
    MakeHeap(a, less);
    var i := a.Length - 1;
    while i > 0
      invariant 0 <= i < a.Length
      invariant HeapFrom(a[..], less, 0, i + 1) && TailDone(a[..], less, i + 1)
      invariant multiset(a[..]) == multiset(old(a[..]))
    {
      PopTop(a, less, i);
      i := i - 1;
    }
    AllDone(a[..], less);
  }

  lemma AllDone<T(!new)>(s: seq<T>, less: (T, T) -> bool)
    requires |s| > 0 && TailDone(s, less, 1)
    ensures Ordered(s, less)
  {
    forall i, j | 0 <= i < j < |s| ensures !less(s[j], s[i]) {
      if i > 0 { assert s[i] == s[1..][i - 1] && s[j] == s[1..][j - 1]; }
    }
  }

  method InsertionSort<T(!new)>(a: array<T>, less: (T, T) -> bool)
    requires StrictWeak(less)
    modifies a
    ensures Ordered(a[..], less) && multiset(a[..]) == multiset(old(a[..]))
  {
    var i := 1;
    while i < a.Length
      invariant 1 <= i
      invariant i <= a.Length ==> Ordered(a[..i], less)
      invariant a.Length <= i ==> Ordered(a[..], less)
      invariant multiset(a[..]) == multiset(old(a[..]))
    {
      InsertLast(a, less, i);
      i := i + 1;
      assert a.Length <= i ==> a[..i] == a[..];
    }
  }

  // Slide element i down to its place among the ordered elements before it
  method InsertLast<T(!new)>(a: array<T>, less: (T, T) -> bool, i: nat)
    requires StrictWeak(less) && 0 < i < a.Length && Ordered(a[..i], less)
    modifies a
    ensures Ordered(a[..i + 1], less) && multiset(a[..]) == multiset(old(a[..]))
  {
    var key := a[i];
    var j := i;
    ghost var s := a[..];
    while j > 0 && less(key, a[j - 1])
      invariant 0 <= j <= i
      invariant forall k {:trigger a[k]} :: 0 <= k < a.Length && k != j ==>
                  a[k] == if j < k <= i then s[k - 1] else s[k]
      invariant forall k :: j <= k < i ==> less(key, s[k])
    {
      assert a[j - 1] == s[j - 1];
      a[j] := a[j - 1];
      j := j - 1;
    }
    assert j > 0 ==> a[j - 1] == s[j - 1];
    a[j] := key;
    assert a[..] == s[..j] + [key] + s[j..i] + s[i + 1..];
    InsertedOrdered(s, a[..], less, i, j);
  }

  lemma InsertedOrdered<T(!new)>(s: seq<T>, t: seq<T>, less: (T, T) -> bool, i: nat, j: nat)
    requires StrictWeak(less) && j <= i < |s| && Ordered(s[..i], less)
    requires t == s[..j] + [s[i]] + s[j..i] + s[i + 1..]
    requires forall k :: j <= k < i ==> less(s[i], s[k])
    requires j > 0 ==> !less(s[i], s[j - 1])
    ensures Ordered(t[..i + 1], less) && multiset(t) == multiset(s)
  {
    assert s == s[..j] + s[j..i] + [s[i]] + s[i + 1..];
    forall k, l | 0 <= k < l < i ensures !less(s[l], s[k]) {
      assert s[..i][k] == s[k] && s[..i][l] == s[l];
    }
    forall x, y | 0 <= x < y < i + 1 ensures !less(t[y], t[x]) {
      InsertedPair(s, t, less, i, j, x, y);
    }
  }

  lemma InsertedPair<T(!new)>(s: seq<T>, t: seq<T>, less: (T, T) -> bool, i: nat, j: nat, x: nat, y: nat)
    requires StrictWeak(less) && j <= i < |s|
    requires forall k, l :: 0 <= k < l < i ==> !less(s[l], s[k])
    requires t == s[..j] + [s[i]] + s[j..i] + s[i + 1..]
    requires forall k :: j <= k < i ==> less(s[i], s[k])
    requires j > 0 ==> !less(s[i], s[j - 1])
    requires x < y <= i
    ensures !less(t[y], t[x])
  {
    assert t[x] == if x < j then s[x] else if x == j then s[i] else s[x - 1];
    assert t[y] == if y < j then s[y] else if y == j then s[i] else s[y - 1];
  }

  method Sort<T(!new)>(a: array<T>, less: (T, T) -> bool)
    requires StrictWeak(less)
    modifies a
    ensures Ordered(a[..], less) && multiset(a[..]) == multiset(old(a[..]))
  {
    if a.Length <= 1 { return; }
    if a.Length - 1 <= 15 {
      InsertionSort(a, less);
    } else {
      HeapSort(a, less);
    }
  }
}
