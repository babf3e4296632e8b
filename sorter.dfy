/** `SorterImpl`: the in-place sorts of the charts assignment. The Java list is
    an array here; `items.get(i)`/`items.set(i, x)` are `a[i]` and `a[i] := x`.
    Every sort is stated against its input: afterwards the array holds the same
    items (a permutation) and is sorted by the comparator. */
module Sorter {
  import opened Ordering

  /** `swap(items, i, j)`: exchanges exactly two positions. */
  method Swap<E(!new)>(a: array<E>, i: int, j: int)
    requires 0 <= i < a.Length && 0 <= j < a.Length
    modifies a
    ensures a[..] == old(a[..])[i := old(a[j])][j := old(a[i])]
  {
    var temp := a[i];
    a[i] := a[j];
    a[j] := temp;
  }

  /** Exchanging two positions inside `[lo, hi)` keeps the items of that range. */
  lemma SwapKeepsRange<E>(s: seq<E>, i: int, j: int, lo: int, hi: int)
    requires 0 <= lo <= i < hi <= |s| && lo <= j < hi
    ensures multiset(s[i := s[j]][j := s[i]][lo..hi]) == multiset(s[lo..hi])
  {
    var t := s[lo..hi];
    assert s[i := s[j]][j := s[i]][lo..hi] == t[i - lo := t[j - lo]][j - lo := t[i - lo]];
  }

  /** `swap` inside `[lo, hi]`, with what it means for the items of the range. */
  method SwapInRange<E(!new)>(a: array<E>, i: int, j: int, lo: int, hi: int)
    requires 0 <= lo <= i <= hi < a.Length && lo <= j <= hi
    modifies a
    ensures a[i] == old(a[j]) && a[j] == old(a[i])
    ensures forall k :: 0 <= k < a.Length && k != i && k != j ==> a[k] == old(a[k])
    ensures multiset(a[lo..hi + 1]) == multiset(old(a[lo..hi + 1]))
  {
    ghost var s := a[..];
    assert old(a[lo..hi + 1]) == s[lo..hi + 1];
    Swap(a, i, j);
    SwapKeepsRange(s, i, j, lo, hi + 1);
    assert a[lo..hi + 1] == a[..][lo..hi + 1];
  }

  /** `selInsBubSort`: insertion sort. The outer loop keeps `a[..i]` sorted and
      `a[i..]` as it was; each pass shifts the greater items of the sorted
      prefix one place right and drops the key into the gap. */
  method SelInsBubSort<E(!new)>(a: array<E>, cmp: (E, E) -> int)
    requires IsComparator(cmp)
    modifies a
    ensures SortedBy(a[..], cmp)
    ensures multiset(a[..]) == multiset(old(a[..]))
  {
    var i := 1;
    while i < a.Length
      invariant a.Length == 0 || i <= a.Length
      invariant 1 <= i
      invariant i <= a.Length ==> SortedBy(a[..i], cmp)
      invariant multiset(a[..]) == multiset(old(a[..]))
    {
      ghost var s := a[..];
      var key := a[i];
      var j := ShiftGreater(a, i, key, cmp);
      ghost var b := a[..];
      a[j + 1] := key;
      assert a[..] == b[j + 1 := key];
      InsertedSorted(s, b, a[..], i, j, key, cmp);
      i := i + 1;
    }
  }

  /** The inner loop of `selInsBubSort`: walks `j` down from `i - 1` while the
      item at `j` is greater than the key and moves it one place right. */
  method ShiftGreater<E(!new)>(a: array<E>, i: int, key: E, cmp: (E, E) -> int) returns (j: int)
    requires 0 < i < a.Length && a[i] == key
    modifies a
    ensures Shifted(old(a[..]), a[..], i, j, key, cmp)
    ensures j >= 0 ==> cmp(a[j], key) <= 0
  {
    ghost var s := a[..];
    j := i - 1;
    while j >= 0 && cmp(a[j], key) > 0
      invariant Shifted(s, a[..], i, j, key, cmp)
    {
      ghost var b := a[..];
      ShiftStep(s, b, i, j, key, cmp);
      a[j + 1] := a[j];
      assert a[..] == b[j + 1 := b[j]];
      j := j - 1;
    }
  }

  /** The state of the array `t`, taken from `s`, while the key from `s[i]`
      waits to be written at `j + 1`: the prefix up to `j` is untouched, the
      items from `j + 1` to `i - 1` are greater than the key and sit one place
      right, the rest is untouched, and writing the key into the gap gives back
      the items of `s`. */
  ghost predicate Shifted<E>(s: seq<E>, t: seq<E>, i: int, j: int, key: E, cmp: (E, E) -> int) {
    && 0 < i < |s| == |t| && -1 <= j < i
    && (forall k :: 0 <= k <= j ==> t[k] == s[k])
    && (forall k :: j + 2 <= k <= i ==> t[k] == s[k - 1] && cmp(t[k], key) > 0)
    && (forall k :: i < k < |t| ==> t[k] == s[k])
    && multiset(t[j + 1 := key]) == multiset(s)
  }

  /** One shift of the inner loop keeps `Shifted` with the gap one place left. */
  lemma ShiftStep<E>(s: seq<E>, b: seq<E>, i: int, j: int, key: E, cmp: (E, E) -> int)
    requires Shifted(s, b, i, j, key, cmp) && j >= 0 && cmp(b[j], key) > 0
    ensures Shifted(s, b[j + 1 := b[j]], i, j - 1, key, cmp)
  {
    ShiftKeepsItems(b, j, key);
  }

  /** Moving the item at `j` into the gap at `j + 1` moves the gap to `j` and
      keeps the items, the key written into the gap included. */
  lemma ShiftKeepsItems<E>(b: seq<E>, j: int, key: E)
    requires 0 <= j && j + 1 < |b|
    ensures multiset(b[j + 1 := b[j]][j := key]) == multiset(b[j + 1 := key])
  {
    var v := b[j + 1 := key];
    assert b[j + 1 := b[j]][j := key] == v[j := v[j + 1]][j + 1 := v[j]];
    SwapKeepsRange(v, j, j + 1, 0, |v|);
    assert v[0..|v|] == v;
    assert v[j := v[j + 1]][j + 1 := v[j]][0..|v|] == v[j := v[j + 1]][j + 1 := v[j]];
  }

  /** The array after one insertion pass: the prefix up to `j` is untouched and
      not greater than the key, the key sits at `j + 1`, and the items it
      passed are shifted one place right. */
  lemma InsertedSorted<E(!new)>(s: seq<E>, b: seq<E>, t: seq<E>, i: int, j: int, key: E, cmp: (E, E) -> int)
    requires IsComparator(cmp)
    requires Shifted(s, b, i, j, key, cmp) && t == b[j + 1 := key]
    requires SortedBy(s[..i], cmp)
    requires j >= 0 ==> cmp(b[j], key) <= 0
    ensures SortedBy(t[..i + 1], cmp)
    ensures forall k :: i < k < |t| ==> t[k] == s[k]
    ensures multiset(t) == multiset(s)
  {
    forall p, q | 0 <= p < q <= i ensures cmp(t[p], t[q]) <= 0 {
      ComparatorFacts(cmp, t[p], t[q], key);
      if q <= j {
        assert cmp(s[..i][p], s[..i][q]) <= 0;
      } else if q == j + 1 {
        if p < j {
          assert cmp(s[..i][p], s[..i][j]) <= 0;
          ComparatorFacts(cmp, s[p], s[j], key);
        }
      } else if p <= j {
        assert cmp(s[..i][p], s[..i][q - 1]) <= 0;
      } else if p >= j + 2 {
        assert cmp(s[..i][p - 1], s[..i][q - 1]) <= 0;
      }
    }
  }

  /** `quickSort`: sorts the whole list with `quickSortPart(0, size - 1)`. */
  method QuickSort<E(!new)>(a: array<E>, cmp: (E, E) -> int)
    requires IsComparator(cmp)
    modifies a
    ensures SortedBy(a[..], cmp)
    ensures multiset(a[..]) == multiset(old(a[..]))
  {
    QuickSortPart(a, 0, a.Length - 1, cmp);
    assert a[..][0..a.Length] == a[..];
    assert old(a[..])[0..a.Length] == old(a[..]);
  }

  /** `quickSortPart(from, to)`, with `from`, `to` as `lo`, `hi`: a range of fewer than two items is left alone;
      otherwise the range is partitioned and both sides are sorted in turn. */
  method QuickSortPart<E(!new)>(a: array<E>, lo: int, hi: int, cmp: (E, E) -> int)
    requires IsComparator(cmp)
    requires lo < hi ==> 0 <= lo && hi < a.Length
    modifies a
    ensures SortedPart(old(a[..]), a[..], lo, hi, cmp)
    decreases hi - lo
  {
    if lo < hi {
      ghost var o := a[..];
      var p := Partition(a, lo, hi, cmp);
      ghost var s := a[..];
      assert o[lo..hi + 1] == old(a[lo..hi + 1]);
      QuickSortPart(a, lo, p - 1, cmp);
      ghost var t := a[..];
      QuickSortPart(a, p + 1, hi, cmp);
      PartitionThenSorted(o, s, t, a[..], lo, p, hi, cmp);
    }
  }

  /** What `quickSortPart(lo, hi)` leaves behind, from `s` to `t`: a range of
      two or more items sorted and permuted, a shorter one untouched, and
      everything outside the range unchanged. */
  ghost predicate SortedPart<E>(s: seq<E>, t: seq<E>, lo: int, hi: int, cmp: (E, E) -> int) {
    && |t| == |s|
    && (lo < hi ==> 0 <= lo && hi < |s| && SortedBy(t[lo..hi + 1], cmp) && multiset(t[lo..hi + 1]) == multiset(s[lo..hi + 1]))
    && (lo >= hi ==> t == s)
    && forall k :: 0 <= k < |s| && (k < lo || hi < k) ==> t[k] == s[k]
  }

  /** A partition of `o` into `s` around the pivot at `p`, followed by sorting
      the left side (`t`) and then the right side (`u`), sorts the range. */
  lemma PartitionThenSorted<E(!new)>(o: seq<E>, s: seq<E>, t: seq<E>, u: seq<E>, lo: int, p: int, hi: int, cmp: (E, E) -> int)
    requires IsComparator(cmp)
    requires 0 <= lo <= p <= hi < |o| == |s| && lo < hi
    requires forall k :: lo <= k < p ==> cmp(s[k], s[p]) < 0
    requires forall k :: p < k <= hi ==> cmp(s[k], s[p]) >= 0
    requires forall k :: 0 <= k < |o| && (k < lo || hi < k) ==> s[k] == o[k]
    requires multiset(s[lo..hi + 1]) == multiset(o[lo..hi + 1])
    requires SortedPart(s, t, lo, p - 1, cmp) && SortedPart(t, u, p + 1, hi, cmp)
    ensures SortedPart(o, u, lo, hi, cmp)
  {
    SortedAroundPivot(s, t, u, lo, p, hi, cmp);
    forall k | 0 <= k < |o| && (k < lo || hi < k) ensures u[k] == o[k] {
      assert u[k] == t[k] == s[k];
    }
  }

  /** The facts `quickSortPart` combines: the partitioned range, its left side
      sorted next, then its right side; the result is the range sorted. */
  lemma SortedAroundPivot<E(!new)>(s: seq<E>, t: seq<E>, u: seq<E>, lo: int, p: int, hi: int, cmp: (E, E) -> int)
    requires IsComparator(cmp)
    requires 0 <= lo <= p <= hi < |s| == |t| == |u|
    requires forall k :: lo <= k < p ==> cmp(s[k], s[p]) < 0
    requires forall k :: p < k <= hi ==> cmp(s[k], s[p]) >= 0
    requires lo < p - 1 ==> SortedBy(t[lo..p], cmp) && multiset(t[lo..p]) == multiset(s[lo..p])
    requires lo >= p - 1 ==> t == s
    requires forall k :: 0 <= k < |s| && (k < lo || p - 1 < k) ==> t[k] == s[k]
    requires p + 1 < hi ==> SortedBy(u[p + 1..hi + 1], cmp) && multiset(u[p + 1..hi + 1]) == multiset(t[p + 1..hi + 1])
    requires p + 1 >= hi ==> u == t
    requires forall k :: 0 <= k < |s| && (k < p + 1 || hi < k) ==> u[k] == t[k]
    ensures SortedBy(u[lo..hi + 1], cmp)
    ensures multiset(u[lo..hi + 1]) == multiset(s[lo..hi + 1])
  {
    var pivot := s[p];
    var left, right := u[lo..p], u[p + 1..hi + 1];
    assert left == t[lo..p];
    assert t[p + 1..hi + 1] == s[p + 1..hi + 1];
    var below, above := s[lo..p], s[p + 1..hi + 1];
    forall k | 0 <= k < |below| ensures cmp(below[k], pivot) < 0 {
      assert below[k] == s[lo + k];
    }
    forall k | 0 <= k < |above| ensures cmp(above[k], pivot) >= 0 {
      assert above[k] == s[p + 1 + k];
    }
    AllCarry(left, below, x => cmp(x, pivot) < 0);
    AllCarry(right, above, x => cmp(x, pivot) >= 0);
    SplitAround(u, lo, p, hi);
    SplitAround(s, lo, p, hi);
    JoinSorted(left, pivot, right, cmp);
  }

  /** A range is its part left of `p`, the item at `p` and its part right of `p`. */
  lemma SplitAround<E>(s: seq<E>, lo: int, p: int, hi: int)
    requires 0 <= lo <= p <= hi < |s|
    ensures s[lo..hi + 1] == s[lo..p] + [s[p]] + s[p + 1..hi + 1]
  {
  }

  /** A property of every item carries over to a permutation. */
  lemma AllCarry<E>(x: seq<E>, y: seq<E>, P: E -> bool)
    requires multiset(x) == multiset(y)
    requires forall k :: 0 <= k < |y| ==> P(y[k])
    ensures forall k :: 0 <= k < |x| ==> P(x[k])
  {
    forall k | 0 <= k < |x| ensures P(x[k]) {
      assert x[k] in multiset(y);
      var m :| 0 <= m < |y| && y[m] == x[k];
    }
  }

  /** Two sorted runs, every item of the first less than a pivot and every item
      of the second not less, make a sorted run around the pivot. */
  lemma JoinSorted<E(!new)>(left: seq<E>, pivot: E, right: seq<E>, cmp: (E, E) -> int)
    requires IsComparator(cmp) && SortedBy(left, cmp) && SortedBy(right, cmp)
    requires forall k :: 0 <= k < |left| ==> cmp(left[k], pivot) < 0
    requires forall k :: 0 <= k < |right| ==> cmp(right[k], pivot) >= 0
    ensures SortedBy(left + [pivot] + right, cmp)
  {
    var r := left + [pivot] + right;
    var n := |left|;
    forall i, j | 0 <= i < j < |r| ensures cmp(r[i], r[j]) <= 0 {
      if j < n {
        assert r[i] == left[i] && r[j] == left[j];
      } else if i > n {
        assert r[i] == right[i - n - 1] && r[j] == right[j - n - 1];
      } else if i == n {
        assert r[j] == right[j - n - 1];
        ComparatorFacts(cmp, pivot, r[j], pivot);
      } else if j == n {
        assert r[i] == left[i];
      } else {
        assert r[i] == left[i] && r[j] == right[j - n - 1];
        ComparatorFacts(cmp, r[i], pivot, r[j]);
        ComparatorFacts(cmp, r[j], pivot, r[i]);
      }
    }
  }

  /** `partition(from, to)` (Lomuto): with the last item of the range as pivot,
      moves every item less than the pivot to the front and puts the pivot
      right after them. */
  method Partition<E(!new)>(a: array<E>, lo: int, hi: int, cmp: (E, E) -> int) returns (p: int)
    requires 0 <= lo <= hi < a.Length
    modifies a
    ensures lo <= p <= hi && a[p] == old(a[hi])
    ensures forall k :: lo <= k < p ==> cmp(a[k], a[p]) < 0
    ensures forall k :: p < k <= hi ==> cmp(a[k], a[p]) >= 0
    ensures forall k :: 0 <= k < a.Length && (k < lo || hi < k) ==> a[k] == old(a[k])
    ensures multiset(a[lo..hi + 1]) == multiset(old(a[lo..hi + 1]))
  {
    var pivot := a[hi];
    var i := lo - 1;
    for j := lo to hi
      invariant lo - 1 <= i < j
      invariant a[hi] == pivot
      invariant forall k :: lo <= k <= i ==> cmp(a[k], pivot) < 0
      invariant forall k :: i < k < j ==> cmp(a[k], pivot) >= 0
      invariant forall k :: 0 <= k < a.Length && (k < lo || hi < k) ==> a[k] == old(a[k])
      invariant multiset(a[lo..hi + 1]) == multiset(old(a[lo..hi + 1]))
    {
      if cmp(a[j], pivot) < 0 {
        i := i + 1;
        SwapInRange(a, i, j, lo, hi);
      }
    }
    SwapInRange(a, i + 1, hi, lo, hi);
    p := i + 1;
  }

  /** Java's `(child - 1) / 2`: `int` division truncates toward zero, so the
      parent index of the root is the root itself. */
  function ParentIndex(child: int): (r: int)
    requires child >= 0
    ensures child == 0 ==> r == 0
    ensures child > 0 ==> 0 <= r < child && (child == 2 * r + 1 || child == 2 * r + 2)
  {
    if child == 0 then 0 else (child - 1) / 2
  }

  /** The zero-based heap condition on `t[..n]`: no item is less than its
      parent, `c(t[(i - 1) / 2], t[i]) <= 0`. */
  ghost predicate HeapOrdered<E>(t: seq<E>, n: int, c: (E, E) -> int) {
    0 <= n <= |t| && forall i :: 0 < i < n ==> c(t[ParentIndex(i)], t[i]) <= 0
  }

  /** The root of a heap is not greater than any of its items. */
  lemma {:induction false} RootIsLeast<E(!new)>(t: seq<E>, n: int, c: (E, E) -> int, k: int)
    requires IsComparator(c) && HeapOrdered(t, n, c) && 0 <= k < n
    ensures c(t[0], t[k]) <= 0
    decreases k
  {
    if k == 0 {
      ComparatorFacts(c, t[0], t[0], t[0]);
    } else {
      var p := ParentIndex(k);
      RootIsLeast(t, n, c, p);
      ComparatorFacts(c, t[0], t[p], t[k]);
    }
  }

  /** The state of `heapSwim` with the swimmer at `k`: every edge of `t[..n]`
      except the one into `k` meets the heap condition, and the parent of `k`
      is not greater than the children of `k`. */
  ghost predicate Swimming<E>(t: seq<E>, n: int, k: int, x: E, c: (E, E) -> int) {
    && 0 <= k < n <= |t| && t[k] == x
    && (forall i :: 0 < i < n && i != k ==> c(t[ParentIndex(i)], t[i]) <= 0)
    && (k > 0 ==> forall i :: 0 < i < n && ParentIndex(i) == k ==> c(t[ParentIndex(k)], t[i]) <= 0)
  }

  /** A heap of `n - 1` items with a new last item is a swimming state. */
  lemma SwimStart<E>(t: seq<E>, n: int, c: (E, E) -> int)
    requires 1 <= n <= |t| && HeapOrdered(t, n - 1, c)
    ensures Swimming(t, n, n - 1, t[n - 1], c)
  {
    assert forall i :: 0 < i < n ==> ParentIndex(i) < n - 1;
  }

  /** Exchanging a swimmer less than its parent with that parent moves the
      swimming state one level up and keeps the items. */
  lemma SwimStep<E(!new)>(b: seq<E>, n: int, k: int, x: E, c: (E, E) -> int)
    requires IsComparator(c) && Swimming(b, n, k, x, c)
    requires k > 0 && c(x, b[ParentIndex(k)]) < 0
    ensures var p := ParentIndex(k);
            && Swimming(b[p := x][k := b[p]], n, p, x, c)
            && multiset(b[p := x][k := b[p]][..n]) == multiset(b[..n])
  {
    var p := ParentIndex(k);
    var t := b[p];
    var b' := b[p := x][k := t];
    forall i | 0 < i < n && i != p ensures c(b'[ParentIndex(i)], b'[i]) <= 0 {
      var q := ParentIndex(i);
      if i == k {
      } else if q == k {
        assert b'[i] == b[i];
      } else if q == p {
        assert b'[i] == b[i];
        ComparatorFacts(c, x, t, b[i]);
      } else {
        assert b'[i] == b[i] && b'[q] == b[q];
      }
    }
    if p > 0 {
      var g := ParentIndex(p);
      forall i | 0 < i < n && ParentIndex(i) == p ensures c(b'[g], b'[i]) <= 0 {
        if i != k {
          assert b'[i] == b[i];
          ComparatorFacts(c, b[g], t, b[i]);
        }
      }
    }
    SwapKeepsRange(b, p, k, 0, n);
    assert b' == b[p := b[k]][k := b[p]];
    assert b[0..n] == b[..n] && b'[0..n] == b'[..n];
  }

  /** A swimmer at the root, or not less than its parent, completes the heap. */
  lemma SwimDone<E(!new)>(t: seq<E>, n: int, k: int, x: E, c: (E, E) -> int)
    requires IsComparator(c) && Swimming(t, n, k, x, c)
    requires k == 0 || c(x, t[ParentIndex(k)]) >= 0
    ensures HeapOrdered(t, n, c)
  {
    if k > 0 {
      ComparatorFacts(c, x, t[ParentIndex(k)], x);
    }
  }

  /** `heapSwim(items, heapSize, comparator)`: with `a[..heapSize - 1]` a heap,
      lets the item at `heapSize - 1` swim up by exchanges with its parent
      until the whole of `a[..heapSize]` is a heap. */
  method HeapSwim<E(!new)>(a: array<E>, heapSize: int, c: (E, E) -> int)
    requires IsComparator(c)
    requires 1 <= heapSize <= a.Length && HeapOrdered(a[..], heapSize - 1, c)
    modifies a
    ensures HeapOrdered(a[..], heapSize, c)
    ensures multiset(a[..heapSize]) == multiset(old(a[..heapSize]))
    ensures forall k :: heapSize <= k < a.Length ==> a[k] == old(a[k])
  {
    var childIndex := heapSize - 1;
    var parentIndex := ParentIndex(childIndex);
    var swimmer := a[childIndex];
    SwimStart(a[..], heapSize, c);
    while childIndex > 0 && c(swimmer, a[parentIndex]) < 0
      invariant parentIndex == ParentIndex(childIndex)
      invariant Swimming(a[..], heapSize, childIndex, swimmer, c)
      invariant multiset(a[..heapSize]) == multiset(old(a[..heapSize]))
      invariant forall k :: heapSize <= k < a.Length ==> a[k] == old(a[k])
      decreases childIndex
    {
      ghost var b := a[..];
      SwimStep(b, heapSize, childIndex, swimmer, c);
      var temp := a[parentIndex];
      a[parentIndex] := swimmer;
      a[childIndex] := temp;
      assert a[..] == b[parentIndex := swimmer][childIndex := b[parentIndex]];
      childIndex := parentIndex;
      parentIndex := ParentIndex(childIndex);
    }
    SwimDone(a[..], heapSize, childIndex, swimmer, c);
  }

  /** The state of `heapSink` with the hole at `p` (the array still holds a
      stale copy there) and the sinker `x` in hand: every edge of `t[..n]` that
      does not touch the hole meets the heap condition, and the parent of the
      hole is neither greater than the children of the hole nor than `x`. */
  ghost predicate Sinking<E>(t: seq<E>, n: int, p: int, x: E, c: (E, E) -> int) {
    && 0 <= p < |t| && 0 <= n <= |t| && (p < n || p == 0)
    && (forall i :: 0 < i < n && i != p && ParentIndex(i) != p ==> c(t[ParentIndex(i)], t[i]) <= 0)
    && (p > 0 ==> forall i :: 0 < i < n && ParentIndex(i) == p ==> c(t[ParentIndex(p)], t[i]) <= 0)
    && (p > 0 ==> c(t[ParentIndex(p)], x) <= 0)
  }

  /** `Sinking`, with the array `t` taken from `orig`: writing the sinker into
      the hole gives back the items of `orig[..n]`, and outside `t[..n]` only
      the hole (the root of an empty heap) may differ. */
  ghost predicate SinkState<E>(t: seq<E>, orig: seq<E>, n: int, p: int, x: E, c: (E, E) -> int) {
    && Sinking(t, n, p, x, c) && |t| == |orig| && x == orig[0]
    && multiset(t[p := x][..n]) == multiset(orig[..n])
    && (forall k :: n <= k < |t| && k != p ==> t[k] == orig[k])
  }

  /** `ch` is a child of `p` in `t[..n]` not greater than any other child. */
  ghost predicate LeastChild<E>(t: seq<E>, n: int, p: int, ch: int, c: (E, E) -> int) {
    && 0 <= p < ch < n <= |t| && ParentIndex(ch) == p
    && forall i :: 0 < i < n && ParentIndex(i) == p ==> c(t[ch], t[i]) <= 0
  }

  /** `heapSink`'s choice of child: the right child when the left one is
      greater than it, otherwise the left one. */
  lemma ChooseChild<E(!new)>(t: seq<E>, n: int, p: int, left: int, ch: int, c: (E, E) -> int)
    requires IsComparator(c) && 0 <= p && left == 2 * p + 1 && left < n <= |t|
    requires ch == left ==> left + 1 >= n || c(t[left], t[left + 1]) <= 0
    requires ch != left ==> ch == left + 1 && ch < n && c(t[left], t[left + 1]) > 0
    ensures LeastChild(t, n, p, ch, c)
  {
    ComparatorFacts(c, t[ch], t[ch], t[ch]);
    if ch != left {
      ComparatorFacts(c, t[left], t[ch], t[left]);
    }
    forall i | 0 < i < n && ParentIndex(i) == p ensures c(t[ch], t[i]) <= 0 {
      assert i == left || i == left + 1;
    }
  }

  /** Moving the least child, which is less than the sinker, up into the hole
      moves the hole down to that child and keeps the items. */
  lemma SinkStep<E(!new)>(b: seq<E>, orig: seq<E>, n: int, p: int, ch: int, x: E, c: (E, E) -> int)
    requires IsComparator(c) && SinkState(b, orig, n, p, x, c) && LeastChild(b, n, p, ch, c)
    requires c(x, b[ch]) > 0
    ensures SinkState(b[p := b[ch]], orig, n, ch, x, c)
  {
    var b' := b[p := b[ch]];
    forall i | 0 < i < n && i != ch && ParentIndex(i) != ch
      ensures c(b'[ParentIndex(i)], b'[i]) <= 0
    {
      var q := ParentIndex(i);
      if i == p {
      } else if q == p {
        assert b'[i] == b[i];
      } else {
        assert b'[i] == b[i] && b'[q] == b[q];
      }
    }
    forall i | 0 < i < n && ParentIndex(i) == ch ensures c(b'[p], b'[i]) <= 0 {
      assert b'[i] == b[i] && i != p;
    }
    ComparatorFacts(c, x, b[ch], x);
    var v := b[p := x];
    SwapKeepsRange(v, p, ch, 0, n);
    assert b'[ch := x] == v[p := v[ch]][ch := v[p]];
    assert v[0..n] == v[..n] && b'[ch := x][0..n] == b'[ch := x][..n];
  }

  /** No child of the hole is less than the sinker. */
  ghost predicate SinkerFits<E>(t: seq<E>, n: int, p: int, x: E, c: (E, E) -> int) {
    n <= |t| && forall i :: 0 < i < n && ParentIndex(i) == p ==> c(x, t[i]) <= 0
  }

  /** The sinker not greater than the least child fits into the hole. */
  lemma SinkStops<E(!new)>(t: seq<E>, n: int, p: int, ch: int, x: E, c: (E, E) -> int)
    requires IsComparator(c) && LeastChild(t, n, p, ch, c) && c(x, t[ch]) <= 0
    ensures SinkerFits(t, n, p, x, c)
  {
    forall i | 0 < i < n && ParentIndex(i) == p ensures c(x, t[i]) <= 0 {
      ComparatorFacts(c, x, t[ch], t[i]);
    }
  }

  /** Writing the sinker into a hole that has no children, or whose children
      are not less than it, completes the heap, a permutation of the original
      `orig[..n]` with the rest of `orig` untouched. */
  lemma SinkDone<E>(t: seq<E>, orig: seq<E>, n: int, p: int, x: E, c: (E, E) -> int)
    requires SinkState(t, orig, n, p, x, c)
    requires 2 * p + 1 >= n || SinkerFits(t, n, p, x, c)
    ensures HeapOrdered(t[p := x], n, c)
    ensures multiset(t[p := x][..n]) == multiset(orig[..n])
    ensures forall k :: n <= k < |t| ==> t[p := x][k] == orig[k]
  {
    var t' := t[p := x];
    forall i | 0 < i < n ensures c(t'[ParentIndex(i)], t'[i]) <= 0 {
      var q := ParentIndex(i);
      if i == p {
      } else if q == p {
        assert i >= 2 * p + 1;
      } else {
        assert t'[i] == t[i] && t'[q] == t[q];
      }
    }
  }

  /** `heapSink(items, heapSize, comparator)`: with every edge of
      `a[..heapSize]` below the root meeting the heap condition, takes the root
      out as the sinker, moves the lesser child up into the hole while it is
      less than the sinker, and writes the sinker into the final hole. */
  method HeapSink<E(!new)>(a: array<E>, heapSize: int, c: (E, E) -> int)
    requires IsComparator(c)
    requires 0 < a.Length && 0 <= heapSize <= a.Length
    requires forall i :: 0 < i < heapSize && ParentIndex(i) != 0 ==> c(a[ParentIndex(i)], a[i]) <= 0
    modifies a
    ensures HeapOrdered(a[..], heapSize, c)
    ensures multiset(a[..heapSize]) == multiset(old(a[..heapSize]))
    ensures forall k :: heapSize <= k < a.Length ==> a[k] == old(a[k])
  {
    ghost var orig := a[..];
    var parentIndex := 0;
    var childIndex := 2 * parentIndex + 1;
    var sinker := a[parentIndex];
    assert a[..][0 := sinker] == orig;
    while childIndex < heapSize
      invariant childIndex == 2 * parentIndex + 1
      invariant SinkState(a[..], orig, heapSize, parentIndex, sinker, c)
      decreases heapSize - parentIndex
    {
      ghost var left := childIndex;
      if childIndex + 1 < heapSize && c(a[childIndex], a[childIndex + 1]) > 0 {
        childIndex := childIndex + 1;
      }
      ChooseChild(a[..], heapSize, parentIndex, left, childIndex, c);
      if c(sinker, a[childIndex]) <= 0 {
        SinkStops(a[..], heapSize, parentIndex, childIndex, sinker, c);
        break;
      }
      ghost var b := a[..];
      SinkStep(b, orig, heapSize, parentIndex, childIndex, sinker, c);
      a[parentIndex] := a[childIndex];
      assert a[..] == b[parentIndex := b[childIndex]];
      parentIndex := childIndex;
      childIndex := 2 * parentIndex + 1;
    }
    ghost var b := a[..];
    SinkDone(b, orig, heapSize, parentIndex, sinker, c);
    a[parentIndex] := sinker;
    assert a[..] == b[parentIndex := sinker];
    assert a[..heapSize] == a[..][..heapSize];
  }

  /** No item of `t[..n]` is greater than an item of `t[lo..hi]`. */
  ghost predicate NoneGreater<E>(t: seq<E>, n: int, lo: int, hi: int, cmp: (E, E) -> int) {
    && 0 <= n <= |t| && 0 <= lo && hi <= |t|
    && forall x, k :: x in t[..n] && lo <= k < hi ==> cmp(x, t[k]) <= 0
  }

  /** Permuting `t[..n]` in place, and nothing else, keeps the items and keeps
      every comparison between `t[..n]` and the rest. */
  lemma PrefixPermuted<E>(t: seq<E>, t': seq<E>, n: int, lo: int, hi: int, cmp: (E, E) -> int)
    requires |t| == |t'| && 0 <= n <= |t| && n <= lo
    requires multiset(t'[..n]) == multiset(t[..n])
    requires forall k :: n <= k < |t| ==> t'[k] == t[k]
    requires NoneGreater(t, n, lo, hi, cmp)
    ensures multiset(t') == multiset(t)
    ensures NoneGreater(t', n, lo, hi, cmp)
  {
    assert t == t[..n] + t[n..] && t' == t'[..n] + t'[n..];
    assert t[n..] == t'[n..];
    forall x, k | x in t'[..n] && lo <= k < hi ensures cmp(x, t'[k]) <= 0 {
      assert x in multiset(t[..n]);
      assert x in t[..n] && t'[k] == t[k];
    }
  }

  /** The first loop of `topsHeapSort`: `heapSwim(items, heapSize, ...)` for
      `heapSize` from 2 to `numTops` makes `a[..numTops]` a heap. The swim of
      `heapSize` reads `items.get(heapSize - 1)` before it changes anything,
      which throws `IndexOutOfBoundsException` once `heapSize` exceeds the
      length. */
  method BuildLead<E(!new)>(numTops: int, a: array<E>, rc: (E, E) -> int) returns (thrown: bool)
    requires IsComparator(rc)
    modifies a
    ensures thrown <==> 2 <= numTops && a.Length < numTops
    ensures multiset(a[..]) == multiset(old(a[..]))
    ensures !thrown && 1 <= numTops <= a.Length ==> HeapOrdered(a[..], numTops, rc)
  {
    var heapSize := 2;
    while heapSize <= numTops
      invariant 2 <= heapSize && (heapSize == 2 || heapSize <= numTops + 1)
      invariant heapSize == 2 || heapSize - 1 <= a.Length
      invariant heapSize - 1 <= a.Length ==> HeapOrdered(a[..], heapSize - 1, rc)
      invariant multiset(a[..]) == multiset(old(a[..]))
    {
      if a.Length < heapSize {
        return true;
      }
      ghost var b := a[..];
      HeapSwim(a, heapSize, rc);
      PrefixPermuted(b, a[..], heapSize, heapSize, heapSize, rc);
      heapSize := heapSize + 1;
    }
    thrown := false;
  }

  /** An item less than the root of the lead heap (its greatest item) replaces
      the root, and the root takes the item's place at `i`: afterwards no lead
      item is greater than the tail items up to `i`, and below the root the
      heap condition still holds. */
  lemma AdmitStep<E(!new)>(b: seq<E>, n: int, i: int, cmp: (E, E) -> int)
    requires IsComparator(cmp) && IsComparator(Reversed(cmp))
    requires 0 <= n <= i < |b| && HeapOrdered(b, n, Reversed(cmp)) && NoneGreater(b, n, n, i, cmp)
    requires cmp(b[i], b[0]) < 0
    ensures var b' := b[0 := b[i]][i := b[0]];
            && multiset(b') == multiset(b)
            && NoneGreater(b', n, n, i + 1, cmp)
            && forall j :: 0 < j < n && ParentIndex(j) != 0 ==> Reversed(cmp)(b'[ParentIndex(j)], b'[j]) <= 0
  {
    var b' := b[0 := b[i]][i := b[0]];
    var lead := b'[..n];
    forall x, k | x in lead && n <= k < i + 1 ensures cmp(x, b'[k]) <= 0 {
      var m :| 0 <= m < n && lead[m] == x;
      if m == 0 {
        if k < i {
          assert b[0] in b[..n] && b'[k] == b[k];
        }
        ComparatorFacts(cmp, b[i], b[0], b'[k]);
      } else {
        assert x == b[m];
        if k < i {
          assert b[m] in b[..n] && b'[k] == b[k];
        } else {
          RootIsLeast(b, n, Reversed(cmp), m);
        }
      }
    }
    forall j | 0 < j < n && ParentIndex(j) != 0 ensures Reversed(cmp)(b'[ParentIndex(j)], b'[j]) <= 0 {
      assert b'[ParentIndex(j)] == b[ParentIndex(j)] && b'[j] == b[j];
    }
    SwapKeepsRange(b, 0, i, 0, |b|);
    assert b[0..|b|] == b && b'[0..|b|] == b';
  }

  /** An item not less than the root of the lead heap stays in the tail: no
      lead item is greater than it. */
  lemma RejectStep<E(!new)>(b: seq<E>, n: int, i: int, cmp: (E, E) -> int)
    requires IsComparator(cmp) && IsComparator(Reversed(cmp))
    requires 0 <= n <= i < |b| && HeapOrdered(b, n, Reversed(cmp)) && NoneGreater(b, n, n, i, cmp)
    requires cmp(b[i], b[0]) >= 0
    ensures NoneGreater(b, n, n, i + 1, cmp)
  {
    forall x | x in b[..n] ensures cmp(x, b[i]) <= 0 {
      var m :| 0 <= m < n && b[..n][m] == x;
      RootIsLeast(b, n, Reversed(cmp), m);
      ComparatorFacts(cmp, x, b[0], b[i]);
      ComparatorFacts(cmp, b[i], b[0], x);
    }
  }

  /** The second loop of `topsHeapSort`: each item from `numTops` on that is
      less than the root of the lead heap (its greatest item) takes the root's
      place, the root goes to the item's position, and `heapSink` repairs the
      heap. `items.get(i)` throws for a negative `numTops`. */
  method AdmitTail<E(!new)>(numTops: int, a: array<E>, cmp: (E, E) -> int, rc: (E, E) -> int) returns (thrown: bool)
    requires IsComparator(cmp) && rc == Reversed(cmp)
    requires 1 <= numTops <= a.Length ==> HeapOrdered(a[..], numTops, rc)
    modifies a
    ensures thrown <==> numTops < 0
    ensures multiset(a[..]) == multiset(old(a[..]))
    ensures !thrown && numTops <= a.Length ==> HeapOrdered(a[..], numTops, rc) && NoneGreater(a[..], numTops, numTops, a.Length, cmp)
  {
    ReversedIsComparator(cmp);
    var i := numTops;
    while i < a.Length
      invariant numTops <= i && (numTops < 0 ==> i == numTops)
      invariant numTops <= a.Length ==> i <= a.Length
      invariant 0 <= numTops <= i <= a.Length ==> HeapOrdered(a[..], numTops, rc) && NoneGreater(a[..], numTops, numTops, i, cmp)
      invariant multiset(a[..]) == multiset(old(a[..]))
    {
      if i < 0 {
        return true;
      }
      AdmitItem(numTops, a, i, cmp, rc);
      i := i + 1;
    }
    thrown := false;
  }

  /** One pass of the second loop of `topsHeapSort`, for the item at `i`. */
  method AdmitItem<E(!new)>(numTops: int, a: array<E>, i: int, cmp: (E, E) -> int, rc: (E, E) -> int)
    requires IsComparator(cmp) && IsComparator(rc) && rc == Reversed(cmp)
    requires 0 <= numTops <= i < a.Length
    requires HeapOrdered(a[..], numTops, rc) && NoneGreater(a[..], numTops, numTops, i, cmp)
    modifies a
    ensures HeapOrdered(a[..], numTops, rc) && NoneGreater(a[..], numTops, numTops, i + 1, cmp)
    ensures multiset(a[..]) == multiset(old(a[..]))
  {
    var item := a[i];
    var worstLeadItem := a[0];
    ghost var b := a[..];
    if cmp(item, worstLeadItem) < 0 {
      a[0] := item;
      a[i] := worstLeadItem;
      assert a[..] == b[0 := b[i]][i := b[0]];
      AdmitStep(b, numTops, i, cmp);
      ghost var b' := a[..];
      HeapSink(a, numTops, rc);
      PrefixPermuted(b', a[..], numTops, numTops, i + 1, cmp);
    } else {
      RejectStep(b, numTops, i, cmp);
    }
  }

  /** The state of the third loop of `topsHeapSort` at `i`: `t[..i + 1]` is a
      heap under the reversed comparator, `t[i + 1..n]` is sorted, no item of
      the heap is greater than an item of the sorted run, and no item of the
      lead `t[..n]` is greater than an item of the tail `t[n..]`. */
  ghost predicate LeadSorting<E>(t: seq<E>, n: int, i: int, cmp: (E, E) -> int) {
    && -1 <= i < n <= |t|
    && HeapOrdered(t, i + 1, Reversed(cmp))
    && SortedBy(t[i + 1..n], cmp)
    && NoneGreater(t, i + 1, i + 1, n, cmp)
    && NoneGreater(t, n, n, |t|, cmp)
  }

  /** Exchanging the root of the heap `b[..i + 1]` (its greatest item) with its
      last item puts the root in front of the sorted run and leaves a heap of
      `i` items whose root may be out of place. */
  lemma LeadSwap<E(!new)>(b: seq<E>, n: int, i: int, cmp: (E, E) -> int)
    requires IsComparator(cmp) && IsComparator(Reversed(cmp))
    requires LeadSorting(b, n, i, cmp) && i > 0
    ensures var b' := b[0 := b[i]][i := b[0]];
            && multiset(b') == multiset(b)
            && (forall j :: 0 < j < i && ParentIndex(j) != 0 ==> Reversed(cmp)(b'[ParentIndex(j)], b'[j]) <= 0)
            && SortedBy(b'[i..n], cmp)
            && NoneGreater(b', i, i, n, cmp)
            && NoneGreater(b', n, n, |b|, cmp)
  {
    var b' := b[0 := b[i]][i := b[0]];
    forall j | 0 < j < i && ParentIndex(j) != 0 ensures Reversed(cmp)(b'[ParentIndex(j)], b'[j]) <= 0 {
      assert b'[ParentIndex(j)] == b[ParentIndex(j)] && b'[j] == b[j];
    }
    assert b[0] in b[..i + 1];
    var run := b'[i..n];
    forall p, q | 0 <= p < q < |run| ensures cmp(run[p], run[q]) <= 0 {
      assert run[q] == b[i + q] && run[q] == b[i + 1..n][q - 1];
      if p > 0 {
        assert run[p] == b[i + 1..n][p - 1];
      }
    }
    forall x, k | x in b'[..i] && i <= k < n ensures cmp(x, b'[k]) <= 0 {
      var m :| 0 <= m < i && b'[..i][m] == x;
      var src := if m == 0 then i else m;
      assert x == b[src] && x in b[..i + 1];
      if k == i {
        RootIsLeast(b, i + 1, Reversed(cmp), src);
      } else {
        assert b'[k] == b[k];
      }
    }
    SwapKeepsRange(b, 0, i, 0, n);
    assert b[0..n] == b[..n] && b'[0..n] == b'[..n];
    PrefixPermuted(b, b', n, n, |b|, cmp);
  }

  /** After `heapSink` has repaired the heap of `i` items, the state of the
      third loop holds at `i - 1`. */
  lemma LeadSunk<E>(b: seq<E>, t: seq<E>, n: int, i: int, cmp: (E, E) -> int)
    requires 0 < i < n <= |b| == |t|
    requires SortedBy(b[i..n], cmp) && NoneGreater(b, i, i, n, cmp) && NoneGreater(b, n, n, |b|, cmp)
    requires HeapOrdered(t, i, Reversed(cmp))
    requires multiset(t[..i]) == multiset(b[..i])
    requires forall k :: i <= k < |t| ==> t[k] == b[k]
    ensures LeadSorting(t, n, i - 1, cmp)
    ensures multiset(t) == multiset(b)
  {
    assert t[i..n] == b[i..n];
    PrefixPermuted(b, t, i, i, n, cmp);
    assert t[..n] == t[..i] + t[i..n] && b[..n] == b[..i] + b[i..n];
    forall x, k | x in t[..n] && n <= k < |t| ensures cmp(x, t[k]) <= 0 {
      if x in t[..i] {
        assert x in multiset(b[..i]);
      }
      assert x in b[..n] && t[k] == b[k];
    }
  }

  /** When the heap has shrunk to (at most) its root, the lead is sorted. */
  lemma LeadSorted<E>(t: seq<E>, n: int, i: int, cmp: (E, E) -> int)
    requires LeadSorting(t, n, i, cmp) && i <= 0
    ensures SortedBy(t[..n], cmp)
  {
    if i == 0 {
      forall p, q | 0 <= p < q < n ensures cmp(t[..n][p], t[..n][q]) <= 0 {
        if p == 0 {
          assert t[0] in t[..1] && t[q] == t[1..n][q - 1];
        } else {
          assert t[p] == t[1..n][p - 1] && t[q] == t[1..n][q - 1];
        }
      }
    } else {
      assert t[..n] == t[0..n];
    }
  }

  /** The third loop of `topsHeapSort`: heapsort of the lead. The root (the
      greatest lead item left in the heap) is exchanged with the last heap
      position, which then belongs to the sorted run, and `heapSink` repairs
      the smaller heap. */
  method SortLead<E(!new)>(numTops: int, a: array<E>, cmp: (E, E) -> int, rc: (E, E) -> int)
    requires IsComparator(cmp) && rc == Reversed(cmp)
    requires 0 <= numTops && (numTops <= a.Length || numTops <= 1)
    requires numTops <= a.Length ==> HeapOrdered(a[..], numTops, rc) && NoneGreater(a[..], numTops, numTops, a.Length, cmp)
    modifies a
    ensures multiset(a[..]) == multiset(old(a[..]))
    ensures numTops <= a.Length ==> SortedBy(a[..numTops], cmp) && NoneGreater(a[..], numTops, numTops, a.Length, cmp)
  {
    ReversedIsComparator(cmp);
    var i := numTops - 1;
    while i > 0
      invariant i <= numTops - 1 && (numTops >= 1 ==> 0 <= i)
      invariant numTops <= a.Length ==> LeadSorting(a[..], numTops, i, cmp)
      invariant multiset(a[..]) == multiset(old(a[..]))
    {
      ghost var b := a[..];
      LeadSwap(b, numTops, i, cmp);
      var temp := a[0];
      a[0] := a[i];
      a[i] := temp;
      assert a[..] == b[0 := b[i]][i := b[0]];
      ghost var b' := a[..];
      HeapSink(a, i, rc);
      LeadSunk(b', a[..], numTops, i, cmp);
      i := i - 1;
    }
    if numTops <= a.Length {
      LeadSorted(a[..], numTops, i, cmp);
    }
  }

  /** `topsHeapSort(numTops, items, comparator)`: afterwards the first
      `numTops` positions hold the `numTops` least items, sorted, and every
      other item is not less than any of them. The heap is organised by the
      reversed comparator, so its root is the greatest lead item, the one an
      item of the tail has to beat. `thrown` stands for the
      `IndexOutOfBoundsException` of a negative `numTops` or of `numTops`
      above the length (from 2 on); the array is then a permutation. */
  method TopsHeapSort<E(!new)>(numTops: int, a: array<E>, cmp: (E, E) -> int) returns (thrown: bool)
    requires IsComparator(cmp)
    modifies a
    ensures thrown <==> numTops < 0 || (2 <= numTops && a.Length < numTops)
    ensures multiset(a[..]) == multiset(old(a[..]))
    ensures !thrown && numTops <= a.Length ==> SortedBy(a[..numTops], cmp)
    ensures !thrown && numTops <= a.Length ==>
              forall h, k :: 0 <= h < numTops <= k < a.Length ==> cmp(a[h], a[k]) <= 0
  {
    var reverseComparator := Reversed(cmp);
    ReversedIsComparator(cmp);
    thrown := BuildLead(numTops, a, reverseComparator);
    if thrown {
      return;
    }
    thrown := AdmitTail(numTops, a, cmp, reverseComparator);
    if thrown {
      return;
    }
    SortLead(numTops, a, cmp, reverseComparator);
    if numTops <= a.Length {
      forall h, k | 0 <= h < numTops <= k < a.Length ensures cmp(a[h], a[k]) <= 0 {
        assert a[h] in a[..][..numTops];
      }
    }
  }
}
