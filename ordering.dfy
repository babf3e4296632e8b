/** Java comparator conventions: the sign of a comparison, `Integer.compare`,
    `Boolean.compare`, the contract every `Comparator` must meet, sortedness, and
    the stable sort that `List.sort` and `Stream.sorted` perform. */
module Ordering {

  function Sign(x: int): (r: int)
    ensures r == -1 || r == 0 || r == 1
    ensures (r < 0 <==> x < 0) && (r == 0 <==> x == 0) && (r > 0 <==> x > 0)
  {
    if x < 0 then -1 else if x == 0 then 0 else 1
  }

  /** `Integer.compare(x, y)`. */
  function IntCompare(x: int, y: int): (r: int)
    ensures Sign(r) == Sign(x - y)
  {
    if x < y then -1 else if x == y then 0 else 1
  }

  /** `Boolean.compare(x, y)`: false orders before true. */
  function BoolCompare(x: bool, y: bool): (r: int)
    ensures r == 0 <==> x == y
    ensures r < 0 <==> !x && y
  {
    if x == y then 0 else if x then 1 else -1
  }

  /** "Not greater than" carries over from `a`, `b` to `b`, `c`. */
  ghost predicate Transitive<T>(cmp: (T, T) -> int, a: T, b: T, c: T) {
    cmp(a, b) <= 0 && cmp(b, c) <= 0 ==> cmp(a, c) <= 0
  }

  /** The contract of `java.util.Comparator`: the sign is antisymmetric and
      "not greater than" is transitive. Transitivity is used through
      `ComparatorFacts`, one triple at a time. */
  ghost predicate IsComparator<T(!new)>(cmp: (T, T) -> int) {
    && (forall a, b :: Sign(cmp(a, b)) == -Sign(cmp(b, a)))
    && (forall a, b, c {:trigger Transitive(cmp, a, b, c)} :: Transitive(cmp, a, b, c))
  }

  lemma ComparatorFacts<T(!new)>(cmp: (T, T) -> int, a: T, b: T, c: T)
    requires IsComparator(cmp)
    ensures cmp(a, a) == 0
    ensures cmp(a, b) < 0 ==> cmp(b, a) > 0
    ensures cmp(a, b) > 0 ==> cmp(b, a) < 0
    ensures cmp(a, b) == 0 ==> cmp(b, a) == 0
    ensures cmp(a, b) <= 0 && cmp(b, c) <= 0 ==> cmp(a, c) <= 0
    ensures cmp(a, b) < 0 && cmp(b, c) <= 0 ==> cmp(a, c) < 0
    ensures cmp(a, b) <= 0 && cmp(b, c) < 0 ==> cmp(a, c) < 0
  {
    assert Sign(cmp(a, a)) == -Sign(cmp(a, a));
    assert Sign(cmp(a, b)) == -Sign(cmp(b, a));
    assert Sign(cmp(b, c)) == -Sign(cmp(c, b));
    assert Sign(cmp(a, c)) == -Sign(cmp(c, a));
    assert Transitive(cmp, a, b, c);
    assert Transitive(cmp, b, c, a);
    assert Transitive(cmp, c, a, b);
  }

  /** Every earlier element is not greater than every later one. */
  ghost predicate SortedBy<T>(s: seq<T>, cmp: (T, T) -> int) {
    forall i, j :: 0 <= i < j < |s| ==> cmp(s[i], s[j]) <= 0
  }

  /** `comparator.reversed()`. */
  function Reversed<T>(cmp: (T, T) -> int): (T, T) -> int {
    (a, b) => cmp(b, a)
  }

  lemma ReversedIsComparator<T(!new)>(cmp: (T, T) -> int)
    requires IsComparator(cmp)
    ensures IsComparator(Reversed(cmp))
  {
    var r := Reversed(cmp);
    forall a, b, c ensures Transitive(r, a, b, c) {
      assert Transitive(cmp, c, b, a);
    }
  }

  /** A comparator that orders by an integer key, largest key first:
      `(x, y) -> Integer.compare(key(y), key(x))`. */
  function ByKeyDescending<T(!new)>(key: T -> int): (cmp: (T, T) -> int)
    ensures forall x, y :: cmp(x, y) == IntCompare(key(y), key(x))
  {
    (x, y) => IntCompare(key(y), key(x))
  }

  lemma ByKeyDescendingIsComparator<T(!new)>(key: T -> int)
    ensures IsComparator(ByKeyDescending(key))
  {
    var c := ByKeyDescending(key);
    forall a, b ensures Sign(c(a, b)) == -Sign(c(b, a)) {
      assert c(a, b) == IntCompare(key(b), key(a));
    }
    forall a, b, d ensures Transitive(c, a, b, d) {
      assert c(a, b) == IntCompare(key(b), key(a)) && c(b, d) == IntCompare(key(d), key(b));
    }
  }

  /** Places `x` before the first element it is not greater than; equal
      elements keep their relative order, so the resulting sort is stable. */
  function Insert<T>(x: T, s: seq<T>, cmp: (T, T) -> int): (r: seq<T>)
    ensures multiset(r) == multiset(s) + multiset{x}
    ensures |r| == |s| + 1
  {
    if s == [] then [x]
    else if cmp(x, s[0]) <= 0 then [x] + s
    else
      assert s == [s[0]] + s[1..];
      [s[0]] + Insert(x, s[1..], cmp)
  }

  /** The stable sort of `List.sort(comparator)` (the library performs a merge
      sort; its result is the same as this insertion sort). */
  function Sort<T>(s: seq<T>, cmp: (T, T) -> int): (r: seq<T>)
    ensures multiset(r) == multiset(s)
    ensures |r| == |s|
  {
    if s == [] then []
    else
      assert s == [s[0]] + s[1..];
      Insert(s[0], Sort(s[1..], cmp), cmp)
  }

  lemma {:induction false} InsertSorted<T(!new)>(x: T, s: seq<T>, cmp: (T, T) -> int)
    requires IsComparator(cmp) && SortedBy(s, cmp)
    ensures SortedBy(Insert(x, s, cmp), cmp)
  {
    if s == [] {
    } else if cmp(x, s[0]) <= 0 {
      var r := [x] + s;
      forall i, j | 0 <= i < j < |r| ensures cmp(r[i], r[j]) <= 0 {
        if i == 0 && j > 1 {
          assert cmp(s[0], s[j - 1]) <= 0;
          ComparatorFacts(cmp, x, s[0], s[j - 1]);
        }
      }
    } else {
      var tail := s[1..];
      InsertSorted(x, tail, cmp);
      var t := Insert(x, tail, cmp);
      var r := [s[0]] + t;
      assert Sign(cmp(x, s[0])) == -Sign(cmp(s[0], x));
      forall i, j | 0 <= i < j < |r| ensures cmp(r[i], r[j]) <= 0 {
        if i == 0 {
          assert r[j] in multiset(t);
          if r[j] != x {
            assert r[j] in multiset(tail);
            var k :| 0 <= k < |tail| && tail[k] == r[j];
            assert s[k + 1] == r[j];
          }
        }
      }
    }
  }

  lemma {:induction false} SortIsSorted<T(!new)>(s: seq<T>, cmp: (T, T) -> int)
    requires IsComparator(cmp)
    ensures SortedBy(Sort(s, cmp), cmp)
  {
    if s != [] {
      SortIsSorted(s[1..], cmp);
      InsertSorted(s[0], Sort(s[1..], cmp), cmp);
    }
  }

  /** The first `n` elements, or all of them when there are fewer:
      `List.subList(0, n)` guarded by `n < size`, and `Stream.limit(n)`. */
  function Take<T>(s: seq<T>, n: nat): (r: seq<T>)
    ensures |r| == if n < |s| then n else |s|
    ensures r == s[..|r|]
  {
    if n < |s| then s[..n] else s
  }

  /** The `n` items with the largest keys, or all when there are fewer: a
      stable sort by decreasing key cut to its first `n` items. */
  function TopByKey<T(!new)>(s: seq<T>, key: T -> int, n: nat): seq<T> {
    Take(Sort(s, ByKeyDescending(key)), n)
  }

  /** The items a top list leaves out. */
  function ExcludedByKey<T(!new)>(s: seq<T>, key: T -> int, n: nat): seq<T> {
    Sort(s, ByKeyDescending(key))[|TopByKey(s, key, n)|..]
  }

  /** What a top list promises: `n` items or all when there are fewer, in
      non-increasing key order, drawn from `s`, and none with a smaller key
      than an item it leaves out. */
  ghost predicate IsTopList<T>(s: seq<T>, key: T -> int, n: nat, r: seq<T>, rest: seq<T>) {
    && |r| == (if n < |s| then n else |s|)
    && (forall i, j :: 0 <= i < j < |r| ==> key(r[i]) >= key(r[j]))
    && multiset(r) + multiset(rest) == multiset(s)
    && (forall i, j :: 0 <= i < |r| && 0 <= j < |rest| ==> key(r[i]) >= key(rest[j]))
  }

  /** The sort by decreasing key lists the keys in non-increasing order. */
  ghost predicate NonIncreasing<T>(s: seq<T>, key: T -> int) {
    forall i, j :: 0 <= i < j < |s| ==> key(s[i]) >= key(s[j])
  }

  lemma SortByKeyNonIncreasing<T(!new)>(s: seq<T>, key: T -> int)
    ensures NonIncreasing(Sort(s, ByKeyDescending(key)), key)
  {
    var cmp := ByKeyDescending(key);
    ByKeyDescendingIsComparator(key);
    SortIsSorted(s, cmp);
    var sorted := Sort(s, cmp);
    forall i, j | 0 <= i < j < |sorted| ensures key(sorted[i]) >= key(sorted[j]) {
      assert cmp(sorted[i], sorted[j]) == IntCompare(key(sorted[j]), key(sorted[i])) <= 0;
    }
  }

  /** Cutting a sequence with non-increasing keys leaves no key in the tail
      above a key in the head. */
  lemma CutNonIncreasing<T>(sorted: seq<T>, key: T -> int, k: nat)
    requires k <= |sorted|
    requires NonIncreasing(sorted, key)
    ensures NonIncreasing(sorted[..k], key)
    ensures forall i, j :: 0 <= i < k && 0 <= j < |sorted| - k ==> key(sorted[..k][i]) >= key(sorted[k..][j])
  {
    forall i, j | 0 <= i < k && 0 <= j < |sorted| - k ensures key(sorted[..k][i]) >= key(sorted[k..][j]) {
      assert sorted[..k][i] == sorted[i] && sorted[k..][j] == sorted[k + j];
    }
  }

  lemma TopByKeyIsTopList<T(!new)>(s: seq<T>, key: T -> int, n: nat)
    ensures IsTopList(s, key, n, TopByKey(s, key, n), ExcludedByKey(s, key, n))
  {
    var sorted := Sort(s, ByKeyDescending(key));
    var k := |TopByKey(s, key, n)|;
    SortByKeyNonIncreasing(s, key);
    CutNonIncreasing(sorted, key, k);
    assert TopByKey(s, key, n) == sorted[..k] && ExcludedByKey(s, key, n) == sorted[k..];
    assert sorted == sorted[..k] + sorted[k..];
  }
}
