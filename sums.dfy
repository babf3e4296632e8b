/** Sums of an integer function over the items of a sequence, accumulated
    in sequence order, and the facts that make them independent of that
    order. */
module Sums {

  /** The sum of `f` over the items, accumulated in list order. */
  function Total<E>(s: seq<E>, f: E -> int): int {
    if s == [] then 0 else Total(s[..|s| - 1], f) + f(s[|s| - 1])
  }

  lemma {:induction false} TotalAppend<E>(s: seq<E>, t: seq<E>, f: E -> int)
    ensures Total(s + t, f) == Total(s, f) + Total(t, f)
  {
    if t != [] {
      TotalAppend(s, t[..|t| - 1], f);
      assert (s + t)[..|s + t| - 1] == s + t[..|t| - 1];
    } else {
      assert s + t == s;
    }
  }

  /** A sum of contributions that are never negative is never negative. */
  lemma {:induction false} TotalNonNegative<E>(s: seq<E>, f: E -> int)
    requires forall i :: 0 <= i < |s| ==> f(s[i]) >= 0
    ensures Total(s, f) >= 0
  {
    if s != [] {
      assert forall i :: 0 <= i < |s| - 1 ==> s[..|s| - 1][i] == s[i];
      TotalNonNegative(s[..|s| - 1], f);
    }
  }

  /** With no negative term, every term is at most the sum. */
  lemma {:induction false} TotalAtLeastTerm<E>(s: seq<E>, k: nat, f: E -> int)
    requires forall i :: 0 <= i < |s| ==> f(s[i]) >= 0
    requires k < |s|
    ensures f(s[k]) <= Total(s, f)
  {
    assert forall i :: 0 <= i < |s| - 1 ==> s[..|s| - 1][i] == s[i];
    TotalNonNegative(s[..|s| - 1], f);
    if k < |s| - 1 {
      TotalAtLeastTerm(s[..|s| - 1], k, f);
    }
  }

  /** Replacing one item changes the total by the difference of the two
      contributions. */
  lemma {:induction false} TotalUpdate<E>(s: seq<E>, index: nat, x: E, f: E -> int)
    requires index < |s|
    ensures Total(s[index := x], f) == Total(s, f) - f(s[index]) + f(x)
  {
    var n := |s| - 1;
    if index < n {
      TotalUpdate(s[..n], index, x, f);
      assert s[index := x][..n] == s[..n][index := x];
    } else {
      assert s[index := x][..n] == s[..n];
    }
  }

  /** Taking the last item of `s` out of both sides of a permutation, at
      the position `j` where `t` holds it, leaves a permutation. */
  lemma MultisetWithout<E>(s: seq<E>, t: seq<E>, j: nat)
    requires multiset(s) == multiset(t) && s != [] && j < |t| && t[j] == s[|s| - 1]
    ensures multiset(s[..|s| - 1]) == multiset(t[..j] + t[j + 1..])
  {
    assert t == t[..j] + [t[j]] + t[j + 1..];
    assert multiset(t) == multiset(t[..j]) + multiset{t[j]} + multiset(t[j + 1..]);
    assert s == s[..|s| - 1] + [s[|s| - 1]];
    assert multiset(s) == multiset(s[..|s| - 1]) + multiset{s[|s| - 1]};
    assert multiset(t[..j] + t[j + 1..]) == multiset(t[..j]) + multiset(t[j + 1..]);
    assert multiset(s[..|s| - 1]) == multiset(s) - multiset{s[|s| - 1]};
    assert multiset(t[..j] + t[j + 1..]) == multiset(t) - multiset{t[j]};
  }

  /** The total does not depend on the order of the items: aggregating a
      list gives the same sum before and after `sort()`. */
  lemma {:induction false} TotalPermutation<E>(s: seq<E>, t: seq<E>, f: E -> int)
    requires multiset(s) == multiset(t)
    ensures Total(s, f) == Total(t, f)
  {
    if s != [] {
      var x := s[|s| - 1];
      assert x in multiset(t);
      var j :| 0 <= j < |t| && t[j] == x;
      var rest := t[..j] + t[j + 1..];
      MultisetWithout(s, t, j);
      assert t == t[..j] + [x] + t[j + 1..];
      TotalPermutation(s[..|s| - 1], rest, f);
      TotalAppend(t[..j] + [x], t[j + 1..], f);
      TotalAppend(t[..j], [x], f);
      TotalAppend(t[..j], t[j + 1..], f);
      assert Total([x], f) == f(x) by {
        assert [x][..0] == [];
      }
    } else {
      assert t == [];
    }
  }
}
