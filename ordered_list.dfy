/** `OrderedArrayList<E>`: an array list whose first `nSorted` items are ordered
    by `sortOrder` and whose remaining items are in no particular order. The
    backing `ArrayList` is the sequence `items`; the comparator is fixed when
    the list is made. */
module OrderedLists {
  import opened Wrappers
  import opened Ordering
  import opened Sums

  /** `ArrayList.add(index, e)` on the contents: `e` lands at `index` and the
      items from `index` on move one place up. */
  function Inserted<E>(s: seq<E>, index: nat, e: E): (r: seq<E>)
    requires index <= |s|
    ensures |r| == |s| + 1 && r[index] == e
    ensures forall k :: 0 <= k < index ==> r[k] == s[k]
    ensures forall k :: index < k < |r| ==> r[k] == s[k - 1]
  {
    s[..index] + [e] + s[index..]
  }

  /** `ArrayList.remove(index)` on the contents: the items after `index` move
      one place down. */
  function Removed<E>(s: seq<E>, index: nat): (r: seq<E>)
    requires index < |s|
    ensures |r| == |s| - 1
    ensures forall k :: 0 <= k < index ==> r[k] == s[k]
    ensures forall k :: index <= k < |r| ==> r[k] == s[k + 1]
  {
    s[..index] + s[index + 1..]
  }

  /** Removing what was just inserted gives the list back. */
  lemma RemoveInserted<E>(s: seq<E>, index: nat, e: E)
    requires index <= |s|
    ensures Removed(Inserted(s, index, e), index) == s
  {
    assert Removed(Inserted(s, index, e), index) == s;
  }

  /** Putting a removed item back where it was gives the list back. */
  lemma InsertRemoved<E>(s: seq<E>, index: nat)
    requires index < |s|
    ensures Inserted(Removed(s, index), index, s[index]) == s
  {
    assert Inserted(Removed(s, index), index, s[index]) == s;
  }

  /** No item at a position in `[lo, hi)` compares equal to `x`. */
  ghost predicate NoMatch<E>(s: seq<E>, x: E, cmp: (E, E) -> int, lo: int, hi: int) {
    forall k :: lo <= k < hi && 0 <= k < |s| ==> cmp(s[k], x) != 0
  }

  /** What a binary search over the sorted section `[0, n)` knows once it has
      narrowed the search to `[low, high]`: everything below `low` is smaller
      than `x` and everything above `high` is greater. */
  ghost predicate Bracketed<E>(s: seq<E>, x: E, cmp: (E, E) -> int, low: int, high: int, n: int) {
    && (forall k :: 0 <= k < low && k < |s| ==> cmp(s[k], x) < 0)
    && (forall k :: high < k < n && 0 <= k < |s| ==> cmp(s[k], x) > 0)
  }

  /** A middle item smaller than `x` lets the search continue above it. */
  lemma BracketRaise<E(!new)>(s: seq<E>, x: E, cmp: (E, E) -> int, low: int, mid: int, high: int, n: int)
    requires 0 <= low <= mid <= high < n <= |s|
    requires IsComparator(cmp) && SortedBy(s[..n], cmp) && Bracketed(s, x, cmp, low, high, n)
    requires cmp(s[mid], x) < 0
    ensures Bracketed(s, x, cmp, mid + 1, high, n)
  {
    forall k | low <= k < mid ensures cmp(s[k], x) < 0 {
      assert s[..n][k] == s[k] && s[..n][mid] == s[mid];
      ComparatorFacts(cmp, s[k], s[mid], x);
    }
  }

  /** A middle item greater than `x` lets the search continue below it. */
  lemma BracketLower<E(!new)>(s: seq<E>, x: E, cmp: (E, E) -> int, low: int, mid: int, high: int, n: int)
    requires 0 <= low <= mid <= high < n <= |s|
    requires IsComparator(cmp) && SortedBy(s[..n], cmp) && Bracketed(s, x, cmp, low, high, n)
    requires cmp(s[mid], x) > 0
    ensures Bracketed(s, x, cmp, low, mid - 1, n)
  {
    forall k | mid < k <= high ensures cmp(s[k], x) > 0 {
      assert s[..n][k] == s[k] && s[..n][mid] == s[mid];
      ComparatorFacts(cmp, x, s[mid], s[k]);
      ComparatorFacts(cmp, x, s[k], s[k]);
    }
  }

  /** An exhausted search range leaves no candidate in the sorted section. */
  lemma BracketClosed<E>(s: seq<E>, x: E, cmp: (E, E) -> int, low: int, high: int, n: int)
    requires low > high && Bracketed(s, x, cmp, low, high, n)
    ensures NoMatch(s, x, cmp, 0, n)
  {
    forall k | 0 <= k < n && 0 <= k < |s| ensures cmp(s[k], x) != 0 {
      if k < low {
        assert cmp(s[k], x) < 0;
      } else {
        assert cmp(s[k], x) > 0;
      }
    }
  }

  /** Deleting an item of a sorted section leaves the shorter section sorted. */
  lemma SortedAfterRemoval<E>(s: seq<E>, index: nat, n: nat, cmp: (E, E) -> int)
    requires index < n <= |s| && SortedBy(s[..n], cmp)
    ensures SortedBy(Removed(s, index)[..n - 1], cmp)
  {
    var q := Removed(s, index)[..n - 1];
    forall i, j | 0 <= i < j < n - 1 ensures cmp(q[i], q[j]) <= 0 {
      var i' := if i < index then i else i + 1;
      var j' := if j < index then j else j + 1;
      assert q[i] == s[..n][i'] && q[j] == s[..n][j'];
    }
  }

  /** A merger keeps an item's place when the merged item compares with every
      item exactly as the matched item did. */
  ghost predicate KeepsPlace<E(!new)>(merger: (E, E) -> E, cmp: (E, E) -> int) {
    && (forall a, b, c :: cmp(a, b) == 0 ==> cmp(merger(a, b), c) == cmp(a, c))
    && (forall a, b, c :: cmp(a, b) == 0 ==> cmp(c, merger(a, b)) == cmp(c, a))
  }

  /** Replacing a sorted item by one that keeps its place leaves the section
      sorted. */
  lemma SortedAfterReplace<E(!new)>(s: seq<E>, index: nat, n: nat, x: E, merger: (E, E) -> E, cmp: (E, E) -> int)
    requires index < n <= |s| && SortedBy(s[..n], cmp) && KeepsPlace(merger, cmp)
    requires cmp(s[index], x) == 0
    ensures SortedBy(s[index := merger(s[index], x)][..n], cmp)
  {
    var m := merger(s[index], x);
    var r := s[index := m];
    forall i, j | 0 <= i < j < n ensures cmp(r[..n][i], r[..n][j]) <= 0 {
      assert s[..n][i] == s[i] && s[..n][j] == s[j];
      if i == index {
        assert cmp(m, s[j]) == cmp(s[index], s[j]);
      } else if j == index {
        assert cmp(s[i], m) == cmp(s[i], s[index]);
      }
    }
  }

  class OrderedArrayList<E(!new)> {
    var items: seq<E>
    var nSorted: int
    const sortOrder: (E, E) -> int

    /** The representation invariant: `[0, nSorted)` is ordered by
        `sortOrder`, the rest of the list may be in any order. */
    ghost predicate Valid()
      reads this
    {
      0 <= nSorted <= |items| && SortedBy(items[..nSorted], sortOrder)
    }

    constructor (sortOrder: (E, E) -> int)
      ensures this.sortOrder == sortOrder && items == [] && nSorted == 0
      ensures Valid()
    {
      this.sortOrder := sortOrder;
      items := [];
      nSorted := 0;
    }

    /** `sort()`: the whole list is sorted, stably, and becomes the sorted
        section. */
    method Sort()
      requires IsComparator(sortOrder)
      modifies this
      ensures items == Ordering.Sort(old(items), sortOrder)
      ensures multiset(items) == multiset(old(items)) && nSorted == |items|
      ensures Valid()
    {
      items := Ordering.Sort(items, sortOrder);
      SortIsSorted(old(items), sortOrder);
      nSorted := |items|;
      assert items[..nSorted] == items;
    }

    /** `add(index, element)`: an index outside `[0, size]` throws
        IndexOutOfBoundsException and changes nothing; otherwise the element
        is inserted and the sorted section is cut back to end before it. */
    method Add(index: int, element: E) returns (thrown: bool)
      requires Valid()
      modifies this
      ensures Valid()
      ensures thrown <==> !(0 <= index <= |old(items)|)
      ensures thrown ==> items == old(items) && nSorted == old(nSorted)
      ensures !thrown ==> items == Inserted(old(items), index, element)
      ensures !thrown ==> nSorted == if index < old(nSorted) then index else old(nSorted)
    {
      if !(0 <= index <= |items|) {
        return true;
      }
      ghost var before := items;
      items := Inserted(items, index, element);
      if index < nSorted {
        nSorted := index;
      }
      assert items[..nSorted] == before[..nSorted][..nSorted];
      thrown := false;
    }

    /** `ArrayList.add(element)`, which the list does not override: the
        element is appended to the unsorted section. */
    method Append(element: E)
      modifies this
      ensures items == old(items) + [element] && nSorted == old(nSorted)
      ensures old(Valid()) ==> Valid()
    {
      if Valid() {
        assert (items + [element])[..nSorted] == items[..nSorted];
      }
      items := items + [element];
    }

    /** `remove(index)`: an index outside `[0, size)` throws
        IndexOutOfBoundsException and changes nothing; otherwise the item is
        removed and returned, and the sorted section shrinks by one exactly
        when the item was in it. */
    method RemoveAt(index: int) returns (r: Outcome<E, JavaException>)
      requires Valid()
      modifies this
      ensures Valid()
      ensures !(0 <= index < |old(items)|) ==>
                r == Thrown(IndexOutOfBounds) && items == old(items) && nSorted == old(nSorted)
      ensures 0 <= index < |old(items)| ==>
                && r == Ok(old(items)[index])
                && items == Removed(old(items), index)
                && nSorted == if index < old(nSorted) then old(nSorted) - 1 else old(nSorted)
    {
      if !(0 <= index < |items|) {
        return Thrown(IndexOutOfBounds);
      }
      ghost var before := items;
      var removedItem := items[index];
      items := Removed(items, index);
      if index < nSorted {
        SortedAfterRemoval(before, index, nSorted, sortOrder);
        nSorted := nSorted - 1;
      } else {
        assert items[..nSorted] == before[..nSorted];
      }
      r := Ok(removedItem);
    }

    /** `indexOfByIterativeBinarySearch`: a binary search of the sorted
        section, then a linear scan of the whole list. Whatever the order of
        the items, the result is the position of an item that compares equal
        to `searchItem`, or -1 when there is none. */
    method IndexOfByIterativeBinarySearch(searchItem: E) returns (r: int)
      requires Valid()
      ensures -1 <= r < |items|
      ensures r >= 0 ==> sortOrder(items[r], searchItem) == 0
      ensures r == -1 <==> NoMatch(items, searchItem, sortOrder, 0, |items|)
    {
      var low, high := 0, nSorted - 1;
      while low <= high
        invariant 0 <= low && high < nSorted
        decreases high - low
      {
        var mid := (low + high) / 2;
        var compare := sortOrder(items[mid], searchItem);
        if compare < 0 {
          low := mid + 1;
        } else if compare > 0 {
          high := mid - 1;
        } else {
          return mid;
        }
      }
      var i := 0;
      while i < |items|
        invariant 0 <= i <= |items|
        invariant NoMatch(items, searchItem, sortOrder, 0, i)
      {
        if sortOrder(items[i], searchItem) == 0 {
          return i;
        }
        i := i + 1;
      }
      return -1;
    }

    /** `indexOfByRecursiveBinarySearch`: -1 only when no item of the unsorted
        section matches, and, for a comparator that meets its contract, only
        when no item of the whole list matches. */
    method IndexOfByRecursiveBinarySearch(searchItem: E) returns (r: int)
      requires Valid()
      ensures -1 <= r < |items|
      ensures r >= 0 ==> sortOrder(items[r], searchItem) == 0
      ensures r == -1 ==> NoMatch(items, searchItem, sortOrder, nSorted, |items|)
      ensures IsComparator(sortOrder) ==> (r == -1 <==> NoMatch(items, searchItem, sortOrder, 0, |items|))
    {
      assert Bracketed(items, searchItem, sortOrder, 0, nSorted - 1, nSorted);
      r := RecursiveBinarySearch(searchItem, 0, nSorted - 1);
    }

    /** `recursiveBinarySearch(searchItem, low, high)`: halves `[low, high]`
        until it meets a match or runs empty, then hands over to
        `linearSearch`. */
    method RecursiveBinarySearch(searchItem: E, low: int, high: int) returns (r: int)
      requires Valid() && 0 <= low && high < nSorted
      ensures -1 <= r < |items|
      ensures r >= 0 ==> sortOrder(items[r], searchItem) == 0
      ensures r == -1 ==> NoMatch(items, searchItem, sortOrder, nSorted, |items|)
      ensures r == -1 && IsComparator(sortOrder) && Bracketed(items, searchItem, sortOrder, low, high, nSorted) ==>
                NoMatch(items, searchItem, sortOrder, 0, |items|)
      decreases high - low + 1
    {
      if low <= high {
        var mid := (low + high) / 2;
        var cmp := sortOrder(items[mid], searchItem);
        if cmp < 0 {
          if IsComparator(sortOrder) && Bracketed(items, searchItem, sortOrder, low, high, nSorted) {
            BracketRaise(items, searchItem, sortOrder, low, mid, high, nSorted);
          }
          r := RecursiveBinarySearch(searchItem, mid + 1, high);
        } else if cmp > 0 {
          if IsComparator(sortOrder) && Bracketed(items, searchItem, sortOrder, low, high, nSorted) {
            BracketLower(items, searchItem, sortOrder, low, mid, high, nSorted);
          }
          r := RecursiveBinarySearch(searchItem, low, mid - 1);
        } else {
          r := mid;
        }
      } else {
        if Bracketed(items, searchItem, sortOrder, low, high, nSorted) {
          BracketClosed(items, searchItem, sortOrder, low, high, nSorted);
        }
        r := LinearSearch(searchItem);
      }
    }

    /** `linearSearch`: the first matching position of the unsorted section,
        or -1. */
    method LinearSearch(searchItem: E) returns (r: int)
      requires Valid()
      ensures r == -1 <==> NoMatch(items, searchItem, sortOrder, nSorted, |items|)
      ensures r != -1 ==>
                && nSorted <= r < |items| && sortOrder(items[r], searchItem) == 0
                && NoMatch(items, searchItem, sortOrder, nSorted, r)
    {
      var i := nSorted;
      while i < |items|
        invariant nSorted <= i <= |items|
        invariant NoMatch(items, searchItem, sortOrder, nSorted, i)
      {
        if sortOrder(items[i], searchItem) == 0 {
          return i;
        }
        i := i + 1;
      }
      return -1;
    }

    /** `indexOfByBinarySearch`: -1 for a null item, otherwise the recursive
        search. */
    method IndexOfByBinarySearch(searchItem: Option<E>) returns (r: int)
      requires Valid()
      ensures searchItem.None? ==> r == -1
      ensures -1 <= r < |items|
      ensures r >= 0 ==> searchItem.Some? && sortOrder(items[r], searchItem.value) == 0
      ensures searchItem.Some? && IsComparator(sortOrder) ==>
                (r == -1 <==> NoMatch(items, searchItem.value, sortOrder, 0, |items|))
    {
      if searchItem.Some? {
        r := IndexOfByRecursiveBinarySearch(searchItem.value);
      } else {
        r := -1;
      }
    }

    /** `merge(newItem, merger)`: a null item changes nothing; an item without
        a match is appended and `true` returned; otherwise the match at
        position `matched` is replaced by `merger(match, newItem)` and `false`
        returned. The sorted section keeps its length, so it stays sorted
        unless a merged item moves out of its place. */
    method Merge(newItem: Option<E>, merger: (E, E) -> E) returns (added: bool, ghost matched: int)
      requires Valid()
      modifies this
      ensures nSorted == old(nSorted)
      ensures newItem.None? ==> !added && items == old(items)
      ensures added ==> newItem.Some? && items == old(items) + [newItem.value]
      ensures added ==> NoMatch(old(items), newItem.value, sortOrder, old(nSorted), |old(items)|)
      ensures newItem.Some? && IsComparator(sortOrder) ==>
                (added <==> NoMatch(old(items), newItem.value, sortOrder, 0, |old(items)|))
      ensures newItem.Some? && !added ==>
                && 0 <= matched < |old(items)| && sortOrder(old(items)[matched], newItem.value) == 0
                && items == old(items)[matched := merger(old(items)[matched], newItem.value)]
      ensures added || newItem.None? || KeepsPlace(merger, sortOrder) ==> Valid()
    {
      matched := -1;
      if newItem.None? {
        return false, matched;
      }
      var matchedItemIndex := IndexOfByRecursiveBinarySearch(newItem.value);
      if matchedItemIndex < 0 {
        Append(newItem.value);
        added := true;
      } else {
        matched := matchedItemIndex;
        var matchedItem := items[matchedItemIndex];
        var mergedItem := merger(matchedItem, newItem.value);
        if KeepsPlace(merger, sortOrder) {
          if matchedItemIndex < nSorted {
            SortedAfterReplace(items, matchedItemIndex, nSorted, newItem.value, merger, sortOrder);
          } else {
            assert items[matchedItemIndex := mergedItem][..nSorted] == items[..nSorted];
          }
        }
        items := items[matchedItemIndex := mergedItem];
        added := false;
      }
    }

    /** `aggregate(mapper)`: the sum of the contributions of all items, in
        list order. */
    method Aggregate(mapper: E -> int) returns (sum: int)
      ensures sum == Total(items, mapper)
    {
      sum := 0;
      var i := 0;
      while i < |items|
        invariant 0 <= i <= |items|
        invariant sum == Total(items[..i], mapper)
      {
        assert items[..i + 1][..i] == items[..i];
        sum := sum + mapper(items[i]);
        i := i + 1;
      }
      assert items[..i] == items;
    }
  }
}
