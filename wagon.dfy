/** Wagons of a train, doubly linked through `nextWagon` and `previousWagon`.
    The two concrete kinds, passenger wagons with seats and freight wagons
    with a maximum weight, are the two variants of `WagonKind`. The wagons
    reached from a head by next links are described by a ghost sequence,
    `chain`, which the walking methods take as a witness that the walk ends. */
module Wagons {
  import opened Wrappers

  datatype WagonKind = Passenger(numberOfSeats: int) | Freight(maxWeight: int)

  class Wagon {
    const id: int
    const kind: WagonKind
    var nextWagon: Wagon?
    var previousWagon: Wagon?

    constructor (wagonId: int, kind: WagonKind)
      ensures id == wagonId && this.kind == kind
      ensures nextWagon == null && previousWagon == null
    {
      id := wagonId;
      this.kind := kind;
      nextWagon := null;
      previousWagon := null;
    }

    /** `hasNextWagon()`: a wagon is appended at the tail. */
    predicate HasNextWagon()
      reads this
    {
      nextWagon != null
    }

    /** `hasPreviousWagon()`: a wagon is prepended at the front. */
    predicate HasPreviousWagon()
      reads this
    {
      previousWagon != null
    }

    /** `getLastWagonAttached()`: follows the next links to the wagon without
        a successor, which is this wagon when it has none. */
    method GetLastWagonAttached(ghost chain: seq<Wagon>) returns (r: Wagon)
      requires IsChain(this, chain)
      ensures r == chain[|chain| - 1] && !r.HasNextWagon()
      ensures !HasNextWagon() ==> r == this
    {
      var currentWagon := this;
      ghost var k := 0;
      while currentWagon.HasNextWagon()
        invariant 0 <= k < |chain| && currentWagon == chain[k]
        decreases |chain| - k
      {
        currentWagon := currentWagon.nextWagon;
        k := k + 1;
      }
      ChainLinks(chain, k);
      ChainLinks(chain, 0);
      return currentWagon;
    }

    /** `getSequenceLength()` as written: starts at 1 and counts one more for
        every freight wagon that has a successor, so passenger wagons and the
        last wagon add nothing. */
    method GetSequenceLength(ghost chain: seq<Wagon>) returns (sum: int)
      requires IsChain(this, chain)
      ensures sum == 1 + FreightCount(chain[..|chain| - 1])
    {
      sum := 1;
      var currentWagon := this;
      ghost var k := 0;
      while currentWagon.HasNextWagon()
        invariant 0 <= k < |chain| && currentWagon == chain[k]
        invariant sum + FreightCount(chain[k..|chain| - 1]) == 1 + FreightCount(chain[..|chain| - 1])
        decreases |chain| - k
      {
        assert chain[k..|chain| - 1] == [chain[k]] + chain[k + 1..|chain| - 1];
        if currentWagon.kind.Freight? {
          sum := sum + 1;
        }
        currentWagon := currentWagon.nextWagon;
        k := k + 1;
      }
      ChainLinks(chain, k);
    }

    /** The length its documentation promises: the number of wagons from
        this one to the end of its tail. */
    method SequenceLength(ghost chain: seq<Wagon>) returns (sum: int)
      requires IsChain(this, chain)
      ensures sum == |chain|
    {
      sum := 1;
      var currentWagon := this;
      ghost var k := 0;
      while currentWagon.HasNextWagon()
        invariant 0 <= k < |chain| && currentWagon == chain[k]
        invariant sum == k + 1
        decreases |chain| - k
      {
        sum := sum + 1;
        currentWagon := currentWagon.nextWagon;
        k := k + 1;
      }
      ChainLinks(chain, k);
    }

    /** `attachTail(tail)` as written: it refuses with an
        `IllegalStateException` when this wagon has a predecessor or the tail
        has a successor, and otherwise links the two both ways. */
    method AttachTail(tail: Wagon) returns (thrown: Option<JavaException>)
      modifies this`nextWagon, tail`previousWagon
      ensures thrown.Some? <==> old(previousWagon) != null || old(tail.nextWagon) != null
      ensures thrown.Some? ==> thrown.value == IllegalState
      ensures thrown.Some? ==> nextWagon == old(nextWagon) && tail.previousWagon == old(tail.previousWagon)
      ensures thrown.None? ==> nextWagon == tail && tail.previousWagon == this
    {
      if HasPreviousWagon() {
        return Some(IllegalState);
      } else if tail.HasNextWagon() {
        return Some(IllegalState);
      }
      nextWagon := tail;
      tail.previousWagon := this;
      return None;
    }

    /** `attachTail(tail)` with the guards its documentation names: this
        wagon must have no successor and the tail no predecessor. A
        connected set of wagons stays connected. */
    method AttachTailChecked(tail: Wagon, ghost ws: set<Wagon>) returns (thrown: Option<JavaException>)
      modifies this`nextWagon, tail`previousWagon
      ensures thrown.Some? <==> old(nextWagon) != null || old(tail.previousWagon) != null
      ensures thrown.Some? ==> thrown.value == IllegalState
      ensures thrown.Some? ==> nextWagon == old(nextWagon) && tail.previousWagon == old(tail.previousWagon)
      ensures thrown.None? ==> nextWagon == tail && tail.previousWagon == this
      ensures old(Connected(ws)) && this in ws && tail in ws ==> Connected(ws)
    {
      if HasNextWagon() {
        return Some(IllegalState);
      } else if tail.HasPreviousWagon() {
        return Some(IllegalState);
      }
      nextWagon := tail;
      tail.previousWagon := this;
      return None;
    }

    /** The wagons whose links `detachTail` rewrites besides this one: the
        head of the tail and that head's predecessor. */
    ghost function DetachFrame(): set<Wagon>
      reads this, nextWagon
    {
      if nextWagon == null then {}
      else if nextWagon.previousWagon == null then {nextWagon}
      else {nextWagon, nextWagon.previousWagon}
    }

    /** `detachTail()`: without a successor it returns null and changes
        nothing; otherwise it cuts the link to the head of the tail from both
        sides and returns that head. A connected set of wagons stays
        connected. */
    method DetachTail(ghost ws: set<Wagon>) returns (r: Wagon?)
      modifies this, DetachFrame()
      ensures r == old(nextWagon)
      ensures r == null ==> unchanged(this)
      ensures nextWagon == null
      ensures r != null ==> r.previousWagon == null
      ensures r != null && old(r.previousWagon) != null ==> old(r.previousWagon).nextWagon == null
      ensures r != null && r != this && old(r.previousWagon) != r ==> previousWagon == old(previousWagon) && r.nextWagon == old(r.nextWagon)
      ensures old(Connected(ws)) && this in ws ==> Connected(ws)
    {
      if nextWagon != null {
        var headOfTail := nextWagon;
        nextWagon := null;
        if headOfTail.previousWagon != null {
          headOfTail.previousWagon.nextWagon := null;
          headOfTail.previousWagon := null;
        }
        return headOfTail;
      }
      return null;
    }
  }

  /** `chain` lists the wagons reached from `head` by next links, the last
      one without a successor; a null head has the empty chain. */
  ghost predicate IsChain(head: Wagon?, chain: seq<Wagon>)
    reads chain
  {
    && (head == null <==> chain == [])
    && (chain != [] ==> chain[0] == head && chain[|chain| - 1].nextWagon == null)
    && forall i :: 0 <= i < |chain| - 1 ==> chain[i].nextWagon == chain[i + 1]
  }

  /** The two connection invariants: a wagon's successor has it as its
      predecessor and its predecessor has it as its successor, within `ws`. */
  ghost predicate Connected(ws: set<Wagon>)
    reads ws
  {
    forall w :: w in ws ==>
      && (w.nextWagon != null ==> w.nextWagon in ws && w.nextWagon.previousWagon == w)
      && (w.previousWagon != null ==> w.previousWagon in ws && w.previousWagon.nextWagon == w)
  }

  /** Along a chain, exactly the last wagon has no wagon at its tail, and
      exactly the head has none in front when the chain is connected and
      the head has no predecessor. */
  lemma ChainLinks(chain: seq<Wagon>, i: int)
    requires chain != [] && IsChain(chain[0], chain) && 0 <= i < |chain|
    ensures chain[i].HasNextWagon() <==> i < |chain| - 1
    ensures Connected(set w | w in chain) && !chain[0].HasPreviousWagon() ==>
              (chain[i].HasPreviousWagon() <==> i > 0)
  {
    if i < |chain| - 1 {
      assert chain[i].nextWagon == chain[i + 1];
    }
    if Connected(set w | w in chain) && !chain[0].HasPreviousWagon() && i > 0 {
      assert chain[i - 1].nextWagon == chain[i];
    }
  }

  /** The number of freight wagons in `s`. */
  function FreightCount(s: seq<Wagon>): (n: nat)
    ensures n <= |s|
  {
    if s == [] then 0 else (if s[0].kind.Freight? then 1 else 0) + FreightCount(s[1..])
  }

  /** Only sequences of freight wagons have as many freight wagons as
      wagons. */
  lemma {:induction false} FreightCountFull(s: seq<Wagon>)
    ensures FreightCount(s) == |s| <==> forall i :: 0 <= i < |s| ==> s[i].kind.Freight?
  {
    if s != [] {
      FreightCountFull(s[1..]);
      if forall i :: 0 <= i < |s| ==> s[i].kind.Freight? {
        assert forall i :: 0 <= i < |s| - 1 ==> s[1..][i].kind.Freight? by {
          forall i | 0 <= i < |s| - 1 ensures s[1..][i].kind.Freight? {
            assert s[1..][i] == s[i + 1];
          }
        }
      } else if s[0].kind.Freight? {
        var i :| 0 <= i < |s| && !s[i].kind.Freight?;
        assert s[1..][i - 1] == s[i];
      }
    }
  }

  /** `getSequenceLength` gives the length of the chain exactly when every
      wagon but the last is a freight wagon; a chain of two passenger
      wagons has length 2 but gets 1. */
  lemma SequenceLengthAsWritten(chain: seq<Wagon>)
    requires chain != []
    ensures 1 + FreightCount(chain[..|chain| - 1]) <= |chain|
    ensures 1 + FreightCount(chain[..|chain| - 1]) == |chain| <==>
              forall i :: 0 <= i < |chain| - 1 ==> chain[i].kind.Freight?
  {
    var init := chain[..|chain| - 1];
    FreightCountFull(init);
    assert forall i :: 0 <= i < |chain| - 1 ==> init[i] == chain[i];
  }

  /** The connection invariants in a set holding a linked pair `a`, `b` and a
      free wagon `c`. */
  ghost predicate PairAndFree(ws: set<Wagon>, a: Wagon, b: Wagon, c: Wagon)
    reads ws
  {
    && Connected(ws) && a in ws && b in ws && c in ws
    && a.nextWagon == b && a.previousWagon == null
    && c.nextWagon == null && c.previousWagon == null
  }

  /** The guards of `attachTail` as written let a wagon that already pulls a
      tail take a second one: the former tail then names as predecessor a
      wagon that no longer pulls it. */
  method AttachTailBreaksConnection(a: Wagon, b: Wagon, c: Wagon, ghost ws: set<Wagon>)
    requires PairAndFree(ws, a, b, c)
    modifies a, c
    ensures !Connected(ws)
  {
    assert b.previousWagon == a;
    var thrown := a.AttachTail(c);
    assert thrown.None? && a.nextWagon == c && b.previousWagon == a;
  }
}
