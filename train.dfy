/** `Train`: a locomotive pulling a chain of wagons that starts at
    `firstWagon`. The locomotive contributes only its capacity,
    `maxWagons`. Every walk along the train takes the ghost `chain` of its
    wagons as the witness that the walk ends. */
module Trains {
  import opened Wrappers
  import opened Wagons

  /** The seats of the passenger wagons of `s`. */
  function PassengerSeats(s: seq<Wagon>): int {
    if s == [] then 0
    else (if s[0].kind.Passenger? then s[0].kind.numberOfSeats else 0) + PassengerSeats(s[1..])
  }

  /** The maximum weights of the freight wagons of `s`. */
  function FreightWeight(s: seq<Wagon>): int {
    if s == [] then 0
    else (if s[0].kind.Freight? then s[0].kind.maxWeight else 0) + FreightWeight(s[1..])
  }

  /** The passenger wagons of `s`, in order. */
  function Passengers(s: seq<Wagon>): (r: seq<Wagon>)
    ensures |r| <= |s|
    ensures forall i :: 0 <= i < |r| ==> r[i] in s && r[i].kind.Passenger?
  {
    if s == [] then []
    else (if s[0].kind.Passenger? then [s[0]] else []) + Passengers(s[1..])
  }

  /** The `p`-th passenger wagon of `s`, counting from 0, or null when `s`
      has no such wagon. */
  function NthPassenger(s: seq<Wagon>, p: int): Wagon? {
    if s == [] then null
    else if s[0].kind.Passenger? then (if p == 0 then s[0] else NthPassenger(s[1..], p - 1))
    else NthPassenger(s[1..], p)
  }

  /** `NthPassenger` indexes the passenger wagons: it finds one exactly for
      the positions 0 up to their number. */
  lemma {:induction false} NthPassengerIndexes(s: seq<Wagon>, p: int)
    ensures NthPassenger(s, p) == (if 0 <= p < |Passengers(s)| then Passengers(s)[p] else null)
  {
    if s != [] {
      if s[0].kind.Passenger? {
        NthPassengerIndexes(s[1..], p - 1);
      } else {
        NthPassengerIndexes(s[1..], p);
      }
    }
  }

  /** Without passenger wagons there are no seats. */
  lemma {:induction false} SeatsWithoutPassengers(s: seq<Wagon>)
    requires forall i :: 0 <= i < |s| ==> s[i].kind.Freight?
    ensures PassengerSeats(s) == 0 && Passengers(s) == []
  {
    if s != [] {
      assert forall i :: 0 <= i < |s| - 1 ==> s[1..][i] == s[i + 1];
      SeatsWithoutPassengers(s[1..]);
    }
  }

  /** Without freight wagons there is no weight. */
  lemma {:induction false} WeightWithoutFreight(s: seq<Wagon>)
    requires forall i :: 0 <= i < |s| ==> s[i].kind.Passenger?
    ensures FreightWeight(s) == 0
  {
    if s != [] {
      assert forall i :: 0 <= i < |s| - 1 ==> s[1..][i] == s[i + 1];
      WeightWithoutFreight(s[1..]);
    }
  }

  /** After the last wagon of a train has been given `wagon` as its
      successor, the train's wagons are followed by `wagon`'s chain. */
  lemma RearChain(chain: seq<Wagon>, wagon: Wagon?, tail: seq<Wagon>)
    requires chain != [] && chain[|chain| - 1].nextWagon == wagon
    requires forall i :: 0 <= i < |chain| - 1 ==> chain[i].nextWagon == chain[i + 1]
    requires IsChain(wagon, tail)
    ensures IsChain(chain[0], chain + tail)
  {
    var all := chain + tail;
    forall i | 0 <= i < |all| - 1 ensures all[i].nextWagon == all[i + 1] {
      if i < |chain| - 1 {
        assert all[i] == chain[i] && all[i + 1] == chain[i + 1];
      } else if i == |chain| - 1 {
        assert all[i] == chain[i] && all[i + 1] == tail[0];
      } else {
        assert all[i] == tail[i - |chain|] && all[i + 1] == tail[i - |chain| + 1];
      }
    }
  }

  /** `canAttach(wagon)` as documented: the head of the sequence is of the
      train's kind and not yet part of the train, and the engine can pull
      the train's wagons and the sequence together. */
  ghost predicate CanAttach(maxWagons: int, chain: seq<Wagon>, tail: seq<Wagon>) {
    && tail != [] && tail[0] !in chain
    && |chain| + |tail| <= maxWagons
    && (chain != [] ==> tail[0].kind.Passenger? == chain[0].kind.Passenger?)
  }

  /** Two wagons of a chain at different positions are different wagons:
      the wagons that follow them differ too, down to the last one, which
      alone has nothing behind it. */
  lemma {:induction false} ChainPositionsDiffer(chain: seq<Wagon>, i: nat, j: nat)
    requires chain != [] && IsChain(chain[0], chain)
    requires i < j < |chain|
    ensures chain[i] != chain[j]
    decreases |chain| - j
  {
    assert chain[i].nextWagon == chain[i + 1];
    if j < |chain| - 1 {
      ChainPositionsDiffer(chain, i + 1, j + 1);
      assert chain[j].nextWagon == chain[j + 1];
    }
  }

  lemma ChainDistinct(chain: seq<Wagon>)
    requires chain != [] && IsChain(chain[0], chain)
    ensures forall i, j :: 0 <= i < j < |chain| ==> chain[i] != chain[j]
  {
    forall i, j | 0 <= i < j < |chain| ensures chain[i] != chain[j] {
      ChainPositionsDiffer(chain, i, j);
    }
  }

  /** In a connected set, a sequence whose head is not part of a train whose
      first wagon has no predecessor shares no wagon with the train: the
      predecessors of its wagons lead back to its head. */
  lemma {:induction false} TailWagonOutside(chain: seq<Wagon>, tail: seq<Wagon>, ws: set<Wagon>, j: nat)
    requires IsChain(if chain == [] then null else chain[0], chain) && tail != [] && IsChain(tail[0], tail)
    requires chain != [] ==> chain[0].previousWagon == null
    requires Connected(ws) && (forall i :: 0 <= i < |chain| ==> chain[i] in ws)
    requires forall i :: 0 <= i < |tail| ==> tail[i] in ws
    requires tail[0] !in chain && j < |tail|
    ensures tail[j] !in chain
  {
    if j > 0 {
      TailWagonOutside(chain, tail, ws, j - 1);
      assert tail[j - 1].nextWagon == tail[j];
      assert tail[j].previousWagon == tail[j - 1];
      forall k | 0 <= k < |chain| ensures chain[k] != tail[j] {
        if k > 0 {
          assert chain[k - 1].nextWagon == chain[k];
          assert chain[k].previousWagon == chain[k - 1];
        }
      }
    }
  }

  lemma TailOutsideTrain(chain: seq<Wagon>, tail: seq<Wagon>, ws: set<Wagon>)
    requires IsChain(if chain == [] then null else chain[0], chain) && tail != [] && IsChain(tail[0], tail)
    requires chain != [] ==> chain[0].previousWagon == null
    requires Connected(ws) && (forall i :: 0 <= i < |chain| ==> chain[i] in ws)
    requires forall i :: 0 <= i < |tail| ==> tail[i] in ws
    requires tail[0] !in chain
    ensures forall j :: 0 <= j < |tail| ==> tail[j] !in chain
  {
    forall j | 0 <= j < |tail| ensures tail[j] !in chain {
      TailWagonOutside(chain, tail, ws, j);
    }
  }

  /** The predecessor of a sequence's head, in a connected set, belongs
      neither to the sequence nor to a train that does not hold the head. */
  lemma PredecessorOutside(chain: seq<Wagon>, tail: seq<Wagon>, ws: set<Wagon>)
    requires IsChain(if chain == [] then null else chain[0], chain) && tail != [] && IsChain(tail[0], tail)
    requires Connected(ws) && tail[0] in ws && tail[0] !in chain
    ensures tail[0].previousWagon != null ==>
              tail[0].previousWagon !in chain && tail[0].previousWagon !in tail
  {
    var p := tail[0].previousWagon;
    if p != null {
      assert p.nextWagon == tail[0];
      forall k | 0 <= k < |chain| ensures chain[k] != p {
        if k < |chain| - 1 {
          assert chain[k].nextWagon == chain[k + 1];
        }
      }
      ChainDistinct(tail);
      forall j | 0 <= j < |tail| ensures tail[j] != p {
        if j < |tail| - 1 {
          assert tail[j].nextWagon == tail[j + 1];
        }
      }
    }
  }

  /** `attachToRear` as written answers false for an attachment it made: an
      empty train with room for a wagon takes a single free wagon, which
      `canAttach` as documented allows. */
  method AttachToRearMisreports(t: Train, w: Wagon) returns (r: bool)
    requires t.firstWagon == null && t.maxWagons >= 1 && w.nextWagon == null
    modifies t
    ensures !r && t.firstWagon == w && CanAttach(t.maxWagons, [], [w])
  {
    r := t.AttachToRear(w, []);
  }

  class Train {
    const origin: string
    const destination: string
    /** `engine.getMaxWagons()`. */
    const maxWagons: int
    var firstWagon: Wagon?

    constructor (maxWagons: int, origin: string, destination: string)
      ensures this.maxWagons == maxWagons && this.origin == origin && this.destination == destination
      ensures firstWagon == null
    {
      this.maxWagons := maxWagons;
      this.origin := origin;
      this.destination := destination;
      firstWagon := null;
    }

    /** `hasWagons()`. */
    predicate HasWagons()
      reads this
    {
      firstWagon != null
    }

    /** `isPassengerTrain()`: the first wagon is a passenger wagon. */
    predicate IsPassengerTrain()
      reads this
    {
      firstWagon != null && firstWagon.kind.Passenger?
    }

    /** `isFreightTrain()`: the first wagon is a freight wagon. */
    predicate IsFreightTrain()
      reads this
    {
      firstWagon != null && firstWagon.kind.Freight?
    }

    /** `setFirstWagon(wagon)`: replaces the wagons of the train. */
    method SetFirstWagon(wagon: Wagon?)
      modifies this
      ensures firstWagon == wagon
    {
      firstWagon := wagon;
    }

    /** `getLastWagonAttached()`: the wagon at the end of the train; on an
        empty train the walk dereferences null and throws a
        NullPointerException. */
    method GetLastWagonAttached(ghost chain: seq<Wagon>) returns (r: Outcome<Wagon, JavaException>)
      requires IsChain(firstWagon, chain)
      ensures r.Thrown? <==> chain == []
      ensures r.Thrown? ==> r.error == NullPointer
      ensures r.Ok? ==> r.result == chain[|chain| - 1] && !r.result.HasNextWagon()
    {
      if firstWagon == null {
        return Thrown(NullPointer);
      }
      var last := firstWagon.GetLastWagonAttached(chain);
      return Ok(last);
    }

    /** `getTotalNumberOfSeats()`: the seats of the passenger wagons along the
        train. */
    method GetTotalNumberOfSeats(ghost chain: seq<Wagon>) returns (passengerSeats: int)
      requires IsChain(firstWagon, chain)
      ensures passengerSeats == PassengerSeats(chain)
    {
      passengerSeats := 0;
      var currentWagon := firstWagon;
      ghost var k := 0;
      while currentWagon != null
        invariant 0 <= k <= |chain|
        invariant currentWagon == (if k < |chain| then chain[k] else null)
        invariant passengerSeats + PassengerSeats(chain[k..]) == PassengerSeats(chain)
        decreases |chain| - k
      {
        assert chain[k..][1..] == chain[k + 1..];
        if currentWagon.kind.Passenger? {
          passengerSeats := passengerSeats + currentWagon.kind.numberOfSeats;
        }
        currentWagon := currentWagon.nextWagon;
        k := k + 1;
      }
    }

    /** `getTotalMaxWeight()` as written: the first passenger wagon along the
        train is cast to a freight wagon, which throws a
        `ClassCastException`; without passenger wagons nothing is added. */
    method GetTotalMaxWeight(ghost chain: seq<Wagon>) returns (r: Outcome<int, JavaException>)
      requires IsChain(firstWagon, chain)
      ensures r == if Passengers(chain) != [] then Thrown(ClassCast) else Ok(0)
    {
      var weightCounter := 0;
      var currentWagon := firstWagon;
      ghost var k := 0;
      while currentWagon != null
        invariant 0 <= k <= |chain|
        invariant currentWagon == (if k < |chain| then chain[k] else null)
        invariant Passengers(chain) == Passengers(chain[k..])
        invariant weightCounter == 0
        decreases |chain| - k
      {
        assert chain[k..][1..] == chain[k + 1..];
        if currentWagon.kind.Passenger? {
          return Thrown(ClassCast);
        }
        currentWagon := currentWagon.nextWagon;
        k := k + 1;
      }
      return Ok(weightCounter);
    }

    /** The total its documentation promises: the maximum weights of the
        freight wagons, 0 for a train of passenger wagons. */
    method TotalMaxWeight(ghost chain: seq<Wagon>) returns (weightCounter: int)
      requires IsChain(firstWagon, chain)
      ensures weightCounter == FreightWeight(chain)
      ensures (forall i :: 0 <= i < |chain| ==> chain[i].kind.Passenger?) ==> weightCounter == 0
    {
      weightCounter := 0;
      var currentWagon := firstWagon;
      ghost var k := 0;
      while currentWagon != null
        invariant 0 <= k <= |chain|
        invariant currentWagon == (if k < |chain| then chain[k] else null)
        invariant weightCounter + FreightWeight(chain[k..]) == FreightWeight(chain)
        decreases |chain| - k
      {
        assert chain[k..][1..] == chain[k + 1..];
        if currentWagon.kind.Freight? {
          weightCounter := weightCounter + currentWagon.kind.maxWeight;
        }
        currentWagon := currentWagon.nextWagon;
        k := k + 1;
      }
      if forall i :: 0 <= i < |chain| ==> chain[i].kind.Passenger? {
        WeightWithoutFreight(chain);
      }
    }

    /** `findWagonAtPosition(position)`: counts only passenger wagons, so it
        returns the `position`-th passenger wagon, or null. */
    method FindWagonAtPosition(position: int, ghost chain: seq<Wagon>) returns (r: Wagon?)
      requires IsChain(firstWagon, chain)
      ensures r == NthPassenger(chain, position)
    {
      var index := 0;
      var currentWagon := firstWagon;
      ghost var k := 0;
      while currentWagon != null
        invariant 0 <= k <= |chain|
        invariant currentWagon == (if k < |chain| then chain[k] else null)
        invariant NthPassenger(chain, position) == NthPassenger(chain[k..], position - index)
        decreases |chain| - k
      {
        assert chain[k..][1..] == chain[k + 1..];
        if currentWagon.kind.Passenger? {
          if index == position {
            return currentWagon;
          }
          index := index + 1;
        }
        currentWagon := currentWagon.nextWagon;
        k := k + 1;
      }
      return null;
    }

    /** `findWagonById(wagonId)` as written: the same walk as
        `findWagonAtPosition`, with the id taken as a position. */
    method FindWagonById(wagonId: int, ghost chain: seq<Wagon>) returns (r: Wagon?)
      requires IsChain(firstWagon, chain)
      ensures r == NthPassenger(chain, wagonId)
    {
      r := FindWagonAtPosition(wagonId, chain);
    }

    /** The lookup its documentation promises: the first wagon with the given
        id, or null when no wagon of the train has it. */
    method FindWagonWithId(wagonId: int, ghost chain: seq<Wagon>) returns (r: Wagon?)
      requires IsChain(firstWagon, chain)
      ensures r != null ==> r.id == wagonId && exists i :: 0 <= i < |chain| && chain[i] == r
      ensures r == null <==> forall i :: 0 <= i < |chain| ==> chain[i].id != wagonId
    {
      var currentWagon := firstWagon;
      ghost var k := 0;
      while currentWagon != null
        invariant 0 <= k <= |chain|
        invariant currentWagon == (if k < |chain| then chain[k] else null)
        invariant forall i :: 0 <= i < k ==> chain[i].id != wagonId
        decreases |chain| - k
      {
        if currentWagon.id == wagonId {
          return currentWagon;
        }
        currentWagon := currentWagon.nextWagon;
        k := k + 1;
      }
      return null;
    }

    /** `attachToRear(wagon)`: an empty train takes `wagon` as its first
        wagon; otherwise, when the engine can pull any wagon at all, `wagon`
        becomes the successor of the last wagon, its predecessor link left
        as it was. The result is always false. */
    method AttachToRear(wagon: Wagon?, ghost chain: seq<Wagon>) returns (r: bool)
      requires IsChain(firstWagon, chain)
      modifies this, if chain == [] then {} else {chain[|chain| - 1]}
      ensures !r
      ensures chain == [] ==> firstWagon == wagon
      ensures chain != [] ==> firstWagon == old(firstWagon)
      ensures chain != [] && 0 < maxWagons ==> chain[|chain| - 1].nextWagon == wagon
      ensures chain != [] && maxWagons <= 0 ==> unchanged(chain[|chain| - 1])
      ensures chain != [] ==> chain[|chain| - 1].previousWagon == old(chain[|chain| - 1].previousWagon)
      ensures forall i :: 0 <= i < |chain| - 1 ==> chain[i].nextWagon == chain[i + 1]
    {
      var currentTotalWagons := 0;
      if firstWagon == null {
        firstWagon := wagon;
      } else if currentTotalWagons < maxWagons {
        var currentWagon := firstWagon.GetLastWagonAttached(chain);
        currentWagon.nextWagon := wagon;
      }
      return false;
    }

    /** The walk `canAttach` makes along the train: whether it holds
        `wagon`, and how many wagons it has. */
    method HoldsAndCounts(wagon: Wagon, ghost chain: seq<Wagon>) returns (inTrain: bool, trainLength: int)
      requires IsChain(firstWagon, chain)
      ensures inTrain <==> wagon in chain
      ensures trainLength == |chain|
    {
      trainLength := 0;
      inTrain := false;
      var currentWagon := firstWagon;
      while currentWagon != null
        invariant 0 <= trainLength <= |chain|
        invariant currentWagon == (if trainLength < |chain| then chain[trainLength] else null)
        invariant inTrain <==> wagon in chain[..trainLength]
        decreases |chain| - trainLength
      {
        assert chain[..trainLength + 1] == chain[..trainLength] + [chain[trainLength]];
        if currentWagon == wagon {
          inTrain := true;
        }
        currentWagon := currentWagon.nextWagon;
        trainLength := trainLength + 1;
      }
      assert chain[..trainLength] == chain;
    }

    /** `attachToRear(wagon)` as its documentation describes it: when the
        sequence headed by `wagon` can be attached, `wagon` is detached from
        its predecessor, if any, and the sequence follows the last wagon of
        the train, and the result is true; otherwise nothing changes and the
        result is false. The train's first wagon has no predecessor, the
        invariant `Train` documents, and `ws` holds the connected wagons. */
    method AttachToRearChecked(wagon: Wagon, ghost chain: seq<Wagon>, ghost tail: seq<Wagon>, ghost ws: set<Wagon>)
      returns (r: bool)
      requires IsChain(firstWagon, chain) && IsChain(wagon, tail)
      requires chain != [] ==> chain[0].previousWagon == null
      requires Connected(ws) && (forall i :: 0 <= i < |chain| ==> chain[i] in ws)
      requires forall i :: 0 <= i < |tail| ==> tail[i] in ws
      modifies this, wagon, if chain == [] then {} else {chain[|chain| - 1]},
               if wagon.previousWagon == null then {} else {wagon.previousWagon}
      ensures r <==> CanAttach(maxWagons, chain, tail)
      ensures !r ==> unchanged(this, wagon) && (chain != [] ==> unchanged(chain[|chain| - 1]))
      ensures !r && old(wagon.previousWagon) != null ==> unchanged(old(wagon.previousWagon))
      ensures r ==> IsChain(firstWagon, chain + tail)
      ensures r ==> firstWagon == if chain == [] then wagon else old(firstWagon)
      ensures r ==> wagon.previousWagon == if chain == [] then null else chain[|chain| - 1]
      ensures r && old(wagon.previousWagon) != null ==> old(wagon.previousWagon).nextWagon == null
    {
      var inTrain, trainLength := HoldsAndCounts(wagon, chain);
      var sequenceLength := wagon.SequenceLength(tail);
      if inTrain || trainLength + sequenceLength > maxWagons
         || (firstWagon != null && wagon.kind.Passenger? != firstWagon.kind.Passenger?) {
        return false;
      }
      TailOutsideTrain(chain, tail, ws);
      PredecessorOutside(chain, tail, ws);
      var predecessor := wagon.previousWagon;
      if predecessor != null {
        predecessor.nextWagon := null;
        wagon.previousWagon := null;
      }
      assert IsChain(firstWagon, chain) && IsChain(wagon, tail);
      LinkAtRear(wagon, chain, tail);
      return true;
    }

    /** The last step of an attachment: a sequence of wagons that shares no
        wagon with the train and has no predecessor follows its last wagon,
        or becomes the train when it is empty. */
    method LinkAtRear(wagon: Wagon, ghost chain: seq<Wagon>, ghost tail: seq<Wagon>)
      requires IsChain(firstWagon, chain) && IsChain(wagon, tail) && wagon.previousWagon == null
      requires forall j :: 0 <= j < |tail| ==> tail[j] !in chain
      modifies this, wagon, if chain == [] then {} else {chain[|chain| - 1]}
      ensures IsChain(firstWagon, chain + tail)
      ensures firstWagon == if chain == [] then wagon else old(firstWagon)
      ensures wagon.previousWagon == if chain == [] then null else chain[|chain| - 1]
    {
      if firstWagon == null {
        firstWagon := wagon;
        assert chain + tail == tail;
      } else {
        var last := firstWagon.GetLastWagonAttached(chain);
        last.nextWagon := wagon;
        wagon.previousWagon := last;
        RearChain(chain, wagon, tail);
      }
    }

    /** `insertAtPosition(position, wagon)`: not implemented; it reports
        failure and changes nothing. */
    method InsertAtPosition(position: int, wagon: Wagon?) returns (r: bool)
      ensures !r
    {
      return false;
    }

    /** `moveOneWagon(wagonId, toTrain)`: not implemented; it reports failure
        and changes nothing. */
    method MoveOneWagon(wagonId: int, toTrain: Train) returns (r: bool)
      ensures !r
    {
      return false;
    }

    /** `splitAtPosition(position, toTrain)`: not implemented; it reports
        failure and changes nothing. */
    method SplitAtPosition(position: int, toTrain: Train) returns (r: bool)
      ensures !r
    {
      return false;
    }
  }

  /** A train with wagons is a passenger train or a freight train and never
      both; an empty train is neither. */
  lemma TrainKinds(t: Train, chain: seq<Wagon>)
    requires IsChain(t.firstWagon, chain)
    ensures t.HasWagons() <==> chain != []
    ensures !(t.IsPassengerTrain() && t.IsFreightTrain())
    ensures t.HasWagons() <==> t.IsPassengerTrain() || t.IsFreightTrain()
  {
  }

  /** A train of freight wagons only has no seats and no wagon at any
      position. */
  lemma FreightTrainHasNoSeats(t: Train, chain: seq<Wagon>, position: int)
    requires IsChain(t.firstWagon, chain)
    requires forall i :: 0 <= i < |chain| ==> chain[i].kind.Freight?
    ensures PassengerSeats(chain) == 0 && NthPassenger(chain, position) == null
  {
    SeatsWithoutPassengers(chain);
    NthPassengerIndexes(chain, position);
  }

  /** `findWagonById` misses a wagon whose id is not also its position among
      the passenger wagons: a train of one passenger wagon with id 7 has no
      wagon with id 7 by that lookup. */
  lemma FindWagonByIdMisses(w: Wagon)
    requires w.kind.Passenger? && w.id != 0
    ensures NthPassenger([w], w.id) == null
  {
    assert [w][1..] == [];
  }
}
