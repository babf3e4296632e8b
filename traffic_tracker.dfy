/** The non-I/O part of `TrafficTracker`: the two ordered lists it keeps, the
    merging of a batch of detections into the accumulated violations, the
    total of the fines and the top-N lists. */
module TrafficTracking {
  import opened Wrappers
  import opened Ordering
  import opened Strings
  import opened Cars
  import opened Violations
  import opened Detections
  import opened OrderedLists
  import opened Sums

  /** The order of the cars list, `Comparator.comparing(Car::getLicensePlate)`. */
  function ByLicensePlate(): (cmp: (Car, Car) -> int)
    ensures forall a, b :: cmp(a, b) == CompareStrings(a.licensePlate, b.licensePlate)
  {
    (a: Car, b: Car) => CompareStrings(a.licensePlate, b.licensePlate)
  }

  lemma ByLicensePlateIsComparator()
    ensures IsComparator(ByLicensePlate())
  {
    var cmp := ByLicensePlate();
    forall a, b ensures Sign(cmp(a, b)) == -Sign(cmp(b, a)) {
      CompareStringsAntisymmetric(a.licensePlate, b.licensePlate);
    }
    forall a, b, c ensures Transitive(cmp, a, b, c) {
      if cmp(a, b) <= 0 && cmp(b, c) <= 0 {
        CompareStringsTransitive(a.licensePlate, b.licensePlate, c.licensePlate);
      }
    }
  }

  /** The plate and city the violations order reads, with "" where the source
      would dereference null. */
  function PlateOf(v: Violation): string {
    if v.car.Some? then v.car.value.licensePlate else ""
  }

  function CityOf(v: Violation): string {
    if v.city.Some? then v.city.value else ""
  }

  /** The comparator the violations list is made with: plates by
      `compareTo`, and cities by `compareTo` when the plates are equal. */
  function CompareViolations(v1: Violation, v2: Violation): (r: int)
    ensures r == 0 <==> PlateOf(v1) == PlateOf(v2) && CityOf(v1) == CityOf(v2)
  {
    CompareStringsZeroIffEqual(PlateOf(v1), PlateOf(v2));
    CompareStringsZeroIffEqual(CityOf(v1), CityOf(v2));
    var compareCars := CompareStrings(PlateOf(v1), PlateOf(v2));
    if compareCars == 0 then CompareStrings(CityOf(v1), CityOf(v2)) else compareCars
  }

  function ViolationOrder(): (cmp: (Violation, Violation) -> int)
    ensures forall a, b :: cmp(a, b) == CompareViolations(a, b)
  {
    (a: Violation, b: Violation) => CompareViolations(a, b)
  }

  /** On violations with a car and a city the list's comparator and
      `Violation.compareByLicensePlateAndCity` agree. */
  lemma CompareViolationsAgrees(v1: Violation, v2: Violation)
    requires Identified(v1) && Identified(v2)
    ensures CompareByLicensePlateAndCity(v1, v2) == Ok(CompareViolations(v1, v2))
  {
  }

  lemma ViolationOrderIsComparator()
    ensures IsComparator(ViolationOrder())
  {
    var cmp := ViolationOrder();
    forall a, b ensures Sign(cmp(a, b)) == -Sign(cmp(b, a)) {
      CompareStringsAntisymmetric(PlateOf(a), PlateOf(b));
      CompareStringsAntisymmetric(CityOf(a), CityOf(b));
    }
    forall a, b, c ensures Transitive(cmp, a, b, c) {
      ViolationTransitive(a, b, c);
    }
  }

  lemma ViolationTransitive(a: Violation, b: Violation, c: Violation)
    ensures Transitive(ViolationOrder(), a, b, c)
  {
    var pa, pb, pc := PlateOf(a), PlateOf(b), PlateOf(c);
    CompareStringsZeroIffEqual(pa, pb);
    CompareStringsZeroIffEqual(pb, pc);
    CompareStringsZeroIffEqual(pa, pc);
    if CompareViolations(a, b) <= 0 && CompareViolations(b, c) <= 0 {
      if pa == pb && pb == pc {
        CompareStringsTransitive(CityOf(a), CityOf(b), CityOf(c));
      } else if pa != pb && pb != pc {
        CompareStringsTransitive(pa, pb, pc);
        CompareStringsAntisymmetric(pa, pb);
      }
    }
  }

  /** `Violation::combineOffencesCounts` as the merger the tracker passes. */
  function Combiner(): (merger: (Violation, Violation) -> Violation)
    ensures forall a, b :: merger(a, b) == CombineOffencesCounts(a, b)
  {
    (a: Violation, b: Violation) => CombineOffencesCounts(a, b)
  }

  /** Combining a violation with one that compares equal to it keeps its plate
      and city as the violations order sees them, so merging never moves an
      item out of its sorted place. */
  lemma CombinerKeepsPlace()
    ensures KeepsPlace(Combiner(), ViolationOrder())
  {
    forall a, b | CompareViolations(a, b) == 0
      ensures PlateOf(CombineOffencesCounts(a, b)) == PlateOf(a) && CityOf(CombineOffencesCounts(a, b)) == CityOf(a)
    {
    }
  }

  /** The fine per offence: 25 for a truck, 35 for a coach, nothing else. */
  function FineRate(carType: Option<CarType>): (r: int)
    ensures r > 0 <==> carType == Some(Truck) || carType == Some(Coach)
  {
    if carType == Some(Truck) then 25 else if carType == Some(Coach) then 35 else 0
  }

  /** The contribution of one violation to `calculateTotalFines`: a violation
      without a car contributes nothing. */
  function Fine(v: Violation): int {
    if v.car.Some? then FineRate(v.car.value.carType) * v.offencesCount else 0
  }

  function TruckOffences(v: Violation): int {
    if v.car.Some? && v.car.value.carType == Some(Truck) then v.offencesCount else 0
  }

  function CoachOffences(v: Violation): int {
    if v.car.Some? && v.car.value.carType == Some(Coach) then v.offencesCount else 0
  }

  /** The total fine is 25 per truck offence plus 35 per coach offence. */
  lemma {:induction false} FinesByType(s: seq<Violation>)
    ensures Total(s, Fine) == 25 * Total(s, TruckOffences) + 35 * Total(s, CoachOffences)
  {
    if s != [] {
      FinesByType(s[..|s| - 1]);
    }
  }

  /** Every violation `validatePurple` reports is of a truck or a coach, so
      it is fined. */
  lemma PurpleViolationsAreFined<D>(d: Detection<D>)
    requires ValidatePurple(d).Some?
    ensures FineRate(ValidatePurple(d).value.car.value.carType) > 0
    ensures Fine(ValidatePurple(d).value) == FineRate(d.car.carType)
  {
  }

  function OffencesCount(v: Violation): int {
    v.offencesCount
  }

  /** The number of detections `validatePurple` reports as offences. */
  function Offending<D>(ds: seq<Detection<D>>): (n: nat)
    ensures n <= |ds|
  {
    if ds == [] then 0
    else Offending(ds[..|ds| - 1]) + (if ValidatePurple(ds[|ds| - 1]).Some? then 1 else 0)
  }

  lemma OffendingStep<D>(ds: seq<Detection<D>>, i: nat)
    requires i < |ds|
    ensures Offending(ds[..i + 1]) == Offending(ds[..i]) + (if ValidatePurple(ds[i]).Some? then 1 else 0)
  {
    assert ds[..i + 1][..i] == ds[..i];
  }

  /** The offences a violation records for the licence plate and city
      `(plate, city)`, as the violations order identifies them. */
  function OffencesAt(plate: string, city: string): (f: Violation -> int)
    ensures forall v :: f(v) == if PlateOf(v) == plate && CityOf(v) == city then v.offencesCount else 0
  {
    v => if PlateOf(v) == plate && CityOf(v) == city then v.offencesCount else 0
  }

  /** 1 for a violation of `(plate, city)`, 0 for any other. */
  function EntryAt(plate: string, city: string): (f: Violation -> int)
    ensures forall v :: f(v) == if PlateOf(v) == plate && CityOf(v) == city then 1 else 0
  {
    v => if PlateOf(v) == plate && CityOf(v) == city then 1 else 0
  }

  /** The number of violations of `(plate, city)` in `s`. */
  function EntriesAt(s: seq<Violation>, plate: string, city: string): int {
    Total(s, EntryAt(plate, city))
  }

  /** No plate and city has two violations: what merging keeps true. */
  ghost predicate OneEntryPerPair(s: seq<Violation>) {
    forall plate, city :: EntriesAt(s, plate, city) <= 1
  }

  /** `d` is an offence of the car with `plate` in `city`. */
  predicate ReportsAt<D>(d: Detection<D>, plate: string, city: string) {
    ValidatePurple(d).Some? && d.car.licensePlate == plate && d.city == city
  }

  /** The number of detections of `ds` that are offences of `(plate, city)`. */
  function OffendingAt<D>(ds: seq<Detection<D>>, plate: string, city: string): (n: nat)
    ensures n <= Offending(ds)
  {
    if ds == [] then 0
    else OffendingAt(ds[..|ds| - 1], plate, city) + (if ReportsAt(ds[|ds| - 1], plate, city) then 1 else 0)
  }

  lemma OffendingAtStep<D>(ds: seq<Detection<D>>, i: nat)
    requires i < |ds|
    ensures forall plate, city :: OffendingAt(ds[..i + 1], plate, city) ==
              OffendingAt(ds[..i], plate, city) + (if ReportsAt(ds[i], plate, city) then 1 else 0)
  {
    assert ds[..i + 1][..i] == ds[..i];
  }

  /** A list has no violation of the pair of `v` exactly when nothing in it
      compares equal to `v`: the case in which `merge` appends. */
  lemma {:induction false} NoEntryIffNoMatch(s: seq<Violation>, v: Violation)
    ensures EntriesAt(s, PlateOf(v), CityOf(v)) == 0 <==> NoMatch(s, v, ViolationOrder(), 0, |s|)
  {
    if s != [] {
      var init := s[..|s| - 1];
      NoEntryIffNoMatch(init, v);
      TotalNonNegative(init, EntryAt(PlateOf(v), CityOf(v)));
      assert forall k :: 0 <= k < |init| ==> init[k] == s[k];
      assert NoMatch(s, v, ViolationOrder(), 0, |s|) <==>
               NoMatch(init, v, ViolationOrder(), 0, |init|) && CompareViolations(s[|s| - 1], v) != 0;
    }
  }

  /** A pair without a violation has no offences recorded. */
  lemma {:induction false} NoEntryNoOffences(s: seq<Violation>, plate: string, city: string)
    requires EntriesAt(s, plate, city) == 0
    ensures Total(s, OffencesAt(plate, city)) == 0
  {
    if s != [] {
      var init := s[..|s| - 1];
      TotalNonNegative(init, EntryAt(plate, city));
      NoEntryNoOffences(init, plate, city);
    }
  }

  /** Where each pair has at most one violation, that violation's count is
      everything its pair has recorded. */
  lemma {:induction false} SoleEntryCount(s: seq<Violation>, i: nat)
    requires i < |s| && EntriesAt(s, PlateOf(s[i]), CityOf(s[i])) <= 1
    ensures Total(s, OffencesAt(PlateOf(s[i]), CityOf(s[i]))) == s[i].offencesCount
  {
    var plate, city := PlateOf(s[i]), CityOf(s[i]);
    var init := s[..|s| - 1];
    TotalNonNegative(init, EntryAt(plate, city));
    if i == |s| - 1 {
      NoEntryNoOffences(init, plate, city);
    } else {
      assert init[i] == s[i];
      NoEntryIffNoMatch(init, s[i]);
      SoleEntryCount(init, i);
    }
  }

  /** One merge of a single offence `v` into `before`, appended when `m` is
      -1 and nothing matches it, combined into the match at `m` otherwise:
      the pair of `v` gains one offence and gains a violation only if it had
      none; every other pair keeps its offences and its violations. */
  lemma MergeStepCounts(before: seq<Violation>, v: Violation, m: int, after: seq<Violation>, plate: string, city: string)
    requires v.offencesCount == 1
    requires || (m == -1 && NoMatch(before, v, ViolationOrder(), 0, |before|) && after == before + [v])
             || (0 <= m < |before| && CompareViolations(before[m], v) == 0 &&
                 after == before[m := CombineOffencesCounts(before[m], v)])
    ensures Total(after, OffencesAt(plate, city)) ==
              Total(before, OffencesAt(plate, city)) + (if PlateOf(v) == plate && CityOf(v) == city then 1 else 0)
    ensures EntriesAt(after, plate, city) == EntriesAt(before, plate, city) +
              (if PlateOf(v) == plate && CityOf(v) == city && EntriesAt(before, plate, city) == 0 then 1 else 0)
  {
    var offences, entry := OffencesAt(plate, city), EntryAt(plate, city);
    if m == -1 {
      TotalAppend(before, [v], offences);
      TotalAppend(before, [v], entry);
      assert [v][..0] == [];
      NoEntryIffNoMatch(before, v);
    } else {
      var combined := CombineOffencesCounts(before[m], v);
      CombinerKeepsPlace();
      assert PlateOf(combined) == PlateOf(before[m]) && CityOf(combined) == CityOf(before[m]);
      TotalUpdate(before, m, combined, offences);
      TotalUpdate(before, m, combined, entry);
      NoEntryIffNoMatch(before, v);
      TotalNonNegative(before, entry);
    }
  }

  /** What merging the offences of `ds` into `before` gives each licence
      plate and city in `after`: one more offence per offending detection of
      it, and a violation of its own when it had none and some detection
      offends; a pair that had a violation keeps exactly as many. */
  ghost predicate MergedPairs<D>(before: seq<Violation>, after: seq<Violation>, ds: seq<Detection<D>>) {
    && (forall plate, city :: Total(after, OffencesAt(plate, city)) ==
          Total(before, OffencesAt(plate, city)) + OffendingAt(ds, plate, city))
    && (forall plate, city :: EntriesAt(after, plate, city) ==
          if EntriesAt(before, plate, city) == 0 && OffendingAt(ds, plate, city) > 0 then 1
          else EntriesAt(before, plate, city))
  }

  /** What merging `violation`, if it is an offence, into `before` gives
      each licence plate and city in `after`: its own pair gains one offence,
      and a violation only if it had none; every other pair is as it was. */
  ghost predicate MergedOne(before: seq<Violation>, after: seq<Violation>, violation: Option<Violation>) {
    && (forall plate, city :: Total(after, OffencesAt(plate, city)) ==
          Total(before, OffencesAt(plate, city)) +
          (if violation.Some? && PlateOf(violation.value) == plate && CityOf(violation.value) == city then 1 else 0))
    && (forall plate, city :: EntriesAt(after, plate, city) ==
          EntriesAt(before, plate, city) +
          (if violation.Some? && PlateOf(violation.value) == plate && CityOf(violation.value) == city &&
              EntriesAt(before, plate, city) == 0 then 1 else 0))
  }

  /** Merging the offence, if any, of one more detection `ds[i]` extends
      `MergedPairs` by that detection. */
  lemma MergedPairsStep<D>(before: seq<Violation>, mid: seq<Violation>, after: seq<Violation>, ds: seq<Detection<D>>, i: nat)
    requires i < |ds| && MergedPairs(before, mid, ds[..i])
    requires MergedOne(mid, after, ValidatePurple(ds[i]))
    ensures MergedPairs(before, after, ds[..i + 1])
  {
    OffendingAtStep(ds, i);
  }

  class TrafficTracker {
    /** The reference list of known cars, ordered by licence plate. */
    const cars: OrderedArrayList<Car>
    /** The accumulated offences per car and city. */
    const violations: OrderedArrayList<Violation>

    /** Both lists keep their order's invariant, and the violations hold at
        most one violation per licence plate and city. */
    ghost predicate Valid()
      reads cars, violations
    {
      && cars.sortOrder == ByLicensePlate() && violations.sortOrder == ViolationOrder()
      && cars.Valid() && violations.Valid()
      && OneEntryPerPair(violations.items)
    }

    constructor ()
      ensures Valid() && fresh(cars) && fresh(violations)
      ensures cars.items == [] && violations.items == []
    {
      cars := new OrderedArrayList(ByLicensePlate());
      violations := new OrderedArrayList(ViolationOrder());
    }

    /** The loop of `mergeDetectionsFromFile` over a batch of detections that
        has already been read: the violations are re-sorted, then every
        offence is merged in. Each licence plate and city gains one offence
        per offending detection of it, and gains a violation only when it had
        none; the result counts those new violations. */
    method MergeDetections<D>(newDetections: seq<Detection<D>>) returns (totalNumberOfOffences: int)
      requires Valid()
      modifies violations
      ensures Valid()
      ensures 0 <= totalNumberOfOffences <= Offending(newDetections)
      ensures |violations.items| == |old(violations.items)| + totalNumberOfOffences
      ensures Total(violations.items, OffencesCount) == Total(old(violations.items), OffencesCount) + Offending(newDetections)
      ensures MergedPairs(old(violations.items), violations.items, newDetections)
    {
      ViolationOrderIsComparator();
      violations.Sort();
      TotalPermutation(old(violations.items), violations.items, OffencesCount);
      ghost var sorted := violations.items;
      forall plate, city
        ensures Total(sorted, OffencesAt(plate, city)) == Total(old(violations.items), OffencesAt(plate, city))
        ensures EntriesAt(sorted, plate, city) == EntriesAt(old(violations.items), plate, city)
      {
        TotalPermutation(old(violations.items), sorted, OffencesAt(plate, city));
        TotalPermutation(old(violations.items), sorted, EntryAt(plate, city));
      }
      totalNumberOfOffences := MergeViolations(newDetections);
    }

    /** The loop itself, over the re-sorted violations. */
    method MergeViolations<D>(newDetections: seq<Detection<D>>) returns (totalNumberOfOffences: int)
      requires Valid()
      modifies violations
      ensures Valid()
      ensures 0 <= totalNumberOfOffences <= Offending(newDetections)
      ensures |violations.items| == |old(violations.items)| + totalNumberOfOffences
      ensures Total(violations.items, OffencesCount) == Total(old(violations.items), OffencesCount) + Offending(newDetections)
      ensures MergedPairs(old(violations.items), violations.items, newDetections)
    {
      totalNumberOfOffences := 0;
      var i := 0;
      assert newDetections[..0] == [];
      while i < |newDetections|
        invariant 0 <= i <= |newDetections|
        invariant Valid()
        invariant 0 <= totalNumberOfOffences <= Offending(newDetections[..i])
        invariant |violations.items| == |old(violations.items)| + totalNumberOfOffences
        invariant Total(violations.items, OffencesCount) == Total(old(violations.items), OffencesCount) + Offending(newDetections[..i])
        invariant MergedPairs(old(violations.items), violations.items, newDetections[..i])
      {
        OffendingStep(newDetections, i);
        ghost var mid := violations.items;
        var violation := ValidatePurple(newDetections[i]);
        var isNotNull, _ := MergeViolation(violation);
        MergedPairsStep(old(violations.items), mid, violations.items, newDetections, i);
        if isNotNull {
          totalNumberOfOffences := totalNumberOfOffences + 1;
        }
        i := i + 1;
      }
      assert newDetections[..i] == newDetections;
    }

    /** One turn of the loop: `violations.merge(violation,
        Violation::combineOffencesCounts)` for a violation fresh from
        `validatePurple`. Null changes nothing; a violation whose licence
        plate and city no stored violation has is appended and `true`
        returned; otherwise the stored one, at `matched`, is replaced by the
        two combined and `false` returned. */
    method MergeViolation(violation: Option<Violation>) returns (added: bool, ghost matched: int)
      requires Valid() && (violation.Some? ==> violation.value.offencesCount == 1)
      modifies violations
      ensures Valid()
      ensures violation.None? ==> !added && violations.items == old(violations.items)
      ensures violation.Some? ==>
                (added <==> NoMatch(old(violations.items), violation.value, ViolationOrder(), 0, |old(violations.items)|))
      ensures added ==> violations.items == old(violations.items) + [violation.value]
      ensures violation.Some? && !added ==>
                && 0 <= matched < |old(violations.items)|
                && CompareViolations(old(violations.items)[matched], violation.value) == 0
                && violations.items == old(violations.items)[matched :=
                     CombineOffencesCounts(old(violations.items)[matched], violation.value)]
      ensures Total(violations.items, OffencesCount) ==
                Total(old(violations.items), OffencesCount) + (if violation.Some? then 1 else 0)
      ensures MergedOne(old(violations.items), violations.items, violation)
    {
      ghost var before := violations.items;
      CombinerKeepsPlace();
      ViolationOrderIsComparator();
      added, matched := violations.Merge(violation, Combiner());
      assert violations.Valid();
      if added {
        TotalAppend(before, [violation.value], OffencesCount);
        assert Total([violation.value], OffencesCount) == 1 by {
          assert [violation.value][..0] == [];
        }
      } else if violation.Some? {
        TotalUpdate(before, matched, CombineOffencesCounts(before[matched], violation.value), OffencesCount);
      }
      if violation.Some? {
        var m := if added then -1 else matched;
        forall plate, city
          ensures Total(violations.items, OffencesAt(plate, city)) ==
                    Total(before, OffencesAt(plate, city)) +
                    (if PlateOf(violation.value) == plate && CityOf(violation.value) == city then 1 else 0)
          ensures EntriesAt(violations.items, plate, city) == EntriesAt(before, plate, city) +
                    (if PlateOf(violation.value) == plate && CityOf(violation.value) == city &&
                        EntriesAt(before, plate, city) == 0 then 1 else 0)
        {
          MergeStepCounts(before, violation.value, m, violations.items, plate, city);
        }
      }
    }

    /** `calculateTotalFines()`: the fines of all violations, in list order. */
    method CalculateTotalFines() returns (totalFines: int)
      ensures totalFines == Total(violations.items, Fine)
    {
      totalFines := 0;
      var items := violations.items;
      var i := 0;
      while i < |items|
        invariant 0 <= i <= |items|
        invariant totalFines == Total(items[..i], Fine)
      {
        assert items[..i + 1][..i] == items[..i];
        var violation := items[i];
        if violation.car.Some? {
          var fine := FineRate(violation.car.value.carType);
          totalFines := totalFines + fine * violation.offencesCount;
        }
        i := i + 1;
      }
      assert items[..i] == items;
    }

    /** `topViolationsByCar(topNumber)`: the violations with the most offences,
        at most `topNumber` of them. A negative `topNumber` makes `subList`
        throw IllegalArgumentException. Violations are not aggregated by car. */
    function TopViolationsByCar(topNumber: int): (r: Outcome<seq<Violation>, JavaException>)
      reads violations
      ensures r.Thrown? <==> topNumber < 0
      ensures r.Thrown? ==> r.error == IllegalArgument
      ensures r.Ok? ==> IsTopList(violations.items, OffencesCount, topNumber, r.result,
                                  ExcludedByKey(violations.items, OffencesCount, topNumber))
    {
      if topNumber < 0 then Thrown(IllegalArgument)
      else
        TopByKeyIsTopList(violations.items, OffencesCount, topNumber);
        Ok(TopByKey(violations.items, OffencesCount, topNumber))
    }

    /** `topViolationsByCity(topNumber)` is written exactly as
        `topViolationsByCar`: it does not aggregate by city either and gives
        the same list. */
    function TopViolationsByCity(topNumber: int): (r: Outcome<seq<Violation>, JavaException>)
      reads violations
      ensures r == TopViolationsByCar(topNumber)
    {
      if topNumber < 0 then Thrown(IllegalArgument)
      else Ok(Take(Sort(violations.items, ByKeyDescending(OffencesCount)), topNumber))
    }
  }
}
