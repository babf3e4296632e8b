/** `Violation`: an offence count for a car in a city. A combined violation
    keeps only the identifying attributes its two parts share; the others
    become null (`None`). */
module Violations {
  import opened Wrappers
  import opened Ordering
  import opened Strings
  import opened Cars

  datatype Violation = Violation(car: Option<Car>, city: Option<string>, offencesCount: int)

  /** `new Violation(car, city)`: a single offence. */
  function NewViolation(car: Option<Car>, city: Option<string>): (v: Violation)
    ensures v.car == car && v.city == city && v.offencesCount == 1
  {
    Violation(car, city, 1)
  }

  /** `combineOffencesCounts(other)`: a new violation whose count is the sum of
      both counts, whose car is this car if it is not null and equals the
      other's, and whose city is this city if it is not null and equals the
      other's. Neither operand changes: violations are values. */
  function CombineOffencesCounts(v: Violation, other: Violation): (r: Violation)
    ensures r.offencesCount == v.offencesCount + other.offencesCount
    ensures r.car.Some? <==> v.car.Some? && other.car.Some? && SameCar(v.car.value, other.car.value)
    ensures r.car.Some? ==> r.car == v.car
    ensures r.city.Some? <==> v.city.Some? && other.city == v.city
    ensures r.city.Some? ==> r.city == v.city
  {
    var car := if v.car.Some? && other.car.Some? && SameCar(v.car.value, other.car.value) then v.car else None;
    var city := if v.city.Some? && other.city == v.city then v.city else None;
    Violation(car, city, v.offencesCount + other.offencesCount)
  }

  /** Combining is commutative in the count and keeps what both operands share:
      combining two violations of one car in one city gives a violation of
      that car in that city. */
  lemma CombineShared(v: Violation, other: Violation)
    ensures CombineOffencesCounts(v, other).offencesCount == CombineOffencesCounts(other, v).offencesCount
    ensures v.car.Some? && other.car == v.car && v.city.Some? && other.city == v.city ==>
              CombineOffencesCounts(v, other) == Violation(v.car, v.city, v.offencesCount + other.offencesCount)
    ensures CombineOffencesCounts(v, other).car.Some? <==> CombineOffencesCounts(other, v).car.Some?
  {
  }

  /** A violation with both a car and a city, which the static comparison
      can always handle. */
  predicate Identified(v: Violation) {
    v.car.Some? && v.city.Some?
  }

  /** `compareByLicensePlateAndCity(v1, v2)`: licence plates first, cities
      when the plates are equal, both by `String.compareTo`. A violation
      without a car throws a NullPointerException, and so does one without
      a city once the plates are equal; the cities are not read when the
      plates differ. */
  function CompareByLicensePlateAndCity(v1: Violation, v2: Violation): (r: Outcome<int, JavaException>)
    ensures r.Thrown? <==>
              || v1.car.None? || v2.car.None?
              || (v1.car.value.licensePlate == v2.car.value.licensePlate && (v1.city.None? || v2.city.None?))
    ensures r.Thrown? ==> r.error == NullPointer
    ensures Identified(v1) && Identified(v2) ==> r.Ok?
    ensures r.Ok? ==>
              (r.result == 0 <==> v1.car.value.licensePlate == v2.car.value.licensePlate && v1.city == v2.city)
    ensures r.Ok? && v1.car.value.licensePlate != v2.car.value.licensePlate ==>
              Sign(r.result) == Sign(CompareStrings(v1.car.value.licensePlate, v2.car.value.licensePlate))
    ensures r.Ok? && v1.car.value.licensePlate == v2.car.value.licensePlate ==>
              Sign(r.result) == Sign(CompareStrings(v1.city.value, v2.city.value))
  {
    if v1.car.None? || v2.car.None? then Thrown(NullPointer)
    else
      var compareLicensePlates := CompareStrings(v1.car.value.licensePlate, v2.car.value.licensePlate);
      CompareStringsZeroIffEqual(v1.car.value.licensePlate, v2.car.value.licensePlate);
      if compareLicensePlates != 0 then Ok(compareLicensePlates)
      else if v1.city.None? || v2.city.None? then Thrown(NullPointer)
      else
        CompareStringsZeroIffEqual(v1.city.value, v2.city.value);
        var compareCities := CompareStrings(v1.city.value, v2.city.value);
        if compareCities != 0 then Ok(compareCities) else Ok(0)
  }

  /** Swapping the arguments throws in the same cases and otherwise negates
      the result. */
  lemma CompareByLicensePlateAndCityAntisymmetric(v1: Violation, v2: Violation)
    ensures CompareByLicensePlateAndCity(v1, v2).Thrown? <==> CompareByLicensePlateAndCity(v2, v1).Thrown?
    ensures CompareByLicensePlateAndCity(v1, v2).Ok? ==>
              CompareByLicensePlateAndCity(v1, v2).result == -CompareByLicensePlateAndCity(v2, v1).result
  {
    if v1.car.Some? && v2.car.Some? {
      CompareStringsAntisymmetric(v1.car.value.licensePlate, v2.car.value.licensePlate);
      if v1.city.Some? && v2.city.Some? {
        CompareStringsAntisymmetric(v1.city.value, v2.city.value);
      }
    }
  }
}
