/** `Detection`: a car seen entering a city's environmental zone at some
    moment. The moment's type `D` and its parser (`LocalDateTime.parse`, whose
    exception `fromLine` catches) are parameters: a text it rejects parses to
    `None`. */
module Detections {
  import opened Wrappers
  import opened Strings
  import opened Cars
  import opened Violations
  import opened OrderedLists

  datatype Detection<D> = Detection(car: Car, city: string, dateTime: D)

  /** The position of the first car with the given plate, or -1. */
  function IndexOfPlate(cars: seq<Car>, plate: string): (r: int)
    ensures -1 <= r < |cars|
    ensures r == -1 <==> forall k :: 0 <= k < |cars| ==> cars[k].licensePlate != plate
    ensures r >= 0 ==> cars[r].licensePlate == plate && forall k :: 0 <= k < r ==> cars[k].licensePlate != plate
  {
    if cars == [] then -1
    else if cars[0].licensePlate == plate then 0
    else
      var r := IndexOfPlate(cars[1..], plate);
      assert forall k :: 0 < k < |cars| ==> cars[k] == cars[1..][k - 1];
      if r == -1 then -1 else r + 1
  }

  /** `fromLine(textLine, cars)`. The line must split on commas into exactly
      three fields, plate, city and date-time, each trimmed; a date-time that
      does not parse gives null. A known plate gives a detection of the first
      car in `cars` with that plate; an unknown one appends a car known only by
      its plate to `cars` and detects that car. */
  method FromLine<D>(textLine: string, cars: OrderedArrayList<Car>, parse: string -> Option<D>)
    returns (r: Option<Detection<D>>)
    modifies cars
    ensures cars.nSorted == old(cars.nSorted)
    ensures old(cars.Valid()) ==> cars.Valid()
    ensures r.Some? <==> |Split(textLine)| == 3 && parse(Trim(Split(textLine)[2])).Some?
    ensures r.None? ==> cars.items == old(cars.items)
    ensures r.Some? ==>
              var parts := Split(textLine);
              && |parts| == 3
              && var plate := Trim(parts[0]);
                 var index := IndexOfPlate(old(cars.items), plate);
                 && r.value.car.licensePlate == plate
                 && r.value.city == Trim(parts[1])
                 && parse(Trim(parts[2])) == Some(r.value.dateTime)
                 && (index >= 0 ==> r.value.car == old(cars.items)[index] && cars.items == old(cars.items))
                 && (index == -1 ==> r.value.car == PlateOnlyCar(plate) && cars.items == old(cars.items) + [r.value.car])
  {
    var detectionParts := Split(textLine);
    if |detectionParts| != 3 {
      return None;
    }
    var carPlate := Trim(detectionParts[0]);
    var city := Trim(detectionParts[1]);
    var dateTime := parse(Trim(detectionParts[2]));
    if dateTime.None? {
      return None;
    }
    var index := -1;
    var i := 0;
    while i < |cars.items|
      invariant 0 <= i <= |cars.items|
      invariant index == -1
      invariant forall k :: 0 <= k < i ==> cars.items[k].licensePlate != carPlate
    {
      if cars.items[i].licensePlate == carPlate {
        index := i;
        break;
      }
      i := i + 1;
    }
    assert index == IndexOfPlate(cars.items, carPlate);
    if index != -1 {
      r := Some(Detection(cars.items[index], city, dateTime.value));
    } else {
      var newCar := PlateOnlyCar(carPlate);
      cars.Append(newCar);
      r := Some(Detection(newCar, city, dateTime.value));
    }
  }

  /** A line written as plate, city and date-time joined by commas is read back
      as a detection of those three fields (when they are already trimmed and
      the date-time parses). */
  lemma FromLineFields<D>(plate: string, city: string, time: string, parse: string -> Option<D>)
    requires ',' !in plate && ',' !in city && ',' !in time && time != []
    requires Trim(plate) == plate && Trim(city) == city && Trim(time) == time
    ensures var parts := Split(plate + [','] + city + [','] + time);
            |parts| == 3 && Trim(parts[0]) == plate && Trim(parts[1]) == city && Trim(parts[2]) == time
  {
    SplitThree(plate, city, time);
  }

  /** `validatePurple()`: a diesel truck or diesel coach of emission category 6
      or higher is an offence in the purple zone, reported as a new violation
      of that car in that city; every other detection gives null. */
  function ValidatePurple<D>(d: Detection<D>): (r: Option<Violation>)
    ensures r.Some? <==>
              && (d.car.carType == Some(Truck) || d.car.carType == Some(Coach))
              && d.car.fuelType == Some(Diesel) && d.car.emissionCategory >= 6
    ensures r.Some? ==> r.value == NewViolation(Some(d.car), Some(d.city))
  {
    if d.car.carType == Some(Truck) || d.car.carType == Some(Coach) then
      if d.car.fuelType == Some(Diesel) then
        if d.car.emissionCategory >= 6 then Some(NewViolation(Some(d.car), Some(d.city))) else None
      else None
    else None
  }

  /** A car known only by its plate never offends: `fromLine` followed by
      `validatePurple` yields no violation for an unregistered car. */
  lemma UnregisteredCarsDoNotOffend<D>(plate: string, city: string, dateTime: D)
    ensures ValidatePurple(Detection(PlateOnlyCar(plate), city, dateTime)).None?
  {
  }
}
