/** The parts of the RDW `Car` record that the traffic code reads. A type,
    fuel or emission category that a car was not registered with is `None`,
    as it is null for a car made from a licence plate alone. Only the enum
    values the code tests for are told apart. */
module Cars {
  import opened Wrappers

  datatype CarType = Truck | Coach | OtherCarType

  datatype FuelType = Diesel | OtherFuelType

  datatype Car = Car(licensePlate: string, carType: Option<CarType>, fuelType: Option<FuelType>, emissionCategory: int)

  /** `new Car(licensePlate)`: nothing is known about the car but its plate. */
  function PlateOnlyCar(licensePlate: string): (c: Car)
    ensures c.licensePlate == licensePlate && c.carType.None? && c.fuelType.None?
  {
    Car(licensePlate, None, None, 0)
  }

  /** `Car.equals`: two cars are the same car when their plates are equal, as
      the cars list, which is ordered and searched by plate, assumes. */
  predicate SameCar(a: Car, b: Car) {
    a.licensePlate == b.licensePlate
  }
}
