/** The stored entities of the ticket and seat inventory, as rows that carry their
    own primary key and refer to other rows by foreign key. */
module Domain {
  import opened Tables

  type TicketId = nat
  type TripId = nat
  type UserId = nat
  type StopId = nat
  type RouteId = nat
  type BusId = nat
  type SeatId = nat
  type HoldId = nat

  /** A `LocalDateTime`, as a count of time units on one clock. */
  type Time = int
  /** A `LocalDate`, as a day number. */
  type Date = int
  /** A `BigDecimal` amount, compared by value. */
  type Money = real

  datatype TicketStatus = Sold | Reserved | Cancelled | NoShow | Used

  datatype HoldStatus = Hold | Expired | Converted

  datatype TripStatus = Scheduled | Boarding | Departed | Arrived | Cancelled

  datatype SeatType = Standard | Preferential

  /** Constants of enums whose declarations are not part of this model, named by ordinal. */
  datatype PassengerType = PassengerType(ordinal: nat)
  datatype CancellationPolicy = CancellationPolicy(ordinal: nat)

  datatype Trip = Trip(
    id: TripId,
    routeId: RouteId,
    busId: BusId,
    date: Date,
    departureAt: Time,
    status: TripStatus)

  datatype User = User(id: UserId, age: int)

  /** A stop of a route; `order` is its position along the route. */
  datatype Stop = Stop(id: StopId, routeId: RouteId, order: int)

  datatype FareRule = FareRule(routeId: RouteId, fromStopId: StopId, toStopId: StopId, basePrice: Money)

  datatype Ticket = Ticket(
    id: TicketId,
    tripId: TripId,
    passengerId: UserId,
    fromStopId: StopId,
    toStopId: StopId,
    seatNumber: string,
    price: Money,
    discountAmount: Money,
    status: TicketStatus,
    createdAt: Time,
    cancelledAt: Option<Time>,
    refundAmount: Option<Money>,
    cancellationPolicy: Option<CancellationPolicy>)

  datatype SeatHold = SeatHold(
    id: HoldId,
    tripId: TripId,
    seatNumber: string,
    userId: UserId,
    status: HoldStatus,
    createdAt: Time,
    expiresAt: Time)

  datatype Bus = Bus(id: BusId, capacity: int)

  datatype Seat = Seat(id: SeatId, busId: BusId, number: string, seatType: SeatType)

  /** `findById` on each table: the row with that primary key. */
  function TripById(trips: seq<Trip>, id: TripId): (r: Option<Trip>)
    ensures r.Some? ==> r.value in trips && r.value.id == id
    ensures r.None? <==> forall t :: t in trips ==> t.id != id
  {
    FindFirst(trips, (t: Trip) => t.id == id)
  }

  function UserById(users: seq<User>, id: UserId): (r: Option<User>)
    ensures r.Some? ==> r.value in users && r.value.id == id
    ensures r.None? <==> forall u :: u in users ==> u.id != id
  {
    FindFirst(users, (u: User) => u.id == id)
  }

  function StopById(stops: seq<Stop>, id: StopId): (r: Option<Stop>)
    ensures r.Some? ==> r.value in stops && r.value.id == id
    ensures r.None? <==> forall s :: s in stops ==> s.id != id
  {
    FindFirst(stops, (s: Stop) => s.id == id)
  }

  function BusById(buses: seq<Bus>, id: BusId): (r: Option<Bus>)
    ensures r.Some? ==> r.value in buses && r.value.id == id
    ensures r.None? <==> forall b :: b in buses ==> b.id != id
  {
    FindFirst(buses, (b: Bus) => b.id == id)
  }
}
