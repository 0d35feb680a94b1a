/** The ticket table's queries. Paths such as `t.trip.departureAt` and
    `t.fromStop.order` are inner joins: a ticket whose trip or stop row is missing
    is not selected. */
module TicketRepository {
  import opened Tables
  import opened Domain

  predicate SoldOnSeat(t: Ticket, tripId: TripId, seatNumber: string) {
    t.tripId == tripId && t.seatNumber == seatNumber && t.status == Sold
  }

  /** The ticket's segment `[fromStop.order, toStop.order)` contains stop position `k`. */
  predicate CoversStop(stops: seq<Stop>, t: Ticket, k: int) {
    match (StopById(stops, t.fromStopId), StopById(stops, t.toStopId))
    case (Some(a), Some(b)) => a.order <= k < b.order
    case _ => false
  }

  /** The ticket's trip departs strictly before `dateTime`. */
  predicate TripDepartedBefore(trips: seq<Trip>, t: Ticket, dateTime: Time) {
    match TripById(trips, t.tripId)
    case Some(trip) => trip.departureAt < dateTime
    case None => false
  }

  function FindByTripIdAndStatus(tickets: seq<Ticket>, tripId: TripId, status: TicketStatus): (r: seq<Ticket>)
    ensures forall t :: t in r <==> t in tickets && t.tripId == tripId && t.status == status
  {
    Filter(tickets, (t: Ticket) => t.tripId == tripId && t.status == status)
  }

  function FindByPassengerId(tickets: seq<Ticket>, passengerId: UserId): (r: seq<Ticket>)
    ensures forall t :: t in r <==> t in tickets && t.passengerId == passengerId
  {
    Filter(tickets, (t: Ticket) => t.passengerId == passengerId)
  }

  function FindByPassengerIdAndStatus(tickets: seq<Ticket>, passengerId: UserId, status: TicketStatus): (r: seq<Ticket>)
    ensures forall t :: t in r <==> t in tickets && t.passengerId == passengerId && t.status == status
  {
    Filter(tickets, (t: Ticket) => t.passengerId == passengerId && t.status == status)
  }

  /** Declared `Optional<Ticket>`: more than one SOLD ticket on the seat is reported as `NonUnique`. */
  function FindSoldTicketBySeat(tickets: seq<Ticket>, tripId: TripId, seatNumber: string): (r: Single<Ticket>)
    ensures r.NoRow? <==> forall t :: t in tickets ==> !SoldOnSeat(t, tripId, seatNumber)
    ensures r.OneRow? ==> r.row in tickets && SoldOnSeat(r.row, tripId, seatNumber)
    ensures r.OneRow? ==> forall t :: t in tickets && SoldOnSeat(t, tripId, seatNumber) ==> t == r.row
    ensures r.NonUnique? <==> Count(tickets, (t: Ticket) => SoldOnSeat(t, tripId, seatNumber)) > 1
  {
    var p := (t: Ticket) => SoldOnSeat(t, tripId, seatNumber);
    var rows := Filter(tickets, p);
    CountIsFilterLength(tickets, p);
    assert forall t :: t in rows <==> t in tickets && SoldOnSeat(t, tripId, seatNumber);
    SingleResult(rows)
  }

  function CountSoldTicketsByTrip(tickets: seq<Ticket>, tripId: TripId): (n: nat)
    ensures n <= |tickets|
    ensures n == 0 <==> forall t :: t in tickets ==> !(t.tripId == tripId && t.status == Sold)
  {
    Count(tickets, (t: Ticket) => t.tripId == tripId && t.status == Sold)
  }

  /** SOLD tickets of the trip whose half-open segment contains stop position `stopOrder`. */
  function FindActiveTicketsForStop(tickets: seq<Ticket>, stops: seq<Stop>, tripId: TripId, stopOrder: int): (r: seq<Ticket>)
    ensures forall t :: t in r <==>
      t in tickets && t.tripId == tripId && t.status == Sold && CoversStop(stops, t, stopOrder)
  {
    Filter(tickets, (t: Ticket) => t.tripId == tripId && t.status == Sold && CoversStop(stops, t, stopOrder))
  }

  function FindTicketsForDepartedTrips(tickets: seq<Ticket>, trips: seq<Trip>, dateTime: Time): (r: seq<Ticket>)
    ensures forall t :: t in r <==> t in tickets && t.status == Sold && TripDepartedBefore(trips, t, dateTime)
  {
    Filter(tickets, (t: Ticket) => TripDepartedBefore(trips, t, dateTime) && t.status == Sold)
  }

  /** Tickets on the seat with status SOLD or RESERVED; never CANCELLED, NO_SHOW or USED ones. */
  function FindByTripIdAndSeatNumber(tickets: seq<Ticket>, tripId: TripId, seatNumber: string): (r: seq<Ticket>)
    ensures forall t :: t in r <==>
      t in tickets && t.tripId == tripId && t.seatNumber == seatNumber && t.status in {Sold, Reserved}
    ensures forall t :: t in r ==> t.status !in {TicketStatus.Cancelled, NoShow, Used}
  {
    Filter(tickets, (t: Ticket) => t.tripId == tripId && t.seatNumber == seatNumber && (t.status == Sold || t.status == Reserved))
  }

  /** The COUNT query agrees with the length of the list query for SOLD tickets. */
  lemma CountSoldIsLengthOfSoldList(tickets: seq<Ticket>, tripId: TripId)
    ensures CountSoldTicketsByTrip(tickets, tripId) == |FindByTripIdAndStatus(tickets, tripId, Sold)|
  {
    CountIsFilterLength(tickets, (t: Ticket) => t.tripId == tripId && t.status == Sold);
  }

  /** `findByPassengerIdAndStatus` is `findByPassengerId` narrowed to one status, rows and order alike. */
  lemma StatusNarrowsPassengerTickets(tickets: seq<Ticket>, passengerId: UserId, status: TicketStatus)
    ensures FindByPassengerIdAndStatus(tickets, passengerId, status)
         == Filter(FindByPassengerId(tickets, passengerId), (t: Ticket) => t.status == status)
  {
    FilterConjunction(tickets,
      (t: Ticket) => t.passengerId == passengerId,
      (t: Ticket) => t.status == status,
      (t: Ticket) => t.passengerId == passengerId && t.status == status);
  }

  /** Occupancy at any stop never exceeds the trip's SOLD count. */
  lemma OccupancyAtStopWithinSold(tickets: seq<Ticket>, stops: seq<Stop>, tripId: TripId, stopOrder: int)
    ensures |FindActiveTicketsForStop(tickets, stops, tripId, stopOrder)| <= CountSoldTicketsByTrip(tickets, tripId)
  {
    var onBoard := (t: Ticket) => t.tripId == tripId && t.status == Sold && CoversStop(stops, t, stopOrder);
    CountIsFilterLength(tickets, onBoard);
    CountMonotone(tickets, onBoard, (t: Ticket) => t.tripId == tripId && t.status == Sold);
  }

  /** Segments are half-open: a ticket is on board from its boarding stop up to, but not
      including, its alighting stop. */
  lemma SegmentIsHalfOpen(tickets: seq<Ticket>, stops: seq<Stop>, t: Ticket, a: Stop, b: Stop)
    requires t in tickets && t.status == Sold
    requires StopById(stops, t.fromStopId) == Some(a) && StopById(stops, t.toStopId) == Some(b)
    requires a.order < b.order
    ensures t in FindActiveTicketsForStop(tickets, stops, t.tripId, a.order)
    ensures t in FindActiveTicketsForStop(tickets, stops, t.tripId, b.order - 1)
    ensures t !in FindActiveTicketsForStop(tickets, stops, t.tripId, b.order)
    ensures t !in FindActiveTicketsForStop(tickets, stops, t.tripId, a.order - 1)
  {
  }

  /** A later cut-off never drops a ticket from `findTicketsForDepartedTrips`. */
  lemma DepartedTicketsGrowWithCutoff(tickets: seq<Ticket>, trips: seq<Trip>, t1: Time, t2: Time)
    requires t1 <= t2
    ensures forall t :: t in FindTicketsForDepartedTrips(tickets, trips, t1) ==>
                        t in FindTicketsForDepartedTrips(tickets, trips, t2)
  {
  }
}
