/** Ticket issuance, pricing and the guarded status transitions of stored tickets. */
module TicketServiceImpl {
  import opened Tables
  import opened Domain
  import opened TicketRepository
  import SeatHoldRepository

  datatype TicketError =
    | TripNotFound
    | PassengerNotFound
    | FromStopNotFound
    | ToStopNotFound
    | InvalidStopSequence
    | SegmentUnavailable
    | TicketNotFound
    | AlreadyCancelled
    | CannotCancel
    | InvalidStatus
    | NonUniqueResult

  datatype TicketRequest = TicketRequest(
    tripId: TripId,
    passengerId: UserId,
    fromStopId: StopId,
    toStopId: StopId,
    seatNumber: string)

  /** The tables `createTicket` reads but does not change. */
  datatype Catalog = Catalog(trips: seq<Trip>, users: seq<User>, stops: seq<Stop>, fares: seq<FareRule>)

  /** The services the ticket service calls whose implementations are not part of this model.
      `validateSegment` answers whether the segment may be sold (it throws otherwise). */
  datatype Collaborators = Collaborators(
    validateSegment: (TripId, string, int, int) -> bool,
    passengerType: int -> PassengerType,
    calculateDiscount: (PassengerType, Money) -> Money,
    canCancelTicket: Ticket -> bool,
    calculateRefundAmount: (Ticket, Time) -> Money,
    determineCancellationPolicy: Ticket -> CancellationPolicy)

  /** The base fare used when no fare rule covers the segment. */
  const DefaultBasePrice: Money := 50000.0

  predicate CoversSegment(rule: FareRule, routeId: RouteId, fromStopId: StopId, toStopId: StopId) {
    rule.routeId == routeId && rule.fromStopId == fromStopId && rule.toStopId == toStopId
  }

  /** `findFareForSegment`, declared `Optional<FareRule>`: more than one matching row is reported as `NonUnique`. */
  function FindFareForSegment(fares: seq<FareRule>, routeId: RouteId, fromStopId: StopId, toStopId: StopId): (r: Single<FareRule>)
    ensures r.NoRow? <==> forall rule :: rule in fares ==> !CoversSegment(rule, routeId, fromStopId, toStopId)
    ensures r.OneRow? ==> r.row in fares && CoversSegment(r.row, routeId, fromStopId, toStopId)
    ensures r.NonUnique? <==> Count(fares, (rule: FareRule) => CoversSegment(rule, routeId, fromStopId, toStopId)) > 1
  {
    var p := (rule: FareRule) => CoversSegment(rule, routeId, fromStopId, toStopId);
    var rows := Filter(fares, p);
    CountIsFilterLength(fares, p);
    assert forall rule :: rule in rows <==> rule in fares && CoversSegment(rule, routeId, fromStopId, toStopId);
    SingleResult(rows)
  }

  /** The segment's base price: the one fare rule's, the default when there is none, and an
      error when several rows match. */
  function CalculateFare(fares: seq<FareRule>, routeId: RouteId, fromStopId: StopId, toStopId: StopId): (r: Result<Money, TicketError>)
    ensures r.Failure? <==> Count(fares, (rule: FareRule) => CoversSegment(rule, routeId, fromStopId, toStopId)) > 1
    ensures r.Failure? ==> r.error == NonUniqueResult
    ensures (forall rule :: rule in fares ==> !CoversSegment(rule, routeId, fromStopId, toStopId))
            ==> r == Success(DefaultBasePrice)
    ensures r.Success? && (exists rule :: rule in fares && CoversSegment(rule, routeId, fromStopId, toStopId))
            ==> exists rule :: rule in fares && CoversSegment(rule, routeId, fromStopId, toStopId) && rule.basePrice == r.value
  {
    match FindFareForSegment(fares, routeId, fromStopId, toStopId)
    case NoRow => Success(DefaultBasePrice)
    case OneRow(rule) => Success(rule.basePrice)
    case NonUnique => Failure(NonUniqueResult)
  }

  /** `basePrice.subtract(discount).max(ZERO)`. */
  function FinalPrice(basePrice: Money, discount: Money): (price: Money)
    ensures price >= 0.0 && price >= basePrice - discount
    ensures price == 0.0 || price == basePrice - discount
  {
    if basePrice - discount > 0.0 then basePrice - discount else 0.0
  }

  /** The ticket `createTicket` saves under primary key `id`, or the error it throws. */
  function NewTicket(cat: Catalog, col: Collaborators, req: TicketRequest, id: TicketId, now: Time): (r: Result<Ticket, TicketError>)
    ensures r.Success? ==> r.value.id == id && r.value.status == Sold && r.value.createdAt == now
    ensures r.Success? ==> r.value.price >= 0.0 && r.value.price >= FareOf(cat, req) - r.value.discountAmount
    ensures r.Success? ==> (r.value.tripId == req.tripId && r.value.passengerId == req.passengerId
                            && r.value.fromStopId == req.fromStopId && r.value.toStopId == req.toStopId
                            && r.value.seatNumber == req.seatNumber)
    ensures r.Success? ==> r.value.cancelledAt.None? && r.value.refundAmount.None? && r.value.cancellationPolicy.None?
  {
    match TripById(cat.trips, req.tripId)
    case None => Failure(TripNotFound)
    case Some(trip) =>
      match UserById(cat.users, req.passengerId)
      case None => Failure(PassengerNotFound)
      case Some(passenger) =>
        match StopById(cat.stops, req.fromStopId)
        case None => Failure(FromStopNotFound)
        case Some(fromStop) =>
          match StopById(cat.stops, req.toStopId)
          case None => Failure(ToStopNotFound)
          case Some(toStop) =>
            if fromStop.order >= toStop.order then Failure(InvalidStopSequence)
            else if !col.validateSegment(trip.id, req.seatNumber, fromStop.order, toStop.order) then Failure(SegmentUnavailable)
            else
              match CalculateFare(cat.fares, trip.routeId, req.fromStopId, req.toStopId)
              case Failure(e) => Failure(e)
              case Success(basePrice) =>
                var discount := col.calculateDiscount(col.passengerType(passenger.age), basePrice);
                Success(Ticket(id, trip.id, passenger.id, fromStop.id, toStop.id, req.seatNumber,
                               FinalPrice(basePrice, discount), discount, Sold, now, None, None, None))
  }

  /** The base fare of the request's segment on its trip's route (the default when the trip is unknown). */
  function FareOf(cat: Catalog, req: TicketRequest): Money {
    match TripById(cat.trips, req.tripId)
    case None => DefaultBasePrice
    case Some(trip) =>
      match CalculateFare(cat.fares, trip.routeId, req.fromStopId, req.toStopId)
      case Success(p) => p
      case Failure(_) => DefaultBasePrice
  }

  /** `cancelTicket` on a stored ticket: refused when already CANCELLED or when the
      cancellation service says no; otherwise CANCELLED with the time, refund and policy recorded. */
  function Cancel(col: Collaborators, t: Ticket, now: Time): (r: Result<Ticket, TicketError>)
    ensures r.Success? <==> t.status != TicketStatus.Cancelled && col.canCancelTicket(t)
    ensures t.status == TicketStatus.Cancelled ==> r == Failure(AlreadyCancelled)
    ensures t.status != TicketStatus.Cancelled && !col.canCancelTicket(t) ==> r == Failure(CannotCancel)
    ensures r.Success? ==> (r.value.status == TicketStatus.Cancelled && r.value.cancelledAt == Some(now)
                            && r.value.refundAmount == Some(col.calculateRefundAmount(t, now))
                            && r.value.cancellationPolicy == Some(col.determineCancellationPolicy(t)))
    ensures r.Success? ==> r.value.(status := t.status, cancelledAt := t.cancelledAt,
                                    refundAmount := t.refundAmount, cancellationPolicy := t.cancellationPolicy) == t
  {
    if t.status == TicketStatus.Cancelled then Failure(AlreadyCancelled)
    else if !col.canCancelTicket(t) then Failure(CannotCancel)
    else Success(t.(status := TicketStatus.Cancelled, cancelledAt := Some(now),
                    refundAmount := Some(col.calculateRefundAmount(t, now)),
                    cancellationPolicy := Some(col.determineCancellationPolicy(t))))
  }

  /** `markAsNoShow` (target NO_SHOW) and `markAsUsed` (target USED): only a SOLD ticket moves. */
  function LeaveSold(t: Ticket, target: TicketStatus): (r: Result<Ticket, TicketError>)
    ensures r.Success? <==> t.status == Sold
    ensures r.Success? ==> r.value == t.(status := target)
    ensures r.Failure? ==> r.error == InvalidStatus
  {
    if t.status != Sold then Failure(InvalidStatus) else Success(t.(status := target))
  }

  /** `findById` on the ticket table: the position of the ticket with that id. */
  function TicketIndex(tickets: seq<Ticket>, id: TicketId): (r: Option<nat>)
    ensures r.Some? ==> r.value < |tickets| && tickets[r.value].id == id
    ensures r.None? <==> forall t :: t in tickets ==> t.id != id
  {
    IndexWhere(tickets, (t: Ticket) => t.id == id)
  }

  /** Primary keys are unique and below the next key to be issued. */
  ghost predicate KeysValid(tickets: seq<Ticket>, nextId: TicketId) {
    && (forall i, j :: 0 <= i < j < |tickets| ==> tickets[i].id != tickets[j].id)
    && (forall t :: t in tickets ==> t.id < nextId)
  }

  /** Removing a row keeps the keys unique and below the counter. */
  lemma RemoveKeepsKeys(tickets: seq<Ticket>, nextId: TicketId, i: nat)
    requires KeysValid(tickets, nextId) && i < |tickets|
    ensures KeysValid(tickets[..i] + tickets[i + 1..], nextId)
  {
    var after := tickets[..i] + tickets[i + 1..];
    forall k | 0 <= k < |after|
      ensures after[k] == tickets[if k < i then k else k + 1]
    {
    }
    assert forall t :: t in after ==> t in tickets;
  }

  class TicketService {
    var tickets: seq<Ticket>
    var nextId: TicketId

    ghost predicate Valid()
      reads this
    {
      KeysValid(tickets, nextId)
    }

    constructor ()
      ensures Valid() && tickets == []
    {
      tickets := [];
      nextId := 0;
    }

    /** Looks up the trip, passenger and both stops, checks the stop order and the segment,
        prices the ticket and saves it as SOLD; on any failure nothing is saved. */
    method CreateTicket(cat: Catalog, col: Collaborators, req: TicketRequest, now: Time) returns (r: Result<Ticket, TicketError>)
      requires Valid()
      modifies this
      ensures Valid()
      ensures r == NewTicket(cat, col, req, old(nextId), now)
      ensures r.Success? ==> tickets == old(tickets) + [r.value] && nextId == old(nextId) + 1
      ensures r.Failure? ==> tickets == old(tickets) && nextId == old(nextId)
    {
      r := NewTicket(cat, col, req, nextId, now);
      if r.Success? {
        tickets := tickets + [r.value];
        nextId := nextId + 1;
      }
    }

    method CancelTicket(col: Collaborators, id: TicketId, now: Time) returns (r: Result<Ticket, TicketError>)
      requires Valid()
      modifies this
      ensures Valid() && nextId == old(nextId)
      ensures TicketIndex(old(tickets), id).None? ==> r == Failure(TicketNotFound) && tickets == old(tickets)
      ensures TicketIndex(old(tickets), id).Some? ==>
        var i := TicketIndex(old(tickets), id).value;
        r == Cancel(col, old(tickets)[i], now)
        && tickets == if r.Success? then old(tickets)[i := r.value] else old(tickets)
    {
      match TicketIndex(tickets, id)
      case None =>
        r := Failure(TicketNotFound);
      case Some(i) =>
        r := Cancel(col, tickets[i], now);
        if r.Success? {
          tickets := tickets[i := r.value];
        }
    }

    method MarkAsNoShow(id: TicketId) returns (r: Result<Ticket, TicketError>)
      requires Valid()
      modifies this
      ensures Valid() && nextId == old(nextId)
      ensures TicketIndex(old(tickets), id).None? ==> r == Failure(TicketNotFound) && tickets == old(tickets)
      ensures TicketIndex(old(tickets), id).Some? ==>
        var i := TicketIndex(old(tickets), id).value;
        r == LeaveSold(old(tickets)[i], NoShow)
        && tickets == if r.Success? then old(tickets)[i := r.value] else old(tickets)
    {
      r := Transition(id, NoShow);
    }

    method MarkAsUsed(id: TicketId) returns (r: Result<Ticket, TicketError>)
      requires Valid()
      modifies this
      ensures Valid() && nextId == old(nextId)
      ensures TicketIndex(old(tickets), id).None? ==> r == Failure(TicketNotFound) && tickets == old(tickets)
      ensures TicketIndex(old(tickets), id).Some? ==>
        var i := TicketIndex(old(tickets), id).value;
        r == LeaveSold(old(tickets)[i], Used)
        && tickets == if r.Success? then old(tickets)[i := r.value] else old(tickets)
    {
      r := Transition(id, Used);
    }

    /** The shared body of `markAsNoShow` and `markAsUsed`. */
    method Transition(id: TicketId, target: TicketStatus) returns (r: Result<Ticket, TicketError>)
      requires Valid()
      modifies this
      ensures Valid() && nextId == old(nextId)
      ensures TicketIndex(old(tickets), id).None? ==> r == Failure(TicketNotFound) && tickets == old(tickets)
      ensures TicketIndex(old(tickets), id).Some? ==>
        var i := TicketIndex(old(tickets), id).value;
        r == LeaveSold(old(tickets)[i], target)
        && tickets == if r.Success? then old(tickets)[i := r.value] else old(tickets)
    {
      match TicketIndex(tickets, id)
      case None =>
        r := Failure(TicketNotFound);
      case Some(i) =>
        r := LeaveSold(tickets[i], target);
        if r.Success? {
          tickets := tickets[i := r.value];
        }
    }

    method DeleteTicket(id: TicketId) returns (r: Outcome<TicketError>)
      requires Valid()
      modifies this
      ensures Valid() && nextId == old(nextId)
      ensures TicketIndex(old(tickets), id).None? ==> r == Fail(TicketNotFound) && tickets == old(tickets)
      ensures TicketIndex(old(tickets), id).Some? ==>
        var i := TicketIndex(old(tickets), id).value;
        r == Pass && tickets == old(tickets)[..i] + old(tickets)[i + 1..]
    {
      match TicketIndex(tickets, id)
      case None =>
        r := Fail(TicketNotFound);
      case Some(i) =>
        var after := tickets[..i] + tickets[i + 1..];
        RemoveKeepsKeys(tickets, nextId, i);
        tickets := after;
        r := Pass;
    }
  }

  /** `isSeatAvailable` as written: `findSoldTicketBySeat` is a single-result query, so a
      seat holding two or more SOLD tickets makes the check throw. */
  function IsSeatAvailableAsWritten(tickets: seq<Ticket>, holds: seq<SeatHold>, tripId: TripId, seatNumber: string): (r: Result<bool, TicketError>)
    ensures r.Failure? <==> Count(tickets, (t: Ticket) => SoldOnSeat(t, tripId, seatNumber)) > 1
    ensures r.Success? ==> r.value == IsSeatAvailable(tickets, holds, tripId, seatNumber)
  {
    match FindSoldTicketBySeat(tickets, tripId, seatNumber)
    case NonUnique => Failure(NonUniqueResult)
    case found => Success(found.NoRow? && !SeatHoldRepository.ExistsByTripIdAndSeatNumberAndStatus(holds, tripId, seatNumber, Hold))
  }

  /** The seat check as intended: no SOLD ticket and no HOLD hold on the (trip, seat), whatever the segments. */
  function IsSeatAvailable(tickets: seq<Ticket>, holds: seq<SeatHold>, tripId: TripId, seatNumber: string): (b: bool)
    ensures b <==> ((forall t :: t in tickets ==> !(t.tripId == tripId && t.seatNumber == seatNumber && t.status == Sold))
                    && (forall h :: h in holds ==> !(h.tripId == tripId && h.seatNumber == seatNumber && h.status == Hold)))
  {
    && !(exists t :: t in tickets && SoldOnSeat(t, tripId, seatNumber))
    && !SeatHoldRepository.ExistsByTripIdAndSeatNumberAndStatus(holds, tripId, seatNumber, Hold)
  }

  /** `countSoldTicketsByTrip` delegates to the repository's COUNT query. */
  function CountSoldByTrip(tickets: seq<Ticket>, tripId: TripId): (n: nat)
    ensures n == |FindByTripIdAndStatus(tickets, tripId, Sold)|
  {
    CountSoldIsLengthOfSoldList(tickets, tripId);
    CountSoldTicketsByTrip(tickets, tripId)
  }

  function GetTicketById(tickets: seq<Ticket>, id: TicketId): (r: Result<Ticket, TicketError>)
    ensures r.Failure? <==> forall t :: t in tickets ==> t.id != id
    ensures r.Failure? ==> r.error == TicketNotFound
    ensures r.Success? ==> r.value in tickets && r.value.id == id
  {
    match TicketIndex(tickets, id)
    case None => Failure(TicketNotFound)
    case Some(i) => Success(tickets[i])
  }

  /** `getTicketsByTripAndStatus`: the trip must exist; then its tickets with that status. */
  function GetTicketsByTripAndStatus(trips: seq<Trip>, tickets: seq<Ticket>, tripId: TripId, status: TicketStatus): (r: Result<seq<Ticket>, TicketError>)
    ensures r.Failure? <==> forall t :: t in trips ==> t.id != tripId
    ensures r.Failure? ==> r.error == TripNotFound
    ensures r.Success? ==> forall t :: t in r.value <==> t in tickets && t.tripId == tripId && t.status == status
  {
    if TripById(trips, tripId).None? then Failure(TripNotFound)
    else Success(FindByTripIdAndStatus(tickets, tripId, status))
  }

  /** `getTicketsByTripId` lists only the trip's SOLD tickets. */
  function GetTicketsByTripId(trips: seq<Trip>, tickets: seq<Ticket>, tripId: TripId): (r: Result<seq<Ticket>, TicketError>)
    ensures r == GetTicketsByTripAndStatus(trips, tickets, tripId, Sold)
    ensures r.Success? ==> forall t :: t in r.value ==> t.status == Sold
  {
    if TripById(trips, tripId).None? then Failure(TripNotFound)
    else Success(FindByTripIdAndStatus(tickets, tripId, Sold))
  }

  function GetTicketsByPassengerId(users: seq<User>, tickets: seq<Ticket>, passengerId: UserId): (r: Result<seq<Ticket>, TicketError>)
    ensures r.Failure? <==> forall u :: u in users ==> u.id != passengerId
    ensures r.Failure? ==> r.error == PassengerNotFound
    ensures r.Success? ==> forall t :: t in r.value <==> t in tickets && t.passengerId == passengerId
  {
    if UserById(users, passengerId).None? then Failure(PassengerNotFound)
    else Success(FindByPassengerId(tickets, passengerId))
  }

  /** `createTicket` checks, in this order: trip, passenger, boarding stop, alighting stop,
      then the stop order; the first failing check decides the error. */
  lemma CreateTicketErrorOrder(cat: Catalog, col: Collaborators, req: TicketRequest, id: TicketId, now: Time)
    ensures TripById(cat.trips, req.tripId).None? ==> NewTicket(cat, col, req, id, now) == Failure(TripNotFound)
    ensures TripById(cat.trips, req.tripId).Some? && UserById(cat.users, req.passengerId).None?
            ==> NewTicket(cat, col, req, id, now) == Failure(PassengerNotFound)
    ensures TripById(cat.trips, req.tripId).Some? && UserById(cat.users, req.passengerId).Some?
            && StopById(cat.stops, req.fromStopId).None?
            ==> NewTicket(cat, col, req, id, now) == Failure(FromStopNotFound)
    ensures TripById(cat.trips, req.tripId).Some? && UserById(cat.users, req.passengerId).Some?
            && StopById(cat.stops, req.fromStopId).Some? && StopById(cat.stops, req.toStopId).None?
            ==> NewTicket(cat, col, req, id, now) == Failure(ToStopNotFound)
    ensures TripById(cat.trips, req.tripId).Some? && UserById(cat.users, req.passengerId).Some?
            && StopById(cat.stops, req.fromStopId).Some? && StopById(cat.stops, req.toStopId).Some?
            && StopById(cat.stops, req.fromStopId).value.order >= StopById(cat.stops, req.toStopId).value.order
            ==> NewTicket(cat, col, req, id, now) == Failure(InvalidStopSequence)
  {
  }

  /** A ticket is issued exactly when every row exists, the boarding stop comes before the
      alighting stop, the segment service accepts, and at most one fare rule matches. */
  lemma CreateTicketSucceedsIff(cat: Catalog, col: Collaborators, req: TicketRequest, id: TicketId, now: Time)
    ensures NewTicket(cat, col, req, id, now).Success? <==>
      && TripById(cat.trips, req.tripId).Some?
      && UserById(cat.users, req.passengerId).Some?
      && StopById(cat.stops, req.fromStopId).Some?
      && StopById(cat.stops, req.toStopId).Some?
      && StopById(cat.stops, req.fromStopId).value.order < StopById(cat.stops, req.toStopId).value.order
      && col.validateSegment(req.tripId, req.seatNumber,
                             StopById(cat.stops, req.fromStopId).value.order, StopById(cat.stops, req.toStopId).value.order)
      && Count(cat.fares, (rule: FareRule) => CoversSegment(rule, TripById(cat.trips, req.tripId).value.routeId,
                                                            req.fromStopId, req.toStopId)) <= 1
  {
  }

  /** A backwards or empty segment is refused before the segment service is consulted:
      the outcome is the same whatever that service would answer. */
  lemma StopOrderCheckedBeforeSegment(cat: Catalog, col: Collaborators, req: TicketRequest, id: TicketId, now: Time,
                                      validator: (TripId, string, int, int) -> bool)
    requires StopById(cat.stops, req.fromStopId).Some? && StopById(cat.stops, req.toStopId).Some?
    requires StopById(cat.stops, req.fromStopId).value.order >= StopById(cat.stops, req.toStopId).value.order
    ensures NewTicket(cat, col.(validateSegment := validator), req, id, now) == NewTicket(cat, col, req, id, now)
    ensures NewTicket(cat, col, req, id, now).Failure?
  {
  }

  /** The issued price is the base fare less the discount, floored at zero, and the discount
      recorded on the ticket is the one the discount service gave for the passenger's type. */
  lemma IssuedPriceIsDiscountedFare(cat: Catalog, col: Collaborators, req: TicketRequest, id: TicketId, now: Time)
    requires NewTicket(cat, col, req, id, now).Success?
    ensures var t := NewTicket(cat, col, req, id, now).value;
            var base := FareOf(cat, req);
            && t.discountAmount == col.calculateDiscount(col.passengerType(UserById(cat.users, req.passengerId).value.age), base)
            && t.price >= 0.0
            && (t.price == base - t.discountAmount || (t.price == 0.0 && t.discountAmount >= base))
  {
  }

  /** Saving a SOLD ticket raises its trip's sold count by one and leaves every other trip's alone. */
  lemma SoldCountRisesOnCreate(tickets: seq<Ticket>, t: Ticket, tripId: TripId)
    requires t.status == Sold
    ensures CountSoldByTrip(tickets + [t], tripId) == CountSoldByTrip(tickets, tripId) + (if t.tripId == tripId then 1 else 0)
  {
    CountAppend(tickets, [t], (t: Ticket) => t.tripId == tripId && t.status == Sold);
    CountSoldIsLengthOfSoldList(tickets + [t], tripId);
    CountSoldIsLengthOfSoldList(tickets, tripId);
  }

  /** Cancelling a SOLD ticket releases exactly one sale on its trip. */
  lemma CancelReleasesOneSale(col: Collaborators, tickets: seq<Ticket>, i: nat, now: Time)
    requires i < |tickets| && tickets[i].status == Sold
    requires Cancel(col, tickets[i], now).Success?
    ensures CountSoldByTrip(tickets[i := Cancel(col, tickets[i], now).value], tickets[i].tripId)
         == CountSoldByTrip(tickets, tickets[i].tripId) - 1
  {
    var tripId := tickets[i].tripId;
    var after := tickets[i := Cancel(col, tickets[i], now).value];
    CountUpdate(tickets, i, Cancel(col, tickets[i], now).value, (t: Ticket) => t.tripId == tripId && t.status == Sold);
    CountSoldIsLengthOfSoldList(after, tripId);
    CountSoldIsLengthOfSoldList(tickets, tripId);
  }

  /** Deleting a SOLD ticket lowers its trip's sold count by one. */
  lemma DeleteReleasesOneSale(tickets: seq<Ticket>, i: nat)
    requires i < |tickets| && tickets[i].status == Sold
    ensures CountSoldByTrip(tickets[..i] + tickets[i + 1..], tickets[i].tripId) == CountSoldByTrip(tickets, tickets[i].tripId) - 1
  {
    var tripId := tickets[i].tripId;
    CountRemove(tickets, i, (t: Ticket) => t.tripId == tripId && t.status == Sold);
    CountSoldIsLengthOfSoldList(tickets[..i] + tickets[i + 1..], tripId);
    CountSoldIsLengthOfSoldList(tickets, tripId);
  }

  /** A cancelled ticket can be neither cancelled again nor marked NO_SHOW or USED. */
  lemma CancelledIsFinal(col: Collaborators, t: Ticket, now: Time, later: Time, target: TicketStatus)
    requires Cancel(col, t, now).Success?
    ensures Cancel(col, Cancel(col, t, now).value, later) == Failure(AlreadyCancelled)
    ensures LeaveSold(Cancel(col, t, now).value, target) == Failure(InvalidStatus)
  {
  }

  /** After NO_SHOW or USED the ticket can no longer be marked; cancelling it is still
      left to the cancellation service, since only CANCELLED is refused up front. */
  lemma LeavingSoldIsOneWay(col: Collaborators, t: Ticket, target: TicketStatus, next: TicketStatus, now: Time)
    requires target != Sold && LeaveSold(t, target).Success?
    ensures LeaveSold(LeaveSold(t, target).value, next) == Failure(InvalidStatus)
    ensures target != TicketStatus.Cancelled ==>
              (Cancel(col, LeaveSold(t, target).value, now).Success? <==> col.canCancelTicket(t.(status := target)))
  {
  }

  /** Cancelling the only SOLD ticket on a seat that has no HOLD hold makes the seat available
      again. The check takes no segment, so with any other SOLD ticket left on the seat the
      answer stays "not available" whatever interval the cancelled ticket covered. */
  lemma CancelFreesSeatOfOnlySale(col: Collaborators, tickets: seq<Ticket>, holds: seq<SeatHold>, i: nat, now: Time)
    requires i < |tickets| && tickets[i].status == Sold
    requires Count(tickets, (t: Ticket) => SoldOnSeat(t, tickets[i].tripId, tickets[i].seatNumber)) == 1
    requires !SeatHoldRepository.ExistsByTripIdAndSeatNumberAndStatus(holds, tickets[i].tripId, tickets[i].seatNumber, Hold)
    requires Cancel(col, tickets[i], now).Success?
    ensures IsSeatAvailableAsWritten(tickets[i := Cancel(col, tickets[i], now).value], holds, tickets[i].tripId, tickets[i].seatNumber)
         == Success(true)
  {
    var t := tickets[i];
    CountUpdate(tickets, i, Cancel(col, t, now).value, (u: Ticket) => SoldOnSeat(u, t.tripId, t.seatNumber));
  }

  /** Two SOLD rows on one (trip, seat) make `isSeatAvailable` as written fail, whatever the holds. */
  lemma TwoSalesBreakSeatCheck(tickets: seq<Ticket>, holds: seq<SeatHold>, i: nat, j: nat, tripId: TripId, seatNumber: string)
    requires i < |tickets| && j < |tickets| && i != j
    requires SoldOnSeat(tickets[i], tripId, seatNumber) && SoldOnSeat(tickets[j], tripId, seatNumber)
    ensures IsSeatAvailableAsWritten(tickets, holds, tripId, seatNumber) == Failure(NonUniqueResult)
  {
    var p := (t: Ticket) => SoldOnSeat(t, tripId, seatNumber);
    var rest := tickets[..i] + tickets[i + 1..];
    CountRemove(tickets, i, p);
    assert tickets[j] in rest by {
      if j < i {
        assert rest[j] == tickets[j];
      } else {
        assert rest[j - 1] == tickets[j];
      }
    }
  }

  /** Any segment service that accepts two back-to-back segments of one seat lets
      `createTicket` sell both, and `isSeatAvailable` as written then fails on that seat
      instead of answering. */
  lemma BackToBackSalesBreakSeatCheck(col: Collaborators)
    requires col.validateSegment(1, "1A", 0, 1) && col.validateSegment(1, "1A", 1, 2)
    ensures var cat := Catalog([Trip(1, 7, 3, 0, 0, Scheduled)], [User(5, 30)],
                               [Stop(10, 7, 0), Stop(11, 7, 1), Stop(12, 7, 2)], []);
            var first := NewTicket(cat, col, TicketRequest(1, 5, 10, 11, "1A"), 0, 0);
            var second := NewTicket(cat, col, TicketRequest(1, 5, 11, 12, "1A"), 1, 0);
            && first.Success? && second.Success?
            && IsSeatAvailableAsWritten([first.value, second.value], [], 1, "1A") == Failure(NonUniqueResult)
  {
    var cat := Catalog([Trip(1, 7, 3, 0, 0, Scheduled)], [User(5, 30)],
                       [Stop(10, 7, 0), Stop(11, 7, 1), Stop(12, 7, 2)], []);
    assert TripById(cat.trips, 1) == Some(Trip(1, 7, 3, 0, 0, Scheduled));
    assert UserById(cat.users, 5) == Some(User(5, 30));
    assert StopById(cat.stops, 10) == Some(Stop(10, 7, 0));
    assert StopById(cat.stops, 11) == Some(Stop(11, 7, 1));
    assert StopById(cat.stops, 12) == Some(Stop(12, 7, 2));
    var first := NewTicket(cat, col, TicketRequest(1, 5, 10, 11, "1A"), 0, 0);
    var second := NewTicket(cat, col, TicketRequest(1, 5, 11, 12, "1A"), 1, 0);
    CreateTicketSucceedsIff(cat, col, TicketRequest(1, 5, 10, 11, "1A"), 0, 0);
    CreateTicketSucceedsIff(cat, col, TicketRequest(1, 5, 11, 12, "1A"), 1, 0);
    TwoSalesBreakSeatCheck([first.value, second.value], [], 0, 1, 1, "1A");
  }
}
