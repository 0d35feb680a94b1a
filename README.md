# Bus ticketing: ticket sales, seat inventory and baggage fees

A Dafny model of the booking core of a Spring bus-ticketing service. It covers:

- **Ticket sales** (`TicketServiceImpl`). Issuing a SOLD ticket for a segment of a trip
  means looking up the trip, passenger and stops, checking the stop order, asking the
  segment validator, pricing the fare and applying the discount. Issued tickets can then be
  cancelled, marked NO_SHOW or USED, or deleted. The service also checks whether a seat is
  available and counts a trip's sales.
- **Repository queries** for tickets, seat holds and trips. Each query is a filter over a
  table, a COUNT, or a single-result (`Optional`) query. The bulk `expireOldHolds` UPDATE
  runs in place over the hold table.
- **Seat inventory** (`SeatServiceImpl`). Seats are created against a bus's capacity with
  unique numbers per bus. They can be retyped, listed in seat-number order and deleted.
- **Baggage fees** (`BaggageMapper`). Nothing is charged up to 20 kg; each kilogram above
  that costs 2000. The mapper also builds the trip label "origin → destination (date)".

How the model represents the system:

- Tables are sequences of rows. Each row carries its primary key, and `findById` returns the
  first row with that key.
- A single-result query reports `NoRow`, `OneRow` or `NonUnique`. `NonUnique` stands for the
  exception Spring Data throws when such a query matches more than one row.
- Amounts and weights are `real`, standing for `BigDecimal` compared by value. Instants are
  integers on one clock. Dates are day numbers.
- Some services have no visible body: the segment validator, the discount service (passenger
  type and discount) and the cancellation service (may cancel, refund, policy). They appear
  as function-typed fields of `Collaborators`, so every lemma holds for any implementation of
  them.
- The ticket service and the seat service are classes. Their table is a `seq` field, which
  their methods reassign. Each class has a key counter and an invariant `Valid()`:
  - for tickets: unique keys, all below the counter;
  - for seats: unique keys, every seat on a listed bus, no seat number twice on one bus, and
    no bus with seats holding more of them than its capacity. A bus with no seats passes
    whatever its capacity, even a negative one; no seat can then be placed on it.
- Each method is specified by a pure function of the old state (`NewTicket`, `Cancel`,
  `LeaveSold`, `PlaceSeat`, `ExpireAll`), and the lemmas are stated about those functions.

A segment-based ticketing system would be expected to sell each seat per segment of the
trip's route and to refuse a sale beyond the bus's capacity. Where the code does otherwise,
the model follows the code:

- `cancelTicket` refuses only a ticket that is already CANCELLED, then defers to the
  cancellation service (`TicketServiceImpl.java:201-208`). It does not require the ticket to
  be SOLD, so whether a NO_SHOW or USED ticket can be cancelled depends on that service.
- `createTicket` has no capacity or overbooking check. It rejects a segment only through the
  stop-order check and the segment validator.
- `isSeatAvailable` takes no segment. A seat is unavailable while any SOLD ticket or HOLD
  hold is on it, whichever interval that ticket or hold covers.
- Stops are not checked against the trip's route. The fare is looked up by the trip's route
  and the two stop keys.
- `findByBusIdOrderByNumberAsc` sorts in the database's collation, which the model does not
  know. The model uses code-point lexicographic order (`LexLe`) in its place.

## Model

| member | source | states |
|---|---|---|
| `Domain.TripById` | src/main/java/com/bers/services/service/serviceImple/TicketServiceImpl.java:43-44 | `findById` on trips: the returned row has the key; `None` exactly when no row has it |
| `Domain.UserById` | src/main/java/com/bers/services/service/serviceImple/TicketServiceImpl.java:46-47 | `findById` on users: the returned row has the key; `None` exactly when no row has it |
| `Domain.StopById` | src/main/java/com/bers/services/service/serviceImple/TicketServiceImpl.java:49-53 | `findById` on stops: the returned row has the key; `None` exactly when no row has it |
| `Domain.BusById` | src/main/java/com/bers/services/service/serviceImple/SeatServiceImpl.java:29-30 | `findById` on buses: the returned row has the key; `None` exactly when no row has it |
| `TripRepository.FindByRouteIdAndDate` | src/main/java/com/bers/domain/repositories/TripRepository.java:18 | a trip is listed iff it is on that route and date |
| `TripRepository.FindByRouteIdAndDateAndStatus` | src/main/java/com/bers/domain/repositories/TripRepository.java:20 | a trip is listed iff route, date and status all match |
| `TripRepository.FindByDateAndStatus` | src/main/java/com/bers/domain/repositories/TripRepository.java:22 | a trip is listed iff date and status match |
| `TripRepository.FindByDateAndTimeRange` | src/main/java/com/bers/domain/repositories/TripRepository.java:27-33 | date and status match and the departure lies in the range, both bounds included |
| `TripRepository.FindActiveTripsByBusAndDate` | src/main/java/com/bers/domain/repositories/TripRepository.java:35-37 | bus and date match and the status is SCHEDULED, BOARDING or DEPARTED (neither CANCELLED nor ARRIVED) |
| `TripRepository.FindByStatusAndDepartureAtBefore` | src/main/java/com/bers/domain/repositories/TripRepository.java:39 | status matches and the departure is strictly before the cut-off |
| `TripRepository.StatusNarrowsRouteAndDate` | src/main/java/com/bers/domain/repositories/TripRepository.java:18-20 | the status query is the route-and-date query narrowed to one status: same rows, same order |
| `TripRepository.TimeRangeNarrowsDateAndStatus` | src/main/java/com/bers/domain/repositories/TripRepository.java:22-33 | the time-range query is the date-and-status query narrowed to the closed interval |
| `TripRepository.BoundaryDepartures` | src/main/java/com/bers/domain/repositories/TripRepository.java:27-39 | a departure exactly at either range bound is included; one exactly at the cut-off is not "before" it |
| `TripRepository.DepartedBeforeGrowsWithCutoff` | src/main/java/com/bers/domain/repositories/TripRepository.java:39 | a later cut-off never drops a trip |
| `TicketRepository.FindByTripIdAndStatus` | src/main/java/com/bers/domain/repositories/TicketRepository.java:21 | a ticket is listed iff trip and status match |
| `TicketRepository.FindByPassengerIdAndStatus` | src/main/java/com/bers/domain/repositories/TicketRepository.java:23 | a ticket is listed iff passenger and status match |
| `TicketRepository.FindByPassengerId` | src/main/java/com/bers/domain/repositories/TicketRepository.java:25 | a ticket is listed iff the passenger matches |
| `TicketRepository.FindSoldTicketBySeat` | src/main/java/com/bers/domain/repositories/TicketRepository.java:31-34 | no row iff no SOLD ticket on the (trip, seat); one row is such a ticket and the only one; `NonUnique` iff more than one is SOLD there |
| `TicketRepository.CountSoldTicketsByTrip` | src/main/java/com/bers/domain/repositories/TicketRepository.java:36-38 | at most the table size; zero iff the trip has no SOLD ticket |
| `TicketRepository.FindActiveTicketsForStop` | src/main/java/com/bers/domain/repositories/TicketRepository.java:40-44 | SOLD tickets of the trip whose boarding order is at most the stop and whose alighting order is above it; tickets with a missing stop row are dropped by the join |
| `TicketRepository.FindTicketsForDepartedTrips` | src/main/java/com/bers/domain/repositories/TicketRepository.java:46-48 | SOLD tickets whose trip exists and departs strictly before the cut-off |
| `TicketRepository.FindByTripIdAndSeatNumber` | src/main/java/com/bers/domain/repositories/TicketRepository.java:50-58 | tickets on the (trip, seat) that are SOLD or RESERVED; never CANCELLED, NO_SHOW or USED |
| `TicketRepository.CountSoldIsLengthOfSoldList` | src/main/java/com/bers/domain/repositories/TicketRepository.java:21-38 | the COUNT query equals the length of the SOLD list for the trip |
| `TicketRepository.StatusNarrowsPassengerTickets` | src/main/java/com/bers/domain/repositories/TicketRepository.java:23-25 | the passenger-and-status query is the passenger query narrowed to the status, order kept |
| `TicketRepository.OccupancyAtStopWithinSold` | src/main/java/com/bers/domain/repositories/TicketRepository.java:36-44 | the number on board at any stop never exceeds the trip's SOLD count |
| `TicketRepository.SegmentIsHalfOpen` | src/main/java/com/bers/domain/repositories/TicketRepository.java:40-44 | a ticket is on board at its boarding stop and the stop before its alighting stop, not at the alighting stop or before boarding |
| `TicketRepository.DepartedTicketsGrowWithCutoff` | src/main/java/com/bers/domain/repositories/TicketRepository.java:46-48 | a later cut-off never drops a ticket |
| `SeatHoldRepository.FindByTripIdAndSeatNumberAndStatus` | src/main/java/com/bers/domain/repositories/SeatHoldRepository.java:18-19 | no row iff no matching hold; one row matches; `NonUnique` iff more than one matches |
| `SeatHoldRepository.FindByTripIdAndStatus` | src/main/java/com/bers/domain/repositories/SeatHoldRepository.java:21 | a hold is listed iff trip and status match |
| `SeatHoldRepository.FindByUserIdAndStatus` | src/main/java/com/bers/domain/repositories/SeatHoldRepository.java:23 | a hold is listed iff user and status match |
| `SeatHoldRepository.FindExpiredHolds` | src/main/java/com/bers/domain/repositories/SeatHoldRepository.java:25-27 | a hold is listed iff it is HOLD and expires strictly before the given time |
| `SeatHoldRepository.ExistsByTripIdAndSeatNumberAndStatus` | src/main/java/com/bers/domain/repositories/SeatHoldRepository.java:34-35 | true iff some hold matches trip, seat and status |
| `SeatHoldRepository.CountActiveHoldsByTrip` | src/main/java/com/bers/domain/repositories/SeatHoldRepository.java:37-39 | at most the table size; zero iff the trip has no HOLD hold |
| `SeatHoldRepository.ExpireRow` | src/main/java/com/bers/domain/repositories/SeatHoldRepository.java:30-31 | a selected row has only its status set to EXPIRED; any other row is unchanged |
| `SeatHoldRepository.ExpireAll` | src/main/java/com/bers/domain/repositories/SeatHoldRepository.java:29-32 | the table after the UPDATE: same length, and every row rewritten in place by `ExpireRow` |
| `SeatHoldRepository.SeatHoldTable.ExpireOldHolds` | src/main/java/com/bers/domain/repositories/SeatHoldRepository.java:29-32 | the in-place sweep leaves the table equal to `ExpireAll` of the old table and returns the number of rows `findExpiredHolds` selected before it |
| `SeatHoldRepository.ExpireTouchesOnlySelectedRows` | src/main/java/com/bers/domain/repositories/SeatHoldRepository.java:30-31 | a row changes iff the WHERE clause selects it, and on it only the status changes |
| `SeatHoldRepository.ExpireIsIdempotent` | src/main/java/com/bers/domain/repositories/SeatHoldRepository.java:25-32 | a second sweep at the same time changes nothing; afterwards `findExpiredHolds` is empty |
| `SeatHoldRepository.ExpireLowersActiveCount` | src/main/java/com/bers/domain/repositories/SeatHoldRepository.java:29-39 | after the sweep a trip's HOLD count is the old count less its expired holds |
| `SeatHoldRepository.ExpireNeverRaisesActiveCount` | src/main/java/com/bers/domain/repositories/SeatHoldRepository.java:29-39 | the sweep never raises any trip's HOLD count |
| `SeatHoldRepository.ExistsIffFinderFinds` | src/main/java/com/bers/domain/repositories/SeatHoldRepository.java:18-35 | the existence query is true iff the single-result finder does not report "no row" |
| `SeatHoldRepository.CountActiveIsLengthOfHoldList` | src/main/java/com/bers/domain/repositories/SeatHoldRepository.java:21-39 | the COUNT query equals the length of the trip's HOLD list |
| `TicketServiceImpl.FindFareForSegment` | src/main/java/com/bers/services/service/serviceImple/TicketServiceImpl.java:284 | no row iff no fare rule covers (route, from, to); one row covers it; `NonUnique` iff several do |
| `TicketServiceImpl.CalculateFare` | src/main/java/com/bers/services/service/serviceImple/TicketServiceImpl.java:283-287 | with no covering rule the price is the default 50000; otherwise it is a covering rule's base price; it fails iff several rules cover the segment |
| `TicketServiceImpl.FinalPrice` | src/main/java/com/bers/services/service/serviceImple/TicketServiceImpl.java:81 | never negative; equal to base minus discount when that is positive, otherwise zero |
| `TicketServiceImpl.NewTicket` | src/main/java/com/bers/services/service/serviceImple/TicketServiceImpl.java:42-95 | an issued ticket has the given key, status SOLD, the request's trip, passenger, stops and seat, the creation time, a price of at least zero and at least fare minus discount, and no cancellation data |
| `TicketServiceImpl.CreateTicketErrorOrder` | src/main/java/com/bers/services/service/serviceImple/TicketServiceImpl.java:43-61 | the errors come in source order: trip, passenger, boarding stop, alighting stop, then stop sequence |
| `TicketServiceImpl.CreateTicketSucceedsIff` | src/main/java/com/bers/services/service/serviceImple/TicketServiceImpl.java:42-95 | a ticket is issued iff all four rows exist, boarding comes before alighting, the validator accepts, and at most one fare rule matches |
| `TicketServiceImpl.StopOrderCheckedBeforeSegment` | src/main/java/com/bers/services/service/serviceImple/TicketServiceImpl.java:56-68 | a backwards or empty segment fails whatever the segment validator would answer |
| `TicketServiceImpl.IssuedPriceIsDiscountedFare` | src/main/java/com/bers/services/service/serviceImple/TicketServiceImpl.java:71-90 | the recorded discount is the discount service's for the passenger's type and fare; the price is fare minus discount, or zero when the discount covers the fare |
| `TicketServiceImpl.TicketService.CreateTicket` | src/main/java/com/bers/services/service/serviceImple/TicketServiceImpl.java:42-110 | returns `NewTicket` under the next key; on success the ticket is appended and the key counter advances; on failure nothing changes; key uniqueness is kept |
| `TicketServiceImpl.Cancel` | src/main/java/com/bers/services/service/serviceImple/TicketServiceImpl.java:196-218 | succeeds iff the ticket is not CANCELLED and the cancellation service allows it; the two refusals give AlreadyCancelled and CannotCancel; success sets CANCELLED, the time, the refund and the policy, and changes nothing else |
| `TicketServiceImpl.TicketService.CancelTicket` | src/main/java/com/bers/services/service/serviceImple/TicketServiceImpl.java:196-234 | unknown key gives TicketNotFound and no change; otherwise the result is `Cancel` of the stored row, written back in place only on success |
| `TicketServiceImpl.LeaveSold` | src/main/java/com/bers/services/service/serviceImple/TicketServiceImpl.java:241-246 | succeeds iff the ticket is SOLD, and then only the status changes; otherwise InvalidStatus |
| `TicketServiceImpl.TicketService.MarkAsNoShow` | src/main/java/com/bers/services/service/serviceImple/TicketServiceImpl.java:236-248 | unknown key gives TicketNotFound; otherwise `LeaveSold(row, NO_SHOW)`, written back in place only on success |
| `TicketServiceImpl.TicketService.MarkAsUsed` | src/main/java/com/bers/services/service/serviceImple/TicketServiceImpl.java:250-262 | unknown key gives TicketNotFound; otherwise `LeaveSold(row, USED)`, written back in place only on success |
| `TicketServiceImpl.TicketService.DeleteTicket` | src/main/java/com/bers/services/service/serviceImple/TicketServiceImpl.java:187-193 | unknown key gives TicketNotFound and no change; otherwise exactly that row is removed and key uniqueness is kept |
| `TicketServiceImpl.RemoveKeepsKeys` | src/main/java/com/bers/services/service/serviceImple/TicketServiceImpl.java:187-193 | removing one row keeps ticket keys unique and below the counter |
| `TicketServiceImpl.TicketIndex` | src/main/java/com/bers/services/service/serviceImple/TicketServiceImpl.java:124-126 | the position holds a ticket with the key; `None` iff no ticket has it |
| `TicketServiceImpl.GetTicketById` | src/main/java/com/bers/services/service/serviceImple/TicketServiceImpl.java:124-128 | fails with TicketNotFound iff no ticket has the key; otherwise returns a stored ticket with it |
| `TicketServiceImpl.GetTicketsByTripAndStatus` | src/main/java/com/bers/services/service/serviceImple/TicketServiceImpl.java:178-185 | fails with TripNotFound iff the trip is unknown; otherwise lists exactly the trip's tickets with that status |
| `TicketServiceImpl.GetTicketsByTripId` | src/main/java/com/bers/services/service/serviceImple/TicketServiceImpl.java:156-163 | the same as the trip-and-status lookup with status SOLD, so only SOLD tickets are listed |
| `TicketServiceImpl.GetTicketsByPassengerId` | src/main/java/com/bers/services/service/serviceImple/TicketServiceImpl.java:167-174 | fails with PassengerNotFound iff the passenger is unknown; otherwise lists exactly the passenger's tickets |
| `TicketServiceImpl.IsSeatAvailableAsWritten` | src/main/java/com/bers/services/service/serviceImple/TicketServiceImpl.java:264-275 | fails iff more than one SOLD ticket is on the (trip, seat); otherwise agrees with `IsSeatAvailable` |
| `TicketServiceImpl.IsSeatAvailable` | src/main/java/com/bers/services/service/serviceImple/TicketServiceImpl.java:264-275 | available iff no SOLD ticket and no HOLD hold is on the (trip, seat) |
| `TicketServiceImpl.CountSoldByTrip` | src/main/java/com/bers/services/service/serviceImple/TicketServiceImpl.java:277-281 | equals the number of the trip's SOLD tickets as listed by `findByTripIdAndStatus` |
| `TicketServiceImpl.SoldCountRisesOnCreate` | src/main/java/com/bers/services/service/serviceImple/TicketServiceImpl.java:87-95 | saving a SOLD ticket raises its trip's sold count by one and no other trip's |
| `TicketServiceImpl.CancelReleasesOneSale` | src/main/java/com/bers/services/service/serviceImple/TicketServiceImpl.java:210-218 | cancelling a SOLD ticket lowers its trip's sold count by exactly one |
| `TicketServiceImpl.DeleteReleasesOneSale` | src/main/java/com/bers/services/service/serviceImple/TicketServiceImpl.java:187-193 | deleting a SOLD ticket lowers its trip's sold count by exactly one |
| `TicketServiceImpl.CancelledIsFinal` | src/main/java/com/bers/services/service/serviceImple/TicketServiceImpl.java:201-203 | a cancelled ticket cannot be cancelled again (AlreadyCancelled) nor marked NO_SHOW or USED |
| `TicketServiceImpl.LeavingSoldIsOneWay` | src/main/java/com/bers/services/service/serviceImple/TicketServiceImpl.java:236-262 | after NO_SHOW or USED no further marking succeeds; cancelling then depends only on the cancellation service |
| `TicketServiceImpl.CancelFreesSeatOfOnlySale` | src/main/java/com/bers/services/service/serviceImple/TicketServiceImpl.java:196-275 | cancelling the only SOLD ticket on a seat with no HOLD hold makes `isSeatAvailable` answer true |
| `TicketServiceImpl.TwoSalesBreakSeatCheck` | src/main/java/com/bers/services/service/serviceImple/TicketServiceImpl.java:268 | two SOLD rows on one (trip, seat) make `isSeatAvailable` as written fail |
| `TicketServiceImpl.BackToBackSalesBreakSeatCheck` | src/main/java/com/bers/services/service/serviceImple/TicketServiceImpl.java:42-110 | any validator that accepts segments [0,1) and [1,2) of seat 1A lets `createTicket` sell both, after which `isSeatAvailable` as written fails |
| `SeatServiceImpl.LexLeTotal` | src/main/java/com/bers/services/service/serviceImple/SeatServiceImpl.java:87 | any two seat numbers are ordered one way or the other |
| `SeatServiceImpl.LexLeTransitive` | src/main/java/com/bers/services/service/serviceImple/SeatServiceImpl.java:87 | the seat-number order is transitive |
| `SeatServiceImpl.LexLeAntisymmetric` | src/main/java/com/bers/services/service/serviceImple/SeatServiceImpl.java:87 | numbers ordered both ways are equal |
| `SeatServiceImpl.InsertByNumber` | src/main/java/com/bers/services/service/serviceImple/SeatServiceImpl.java:87 | the result holds the old rows plus the new one, as a multiset |
| `SeatServiceImpl.InsertKeepsSorted` | src/main/java/com/bers/services/service/serviceImple/SeatServiceImpl.java:87 | inserting into rows sorted by number keeps them sorted |
| `SeatServiceImpl.SortByNumber` | src/main/java/com/bers/services/service/serviceImple/SeatServiceImpl.java:87 | the result is sorted by seat number and is a permutation of its input |
| `SeatServiceImpl.FindByBusIdAndNumber` | src/main/java/com/bers/services/service/serviceImple/SeatServiceImpl.java:120 | no row iff no seat of the bus has the number; one row does; `NonUnique` iff several do |
| `SeatServiceImpl.CountSeatsByBus` | src/main/java/com/bers/services/service/serviceImple/SeatServiceImpl.java:113-115 | at most the table size; zero iff the bus has no seat |
| `SeatServiceImpl.ValidateSeatNumber` | src/main/java/com/bers/services/service/serviceImple/SeatServiceImpl.java:119-124 | passes iff no seat of the bus has the number; a failure is a duplicate (or a non-unique lookup) |
| `SeatServiceImpl.PlaceSeat` | src/main/java/com/bers/services/service/serviceImple/SeatServiceImpl.java:28-44 | succeeds iff the bus exists, the number is new on it and its seat count is below capacity; the saved seat carries the request's bus, number and type and the given key; an unknown bus gives BusNotFound, a number already on the bus gives a duplicate error before the capacity test, and a new number on a full bus gives CapacityExceeded |
| `SeatServiceImpl.PlaceSeatErrorOrder` | src/main/java/com/bers/services/service/serviceImple/SeatServiceImpl.java:29-37 | on a consistent inventory the checks run bus, number, capacity: unknown bus gives BusNotFound, a number already on the bus gives exactly DuplicateSeatNumber even on a full bus, and a new number on a full bus gives CapacityExceeded |
| `SeatServiceImpl.SeatService.CreateSeat` | src/main/java/com/bers/services/service/serviceImple/SeatServiceImpl.java:28-44 | returns `PlaceSeat` under the next key, appends it on success, changes nothing on failure, and keeps the inventory invariant |
| `SeatServiceImpl.SeatService.UpdateSeat` | src/main/java/com/bers/services/service/serviceImple/SeatServiceImpl.java:47-54 | unknown key gives SeatNotFound; otherwise only the seat's type changes, in place, and the invariant is kept |
| `SeatServiceImpl.SeatService.DeleteSeat` | src/main/java/com/bers/services/service/serviceImple/SeatServiceImpl.java:104-109 | unknown key gives SeatNotFound; otherwise exactly that row is removed and the invariant is kept |
| `SeatServiceImpl.SeatIndex` | src/main/java/com/bers/services/service/serviceImple/SeatServiceImpl.java:59-60 | the position holds a seat with the key; `None` iff no seat has it |
| `SeatServiceImpl.GetSeatById` | src/main/java/com/bers/services/service/serviceImple/SeatServiceImpl.java:58-62 | fails with SeatNotFound iff no seat has the key; otherwise returns a stored seat with it |
| `SeatServiceImpl.GetSeatsByBusId` | src/main/java/com/bers/services/service/serviceImple/SeatServiceImpl.java:83-90 | fails with BusNotFound iff the bus is unknown; otherwise exactly the bus's seats, as a permutation of them, sorted by number |
| `SeatServiceImpl.InventoryHasNoDuplicateNumbers` | src/main/java/com/bers/services/service/serviceImple/SeatServiceImpl.java:119-124 | under the invariant the number lookup never sees two rows |
| `SeatServiceImpl.ListedSeatsWithinCapacity` | src/main/java/com/bers/services/service/serviceImple/SeatServiceImpl.java:83-115 | under the invariant a bus's listing has exactly its count of seats and, when it has any, no more than its capacity |
| `SeatServiceImpl.PlacePreservesInventory` | src/main/java/com/bers/services/service/serviceImple/SeatServiceImpl.java:28-44 | saving the seat `createSeat` builds keeps the invariant and raises its bus's count by one |
| `SeatServiceImpl.AppendKeepsKeys` | src/main/java/com/bers/services/service/serviceImple/SeatServiceImpl.java:32-43 | appending a seat with a fresh key and a number new on its bus keeps key and number uniqueness |
| `SeatServiceImpl.AppendKeepsCapacity` | src/main/java/com/bers/services/service/serviceImple/SeatServiceImpl.java:34-43 | appending below capacity keeps every bus within capacity and raises that bus's count by one |
| `SeatServiceImpl.SameKeysKeepIntegrity` | src/main/java/com/bers/services/service/serviceImple/SeatServiceImpl.java:47-54 | rows whose keys, buses and numbers are unchanged keep the key and number constraints |
| `SeatServiceImpl.RetypePreservesInventory` | src/main/java/com/bers/services/service/serviceImple/SeatServiceImpl.java:47-54 | changing a seat's type keeps the invariant |
| `SeatServiceImpl.RetypeKeepsCounts` | src/main/java/com/bers/services/service/serviceImple/SeatServiceImpl.java:47-54 | changing a seat's type leaves every bus's count as it was |
| `SeatServiceImpl.RemoveKeepsKeys` | src/main/java/com/bers/services/service/serviceImple/SeatServiceImpl.java:104-109 | removing a row keeps key and number uniqueness |
| `SeatServiceImpl.RemovePreservesInventory` | src/main/java/com/bers/services/service/serviceImple/SeatServiceImpl.java:104-109 | removing a seat keeps the invariant |
| `SeatServiceImpl.RemoveLowersOneCount` | src/main/java/com/bers/services/service/serviceImple/SeatServiceImpl.java:104-115 | removing a seat lowers its own bus's count by one and no other bus's |
| `BaggageMapper.CalculateFee` | src/main/java/com/bers/services/mappers/BaggageMapper.java:46-57 | never negative; zero iff the weight is at most 20 kg; above that, the fee divided by 2000 is the excess weight |
| `BaggageMapper.FeeIsMonotone` | src/main/java/com/bers/services/mappers/BaggageMapper.java:46-57 | a heavier bag never costs less |
| `BaggageMapper.FeeChangesAtMostPricePerKg` | src/main/java/com/bers/services/mappers/BaggageMapper.java:46-57 | between two weights the fee rises by at least 0 and at most 2000 per kilogram of difference, so there is no jump at 20 kg |
| `BaggageMapper.FeeIsLinearAboveAllowance` | src/main/java/com/bers/services/mappers/BaggageMapper.java:55-56 | above 20 kg each extra kilogram adds exactly 2000 |
| `BaggageMapper.ToEntity` | src/main/java/com/bers/services/mappers/BaggageMapper.java:9-14 | keeps the request's ticket and weight and the given tag; the fee is the computed fee of the weight, zero iff within the allowance |
| `BaggageMapper.FormatTripInfo` | src/main/java/com/bers/services/mappers/BaggageMapper.java:37-42 | no label iff no trip; otherwise it starts with the origin, has the arrow right after it, ends with ")", and is 6 characters longer than its three parts |
| `BaggageMapper.TripInfoReadsBack` | src/main/java/com/bers/services/mappers/BaggageMapper.java:40-41 | origin, destination and date can be read back from the label at the positions the format puts them |

## Left out

- Logging, QR-code generation and baggage tag-code generation are left out. The tag code is
  clock- and random-based, so `ToEntity` takes it as a parameter.
- `processRefund` is left out; it is called after a cancellation with a positive refund.
- The two `LocalDateTime.now()` calls in `cancelTicket` are modelled as one instant `now`.
  The clock is a parameter throughout.
- `updateTicket` is left out, because its request DTO mapping is not part of this model.
- `getTicketByQrCode`, `getTicketWithDetails`, `getAllTickets`, `getSeatByBusAndNumber`,
  `getAllSeats` and `getSeatsByBusIdAndType` are left out. They are plain lookups beside the
  ones modelled.
- `findByQrCode`, and `findByIdWithDetails` in both repositories, are left out. The
  `findByIdWithDetails` queries are `findById` with eager fetching.
- The two Trip-returning queries declared in the ticket repository
  (`TicketRepository.java:60-68`) are left out. They are Trip queries in the wrong
  repository.
- The segment validator, the discount service and the cancellation service are arbitrary
  functions. Their policies are not part of this model. Nor is the mappers' response shaping.
- The sources of `SeatRepository` and `FareRuleRepository` are not part of this model. Their
  queries are modelled from their names and return types, and these assumptions are made:
  - a fare rule matches a segment when its route, boarding stop and alighting stop are all
    equal to the segment's;
  - `findFareForSegment` returns an `Optional` and throws on two matching rows, so
    `createTicket` fails with `NonUniqueResult` when two fare rules match;
  - `findByBusIdAndNumber`, `countByBusId` and `findByBusIdOrderByNumberAsc` mean what their
    derived-query names say.
- Transactions, concurrency and the database's isolation level are left out. Each operation
  is one atomic step on the tables.
- `BaggageMapper.FormatTripInfo` takes the date already rendered as text, because
  `LocalDate.toString` is not modelled.
- `BaggageMapper.updateEntity` copies a fee given by the caller. It is left out, because only
  the fee computed on creation is modelled.
- `BaggageMapper.CalculateFee` does not model a null weight, which throws in the source.
- `BaggageMapper.CalculateFee` does not model `BigDecimal` scale: the value is exact, but
  "0" and "0.0" are not told apart.
- `SeatServiceImpl.GetSeatsByBusId` orders seat numbers by code point, standing in for the
  database collation, which is not known.
- The `Integer`/`Long` widths of keys, capacities and counts are not modelled. Keys and
  counts are unbounded naturals.

## Findings

| source | as written | input that shows it | evidently intended | confidence | as-written member | corrected member |
|---|---|---|---|---|---|---|
| src/main/java/com/bers/services/service/serviceImple/TicketServiceImpl.java:268 | `isSeatAvailable` asks `findSoldTicketBySeat`, which returns `Optional<Ticket>`. A seat sold for two segments has two SOLD rows, and the query throws instead of answering. | trip 1, seat "1A": `createTicket` sells [stop 0, stop 1) and then [stop 1, stop 2), and the segment validator accepts both. `isSeatAvailable(1, "1A")` then fails with a non-unique result. | "not available" whenever at least one SOLD ticket or HOLD hold is on the seat | not executed | `TicketServiceImpl.IsSeatAvailableAsWritten`, `TicketServiceImpl.BackToBackSalesBreakSeatCheck` | `TicketServiceImpl.IsSeatAvailable` |
