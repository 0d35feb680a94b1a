/** The trip table's queries: filters by route, bus, date, status and departure time. */
module TripRepository {
  import opened Tables
  import opened Domain

  /** "Active" in `findActiveTripsByBusAndDate`: neither CANCELLED nor ARRIVED. */
  predicate IsActiveStatus(s: TripStatus) {
    s != TripStatus.Cancelled && s != Arrived
  }

  function FindByRouteIdAndDate(trips: seq<Trip>, routeId: RouteId, date: Date): (r: seq<Trip>)
    ensures forall t :: t in r <==> t in trips && t.routeId == routeId && t.date == date
  {
    Filter(trips, (t: Trip) => t.routeId == routeId && t.date == date)
  }

  function FindByRouteIdAndDateAndStatus(trips: seq<Trip>, routeId: RouteId, date: Date, status: TripStatus): (r: seq<Trip>)
    ensures forall t :: t in r <==> t in trips && t.routeId == routeId && t.date == date && t.status == status
  {
    Filter(trips, (t: Trip) => t.routeId == routeId && t.date == date && t.status == status)
  }

  function FindByDateAndStatus(trips: seq<Trip>, date: Date, status: TripStatus): (r: seq<Trip>)
    ensures forall t :: t in r <==> t in trips && t.date == date && t.status == status
  {
    Filter(trips, (t: Trip) => t.date == date && t.status == status)
  }

  /** `BETWEEN :startTime AND :endTime` includes both bounds. */
  function FindByDateAndTimeRange(trips: seq<Trip>, date: Date, status: TripStatus, startTime: Time, endTime: Time): (r: seq<Trip>)
    ensures forall t :: t in r <==>
      t in trips && t.date == date && t.status == status && startTime <= t.departureAt <= endTime
  {
    Filter(trips, (t: Trip) => t.date == date && t.status == status && startTime <= t.departureAt <= endTime)
  }

  function FindActiveTripsByBusAndDate(trips: seq<Trip>, busId: BusId, date: Date): (r: seq<Trip>)
    ensures forall t :: t in r <==>
      t in trips && t.busId == busId && t.date == date && t.status in {Scheduled, Boarding, Departed}
  {
    Filter(trips, (t: Trip) => t.busId == busId && t.date == date && IsActiveStatus(t.status))
  }

  /** `DepartureAtBefore` is a strict bound. */
  function FindByStatusAndDepartureAtBefore(trips: seq<Trip>, status: TripStatus, dateTime: Time): (r: seq<Trip>)
    ensures forall t :: t in r <==> t in trips && t.status == status && t.departureAt < dateTime
  {
    Filter(trips, (t: Trip) => t.status == status && t.departureAt < dateTime)
  }

  /** Narrowing `findByRouteIdAndDate` to one status gives `findByRouteIdAndDateAndStatus`, rows and order alike. */
  lemma StatusNarrowsRouteAndDate(trips: seq<Trip>, routeId: RouteId, date: Date, status: TripStatus)
    ensures FindByRouteIdAndDateAndStatus(trips, routeId, date, status)
         == Filter(FindByRouteIdAndDate(trips, routeId, date), (t: Trip) => t.status == status)
  {
    FilterConjunction(trips,
      (t: Trip) => t.routeId == routeId && t.date == date,
      (t: Trip) => t.status == status,
      (t: Trip) => t.routeId == routeId && t.date == date && t.status == status);
  }

  /** The time-range query is `findByDateAndStatus` narrowed to the closed interval. */
  lemma TimeRangeNarrowsDateAndStatus(trips: seq<Trip>, date: Date, status: TripStatus, startTime: Time, endTime: Time)
    ensures FindByDateAndTimeRange(trips, date, status, startTime, endTime)
         == Filter(FindByDateAndStatus(trips, date, status), (t: Trip) => startTime <= t.departureAt <= endTime)
  {
    FilterConjunction(trips,
      (t: Trip) => t.date == date && t.status == status,
      (t: Trip) => startTime <= t.departureAt <= endTime,
      (t: Trip) => t.date == date && t.status == status && startTime <= t.departureAt <= endTime);
  }

  /** A trip departing exactly at either bound is in the time range, and one departing
      exactly at the cut-off is not "before" it. */
  lemma BoundaryDepartures(trips: seq<Trip>, t: Trip)
    requires t in trips
    ensures t in FindByDateAndTimeRange(trips, t.date, t.status, t.departureAt, t.departureAt + 1)
    ensures t in FindByDateAndTimeRange(trips, t.date, t.status, t.departureAt - 1, t.departureAt)
    ensures t !in FindByStatusAndDepartureAtBefore(trips, t.status, t.departureAt)
  {
  }

  /** Raising the cut-off never drops a trip from `findByStatusAndDepartureAtBefore`. */
  lemma DepartedBeforeGrowsWithCutoff(trips: seq<Trip>, status: TripStatus, t1: Time, t2: Time)
    requires t1 <= t2
    ensures forall t :: t in FindByStatusAndDepartureAtBefore(trips, status, t1) ==>
                        t in FindByStatusAndDepartureAtBefore(trips, status, t2)
  {
  }
}
