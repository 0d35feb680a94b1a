/** The seat-hold table: its queries and the bulk `expireOldHolds` update. */
module SeatHoldRepository {
  import opened Tables
  import opened Domain

  predicate OnSeatWithStatus(h: SeatHold, tripId: TripId, seatNumber: string, status: HoldStatus) {
    h.tripId == tripId && h.seatNumber == seatNumber && h.status == status
  }

  /** The WHERE clause shared by `findExpiredHolds` and `expireOldHolds`: still HOLD and
      expiring strictly before `currentTime`. */
  predicate IsExpiredAt(h: SeatHold, currentTime: Time) {
    h.status == Hold && h.expiresAt < currentTime
  }

  /** Declared `Optional<SeatHold>`: more than one match is reported as `NonUnique`. */
  function FindByTripIdAndSeatNumberAndStatus(holds: seq<SeatHold>, tripId: TripId, seatNumber: string, status: HoldStatus): (r: Single<SeatHold>)
    ensures r.NoRow? <==> forall h :: h in holds ==> !OnSeatWithStatus(h, tripId, seatNumber, status)
    ensures r.OneRow? ==> r.row in holds && OnSeatWithStatus(r.row, tripId, seatNumber, status)
    ensures r.NonUnique? <==> Count(holds, (h: SeatHold) => OnSeatWithStatus(h, tripId, seatNumber, status)) > 1
  {
    var p := (h: SeatHold) => OnSeatWithStatus(h, tripId, seatNumber, status);
    var rows := Filter(holds, p);
    CountIsFilterLength(holds, p);
    assert forall h :: h in rows <==> h in holds && OnSeatWithStatus(h, tripId, seatNumber, status);
    SingleResult(rows)
  }

  function FindByTripIdAndStatus(holds: seq<SeatHold>, tripId: TripId, status: HoldStatus): (r: seq<SeatHold>)
    ensures forall h :: h in r <==> h in holds && h.tripId == tripId && h.status == status
  {
    Filter(holds, (h: SeatHold) => h.tripId == tripId && h.status == status)
  }

  function FindByUserIdAndStatus(holds: seq<SeatHold>, userId: UserId, status: HoldStatus): (r: seq<SeatHold>)
    ensures forall h :: h in r <==> h in holds && h.userId == userId && h.status == status
  {
    Filter(holds, (h: SeatHold) => h.userId == userId && h.status == status)
  }

  /** Holds still HOLD whose `expiresAt` is strictly before `currentTime`; one expiring
      exactly at `currentTime` is not yet expired. */
  function FindExpiredHolds(holds: seq<SeatHold>, currentTime: Time): (r: seq<SeatHold>)
    ensures forall h :: h in r <==> h in holds && h.status == Hold && h.expiresAt < currentTime
  {
    Filter(holds, (h: SeatHold) => IsExpiredAt(h, currentTime))
  }

  function ExistsByTripIdAndSeatNumberAndStatus(holds: seq<SeatHold>, tripId: TripId, seatNumber: string, status: HoldStatus): (b: bool)
    ensures b <==> exists h :: h in holds && h.tripId == tripId && h.seatNumber == seatNumber && h.status == status
  {
    exists h :: h in holds && OnSeatWithStatus(h, tripId, seatNumber, status)
  }

  function CountActiveHoldsByTrip(holds: seq<SeatHold>, tripId: TripId): (n: nat)
    ensures n <= |holds|
    ensures n == 0 <==> forall h :: h in holds ==> !(h.tripId == tripId && h.status == Hold)
  {
    Count(holds, (h: SeatHold) => h.tripId == tripId && h.status == Hold)
  }

  /** What the UPDATE does to one row: only `status` is written, and only on rows its
      WHERE clause selects. */
  function ExpireRow(h: SeatHold, currentTime: Time): (r: SeatHold)
    ensures IsExpiredAt(h, currentTime) ==> r == h.(status := Expired)
    ensures !IsExpiredAt(h, currentTime) ==> r == h
  {
    if IsExpiredAt(h, currentTime) then h.(status := Expired) else h
  }

  /** The hold table after `expireOldHolds(currentTime)`: the same rows in the same
      places, each rewritten by `ExpireRow`. */
  function ExpireAll(holds: seq<SeatHold>, currentTime: Time): (r: seq<SeatHold>)
    ensures |r| == |holds|
    ensures forall i :: 0 <= i < |holds| ==> r[i] == ExpireRow(holds[i], currentTime)
  {
    if holds == [] then []
    else [ExpireRow(holds[0], currentTime)] + ExpireAll(holds[1..], currentTime)
  }

  /** A bulk UPDATE over the hold table, applied row by row in place. */
  class SeatHoldTable {
    var holds: seq<SeatHold>

    constructor (holds: seq<SeatHold>)
      ensures this.holds == holds
    {
      this.holds := holds;
    }

    /** Sets every hold that is still HOLD and expired before `currentTime` to EXPIRED
        and returns the number of rows it changed. */
    method ExpireOldHolds(currentTime: Time) returns (updated: nat)
      modifies this
      ensures holds == ExpireAll(old(holds), currentTime)
      ensures updated == |FindExpiredHolds(old(holds), currentTime)|
    {
      ghost var before := holds;
      ghost var selected := (h: SeatHold) => IsExpiredAt(h, currentTime);
      var i := 0;
      updated := 0;
      while i < |holds|
        invariant 0 <= i <= |holds| == |before|
        invariant forall j :: 0 <= j < i ==> holds[j] == ExpireRow(before[j], currentTime)
        invariant forall j :: i <= j < |holds| ==> holds[j] == before[j]
        invariant updated == |Filter(before[..i], selected)|
      {
        assert before[..i + 1] == before[..i] + [before[i]];
        FilterAppend(before[..i], [before[i]], selected);
        if IsExpiredAt(holds[i], currentTime) {
          holds := holds[i := holds[i].(status := Expired)];
          updated := updated + 1;
        }
        i := i + 1;
      }
      assert before[..i] == before;
    }
  }

  /** Only the rows the WHERE clause selects change, and on them only `status` changes. */
  lemma ExpireTouchesOnlySelectedRows(holds: seq<SeatHold>, currentTime: Time, i: nat)
    requires i < |holds|
    ensures ExpireAll(holds, currentTime)[i] != holds[i] <==> IsExpiredAt(holds[i], currentTime)
    ensures ExpireAll(holds, currentTime)[i] == holds[i].(status := ExpireAll(holds, currentTime)[i].status)
  {
  }

  /** A second sweep at the same time changes nothing and finds nothing to expire. */
  lemma {:induction false} ExpireIsIdempotent(holds: seq<SeatHold>, currentTime: Time)
    ensures ExpireAll(ExpireAll(holds, currentTime), currentTime) == ExpireAll(holds, currentTime)
    ensures FindExpiredHolds(ExpireAll(holds, currentTime), currentTime) == []
  {
    var once := ExpireAll(holds, currentTime);
    var selected := (h: SeatHold) => IsExpiredAt(h, currentTime);
    assert forall h :: h in once ==> !IsExpiredAt(h, currentTime);
    CountIsFilterLength(once, selected);
  }

  /** Each expired hold of the trip leaves the active count, and nothing else changes it. */
  lemma {:induction false} ExpireLowersActiveCount(holds: seq<SeatHold>, currentTime: Time, tripId: TripId)
    ensures CountActiveHoldsByTrip(ExpireAll(holds, currentTime), tripId)
         == CountActiveHoldsByTrip(holds, tripId)
          - Count(holds, (h: SeatHold) => h.tripId == tripId && IsExpiredAt(h, currentTime))
  {
    if holds != [] {
      var rest := ExpireAll(holds, currentTime);
      assert rest[1..] == ExpireAll(holds[1..], currentTime);
      ExpireLowersActiveCount(holds[1..], currentTime, tripId);
    }
  }

  /** `expireOldHolds` never raises the number of active holds on any trip. */
  lemma ExpireNeverRaisesActiveCount(holds: seq<SeatHold>, currentTime: Time, tripId: TripId)
    ensures CountActiveHoldsByTrip(ExpireAll(holds, currentTime), tripId) <= CountActiveHoldsByTrip(holds, tripId)
  {
    ExpireLowersActiveCount(holds, currentTime, tripId);
  }

  /** The existence query agrees with the single-result finder on the same arguments. */
  lemma ExistsIffFinderFinds(holds: seq<SeatHold>, tripId: TripId, seatNumber: string, status: HoldStatus)
    ensures ExistsByTripIdAndSeatNumberAndStatus(holds, tripId, seatNumber, status)
        <==> !FindByTripIdAndSeatNumberAndStatus(holds, tripId, seatNumber, status).NoRow?
  {
  }

  /** The COUNT query agrees with the length of the list of HOLD holds on the trip. */
  lemma CountActiveIsLengthOfHoldList(holds: seq<SeatHold>, tripId: TripId)
    ensures CountActiveHoldsByTrip(holds, tripId) == |FindByTripIdAndStatus(holds, tripId, Hold)|
  {
    CountIsFilterLength(holds, (h: SeatHold) => h.tripId == tripId && h.status == Hold);
  }
}
