/** The seat inventory of the buses: creating, retyping, listing and deleting seats,
    with each bus's seat numbers unique and its seat count within its capacity. */
module SeatServiceImpl {
  import opened Tables
  import opened Domain

  datatype SeatError = BusNotFound | DuplicateSeatNumber | CapacityExceeded | SeatNotFound | NonUniqueResult

  datatype SeatCreateRequest = SeatCreateRequest(number: string, seatType: SeatType, busId: BusId)

  /** Code-point lexicographic order, a proper prefix first; it stands in for the database
      collation that orders seat numbers. */
  predicate LexLe(a: string, b: string) {
    if a == [] then true
    else if b == [] then false
    else if a[0] < b[0] then true
    else if a[0] > b[0] then false
    else LexLe(a[1..], b[1..])
  }

  lemma {:induction false} LexLeTotal(a: string, b: string)
    ensures LexLe(a, b) || LexLe(b, a)
  {
    if a != [] && b != [] && a[0] == b[0] {
      LexLeTotal(a[1..], b[1..]);
    }
  }

  lemma {:induction false} LexLeTransitive(a: string, b: string, c: string)
    requires LexLe(a, b) && LexLe(b, c)
    ensures LexLe(a, c)
  {
    if a != [] && a[0] == b[0] && b[0] == c[0] {
      LexLeTransitive(a[1..], b[1..], c[1..]);
    }
  }

  lemma {:induction false} LexLeAntisymmetric(a: string, b: string)
    requires LexLe(a, b) && LexLe(b, a)
    ensures a == b
  {
    if a != [] && b != [] {
      LexLeAntisymmetric(a[1..], b[1..]);
    }
  }

  /** Ascending by seat number, as `ORDER BY number ASC` returns the rows. */
  ghost predicate SortedByNumber(s: seq<Seat>) {
    forall i, j :: 0 <= i < j < |s| ==> LexLe(s[i].number, s[j].number)
  }

  function InsertByNumber(x: Seat, s: seq<Seat>): (r: seq<Seat>)
    ensures multiset(r) == multiset(s) + multiset{x}
  {
    if s == [] then [x]
    else if LexLe(x.number, s[0].number) then [x] + s
    else
      assert s == [s[0]] + s[1..];
      [s[0]] + InsertByNumber(x, s[1..])
  }

  lemma {:induction false} InsertKeepsSorted(x: Seat, s: seq<Seat>)
    requires SortedByNumber(s)
    ensures SortedByNumber(InsertByNumber(x, s))
  {
    if s == [] {
    } else if LexLe(x.number, s[0].number) {
      var r := [x] + s;
      forall a, b | 0 <= a < b < |r|
        ensures LexLe(r[a].number, r[b].number)
      {
        if a == 0 {
          if b > 1 {
            LexLeTransitive(x.number, s[0].number, s[b - 1].number);
          }
        } else {
          assert r[a] == s[a - 1] && r[b] == s[b - 1];
        }
      }
    } else {
      var tail := InsertByNumber(x, s[1..]);
      InsertKeepsSorted(x, s[1..]);
      LexLeTotal(x.number, s[0].number);
      var r := [s[0]] + tail;
      forall a, b | 0 <= a < b < |r|
        ensures LexLe(r[a].number, r[b].number)
      {
        if a == 0 {
          var y := tail[b - 1];
          assert y in multiset(tail);
          if y != x {
            assert y in multiset(s[1..]);
            var k :| 0 <= k < |s[1..]| && s[1..][k] == y;
            assert s[k + 1] == y;
          }
        } else {
          assert r[a] == tail[a - 1] && r[b] == tail[b - 1];
        }
      }
    }
  }

  /** The rows of `s` in ascending seat-number order. */
  function SortByNumber(s: seq<Seat>): (r: seq<Seat>)
    ensures SortedByNumber(r)
    ensures multiset(r) == multiset(s)
  {
    if s == [] then []
    else
      assert s == [s[0]] + s[1..];
      InsertKeepsSorted(s[0], SortByNumber(s[1..]));
      InsertByNumber(s[0], SortByNumber(s[1..]))
  }

  /** `findByBusIdAndNumber`, declared `Optional<Seat>`. */
  function FindByBusIdAndNumber(seats: seq<Seat>, busId: BusId, number: string): (r: Single<Seat>)
    ensures r.NoRow? <==> forall s :: s in seats ==> !(s.busId == busId && s.number == number)
    ensures r.OneRow? ==> r.row in seats && r.row.busId == busId && r.row.number == number
    ensures r.NonUnique? <==> Count(seats, (s: Seat) => s.busId == busId && s.number == number) > 1
  {
    var p := (s: Seat) => s.busId == busId && s.number == number;
    var rows := Filter(seats, p);
    CountIsFilterLength(seats, p);
    assert forall s :: s in rows <==> s in seats && s.busId == busId && s.number == number;
    SingleResult(rows)
  }

  /** `countByBusId`. */
  function CountSeatsByBus(seats: seq<Seat>, busId: BusId): (n: nat)
    ensures n <= |seats|
    ensures n == 0 <==> forall s :: s in seats ==> s.busId != busId
  {
    Count(seats, (s: Seat) => s.busId == busId)
  }

  /** Refuses a number already present on the bus. */
  function ValidateSeatNumber(seats: seq<Seat>, busId: BusId, number: string): (r: Outcome<SeatError>)
    ensures r == Pass <==> forall s :: s in seats ==> !(s.busId == busId && s.number == number)
    ensures r.Fail? ==> r.error in {DuplicateSeatNumber, NonUniqueResult}
  {
    match FindByBusIdAndNumber(seats, busId, number)
    case NoRow => Pass
    case OneRow(_) => Fail(DuplicateSeatNumber)
    case NonUnique => Fail(NonUniqueResult)
  }

  /** The seat `createSeat` saves under primary key `id`, or the error it throws. */
  function PlaceSeat(buses: seq<Bus>, seats: seq<Seat>, req: SeatCreateRequest, id: SeatId): (r: Result<Seat, SeatError>)
    ensures r.Success? <==> (BusById(buses, req.busId).Some?
                            && (forall s :: s in seats ==> !(s.busId == req.busId && s.number == req.number))
                            && CountSeatsByBus(seats, req.busId) < BusById(buses, req.busId).value.capacity)
    ensures r.Success? ==> r.value == Seat(id, req.busId, req.number, req.seatType)
    ensures BusById(buses, req.busId).None? ==> r == Failure(BusNotFound)
    ensures BusById(buses, req.busId).Some? && (exists s :: s in seats && s.busId == req.busId && s.number == req.number)
            ==> r.Failure? && r.error in {DuplicateSeatNumber, NonUniqueResult}
    ensures (BusById(buses, req.busId).Some?
             && (forall s :: s in seats ==> !(s.busId == req.busId && s.number == req.number))
             && CountSeatsByBus(seats, req.busId) >= BusById(buses, req.busId).value.capacity)
            ==> r == Failure(CapacityExceeded)
  {
    match BusById(buses, req.busId)
    case None => Failure(BusNotFound)
    case Some(bus) =>
      match ValidateSeatNumber(seats, req.busId, req.number)
      case Fail(e) => Failure(e)
      case Pass =>
        if CountSeatsByBus(seats, req.busId) >= bus.capacity then Failure(CapacityExceeded)
        else Success(Seat(id, bus.id, req.number, req.seatType))
  }

  /** The inventory's integrity: primary keys unique (seat keys below the next one issued),
      every seat on a listed bus, no number twice on one bus, no bus over capacity. */
  ghost predicate InventoryValid(buses: seq<Bus>, seats: seq<Seat>, nextId: SeatId) {
    && BusKeysUnique(buses)
    && SeatKeysValid(seats, nextId)
    && SeatsOnBuses(buses, seats)
    && NumbersUniquePerBus(seats)
    && WithinCapacity(buses, seats)
  }

  ghost predicate BusKeysUnique(buses: seq<Bus>) {
    forall i, j :: 0 <= i < j < |buses| ==> buses[i].id != buses[j].id
  }

  ghost predicate SeatKeysValid(seats: seq<Seat>, nextId: SeatId) {
    && (forall i, j :: 0 <= i < j < |seats| ==> seats[i].id != seats[j].id)
    && (forall k :: 0 <= k < |seats| ==> seats[k].id < nextId)
  }

  ghost predicate SeatsOnBuses(buses: seq<Bus>, seats: seq<Seat>) {
    forall k :: 0 <= k < |seats| ==> BusById(buses, seats[k].busId).Some?
  }

  ghost predicate NumbersUniquePerBus(seats: seq<Seat>) {
    forall i, j :: 0 <= i < j < |seats| ==> !(seats[i].busId == seats[j].busId && seats[i].number == seats[j].number)
  }

  /** A bus with seats holds no more of them than its capacity. A bus without seats passes
      whatever its capacity, even a negative one, which no seat could then be placed under. */
  ghost predicate WithinCapacity(buses: seq<Bus>, seats: seq<Seat>) {
    forall b :: b in buses ==> CountSeatsByBus(seats, b.id) == 0 || CountSeatsByBus(seats, b.id) <= b.capacity
  }

  /** The position of the seat with that primary key. */
  function SeatIndex(seats: seq<Seat>, id: SeatId): (r: Option<nat>)
    ensures r.Some? ==> r.value < |seats| && seats[r.value].id == id
    ensures r.None? <==> forall s :: s in seats ==> s.id != id
  {
    IndexWhere(seats, (s: Seat) => s.id == id)
  }

  function GetSeatById(seats: seq<Seat>, id: SeatId): (r: Result<Seat, SeatError>)
    ensures r.Failure? <==> forall s :: s in seats ==> s.id != id
    ensures r.Failure? ==> r.error == SeatNotFound
    ensures r.Success? ==> r.value in seats && r.value.id == id
  {
    match SeatIndex(seats, id)
    case None => Failure(SeatNotFound)
    case Some(i) => Success(seats[i])
  }

  /** The bus must exist; then all its seats, ascending by number. */
  function GetSeatsByBusId(buses: seq<Bus>, seats: seq<Seat>, busId: BusId): (r: Result<seq<Seat>, SeatError>)
    ensures r.Failure? <==> forall b :: b in buses ==> b.id != busId
    ensures r.Failure? ==> r.error == BusNotFound
    ensures r.Success? ==> SortedByNumber(r.value)
    ensures r.Success? ==> multiset(r.value) == multiset(Filter(seats, (s: Seat) => s.busId == busId))
    ensures r.Success? ==> forall s :: s in r.value <==> s in seats && s.busId == busId
  {
    if BusById(buses, busId).None? then Failure(BusNotFound)
    else
      var mine := Filter(seats, (s: Seat) => s.busId == busId);
      var listed := SortByNumber(mine);
      assert forall s :: s in listed <==> s in multiset(listed);
      assert forall s :: s in mine <==> s in multiset(mine);
      Success(listed)
  }

  /** Under the inventory's integrity the number lookup never sees two rows. */
  lemma InventoryHasNoDuplicateNumbers(buses: seq<Bus>, seats: seq<Seat>, nextId: SeatId, busId: BusId, number: string)
    requires InventoryValid(buses, seats, nextId)
    ensures !FindByBusIdAndNumber(seats, busId, number).NonUnique?
    ensures ValidateSeatNumber(seats, busId, number) != Fail(NonUniqueResult)
  {
    var p := (s: Seat) => s.busId == busId && s.number == number;
    if Count(seats, p) > 1 {
      var i, j := CountTwoWitnesses(seats, p);
      assert false;
    }
  }

  /** `createSeat` checks the bus, then the number, then the capacity; the first failing
      check decides the error. On a consistent inventory a number already on the bus is
      always reported as a duplicate, even when the bus is also full. */
  lemma PlaceSeatErrorOrder(buses: seq<Bus>, seats: seq<Seat>, nextId: SeatId, req: SeatCreateRequest, id: SeatId)
    requires InventoryValid(buses, seats, nextId)
    ensures BusById(buses, req.busId).None? ==> PlaceSeat(buses, seats, req, id) == Failure(BusNotFound)
    ensures BusById(buses, req.busId).Some? && (exists s :: s in seats && s.busId == req.busId && s.number == req.number)
            ==> PlaceSeat(buses, seats, req, id) == Failure(DuplicateSeatNumber)
    ensures (BusById(buses, req.busId).Some?
             && (forall s :: s in seats ==> !(s.busId == req.busId && s.number == req.number))
             && CountSeatsByBus(seats, req.busId) >= BusById(buses, req.busId).value.capacity)
            ==> PlaceSeat(buses, seats, req, id) == Failure(CapacityExceeded)
  {
    InventoryHasNoDuplicateNumbers(buses, seats, nextId, req.busId, req.number);
  }

  /** A bus's listed seats are as many as its count, and never more than its capacity. */
  lemma ListedSeatsWithinCapacity(buses: seq<Bus>, seats: seq<Seat>, nextId: SeatId, bus: Bus)
    requires InventoryValid(buses, seats, nextId) && bus in buses
    ensures GetSeatsByBusId(buses, seats, bus.id).Success?
    ensures |GetSeatsByBusId(buses, seats, bus.id).value| == CountSeatsByBus(seats, bus.id)
    ensures CountSeatsByBus(seats, bus.id) == 0 || |GetSeatsByBusId(buses, seats, bus.id).value| <= bus.capacity
  {
    var listed := GetSeatsByBusId(buses, seats, bus.id).value;
    assert |listed| == |multiset(listed)|;
    CountIsFilterLength(seats, (s: Seat) => s.busId == bus.id);
    assert |Filter(seats, (s: Seat) => s.busId == bus.id)| == |multiset(Filter(seats, (s: Seat) => s.busId == bus.id))|;
  }

  /** Saving the seat `createSeat` builds keeps the inventory's integrity and raises the
      bus's count by one. */
  lemma PlacePreservesInventory(buses: seq<Bus>, seats: seq<Seat>, nextId: SeatId, req: SeatCreateRequest)
    requires InventoryValid(buses, seats, nextId)
    requires PlaceSeat(buses, seats, req, nextId).Success?
    ensures InventoryValid(buses, seats + [PlaceSeat(buses, seats, req, nextId).value], nextId + 1)
    ensures CountSeatsByBus(seats + [PlaceSeat(buses, seats, req, nextId).value], req.busId) == CountSeatsByBus(seats, req.busId) + 1
  {
    var seat := PlaceSeat(buses, seats, req, nextId).value;
    AppendKeepsKeys(buses, seats, nextId, seat);
    AppendKeepsCapacity(buses, seats, seat, BusById(buses, req.busId).value);
  }

  lemma AppendKeepsKeys(buses: seq<Bus>, seats: seq<Seat>, nextId: SeatId, seat: Seat)
    requires SeatKeysValid(seats, nextId) && SeatsOnBuses(buses, seats) && NumbersUniquePerBus(seats)
    requires seat.id == nextId && BusById(buses, seat.busId).Some?
    requires forall s :: s in seats ==> !(s.busId == seat.busId && s.number == seat.number)
    ensures SeatKeysValid(seats + [seat], nextId + 1)
    ensures SeatsOnBuses(buses, seats + [seat])
    ensures NumbersUniquePerBus(seats + [seat])
  {
    var after := seats + [seat];
    assert forall k :: 0 <= k < |seats| ==> after[k] == seats[k] && after[k] in seats;
  }

  lemma AppendKeepsCapacity(buses: seq<Bus>, seats: seq<Seat>, seat: Seat, bus: Bus)
    requires BusKeysUnique(buses) && WithinCapacity(buses, seats)
    requires bus in buses && bus.id == seat.busId && CountSeatsByBus(seats, bus.id) < bus.capacity
    ensures WithinCapacity(buses, seats + [seat])
    ensures CountSeatsByBus(seats + [seat], seat.busId) == CountSeatsByBus(seats, seat.busId) + 1
  {
    var after := seats + [seat];
    forall b | b in buses
      ensures CountSeatsByBus(after, b.id) == 0 || CountSeatsByBus(after, b.id) <= b.capacity
    {
      CountAppend(seats, [seat], (s: Seat) => s.busId == b.id);
      if b.id == seat.busId {
        var k :| 0 <= k < |buses| && buses[k] == b;
        var m :| 0 <= m < |buses| && buses[m] == bus;
        assert k == m;
      }
    }
    CountAppend(seats, [seat], (s: Seat) => s.busId == seat.busId);
  }

  /** Rows whose key, bus and number agree one for one keep the key and number constraints. */
  lemma SameKeysKeepIntegrity(buses: seq<Bus>, seats: seq<Seat>, after: seq<Seat>, nextId: SeatId)
    requires SeatKeysValid(seats, nextId) && SeatsOnBuses(buses, seats) && NumbersUniquePerBus(seats)
    requires |after| == |seats|
    requires forall k :: 0 <= k < |seats| ==>
      after[k].id == seats[k].id && after[k].busId == seats[k].busId && after[k].number == seats[k].number
    ensures SeatKeysValid(after, nextId) && SeatsOnBuses(buses, after) && NumbersUniquePerBus(after)
  {
  }

  /** Changing a seat's type keeps the inventory's integrity and every bus's count. */
  lemma RetypePreservesInventory(buses: seq<Bus>, seats: seq<Seat>, nextId: SeatId, i: nat, seatType: SeatType)
    requires InventoryValid(buses, seats, nextId) && i < |seats|
    ensures InventoryValid(buses, seats[i := seats[i].(seatType := seatType)], nextId)
  {
    var after := seats[i := seats[i].(seatType := seatType)];
    RetypeKeepsCounts(seats, i, seatType);
    SameKeysKeepIntegrity(buses, seats, after, nextId);
  }

  /** Changing a seat's type leaves every bus's seat count as it was. */
  lemma RetypeKeepsCounts(seats: seq<Seat>, i: nat, seatType: SeatType)
    requires i < |seats|
    ensures forall b :: CountSeatsByBus(seats[i := seats[i].(seatType := seatType)], b) == CountSeatsByBus(seats, b)
  {
    forall b: BusId
      ensures CountSeatsByBus(seats[i := seats[i].(seatType := seatType)], b) == CountSeatsByBus(seats, b)
    {
      CountUpdate(seats, i, seats[i].(seatType := seatType), (s: Seat) => s.busId == b);
    }
  }

  lemma RemoveKeepsKeys(buses: seq<Bus>, seats: seq<Seat>, nextId: SeatId, i: nat)
    requires SeatKeysValid(seats, nextId) && SeatsOnBuses(buses, seats) && NumbersUniquePerBus(seats)
    requires i < |seats|
    ensures var after := seats[..i] + seats[i + 1..];
            SeatKeysValid(after, nextId) && SeatsOnBuses(buses, after) && NumbersUniquePerBus(after)
  {
    var after := seats[..i] + seats[i + 1..];
    forall k | 0 <= k < |after|
      ensures after[k] == seats[if k < i then k else k + 1]
    {
    }
  }

  /** Removing a seat keeps the inventory's integrity and lowers only its bus's count, by one. */
  lemma RemovePreservesInventory(buses: seq<Bus>, seats: seq<Seat>, nextId: SeatId, i: nat)
    requires InventoryValid(buses, seats, nextId) && i < |seats|
    ensures InventoryValid(buses, seats[..i] + seats[i + 1..], nextId)
  {
    RemoveLowersOneCount(seats, i);
    RemoveKeepsKeys(buses, seats, nextId, i);
  }

  /** Removing a seat lowers its own bus's count by one and no other bus's. */
  lemma RemoveLowersOneCount(seats: seq<Seat>, i: nat)
    requires i < |seats|
    ensures forall b :: CountSeatsByBus(seats[..i] + seats[i + 1..], b)
                     == CountSeatsByBus(seats, b) - (if b == seats[i].busId then 1 else 0)
  {
    forall b: BusId
      ensures CountSeatsByBus(seats[..i] + seats[i + 1..], b) == CountSeatsByBus(seats, b) - (if b == seats[i].busId then 1 else 0)
    {
      CountRemove(seats, i, (s: Seat) => s.busId == b);
    }
  }

  class SeatService {
    var buses: seq<Bus>
    var seats: seq<Seat>
    var nextId: SeatId

    ghost predicate Valid()
      reads this
    {
      InventoryValid(buses, seats, nextId)
    }

    /** An inventory with these buses and no seats yet; bus keys are primary keys. */
    constructor (buses: seq<Bus>)
      requires forall i, j :: 0 <= i < j < |buses| ==> buses[i].id != buses[j].id
      ensures Valid() && this.buses == buses && seats == []
    {
      this.buses := buses;
      seats := [];
      nextId := 0;
      new;
      forall b | b in buses
        ensures CountSeatsByBus(seats, b.id) == 0
      {
      }
    }

    /** Looks up the bus, refuses a duplicate number and a full bus, then saves the seat. */
    method CreateSeat(req: SeatCreateRequest) returns (r: Result<Seat, SeatError>)
      requires Valid()
      modifies this
      ensures Valid() && buses == old(buses)
      ensures r == PlaceSeat(old(buses), old(seats), req, old(nextId))
      ensures r.Success? ==> seats == old(seats) + [r.value] && nextId == old(nextId) + 1
      ensures r.Failure? ==> seats == old(seats) && nextId == old(nextId)
    {
      r := PlaceSeat(buses, seats, req, nextId);
      if r.Success? {
        PlacePreservesInventory(buses, seats, nextId, req);
        seats := seats + [r.value];
        nextId := nextId + 1;
      }
    }

    /** Only the seat's type changes; its number and bus are left as they were. */
    method UpdateSeat(id: SeatId, seatType: SeatType) returns (r: Result<Seat, SeatError>)
      requires Valid()
      modifies this
      ensures Valid() && buses == old(buses) && nextId == old(nextId)
      ensures SeatIndex(old(seats), id).None? ==> r == Failure(SeatNotFound) && seats == old(seats)
      ensures SeatIndex(old(seats), id).Some? ==>
        var i := SeatIndex(old(seats), id).value;
        r == Success(old(seats)[i].(seatType := seatType)) && seats == old(seats)[i := r.value]
    {
      match SeatIndex(seats, id)
      case None =>
        r := Failure(SeatNotFound);
      case Some(i) =>
        RetypePreservesInventory(buses, seats, nextId, i, seatType);
        r := Success(seats[i].(seatType := seatType));
        seats := seats[i := r.value];
    }

    method DeleteSeat(id: SeatId) returns (r: Outcome<SeatError>)
      requires Valid()
      modifies this
      ensures Valid() && buses == old(buses) && nextId == old(nextId)
      ensures SeatIndex(old(seats), id).None? ==> r == Fail(SeatNotFound) && seats == old(seats)
      ensures SeatIndex(old(seats), id).Some? ==>
        var i := SeatIndex(old(seats), id).value;
        r == Pass && seats == old(seats)[..i] + old(seats)[i + 1..]
    {
      match SeatIndex(seats, id)
      case None =>
        r := Fail(SeatNotFound);
      case Some(i) =>
        var after := seats[..i] + seats[i + 1..];
        RemovePreservesInventory(buses, seats, nextId, i);
        assert InventoryValid(buses, after, nextId);
        seats := after;
        r := Pass;
    }
  }
}
