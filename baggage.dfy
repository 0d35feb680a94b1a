/** Baggage pricing and the trip label shown with a baggage record. */
module BaggageMapper {
  import opened Tables
  import opened Domain

  /** Weight carried free of charge, in kilograms. */
  const FreeWeightKg: real := 20.0
  /** Charge per kilogram above the free weight. */
  const PricePerKg: Money := 2000.0

  datatype BaggageCreateRequest = BaggageCreateRequest(ticketId: TicketId, weightKg: real)

  /** A baggage row as `toEntity` builds it; its primary key is assigned on save. */
  datatype Baggage = Baggage(ticketId: TicketId, weightKg: real, fee: Money, tagCode: string)

  /** The route ends and the trip date as the label prints them. */
  datatype TripLabel = TripLabel(origin: string, destination: string, dateText: string)

  /** Nothing up to the free weight; each kilogram above it at the per-kilogram price. */
  function CalculateFee(weightKg: real): (fee: Money)
    ensures fee >= 0.0
    ensures weightKg <= FreeWeightKg <==> fee == 0.0
    ensures weightKg > FreeWeightKg ==> fee / PricePerKg == weightKg - FreeWeightKg
  {
    if weightKg <= FreeWeightKg then 0.0
    else (weightKg - FreeWeightKg) * PricePerKg
  }

  /** A heavier bag never costs less. */
  lemma FeeIsMonotone(a: real, b: real)
    requires a <= b
    ensures CalculateFee(a) <= CalculateFee(b)
  {
  }

  /** The fee never jumps: two weights' fees differ by at most the per-kilogram price times
      their difference, so crossing the free weight starts the charge from zero. */
  lemma FeeChangesAtMostPricePerKg(a: real, b: real)
    requires a <= b
    ensures 0.0 <= CalculateFee(b) - CalculateFee(a) <= PricePerKg * (b - a)
  {
  }

  /** Each extra kilogram beyond the free weight adds exactly the per-kilogram price. */
  lemma FeeIsLinearAboveAllowance(excess: real, extra: real)
    requires excess >= 0.0 && extra >= 0.0
    ensures CalculateFee(FreeWeightKg + excess + extra) == CalculateFee(FreeWeightKg + excess) + PricePerKg * extra
  {
  }

  /** The entity `toEntity` builds: the request's ticket and weight, the fee computed from
      the weight, and the tag code handed in. */
  function ToEntity(req: BaggageCreateRequest, tagCode: string): (b: Baggage)
    ensures b.ticketId == req.ticketId && b.weightKg == req.weightKg && b.tagCode == tagCode
    ensures b.fee >= 0.0 && (b.fee == 0.0 <==> req.weightKg <= FreeWeightKg)
    ensures b.fee == CalculateFee(b.weightKg)
  {
    Baggage(req.ticketId, req.weightKg, CalculateFee(req.weightKg), tagCode)
  }

  const Arrow: string := " → "

  /** "origin → destination (date)", or nothing when there is no trip. */
  function FormatTripInfo(trip: Option<TripLabel>): (r: Option<string>)
    ensures r.Some? <==> trip.Some?
    ensures trip.Some? ==> |r.value| == |trip.value.origin| + |trip.value.destination| + |trip.value.dateText| + 6
    ensures trip.Some? ==> r.value[..|trip.value.origin|] == trip.value.origin
    ensures trip.Some? ==> r.value[|trip.value.origin|..|trip.value.origin| + 3] == Arrow
    ensures trip.Some? ==> r.value[|r.value| - 1] == ')'
  {
    match trip
    case None => None
    case Some(t) => Some(t.origin + Arrow + t.destination + " (" + t.dateText + ")")
  }

  /** The label can be read back: the origin, destination and date are where the format
      puts them, between the arrow and the parentheses. */
  lemma TripInfoReadsBack(t: TripLabel)
    ensures var s := FormatTripInfo(Some(t)).value;
            var o, d := |t.origin|, |t.destination|;
            && s[..o] == t.origin
            && s[o + 3..o + 3 + d] == t.destination
            && s[o + 3 + d..o + 5 + d] == " ("
            && s[o + 5 + d..|s| - 1] == t.dateText
  {
    var s := FormatTripInfo(Some(t)).value;
    var o, d := |t.origin|, |t.destination|;
    assert s == t.origin + Arrow + t.destination + " (" + t.dateText + ")";
  }
}
