/**
 * Orphan detection: an active restaurant reservation whose first booking-reference
 * value, trimmed, names a hotel booking that is not in the fetched roster.
 */
module Orphans {
  import opened Js
  import opened Records
  import opened FieldRoles

  /** `{ resosBooking, hotelBookingRef }` */
  datatype Orphan = Orphan(booking: RestaurantBooking, hotelBookingRef: string)

  /** `new Set(newbookBookings.map(b => String(b.booking_id)))` */
  function HotelIds(hotel: seq<HotelBooking>): set<string> {
    set j | 0 <= j < |hotel| :: hotel[j].bookingId
  }

  /** A custom-field value that names the booking-reference field and is truthy. */
  predicate IsRefEntry(fieldId: string, cf: FieldEntry) {
    cf.Targets(fieldId) && Truthy(cf.value)
  }

  /** `String(cf.value).trim()` */
  function RefText(cf: FieldEntry): string {
    Trim(ToJsString(cf.value))
  }

  /**
   * The orphan one reservation yields, if any. Only its first reference entry is looked
   * at (the loop breaks there), so a later entry naming an unknown booking is never seen.
   */
  function OrphanOf(fieldId: string, ids: set<string>, rb: RestaurantBooking): (r: Option<Orphan>)
    ensures r.Some? ==> IsActiveStatus(rb.status) && rb.customFields.Some? && r.value.booking == rb
    ensures r.Some? ==> r.value.hotelBookingRef != "" && IsTrimmed(r.value.hotelBookingRef)
                        && r.value.hotelBookingRef !in ids
    ensures IsActiveStatus(rb.status) && rb.customFields.Some? ==>
      forall i | IsFirst(rb.customFields.value, i, (cf: FieldEntry) => IsRefEntry(fieldId, cf)) ::
        r == (var t := RefText(rb.customFields.value[i]);
              if t != "" && t !in ids then Some(Orphan(rb, t)) else None)
    ensures IsActiveStatus(rb.status) && rb.customFields.Some?
            && (forall i :: 0 <= i < |rb.customFields.value| ==> !IsRefEntry(fieldId, rb.customFields.value[i]))
            ==> r.None?
  {
    if !IsActiveStatus(rb.status) || rb.customFields.None? then None
    else
      var cfs := rb.customFields.value;
      match FirstIndex(cfs, (cf: FieldEntry) => IsRefEntry(fieldId, cf))
      case None => None
      case Some(i) =>
        var t := RefText(cfs[i]);
        if t != "" && t !in ids then Some(Orphan(rb, t)) else None
  }

  function OrphansFrom(fieldId: string, ids: set<string>, resos: seq<RestaurantBooking>): (r: seq<Orphan>)
    decreases |resos|
  {
    if |resos| == 0 then []
    else
      var rest := OrphansFrom(fieldId, ids, resos[..|resos| - 1]);
      match OrphanOf(fieldId, ids, resos[|resos| - 1])
      case None => rest
      case Some(o) => rest + [o]
  }

  lemma OrphansFromSnoc(fieldId: string, ids: set<string>, resos: seq<RestaurantBooking>, i: nat)
    requires i < |resos|
    ensures OrphansFrom(fieldId, ids, resos[..i + 1])
         == OrphansFrom(fieldId, ids, resos[..i])
            + (match OrphanOf(fieldId, ids, resos[i]) case None => [] case Some(o) => [o])
  {
    assert resos[..i + 1][..i] == resos[..i];
    var rest := OrphansFrom(fieldId, ids, resos[..i]);
    assert rest + [] == rest;
  }

  /** `STATE.orphanResosBookings` after `detectOrphanBookings`; empty without a booking-reference field. */
  function Orphans(bookingRef: Option<string>, hotel: seq<HotelBooking>, resos: seq<RestaurantBooking>): (r: seq<Orphan>)
    ensures !Enabled(bookingRef) ==> r == []
  {
    if Enabled(bookingRef) then OrphansFrom(bookingRef.value, HotelIds(hotel), resos) else []
  }

  /** Every orphan is an active reservation of the list whose trimmed, non-empty reference is not on the roster; there are at most as many orphans as reservations. */
  lemma {:induction false} OrphansWellFormed(fieldId: string, ids: set<string>, resos: seq<RestaurantBooking>)
    ensures |OrphansFrom(fieldId, ids, resos)| <= |resos|
    ensures forall k :: 0 <= k < |OrphansFrom(fieldId, ids, resos)| ==>
      var o := OrphansFrom(fieldId, ids, resos)[k];
      o.booking in resos && IsActiveStatus(o.booking.status)
      && o.hotelBookingRef != "" && IsTrimmed(o.hotelBookingRef) && o.hotelBookingRef !in ids
    decreases |resos|
  {
    if |resos| > 0 {
      var prefix := resos[..|resos| - 1];
      OrphansWellFormed(fieldId, ids, prefix);
      assert forall rb :: rb in prefix ==> rb in resos;
    }
  }

  /** Orphans come out in reservation order, each reservation contributing on its own. */
  lemma {:induction false} OrphansAppend(fieldId: string, ids: set<string>, a: seq<RestaurantBooking>, b: seq<RestaurantBooking>)
    ensures OrphansFrom(fieldId, ids, a + b) == OrphansFrom(fieldId, ids, a) + OrphansFrom(fieldId, ids, b)
    decreases |b|
  {
    if |b| == 0 {
      assert a + b == a;
    } else {
      assert (a + b)[..|a + b| - 1] == a + b[..|b| - 1];
      assert (a + b)[|a + b| - 1] == b[|b| - 1];
      OrphansAppend(fieldId, ids, a, b[..|b| - 1]);
    }
  }

  /** A reservation whose reference names a stay on the roster is never an orphan. */
  lemma KnownReferenceIsNoOrphan(fieldId: string, hotel: seq<HotelBooking>, rb: RestaurantBooking, j: nat)
    requires j < |hotel|
    requires rb.customFields.Some? && |rb.customFields.value| > 0
    requires IsRefEntry(fieldId, rb.customFields.value[0])
    requires RefText(rb.customFields.value[0]) == hotel[j].bookingId
    ensures OrphansFrom(fieldId, HotelIds(hotel), [rb]) == []
  {
    var cfs := rb.customFields.value;
    assert IsFirst(cfs, 0, (cf: FieldEntry) => IsRefEntry(fieldId, cf));
    assert hotel[j].bookingId in HotelIds(hotel);
    assert [rb][..0] == [];
  }

  /** The per-reservation scan of `detectOrphanBookings`, stopping at the first reference entry. */
  method FindOrphan(fieldId: string, ids: set<string>, rb: RestaurantBooking) returns (r: Option<Orphan>)
    ensures r == OrphanOf(fieldId, ids, rb)
  {
    r := None;
    if !IsActiveStatus(rb.status) || rb.customFields.None? {
      return;
    }
    var cfs := rb.customFields.value;
    var j := 0;
    while j < |cfs|
      invariant 0 <= j <= |cfs|
      invariant forall k :: 0 <= k < j ==> !IsRefEntry(fieldId, cfs[k])
    {
      var cf := cfs[j];
      if (cf.primaryId == Some(fieldId) || cf.legacyId == Some(fieldId)) && Truthy(cf.value) {
        var refId := Trim(ToJsString(cf.value));
        if refId != "" && refId !in ids {
          r := Some(Orphan(rb, refId));
        }
        assert IsFirst(cfs, j, (cf: FieldEntry) => IsRefEntry(fieldId, cf));
        return;
      }
      j := j + 1;
    }
  }
}
