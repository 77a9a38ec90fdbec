/**
 * The statistics bar: counts over the hotel roster (all stays, arrivals, departures,
 * and how many of each are matched) and over the active restaurant reservations
 * (bookings and covers in total, with DBB, for hotel guests and for non-residents).
 */
module Stats {
  import opened Js
  import opened Records
  import opened FieldRoles
  import opened Calendar

  datatype HotelCounts = HotelCounts(
    total: nat, matched: nat,
    arrivalsTotal: nat, arrivalsMatched: nat,
    departuresTotal: nat, departuresMatched: nat)

  datatype RestaurantCounts = RestaurantCounts(
    bookings: nat, covers: nat,
    dbbBookings: nat, dbbCovers: nat,
    hotelGuestBookings: nat, hotelGuestCovers: nat,
    nonResidentBookings: nat, nonResidentCovers: nat)

  /** The stay counts as arriving: a non-empty arrival whose date part is the context date. */
  predicate IsArrival(nb: HotelBooking, contextDate: Option<string>) {
    nb.arrival != "" && IsFirstNight(nb.arrival, contextDate)
  }

  /** The stay counts as departing: a non-empty departure whose last night is the context date. */
  predicate IsDeparture(nb: HotelBooking, contextDate: Option<string>) {
    nb.departure != "" && IsLastNight(nb.departure, contextDate)
  }

  /** One pass of the roster loop. */
  function CountStay(c: HotelCounts, nb: HotelBooking, matchedIds: set<string>, contextDate: Option<string>): HotelCounts {
    var isMatched := nb.bookingId in matchedIds;
    var m := if isMatched then 1 else 0;
    HotelCounts(
      c.total + 1, c.matched + m,
      c.arrivalsTotal + (if IsArrival(nb, contextDate) then 1 else 0),
      c.arrivalsMatched + (if IsArrival(nb, contextDate) then m else 0),
      c.departuresTotal + (if IsDeparture(nb, contextDate) then 1 else 0),
      c.departuresMatched + (if IsDeparture(nb, contextDate) then m else 0))
  }

  /** The roster counts; a matched count never exceeds its total. */
  function CountHotel(hotel: seq<HotelBooking>, matchedIds: set<string>, contextDate: Option<string>): (c: HotelCounts)
    ensures c.total == |hotel|
    ensures c.matched <= c.total && c.arrivalsMatched <= c.arrivalsTotal && c.departuresMatched <= c.departuresTotal
    ensures c.arrivalsTotal <= c.total && c.departuresTotal <= c.total
    decreases |hotel|
  {
    if |hotel| == 0 then HotelCounts(0, 0, 0, 0, 0, 0)
    else CountStay(CountHotel(hotel[..|hotel| - 1], matchedIds, contextDate), hotel[|hotel| - 1], matchedIds, contextDate)
  }

  /** One more stay of the roster is one more pass of the loop. */
  lemma CountHotelSnoc(hotel: seq<HotelBooking>, matchedIds: set<string>, contextDate: Option<string>, i: nat)
    requires i < |hotel|
    ensures CountHotel(hotel[..i + 1], matchedIds, contextDate)
         == CountStay(CountHotel(hotel[..i], matchedIds, contextDate), hotel[i], matchedIds, contextDate)
  {
    assert hotel[..i + 1][..i] == hotel[..i];
  }

  /** `cf.value === yesChoiceId` on the role's field, with both ids set. */
  predicate HasChoice(cfs: seq<FieldEntry>, fieldId: Option<string>, yes: Option<string>) {
    Enabled(fieldId) && Enabled(yes)
    && exists k :: 0 <= k < |cfs| && cfs[k].Targets(fieldId.value) && cfs[k].value == Str(yes.value)
  }

  predicate IsHotelGuest(rb: RestaurantBooking, roles: Roles) {
    rb.customFields.Some? && HasChoice(rb.customFields.value, roles.hotelGuest, roles.hotelGuestYes)
  }

  predicate IsDbb(rb: RestaurantBooking, roles: Roles) {
    rb.customFields.Some? && HasChoice(rb.customFields.value, roles.dbb, roles.dbbYes)
  }

  /** `b.people || 0` */
  function Covers(rb: RestaurantBooking): nat {
    if rb.people.Some? then rb.people.value else 0
  }

  function CountReservation(c: RestaurantCounts, rb: RestaurantBooking, roles: Roles): RestaurantCounts {
    if !IsActiveStatus(rb.status) then c
    else
      var p := Covers(rb);
      var guest := IsHotelGuest(rb, roles);
      var dbb := IsDbb(rb, roles);
      RestaurantCounts(
        c.bookings + 1, c.covers + p,
        c.dbbBookings + (if dbb then 1 else 0), c.dbbCovers + (if dbb then p else 0),
        c.hotelGuestBookings + (if guest then 1 else 0), c.hotelGuestCovers + (if guest then p else 0),
        c.nonResidentBookings + (if guest then 0 else 1), c.nonResidentCovers + (if guest then 0 else p))
  }

  /**
   * The reservation counts: every active booking is either a hotel guest's or a
   * non-resident's, so the two parts add up to the totals; DBB is a part of the total.
   */
  function CountRestaurant(resos: seq<RestaurantBooking>, roles: Roles): (c: RestaurantCounts)
    ensures c.hotelGuestBookings + c.nonResidentBookings == c.bookings
    ensures c.hotelGuestCovers + c.nonResidentCovers == c.covers
    ensures c.dbbBookings <= c.bookings && c.dbbCovers <= c.covers
    ensures c.bookings <= |resos|
    decreases |resos|
  {
    if |resos| == 0 then RestaurantCounts(0, 0, 0, 0, 0, 0, 0, 0)
    else CountReservation(CountRestaurant(resos[..|resos| - 1], roles), resos[|resos| - 1], roles)
  }

  /** Only active reservations are counted. */
  lemma {:induction false} InactiveNotCounted(resos: seq<RestaurantBooking>, roles: Roles)
    requires forall j :: 0 <= j < |resos| ==> !IsActiveStatus(resos[j].status)
    ensures CountRestaurant(resos, roles) == RestaurantCounts(0, 0, 0, 0, 0, 0, 0, 0)
    decreases |resos|
  {
    if |resos| > 0 {
      InactiveNotCounted(resos[..|resos| - 1], roles);
    }
  }
}
