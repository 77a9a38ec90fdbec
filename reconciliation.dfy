/**
 * The side panel's shared state (`STATE`) and the steps that rebuild it. The fetched
 * hotel roster, restaurant reservations and custom-field schema are inputs; the
 * resolved field roles, the matched set, the hotel -> restaurant map, the package set
 * and the orphan list are derived from them by `resolveCustomFieldMappings`,
 * `buildMatchedSet`, `buildPackageSet` and `detectOrphanBookings`, each of which
 * rewrites its part of the state in a loop. Every such method is proved to leave
 * exactly what the matching specification function computes.
 */
module Reconciliation {
  import opened Js
  import opened Records
  import opened FieldRoles
  import opened GroupExclude
  import opened Matching
  import opened Orphans
  import opened Packages
  import opened Stats
  import opened DataHash

  // ---------------------------------------------------------------------
  // The local "mark as left" update
  // ---------------------------------------------------------------------

  /** One reservation after the local update: its status becomes "left" when its `_id` is listed. */
  function MarkOne(rb: RestaurantBooking, ids: seq<string>): RestaurantBooking {
    if rb.id in ids then rb.(status := "left") else rb
  }

  /** The reservation list after `b.status = 'left'` for every listed `_id`. */
  function MarkedLeft(resos: seq<RestaurantBooking>, ids: seq<string>): (r: seq<RestaurantBooking>)
    ensures |r| == |resos|
    ensures forall j :: 0 <= j < |r| ==> r[j] == MarkOne(resos[j], ids)
    decreases |resos|
  {
    if |resos| == 0 then []
    else MarkedLeft(resos[..|resos| - 1], ids) + [MarkOne(resos[|resos| - 1], ids)]
  }

  /** Marking the same reservations a second time changes nothing. */
  lemma MarkedLeftIdempotent(resos: seq<RestaurantBooking>, ids: seq<string>)
    ensures MarkedLeft(MarkedLeft(resos, ids), ids) == MarkedLeft(resos, ids)
  {
  }

  /** "left" is an active status, so a reservation that was active writes the same ids after marking. */
  lemma MarkOneWrites(roles: Roles, idx: GroupIndex, rb: RestaurantBooking, ids: seq<string>)
    ensures IsActiveStatus(rb.status) ==> Writes(roles, idx, MarkOne(rb, ids)) == Writes(roles, idx, rb)
    ensures !IsActiveStatus(rb.status) ==> Writes(roles, idx, rb) == []
  {
  }

  /** Marking reservations as left never removes a hotel stay from the matched set. */
  lemma {:induction false} MarkingLeftKeepsMatches(roles: Roles, idx: GroupIndex,
                                                   resos: seq<RestaurantBooking>, ids: seq<string>)
    ensures Elems(AllWrites(roles, idx, resos)) <= Elems(AllWrites(roles, idx, MarkedLeft(resos, ids)))
    decreases |resos|
  {
    if |resos| > 0 {
      var n := |resos| - 1;
      var marked := MarkedLeft(resos, ids);
      MarkingLeftKeepsMatches(roles, idx, resos[..n], ids);
      MarkOneWrites(roles, idx, resos[n], ids);
      assert marked[..n] == MarkedLeft(resos[..n], ids);
      AllWritesSnoc(roles, idx, resos, n);
      AllWritesSnoc(roles, idx, marked, n);
      assert resos[..n + 1] == resos && marked[..n + 1] == marked;
      ElemsAppend(AllWrites(roles, idx, resos[..n]), Writes(roles, idx, resos[n]));
      ElemsAppend(AllWrites(roles, idx, marked[..n]), Writes(roles, idx, marked[n]));
    }
  }

  /**
   * When every listed reservation is already active (the source only lists seated and
   * arrived ones), marking them as left leaves the matching exactly as it was.
   */
  lemma {:induction false} MarkingActiveKeepsMatching(roles: Roles, idx: GroupIndex,
                                                      resos: seq<RestaurantBooking>, ids: seq<string>)
    requires forall j :: 0 <= j < |resos| && resos[j].id in ids ==> IsActiveStatus(resos[j].status)
    ensures AllWrites(roles, idx, MarkedLeft(resos, ids)) == AllWrites(roles, idx, resos)
    ensures MatchFrom(map[], roles, idx, MarkedLeft(resos, ids)) == MatchFrom(map[], roles, idx, resos)
    decreases |resos|
  {
    if |resos| > 0 {
      var n := |resos| - 1;
      var marked := MarkedLeft(resos, ids);
      MarkingActiveKeepsMatching(roles, idx, resos[..n], ids);
      MarkOneWrites(roles, idx, resos[n], ids);
      assert marked[..n] == MarkedLeft(resos[..n], ids);
      assert marked[n].id == resos[n].id;
      AllWritesSnoc(roles, idx, resos, n);
      AllWritesSnoc(roles, idx, marked, n);
      assert resos[..n + 1] == resos && marked[..n + 1] == marked;
    }
  }

  // ---------------------------------------------------------------------
  // The statistics bar's per-reservation flag scan
  // ---------------------------------------------------------------------

  /** The inner loop of `updateStatsBar`: does the reservation carry the hotel-guest and the DBB "yes" choice? */
  method ScanFlags(cfs: seq<FieldEntry>, roles: Roles) returns (isHotelGuest: bool, isDbb: bool)
    ensures isHotelGuest == HasChoice(cfs, roles.hotelGuest, roles.hotelGuestYes)
    ensures isDbb == HasChoice(cfs, roles.dbb, roles.dbbYes)
  {
    isHotelGuest, isDbb := false, false;
    for j := 0 to |cfs|
      invariant isHotelGuest == (Enabled(roles.hotelGuest) && Enabled(roles.hotelGuestYes)
        && exists k :: 0 <= k < j && cfs[k].Targets(roles.hotelGuest.value) && cfs[k].value == Str(roles.hotelGuestYes.value))
      invariant isDbb == (Enabled(roles.dbb) && Enabled(roles.dbbYes)
        && exists k :: 0 <= k < j && cfs[k].Targets(roles.dbb.value) && cfs[k].value == Str(roles.dbbYes.value))
    {
      var cf := cfs[j];
      if Enabled(roles.hotelGuest) && Enabled(roles.hotelGuestYes)
         && cf.Targets(roles.hotelGuest.value) && cf.value == Str(roles.hotelGuestYes.value) {
        isHotelGuest := true;
      }
      if Enabled(roles.dbb) && Enabled(roles.dbbYes)
         && cf.Targets(roles.dbb.value) && cf.value == Str(roles.dbbYes.value) {
        isDbb := true;
      }
    }
  }

  /** The roster loop of `updateStatsBar`: totals and matched counts of all stays, arrivals and departures. */
  method CountStays(hotel: seq<HotelBooking>, matchedIds: set<string>, contextDate: Option<string>)
    returns (counts: HotelCounts)
    ensures counts == CountHotel(hotel, matchedIds, contextDate)
  {
    var total := |hotel|;
    var matched: nat, arrivalsTotal: nat, arrivalsMatched: nat := 0, 0, 0;
    var departuresTotal: nat, departuresMatched: nat := 0, 0;
    for i := 0 to |hotel|
      invariant matched == CountHotel(hotel[..i], matchedIds, contextDate).matched
      invariant arrivalsTotal == CountHotel(hotel[..i], matchedIds, contextDate).arrivalsTotal
      invariant arrivalsMatched == CountHotel(hotel[..i], matchedIds, contextDate).arrivalsMatched
      invariant departuresTotal == CountHotel(hotel[..i], matchedIds, contextDate).departuresTotal
      invariant departuresMatched == CountHotel(hotel[..i], matchedIds, contextDate).departuresMatched
    {
      CountHotelSnoc(hotel, matchedIds, contextDate, i);
      var booking := hotel[i];
      var isMatched := booking.bookingId in matchedIds;
      if isMatched {
        matched := matched + 1;
      }
      if IsArrival(booking, contextDate) {
        arrivalsTotal := arrivalsTotal + 1;
        if isMatched {
          arrivalsMatched := arrivalsMatched + 1;
        }
      }
      if IsDeparture(booking, contextDate) {
        departuresTotal := departuresTotal + 1;
        if isMatched {
          departuresMatched := departuresMatched + 1;
        }
      }
    }
    assert hotel[..|hotel|] == hotel;
    counts := HotelCounts(total, matched, arrivalsTotal, arrivalsMatched, departuresTotal, departuresMatched);
  }

  /** The roster loop of `buildPackageSet`: the ids of the stays with a package item on the date. */
  method CollectPackageStays(hotel: seq<HotelBooking>, date: string, name: string) returns (ids: set<string>)
    ensures ids == PackageIdsOf(date, name, hotel)
  {
    ids := {};
    for i := 0 to |hotel|
      invariant ids == PackageIdsOf(date, name, hotel[..i])
    {
      PackageIdsOfSnoc(date, name, hotel, i);
      var found := ScanInventory(hotel[i], date, name);
      if found {
        ids := ids + {hotel[i].bookingId};
      }
    }
    assert hotel[..|hotel|] == hotel;
  }

  /** The reservation loop of `updateStatsBar`: bookings and covers of the active reservations by kind. */
  method CountReservations(resos: seq<RestaurantBooking>, roles: Roles) returns (counts: RestaurantCounts)
    ensures counts == CountRestaurant(resos, roles)
  {
    var bookings: nat, covers: nat, dbbBookings: nat, dbbCovers: nat := 0, 0, 0, 0;
    var hotelGuestBookings: nat, hotelGuestCovers: nat, nonResidentBookings: nat, nonResidentCovers: nat := 0, 0, 0, 0;
    for i := 0 to |resos|
      invariant RestaurantCounts(bookings, covers, dbbBookings, dbbCovers,
                                 hotelGuestBookings, hotelGuestCovers, nonResidentBookings, nonResidentCovers)
             == CountRestaurant(resos[..i], roles)
    {
      assert resos[..i + 1][..i] == resos[..i];
      var b := resos[i];
      assert CountRestaurant(resos[..i + 1], roles) == CountReservation(CountRestaurant(resos[..i], roles), b, roles);
      if IsActiveStatus(b.status) {
        bookings := bookings + 1;
        covers := covers + Covers(b);
        var isHotelGuest, isDbb := false, false;
        if b.customFields.Some? {
          isHotelGuest, isDbb := ScanFlags(b.customFields.value, roles);
        }
        assert isHotelGuest == IsHotelGuest(b, roles) && isDbb == IsDbb(b, roles);
        if isDbb {
          dbbBookings := dbbBookings + 1;
          dbbCovers := dbbCovers + Covers(b);
        }
        if isHotelGuest {
          hotelGuestBookings := hotelGuestBookings + 1;
          hotelGuestCovers := hotelGuestCovers + Covers(b);
        } else {
          nonResidentBookings := nonResidentBookings + 1;
          nonResidentCovers := nonResidentCovers + Covers(b);
        }
      }
    }
    assert resos[..|resos|] == resos;
    counts := RestaurantCounts(bookings, covers, dbbBookings, dbbCovers,
                               hotelGuestBookings, hotelGuestCovers, nonResidentBookings, nonResidentCovers);
  }

  // ---------------------------------------------------------------------
  // STATE
  // ---------------------------------------------------------------------

  /** The part of the state that is derived from the fetched data. */
  datatype Derived = Derived(
    matchedBookingIds: set<string>,
    matchedBookingResosMap: map<string, string>,
    packageBookingIds: set<string>,
    orphanResosBookings: seq<Orphan>)

  /** What `buildMatchedSet`, `buildPackageSet` and `detectOrphanBookings` leave, from the data and the roles. */
  function Derive(settings: Settings, contextDate: Option<string>, roles: Roles,
                  hotel: seq<HotelBooking>, resos: seq<RestaurantBooking>): (d: Derived)
    ensures d.matchedBookingIds == d.matchedBookingResosMap.Keys
    ensures forall j :: 0 <= j < |d.orphanResosBookings| ==> d.orphanResosBookings[j].hotelBookingRef !in HotelIds(hotel)
  {
    MatchedSetIsMapKeys(roles, hotel, resos);
    OrphansWellFormed(if Enabled(roles.bookingRef) then roles.bookingRef.value else "", HotelIds(hotel), resos);
    Derived(MatchedIds(roles, hotel, resos), MatchMap(roles, hotel, resos),
            PackageIds(settings.packageInventoryName, contextDate, hotel),
            Orphans.Orphans(roles.bookingRef, hotel, resos))
  }

  /**
   * `STATE`. The six resolved field-role ids (`bookingRefFieldId` ... `groupExcludeFieldId`)
   * are kept together in `roles`; the view and selection fields are not modelled.
   */
  class State {
    /** The settings and the context date are fixed for the lifetime of one state (see README). */
    const settings: Settings
    const contextDate: Option<string>
    var newbookBookings: seq<HotelBooking>
    var resosBookings: seq<RestaurantBooking>
    var customFields: seq<FieldDef>
    var roles: Roles
    var matchedBookingIds: set<string>
    var matchedBookingResosMap: map<string, string>
    var packageBookingIds: set<string>
    var orphanResosBookings: seq<Orphan>
    /** The module-level `lastDataHash`, null until the first load. */
    var lastDataHash: Option<string>

    /** The initial state, once the settings and the context date are known. */
    constructor(settings: Settings, contextDate: Option<string>)
      ensures this.settings == settings && this.contextDate == contextDate
      ensures newbookBookings == [] && resosBookings == [] && customFields == [] && roles == NoRoles
      ensures matchedBookingIds == {} && matchedBookingResosMap == map[]
      ensures packageBookingIds == {} && orphanResosBookings == [] && lastDataHash == None
    {
      this.settings := settings;
      this.contextDate := contextDate;
      newbookBookings, resosBookings, customFields := [], [], [];
      roles := NoRoles;
      matchedBookingIds, matchedBookingResosMap := {}, map[];
      packageBookingIds, orphanResosBookings := {}, [];
      lastDataHash := None;
    }

    /** `resolveCustomFieldMappings`: the role ids after one resolution pass, assigned role by role. */
    method ResolveCustomFieldMappings()
      modifies this`roles
      ensures roles == Resolve(settings, customFields, old(roles))
    {
      roles := roles.(bookingRef := ResolveBookingRef(settings.bookingRefFieldId, customFields));
      var hotelGuest := ResolveChoiceRole(settings.hotelGuestFieldId, customFields, IsHotelGuestName,
                                          roles.hotelGuest, roles.hotelGuestYes);
      roles := roles.(hotelGuest := hotelGuest.0, hotelGuestYes := hotelGuest.1);
      roles := roles.(groupExclude := ResolveGroupExclude(customFields));
      var dbb := ResolveChoiceRole(settings.dbbFieldId, customFields, IsDbbName, roles.dbb, roles.dbbYes);
      roles := roles.(dbb := dbb.0, dbbYes := dbb.1);
    }

    /** `matchedBookingIds.add(id)` and `matchedBookingResosMap.set(id, resosId)` for each id in turn. */
    method Record(ids: seq<string>, resosId: string)
      modifies this`matchedBookingIds, this`matchedBookingResosMap
      ensures matchedBookingIds == old(matchedBookingIds) + Elems(ids)
      ensures matchedBookingResosMap == Assign(old(matchedBookingResosMap), ids, resosId)
    {
      for k := 0 to |ids|
        invariant matchedBookingIds == old(matchedBookingIds) + Elems(ids[..k])
        invariant matchedBookingResosMap == Assign(old(matchedBookingResosMap), ids[..k], resosId)
      {
        assert ids[..k + 1][..k] == ids[..k];
        ElemsAppend(ids[..k], [ids[k]]);
        assert ids[..k] + [ids[k]] == ids[..k + 1];
        matchedBookingIds := matchedBookingIds + {ids[k]};
        matchedBookingResosMap := matchedBookingResosMap[ids[k] := resosId];
      }
      assert ids[..|ids|] == ids;
    }

    /** The booking-reference pass of `buildMatchedSet` over one reservation's custom fields. */
    method RecordRefField(refId: string, cfs: seq<FieldEntry>, resosId: string)
      modifies this`matchedBookingIds, this`matchedBookingResosMap
      ensures matchedBookingIds == old(matchedBookingIds) + Elems(RefWrites(refId, cfs))
      ensures matchedBookingResosMap == Assign(old(matchedBookingResosMap), RefWrites(refId, cfs), resosId)
    {
      for j := 0 to |cfs|
        invariant matchedBookingIds == old(matchedBookingIds) + Elems(RefWrites(refId, cfs[..j]))
        invariant matchedBookingResosMap == Assign(old(matchedBookingResosMap), RefWrites(refId, cfs[..j]), resosId)
      {
        RefWritesSnoc(refId, cfs, j);
        var cf := cfs[j];
        ElemsAppend(RefWrites(refId, cfs[..j]), RefWrite(refId, cf));
        AssignAppend(old(matchedBookingResosMap), RefWrites(refId, cfs[..j]), RefWrite(refId, cf), resosId);
        if cf.Targets(refId) && Truthy(cf.value) {
          var nbId := ToJsString(cf.value);
          assert [nbId][..0] == [];
          matchedBookingIds := matchedBookingIds + {nbId};
          matchedBookingResosMap := matchedBookingResosMap[nbId := resosId];
        }
      }
      assert cfs[..|cfs|] == cfs;
    }

    /** The group part: every stay of every listed group, through `groupIdToBookingIds.get(gid) || []`. */
    method RecordGroups(idx: GroupIndex, gs: seq<string>, resosId: string)
      modifies this`matchedBookingIds, this`matchedBookingResosMap
      ensures matchedBookingIds == old(matchedBookingIds) + Elems(ExpandGroups(idx, gs))
      ensures matchedBookingResosMap == Assign(old(matchedBookingResosMap), ExpandGroups(idx, gs), resosId)
    {
      for k := 0 to |gs|
        invariant matchedBookingIds == old(matchedBookingIds) + Elems(ExpandGroups(idx, gs[..k]))
        invariant matchedBookingResosMap == Assign(old(matchedBookingResosMap), ExpandGroups(idx, gs[..k]), resosId)
      {
        ExpandGroupsSnoc(idx, gs, k);
        var gid := gs[k];
        var nbIds := if gid in idx then idx[gid] else [];
        ElemsAppend(ExpandGroups(idx, gs[..k]), nbIds);
        AssignAppend(old(matchedBookingResosMap), ExpandGroups(idx, gs[..k]), nbIds, resosId);
        Record(nbIds, resosId);
      }
      assert gs[..|gs|] == gs;
    }

    /** The GROUP/EXCLUDE pass of `buildMatchedSet` over one reservation's custom fields. */
    method RecordGroupExcludeField(geId: string, idx: GroupIndex, cfs: seq<FieldEntry>, resosId: string)
      modifies this`matchedBookingIds, this`matchedBookingResosMap
      ensures matchedBookingIds == old(matchedBookingIds) + Elems(GroupExcludeWrites(geId, idx, cfs))
      ensures matchedBookingResosMap == Assign(old(matchedBookingResosMap), GroupExcludeWrites(geId, idx, cfs), resosId)
    {
      for j := 0 to |cfs|
        invariant matchedBookingIds == old(matchedBookingIds) + Elems(GroupExcludeWrites(geId, idx, cfs[..j]))
        invariant matchedBookingResosMap == Assign(old(matchedBookingResosMap), GroupExcludeWrites(geId, idx, cfs[..j]), resosId)
      {
        GroupExcludeWritesSnoc(geId, idx, cfs, j);
        var cf := cfs[j];
        var done := GroupExcludeWrites(geId, idx, cfs[..j]);
        ElemsAppend(done, GroupExcludeWrite(geId, idx, cf));
        AssignAppend(old(matchedBookingResosMap), done, GroupExcludeWrite(geId, idx, cf), resosId);
        if cf.Targets(geId) && Truthy(cf.value) {
          var parsed := ParseGroupExcludeField(ToJsString(cf.value));
          ElemsAppend(parsed.individuals, ExpandGroups(idx, parsed.groups));
          AssignAppend(Assign(old(matchedBookingResosMap), done, resosId), parsed.individuals,
                       ExpandGroups(idx, parsed.groups), resosId);
          Record(parsed.individuals, resosId);
          RecordGroups(idx, parsed.groups, resosId);
        }
      }
      assert cfs[..|cfs|] == cfs;
    }

    /** `buildMatchedSet`: the matched set and the hotel -> restaurant map, rebuilt from scratch. */
    method BuildMatchedSet()
      modifies this`matchedBookingIds, this`matchedBookingResosMap
      ensures matchedBookingIds == MatchedIds(roles, newbookBookings, resosBookings)
      ensures matchedBookingResosMap == MatchMap(roles, newbookBookings, resosBookings)
    {
      matchedBookingIds := {};
      matchedBookingResosMap := map[];
      var idx := BuildGroupIndex(newbookBookings);
      for i := 0 to |resosBookings|
        invariant matchedBookingIds == Elems(AllWrites(roles, idx, resosBookings[..i]))
        invariant matchedBookingResosMap == MatchFrom(map[], roles, idx, resosBookings[..i])
      {
        AllWritesSnoc(roles, idx, resosBookings, i);
        var rb := resosBookings[i];
        ElemsAppend(AllWrites(roles, idx, resosBookings[..i]), Writes(roles, idx, rb));
        if IsActiveStatus(rb.status) && rb.customFields.Some? {
          var cfs := rb.customFields.value;
          var byRef := if Enabled(roles.bookingRef) then RefWrites(roles.bookingRef.value, cfs) else [];
          var byGroupExclude :=
            if Enabled(roles.groupExclude) then GroupExcludeWrites(roles.groupExclude.value, idx, cfs) else [];
          ElemsAppend(byRef, byGroupExclude);
          AssignAppend(matchedBookingResosMap, byRef, byGroupExclude, rb.id);
          if Enabled(roles.bookingRef) {
            RecordRefField(roles.bookingRef.value, cfs, rb.id);
          }
          if Enabled(roles.groupExclude) {
            RecordGroupExcludeField(roles.groupExclude.value, idx, cfs, rb.id);
          }
        }
      }
      assert resosBookings[..|resosBookings|] == resosBookings;
    }

    /** `detectOrphanBookings`: the orphan list, rebuilt from scratch. */
    method DetectOrphanBookings()
      modifies this`orphanResosBookings
      ensures orphanResosBookings == Orphans.Orphans(roles.bookingRef, newbookBookings, resosBookings)
    {
      orphanResosBookings := [];
      if !Enabled(roles.bookingRef) {
        return;
      }
      var refId := roles.bookingRef.value;
      var newbookIds := HotelIds(newbookBookings);
      for i := 0 to |resosBookings|
        invariant orphanResosBookings == OrphansFrom(refId, newbookIds, resosBookings[..i])
      {
        OrphansFromSnoc(refId, newbookIds, resosBookings, i);
        var orphan := FindOrphan(refId, newbookIds, resosBookings[i]);
        if orphan.Some? {
          orphanResosBookings := orphanResosBookings + [orphan.value];
        }
      }
      assert resosBookings[..|resosBookings|] == resosBookings;
    }

    /** `buildPackageSet`: the package set, rebuilt from scratch. */
    method BuildPackageSet()
      modifies this`packageBookingIds
      ensures packageBookingIds == PackageIds(settings.packageInventoryName, contextDate, newbookBookings)
    {
      packageBookingIds := {};
      var packageName := ToLower(Trim(settings.packageInventoryName));
      if packageName == "" {
        return;
      }
      if contextDate.None? || contextDate.value == "" {
        return;
      }
      packageBookingIds := CollectPackageStays(newbookBookings, contextDate.value, packageName);
    }

    /** The counters of `updateStatsBar`, over the roster and over the reservations. */
    method UpdateStatsBar() returns (hotel: HotelCounts, restaurant: RestaurantCounts)
      ensures hotel == CountHotel(newbookBookings, matchedBookingIds, contextDate)
      ensures restaurant == CountRestaurant(resosBookings, roles)
    {
      hotel := CountStays(newbookBookings, matchedBookingIds, contextDate);
      restaurant := CountReservations(resosBookings, roles);
    }

    /** `buildMatchedSet(); buildPackageSet(); detectOrphanBookings();`, run after new data has been taken. */
    method RebuildDerived()
      modifies this`matchedBookingIds, this`matchedBookingResosMap, this`packageBookingIds, this`orphanResosBookings
      ensures Derived(matchedBookingIds, matchedBookingResosMap, packageBookingIds, orphanResosBookings)
           == Derive(settings, contextDate, roles, newbookBookings, resosBookings)
    {
      BuildMatchedSet();
      BuildPackageSet();
      DetectOrphanBookings();
    }

    /** The state updates of `loadData` past its context-date guard. */
    method TakeData(hotel: seq<HotelBooking>, resos: seq<RestaurantBooking>, defs: seq<FieldDef>)
      modifies this`newbookBookings, this`resosBookings, this`customFields, this`roles, this`lastDataHash
      modifies this`matchedBookingIds, this`matchedBookingResosMap, this`packageBookingIds, this`orphanResosBookings
      ensures newbookBookings == hotel && resosBookings == resos && customFields == defs
      ensures roles == Resolve(settings, defs, old(roles))
      ensures Derived(matchedBookingIds, matchedBookingResosMap, packageBookingIds, orphanResosBookings)
           == Derive(settings, contextDate, roles, hotel, resos)
      ensures lastDataHash == Some(ComputeDataHash(hotel, resos))
    {
      newbookBookings, resosBookings, customFields := hotel, resos, defs;
      ResolveCustomFieldMappings();
      RebuildDerived();
      lastDataHash := Some(ComputeDataHash(hotel, resos));
    }

    /**
     * The state updates of `loadData` once the three fetches have returned: take the data,
     * resolve the roles, rebuild everything derived and store the data's fingerprint.
     * Without a context date nothing is fetched and nothing changes.
     */
    method LoadData(hotel: seq<HotelBooking>, resos: seq<RestaurantBooking>, defs: seq<FieldDef>)
      modifies this`newbookBookings, this`resosBookings, this`customFields, this`roles, this`lastDataHash
      modifies this`matchedBookingIds, this`matchedBookingResosMap, this`packageBookingIds, this`orphanResosBookings
      ensures contextDate.None? || contextDate == Some("") ==>
        unchanged(this`newbookBookings, this`resosBookings, this`customFields, this`roles, this`lastDataHash,
                  this`matchedBookingIds, this`matchedBookingResosMap, this`packageBookingIds, this`orphanResosBookings)
      ensures contextDate.Some? && contextDate != Some("") ==>
        && newbookBookings == hotel && resosBookings == resos && customFields == defs
        && roles == Resolve(settings, defs, old(roles))
        && Derived(matchedBookingIds, matchedBookingResosMap, packageBookingIds, orphanResosBookings)
           == Derive(settings, contextDate, roles, hotel, resos)
        && lastDataHash == Some(ComputeDataHash(hotel, resos))
    {
      if contextDate.None? || contextDate.value == "" {
        return;
      }
      TakeData(hotel, resos, defs);
    }

    /**
     * `silentRefresh` once both fetches have returned: when the fingerprint of the new
     * data equals the stored one nothing changes; otherwise the new data is taken and
     * the matching, packages and orphans are rebuilt (the roles are not re-resolved).
     */
    method SilentRefresh(hotel: seq<HotelBooking>, resos: seq<RestaurantBooking>) returns (changed: bool)
      modifies this`newbookBookings, this`resosBookings, this`lastDataHash
      modifies this`matchedBookingIds, this`matchedBookingResosMap, this`packageBookingIds, this`orphanResosBookings
      ensures changed <==> contextDate.Some? && contextDate != Some("")
                           && old(lastDataHash) != Some(ComputeDataHash(hotel, resos))
      ensures !changed ==>
        unchanged(this`newbookBookings, this`resosBookings, this`lastDataHash,
                  this`matchedBookingIds, this`matchedBookingResosMap, this`packageBookingIds, this`orphanResosBookings)
      ensures changed ==>
        && newbookBookings == hotel && resosBookings == resos
        && Derived(matchedBookingIds, matchedBookingResosMap, packageBookingIds, orphanResosBookings)
           == Derive(settings, contextDate, roles, hotel, resos)
        && lastDataHash == Some(ComputeDataHash(hotel, resos))
    {
      changed := false;
      if contextDate.None? || contextDate.value == "" {
        return;
      }
      var newHash := ComputeDataHash(hotel, resos);
      if lastDataHash == Some(newHash) {
        return;
      }
      lastDataHash := Some(newHash);
      newbookBookings, resosBookings := hotel, resos;
      RebuildDerived();
      changed := true;
    }

    /**
     * The state updates of `markAllAsLeft` once the fresh reservations have been fetched:
     * take them, rebuild the matching and the orphans, and store the new fingerprint.
     * The package set does not depend on the reservations, so a state that agreed with
     * its data still does.
     */
    method RefreshReservations(freshBookings: seq<RestaurantBooking>)
      modifies this`resosBookings, this`matchedBookingIds, this`matchedBookingResosMap, this`orphanResosBookings
      modifies this`lastDataHash
      ensures resosBookings == freshBookings
      ensures matchedBookingIds == MatchedIds(roles, newbookBookings, freshBookings)
      ensures matchedBookingResosMap == MatchMap(roles, newbookBookings, freshBookings)
      ensures orphanResosBookings == Orphans.Orphans(roles.bookingRef, newbookBookings, freshBookings)
      ensures lastDataHash == Some(ComputeDataHash(newbookBookings, freshBookings))
      ensures old(packageBookingIds == PackageIds(settings.packageInventoryName, contextDate, newbookBookings)) ==>
        Derived(matchedBookingIds, matchedBookingResosMap, packageBookingIds, orphanResosBookings)
        == Derive(settings, contextDate, roles, newbookBookings, freshBookings)
    {
      resosBookings := freshBookings;
      BuildMatchedSet();
      DetectOrphanBookings();
      lastDataHash := Some(ComputeDataHash(newbookBookings, freshBookings));
    }

    /** The in-place update `b.status = 'left'` of `confirmMarkAllAsLeft`. */
    method MarkAsLeft(ids: seq<string>)
      modifies this`resosBookings
      ensures resosBookings == MarkedLeft(old(resosBookings), ids)
    {
      ghost var original := resosBookings;
      for i := 0 to |resosBookings|
        invariant |resosBookings| == |original|
        invariant forall j :: 0 <= j < i ==> resosBookings[j] == MarkOne(original[j], ids)
        invariant forall j :: i <= j < |resosBookings| ==> resosBookings[j] == original[j]
      {
        if resosBookings[i].id in ids {
          resosBookings := resosBookings[i := resosBookings[i].(status := "left")];
        }
      }
    }

    /**
     * The local part of `confirmMarkAllAsLeft` (nothing happens for an empty list): mark
     * the listed reservations as left, then rebuild the matching and the orphans. The
     * package set does not depend on the reservations, so a state that agreed with its
     * data still does, and no stay drops out of a matched set that was up to date.
     */
    method ConfirmMarkAllAsLeft(ids: seq<string>)
      modifies this`resosBookings, this`matchedBookingIds, this`matchedBookingResosMap, this`orphanResosBookings
      ensures resosBookings == MarkedLeft(old(resosBookings), ids)
      ensures |ids| == 0 ==> unchanged(this`matchedBookingIds, this`matchedBookingResosMap, this`orphanResosBookings)
      ensures |ids| > 0 ==>
        && matchedBookingIds == MatchedIds(roles, newbookBookings, resosBookings)
        && matchedBookingResosMap == MatchMap(roles, newbookBookings, resosBookings)
        && orphanResosBookings == Orphans.Orphans(roles.bookingRef, newbookBookings, resosBookings)
      ensures old(packageBookingIds == PackageIds(settings.packageInventoryName, contextDate, newbookBookings)) && |ids| > 0 ==>
        Derived(matchedBookingIds, matchedBookingResosMap, packageBookingIds, orphanResosBookings)
        == Derive(settings, contextDate, roles, newbookBookings, resosBookings)
      ensures old(matchedBookingIds == MatchedIds(roles, newbookBookings, resosBookings)) ==>
        old(matchedBookingIds) <= matchedBookingIds
    {
      if |ids| == 0 {
        assert resosBookings == MarkedLeft(resosBookings, ids);
        return;
      }
      ghost var before := resosBookings;
      MarkAsLeft(ids);
      BuildMatchedSet();
      DetectOrphanBookings();
      MarkingLeftKeepsMatches(roles, IndexOf(newbookBookings), before, ids);
    }
  }
}
