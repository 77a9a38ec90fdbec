/**
 * Matching hotel stays to restaurant reservations. A group index maps each
 * `String(bookings_group_id)` to the stay ids of that group; every active restaurant
 * reservation then "writes" hotel ids through its booking-reference field (the value
 * as-is, untrimmed) and through its GROUP/EXCLUDE field (`#id` entries directly,
 * `G#group` entries expanded through the index). Each written id joins the matched
 * set and is mapped to the reservation's `_id`, the last write winning.
 */
module Matching {
  import opened Js
  import opened Records
  import opened FieldRoles
  import opened GroupExclude

  function Elems(s: seq<string>): set<string> {
    set x | x in s
  }

  lemma ElemsAppend(a: seq<string>, b: seq<string>)
    ensures Elems(a + b) == Elems(a) + Elems(b)
  {
  }

  /** The concatenation of `f(x)` over `xs`, in order. */
  function FlatMap<T>(xs: seq<T>, f: T -> seq<string>): seq<string>
    decreases |xs|
  {
    if |xs| == 0 then [] else FlatMap(xs[..|xs| - 1], f) + f(xs[|xs| - 1])
  }

  lemma {:induction false} FlatMapIn<T>(xs: seq<T>, f: T -> seq<string>, x: string)
    ensures x in FlatMap(xs, f) <==> exists j :: 0 <= j < |xs| && x in f(xs[j])
    decreases |xs|
  {
    if |xs| > 0 {
      var xs' := xs[..|xs| - 1];
      FlatMapIn(xs', f, x);
      if x in FlatMap(xs', f) {
        var j :| 0 <= j < |xs'| && x in f(xs'[j]);
        assert xs[j] == xs'[j];
      }
      if exists j :: 0 <= j < |xs| && x in f(xs[j]) {
        var j :| 0 <= j < |xs| && x in f(xs[j]);
        if j < |xs'| {
          assert xs'[j] == xs[j];
        }
      }
    }
  }

  lemma {:induction false} FlatMapAppend<T>(a: seq<T>, b: seq<T>, f: T -> seq<string>)
    ensures FlatMap(a + b, f) == FlatMap(a, f) + FlatMap(b, f)
    decreases |b|
  {
    if |b| == 0 {
      assert a + b == a;
    } else {
      assert (a + b)[..|a + b| - 1] == a + b[..|b| - 1];
      assert (a + b)[|a + b| - 1] == b[|b| - 1];
      FlatMapAppend(a, b[..|b| - 1], f);
    }
  }

  // ---------------------------------------------------------------------
  // The group index
  // ---------------------------------------------------------------------

  type GroupIndex = map<string, seq<string>>

  /** `groupIdToBookingIds.get(g) || []` */
  function Lookup(idx: GroupIndex, g: string): seq<string> {
    if g in idx then idx[g] else []
  }

  /** A stay belongs to group `g` when its group id is truthy and reads as `g`. */
  predicate InGroup(nb: HotelBooking, g: string) {
    Truthy(nb.groupId) && ToJsString(nb.groupId) == g
  }

  /** One step of the index loop: a stay with a truthy group id is appended to its group. */
  function IndexStay(idx: GroupIndex, nb: HotelBooking): GroupIndex {
    if Truthy(nb.groupId) then
      var g := ToJsString(nb.groupId);
      idx[g := Lookup(idx, g) + [nb.bookingId]]
    else idx
  }

  function IndexOf(hotel: seq<HotelBooking>): GroupIndex
    decreases |hotel|
  {
    if |hotel| == 0 then map[] else IndexStay(IndexOf(hotel[..|hotel| - 1]), hotel[|hotel| - 1])
  }

  /** The ids of the stays of group `g`, in roster order. */
  function GroupMembers(hotel: seq<HotelBooking>, g: string): (r: seq<string>)
    ensures forall x :: x in r <==> exists j :: 0 <= j < |hotel| && hotel[j].bookingId == x && InGroup(hotel[j], g)
    decreases |hotel|
  {
    if |hotel| == 0 then []
    else
      var prefix := hotel[..|hotel| - 1];
      var nb := hotel[|hotel| - 1];
      var rest := GroupMembers(prefix, g);
      assert forall j :: 0 <= j < |prefix| ==> prefix[j] == hotel[j];
      if InGroup(nb, g) then rest + [nb.bookingId] else rest
  }

  /** The index built by the loop holds exactly each group's members, in roster order. */
  lemma {:induction false} IndexHoldsMembers(hotel: seq<HotelBooking>, g: string)
    ensures Lookup(IndexOf(hotel), g) == GroupMembers(hotel, g)
    decreases |hotel|
  {
    if |hotel| > 0 {
      IndexHoldsMembers(hotel[..|hotel| - 1], g);
    }
  }

  /** The loop at the start of `buildMatchedSet` that fills `groupIdToBookingIds`. */
  method BuildGroupIndex(hotel: seq<HotelBooking>) returns (idx: GroupIndex)
    ensures idx == IndexOf(hotel)
    ensures forall g :: Lookup(idx, g) == GroupMembers(hotel, g)
  {
    idx := map[];
    for i := 0 to |hotel|
      invariant idx == IndexOf(hotel[..i])
    {
      assert hotel[..i + 1][..i] == hotel[..i];
      var nb := hotel[i];
      if Truthy(nb.groupId) {
        var g := ToJsString(nb.groupId);
        if g !in idx {
          idx := idx[g := []];
        }
        idx := idx[g := idx[g] + [nb.bookingId]];
      }
    }
    assert hotel[..|hotel|] == hotel;
    forall g ensures Lookup(idx, g) == GroupMembers(hotel, g) {
      IndexHoldsMembers(hotel, g);
    }
  }

  // ---------------------------------------------------------------------
  // What one reservation writes
  // ---------------------------------------------------------------------

  /** Through the booking-reference role: `String(cf.value)` of a truthy value, not trimmed. */
  function RefWrite(fieldId: string, cf: FieldEntry): seq<string> {
    if cf.Targets(fieldId) && Truthy(cf.value) then [ToJsString(cf.value)] else []
  }

  /** Every id listed by the groups `gs`, group after group. */
  function ExpandGroups(idx: GroupIndex, gs: seq<string>): seq<string> {
    FlatMap(gs, g => Lookup(idx, g))
  }

  /** Through the GROUP/EXCLUDE role: the `#` ids, then the members of the `G#` groups. */
  function GroupExcludeWrite(fieldId: string, idx: GroupIndex, cf: FieldEntry): seq<string> {
    if cf.Targets(fieldId) && Truthy(cf.value) then
      var p := Parse(ToJsString(cf.value));
      p.individuals + ExpandGroups(idx, p.groups)
    else []
  }

  /** The ids written through the booking-reference field `refId`, entry after entry. */
  function RefWrites(refId: string, cfs: seq<FieldEntry>): seq<string> {
    FlatMap(cfs, cf => RefWrite(refId, cf))
  }

  /** The ids written through the GROUP/EXCLUDE field `geId`, entry after entry. */
  function GroupExcludeWrites(geId: string, idx: GroupIndex, cfs: seq<FieldEntry>): seq<string> {
    FlatMap(cfs, cf => GroupExcludeWrite(geId, idx, cf))
  }

  /** The hotel ids one reservation writes, in the order the source writes them. */
  function Writes(roles: Roles, idx: GroupIndex, rb: RestaurantBooking): (r: seq<string>)
    ensures !IsActiveStatus(rb.status) || rb.customFields.None? ==> r == []
  {
    if !IsActiveStatus(rb.status) || rb.customFields.None? then []
    else
      var cfs := rb.customFields.value;
      var byRef := if Enabled(roles.bookingRef) then RefWrites(roles.bookingRef.value, cfs) else [];
      var byGroupExclude :=
        if Enabled(roles.groupExclude) then GroupExcludeWrites(roles.groupExclude.value, idx, cfs) else [];
      byRef + byGroupExclude
  }

  lemma RefWritesSnoc(refId: string, cfs: seq<FieldEntry>, j: nat)
    requires j < |cfs|
    ensures RefWrites(refId, cfs[..j + 1]) == RefWrites(refId, cfs[..j]) + RefWrite(refId, cfs[j])
  {
    assert cfs[..j + 1][..j] == cfs[..j];
  }

  lemma GroupExcludeWritesSnoc(geId: string, idx: GroupIndex, cfs: seq<FieldEntry>, j: nat)
    requires j < |cfs|
    ensures GroupExcludeWrites(geId, idx, cfs[..j + 1])
         == GroupExcludeWrites(geId, idx, cfs[..j]) + GroupExcludeWrite(geId, idx, cfs[j])
  {
    assert cfs[..j + 1][..j] == cfs[..j];
  }

  lemma ExpandGroupsSnoc(idx: GroupIndex, gs: seq<string>, k: nat)
    requires k < |gs|
    ensures ExpandGroups(idx, gs[..k + 1]) == ExpandGroups(idx, gs[..k]) + Lookup(idx, gs[k])
  {
    assert gs[..k + 1][..k] == gs[..k];
  }

  // ---------------------------------------------------------------------
  // The matched set and the hotel -> restaurant map
  // ---------------------------------------------------------------------

  /** `map.set(id, resosId)` for each id in turn. */
  function Assign(m: map<string, string>, ids: seq<string>, resosId: string): map<string, string>
    decreases |ids|
  {
    if |ids| == 0 then m else Assign(m, ids[..|ids| - 1], resosId)[ids[|ids| - 1] := resosId]
  }

  /** The map after the reservations `resos` have been processed, starting from `m0`. */
  function MatchFrom(m0: map<string, string>, roles: Roles, idx: GroupIndex,
                     resos: seq<RestaurantBooking>): map<string, string>
    decreases |resos|
  {
    if |resos| == 0 then m0
    else
      var rb := resos[|resos| - 1];
      Assign(MatchFrom(m0, roles, idx, resos[..|resos| - 1]), Writes(roles, idx, rb), rb.id)
  }

  /** Every id written by `resos`, in order. */
  function AllWrites(roles: Roles, idx: GroupIndex, resos: seq<RestaurantBooking>): seq<string> {
    FlatMap(resos, rb => Writes(roles, idx, rb))
  }

  lemma AllWritesSnoc(roles: Roles, idx: GroupIndex, resos: seq<RestaurantBooking>, i: nat)
    requires i < |resos|
    ensures AllWrites(roles, idx, resos[..i + 1]) == AllWrites(roles, idx, resos[..i]) + Writes(roles, idx, resos[i])
    ensures MatchFrom(map[], roles, idx, resos[..i + 1])
         == Assign(MatchFrom(map[], roles, idx, resos[..i]), Writes(roles, idx, resos[i]), resos[i].id)
  {
    assert resos[..i + 1][..i] == resos[..i];
  }

  /** Writing `a` and then `b` is writing `a + b`. */
  lemma {:induction false} AssignAppend(m: map<string, string>, a: seq<string>, b: seq<string>, resosId: string)
    ensures Assign(m, a + b, resosId) == Assign(Assign(m, a, resosId), b, resosId)
    decreases |b|
  {
    if |b| == 0 {
      assert a + b == a;
    } else {
      assert (a + b)[..|a + b| - 1] == a + b[..|b| - 1];
      assert (a + b)[|a + b| - 1] == b[|b| - 1];
      AssignAppend(m, a, b[..|b| - 1], resosId);
    }
  }

  /** `STATE.matchedBookingResosMap` after `buildMatchedSet`. */
  function MatchMap(roles: Roles, hotel: seq<HotelBooking>, resos: seq<RestaurantBooking>): map<string, string> {
    MatchFrom(map[], roles, IndexOf(hotel), resos)
  }

  /** `STATE.matchedBookingIds` after `buildMatchedSet`. */
  function MatchedIds(roles: Roles, hotel: seq<HotelBooking>, resos: seq<RestaurantBooking>): set<string> {
    Elems(AllWrites(roles, IndexOf(hotel), resos))
  }

  lemma {:induction false} AssignKeys(m: map<string, string>, ids: seq<string>, resosId: string)
    ensures Assign(m, ids, resosId).Keys == m.Keys + Elems(ids)
    decreases |ids|
  {
    if |ids| > 0 {
      var ids' := ids[..|ids| - 1];
      AssignKeys(m, ids', resosId);
      assert Elems(ids) == Elems(ids') + {ids[|ids| - 1]} by {
        assert ids == ids' + [ids[|ids| - 1]];
      }
    }
  }

  /** A written id maps to the writer; any other key keeps its value. */
  lemma {:induction false} AssignLookup(m: map<string, string>, ids: seq<string>, resosId: string, k: string)
    ensures k in ids ==> k in Assign(m, ids, resosId) && Assign(m, ids, resosId)[k] == resosId
    ensures k !in ids ==> (k in Assign(m, ids, resosId) <==> k in m)
    ensures k !in ids && k in m ==> Assign(m, ids, resosId)[k] == m[k]
    decreases |ids|
  {
    if |ids| > 0 {
      var ids' := ids[..|ids| - 1];
      AssignLookup(m, ids', resosId, k);
      assert ids == ids' + [ids[|ids| - 1]];
    }
  }

  lemma {:induction false} MatchFromKeys(m0: map<string, string>, roles: Roles, idx: GroupIndex,
                                          resos: seq<RestaurantBooking>)
    ensures MatchFrom(m0, roles, idx, resos).Keys == m0.Keys + Elems(AllWrites(roles, idx, resos))
    decreases |resos|
  {
    if |resos| > 0 {
      var prefix := resos[..|resos| - 1];
      var rb := resos[|resos| - 1];
      MatchFromKeys(m0, roles, idx, prefix);
      AssignKeys(MatchFrom(m0, roles, idx, prefix), Writes(roles, idx, rb), rb.id);
      var f := (b: RestaurantBooking) => Writes(roles, idx, b);
      assert AllWrites(roles, idx, resos) == AllWrites(roles, idx, prefix) + Writes(roles, idx, rb);
      assert Elems(AllWrites(roles, idx, prefix) + Writes(roles, idx, rb))
          == Elems(AllWrites(roles, idx, prefix)) + Elems(Writes(roles, idx, rb));
    }
  }

  /** The matched set is exactly the key set of the hotel -> restaurant map. */
  lemma MatchedSetIsMapKeys(roles: Roles, hotel: seq<HotelBooking>, resos: seq<RestaurantBooking>)
    ensures MatchMap(roles, hotel, resos).Keys == MatchedIds(roles, hotel, resos)
  {
    MatchFromKeys(map[], roles, IndexOf(hotel), resos);
  }

  /** Every value of the map is the `_id` of an active reservation that wrote that key. */
  lemma {:induction false} MatchFromValues(m0: map<string, string>, roles: Roles, idx: GroupIndex,
                                            resos: seq<RestaurantBooking>, k: string)
    requires k in MatchFrom(m0, roles, idx, resos)
    ensures (k in m0 && MatchFrom(m0, roles, idx, resos)[k] == m0[k])
         || exists j :: 0 <= j < |resos| && k in Writes(roles, idx, resos[j])
                        && MatchFrom(m0, roles, idx, resos)[k] == resos[j].id
    decreases |resos|
  {
    if |resos| > 0 {
      var prefix := resos[..|resos| - 1];
      var rb := resos[|resos| - 1];
      var before := MatchFrom(m0, roles, idx, prefix);
      AssignLookup(before, Writes(roles, idx, rb), rb.id, k);
      if k !in Writes(roles, idx, rb) {
        MatchFromValues(m0, roles, idx, prefix, k);
        if !(k in m0 && before[k] == m0[k]) {
          var j :| 0 <= j < |prefix| && k in Writes(roles, idx, prefix[j]) && before[k] == prefix[j].id;
          assert resos[j] == prefix[j];
        }
      }
    }
  }

  lemma MatchValuesAreActiveWriters(roles: Roles, hotel: seq<HotelBooking>, resos: seq<RestaurantBooking>, k: string)
    requires k in MatchMap(roles, hotel, resos)
    ensures exists j :: 0 <= j < |resos| && IsActiveStatus(resos[j].status) && resos[j].customFields.Some?
                        && k in Writes(roles, IndexOf(hotel), resos[j])
                        && MatchMap(roles, hotel, resos)[k] == resos[j].id
  {
    MatchFromValues(map[], roles, IndexOf(hotel), resos, k);
  }

  /** For a key written by several reservations, the last writer is the value. */
  lemma {:induction false} LastWriteWins(m0: map<string, string>, roles: Roles, idx: GroupIndex,
                                          resos: seq<RestaurantBooking>, j: int, k: string)
    requires 0 <= j < |resos| && k in Writes(roles, idx, resos[j])
    requires forall j' :: j < j' < |resos| ==> k !in Writes(roles, idx, resos[j'])
    ensures k in MatchFrom(m0, roles, idx, resos) && MatchFrom(m0, roles, idx, resos)[k] == resos[j].id
    decreases |resos|
  {
    var prefix := resos[..|resos| - 1];
    var rb := resos[|resos| - 1];
    var before := MatchFrom(m0, roles, idx, prefix);
    AssignLookup(before, Writes(roles, idx, rb), rb.id, k);
    if j < |resos| - 1 {
      assert prefix[j] == resos[j];
      LastWriteWins(m0, roles, idx, prefix, j, k);
    }
  }

  lemma {:induction false} MatchFromAppend(m0: map<string, string>, roles: Roles, idx: GroupIndex,
                                            a: seq<RestaurantBooking>, b: seq<RestaurantBooking>)
    ensures MatchFrom(m0, roles, idx, a + b) == MatchFrom(MatchFrom(m0, roles, idx, a), roles, idx, b)
    decreases |b|
  {
    if |b| == 0 {
      assert a + b == a;
    } else {
      assert (a + b)[..|a + b| - 1] == a + b[..|b| - 1];
      assert (a + b)[|a + b| - 1] == b[|b| - 1];
      MatchFromAppend(m0, roles, idx, a, b[..|b| - 1]);
    }
  }

  /** A reservation that is not active, or has no custom fields, changes neither the map nor the set. */
  lemma InactiveReservationIgnored(roles: Roles, hotel: seq<HotelBooking>,
                                   a: seq<RestaurantBooking>, rb: RestaurantBooking, b: seq<RestaurantBooking>)
    requires !IsActiveStatus(rb.status) || rb.customFields.None?
    ensures MatchMap(roles, hotel, a + [rb] + b) == MatchMap(roles, hotel, a + b)
    ensures MatchedIds(roles, hotel, a + [rb] + b) == MatchedIds(roles, hotel, a + b)
  {
    var idx := IndexOf(hotel);
    MatchFromAppend(map[], roles, idx, a + [rb], b);
    MatchFromAppend(map[], roles, idx, a, [rb]);
    MatchFromAppend(map[], roles, idx, a, b);
    assert [rb][..0] == [];
    var f := (x: RestaurantBooking) => Writes(roles, idx, x);
    FlatMapAppend(a + [rb], b, f);
    FlatMapAppend(a, [rb], f);
    FlatMapAppend(a, b, f);
    assert FlatMap([rb], f) == FlatMap([rb][..0], f) + f(rb);
  }

  /** `G#g` entries reach exactly the stays of the listed groups; a stay with a falsy group id is never reached. */
  lemma ExpandGroupsReaches(hotel: seq<HotelBooking>, gs: seq<string>, x: string)
    ensures x in ExpandGroups(IndexOf(hotel), gs) <==>
      exists i, j :: 0 <= i < |gs| && 0 <= j < |hotel| && hotel[j].bookingId == x && InGroup(hotel[j], gs[i])
  {
    var idx := IndexOf(hotel);
    FlatMapIn(gs, g => Lookup(idx, g), x);
    forall i | 0 <= i < |gs| ensures Lookup(idx, gs[i]) == GroupMembers(hotel, gs[i]) {
      IndexHoldsMembers(hotel, gs[i]);
    }
  }

  /** A group no stay belongs to expands to nothing. */
  lemma UnknownGroupAddsNothing(hotel: seq<HotelBooking>, g: string)
    requires forall j :: 0 <= j < |hotel| ==> !InGroup(hotel[j], g)
    ensures Lookup(IndexOf(hotel), g) == []
  {
    IndexHoldsMembers(hotel, g);
  }
}
