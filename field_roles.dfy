/**
 * Custom-field role resolution: which of the reservation platform's custom fields
 * holds the hotel booking reference, the hotel-guest flag, the DBB (dinner, bed and
 * breakfast) flag and the GROUP/EXCLUDE list, and which choice of a flag field means "yes".
 */
module FieldRoles {
  import opened Js
  import opened Records

  /** The six field-role ids the engine keeps; None is JavaScript's null. */
  datatype Roles = Roles(
    bookingRef: Option<string>,
    hotelGuest: Option<string>,
    hotelGuestYes: Option<string>,
    dbb: Option<string>,
    dbbYes: Option<string>,
    groupExclude: Option<string>)

  const NoRoles := Roles(None, None, None, None, None, None)

  /** `i` is the first position of `s` whose element satisfies `p` (what `Array.find` picks). */
  ghost predicate IsFirst<T>(s: seq<T>, i: int, p: T -> bool) {
    0 <= i < |s| && p(s[i]) && forall j :: 0 <= j < i ==> !p(s[j])
  }

  /** The index `Array.prototype.find` stops at, if any. */
  function FirstIndex<T>(s: seq<T>, p: T -> bool): (r: Option<nat>)
    ensures r.Some? ==> IsFirst(s, r.value, p)
    ensures r.None? ==> forall j :: 0 <= j < |s| ==> !p(s[j])
    decreases |s|
  {
    if |s| == 0 then None
    else if p(s[0]) then Some(0)
    else
      match FirstIndex(s[1..], p)
      case None => None
      case Some(k) => Some(k + 1)
  }

  lemma FirstIsUnique<T>(s: seq<T>, i: int, j: int, p: T -> bool)
    requires IsFirst(s, i, p) && IsFirst(s, j, p)
    ensures i == j
  {
  }

  // ---------------------------------------------------------------------
  // Name heuristics
  // ---------------------------------------------------------------------

  predicate IsBookingRefName(name: string) {
    Contains(ToLower(name), "booking") && Contains(ToLower(name), "#")
  }

  predicate IsHotelGuestName(name: string) {
    Contains(ToLower(name), "hotel") && Contains(ToLower(name), "guest")
  }

  predicate IsDbbName(name: string) {
    ToLower(name) == "dbb"
  }

  /** The GROUP/EXCLUDE field is recognised by its exact, case-sensitive name. */
  predicate IsGroupExcludeName(name: string) {
    name == "GROUP/EXCLUDE"
  }

  predicate IsYes(c: Choice) {
    ToLower(c.name) == "yes"
  }

  /** The id of the first choice named "yes" in any letter case, or null. */
  function YesChoice(choices: seq<Choice>): (r: Option<string>)
    ensures r.None? <==> forall j :: 0 <= j < |choices| ==> !IsYes(choices[j])
    ensures forall i | IsFirst(choices, i, IsYes) :: r == Some(choices[i].id)
  {
    match FirstIndex(choices, IsYes)
    case None => None
    case Some(i) => Some(choices[i].id)
  }

  // ---------------------------------------------------------------------
  // The roles
  // ---------------------------------------------------------------------

  /**
   * The booking-reference role: a non-empty configured id is used verbatim; otherwise
   * the first field whose lower-cased name contains both "booking" and "#", or null.
   */
  function ResolveBookingRef(overrideId: string, defs: seq<FieldDef>): (r: Option<string>)
    ensures overrideId != "" ==> r == Some(overrideId)
    ensures overrideId == "" ==>
      (r.None? <==> forall j :: 0 <= j < |defs| ==> !IsBookingRefName(defs[j].name))
    ensures overrideId == "" ==>
      forall i | IsFirst(defs, i, (f: FieldDef) => IsBookingRefName(f.name)) :: r == Some(defs[i].id)
  {
    if overrideId != "" then Some(overrideId)
    else
      match FirstIndex(defs, (f: FieldDef) => IsBookingRefName(f.name))
      case None => None
      case Some(i) => Some(defs[i].id)
  }

  /** The GROUP/EXCLUDE role: always re-resolved by exact name, there is no configured override. */
  function ResolveGroupExclude(defs: seq<FieldDef>): (r: Option<string>)
    ensures r.None? <==> forall j :: 0 <= j < |defs| ==> !IsGroupExcludeName(defs[j].name)
    ensures forall i | IsFirst(defs, i, (f: FieldDef) => IsGroupExcludeName(f.name)) :: r == Some(defs[i].id)
  {
    match FirstIndex(defs, (f: FieldDef) => IsGroupExcludeName(f.name))
    case None => None
    case Some(i) => Some(defs[i].id)
  }

  /** The "yes" choice of a field found for a choice-valued role, or the previous one when the field has no choices. */
  function YesOf(def: FieldDef, prevYes: Option<string>): Option<string> {
    if def.choices.Some? then YesChoice(def.choices.value) else prevYes
  }

  /**
   * A choice-valued role (hotel guest, DBB) and its "yes" choice. With a configured id,
   * the role is that id and the "yes" choice comes from the first field with that id;
   * without one, the first field whose name passes `isRoleName`. When no field is found
   * (or it has no choices) the previous values are kept, not cleared.
   */
  function ResolveChoiceRole(overrideId: string, defs: seq<FieldDef>, isRoleName: string -> bool,
                             prevField: Option<string>, prevYes: Option<string>): (r: (Option<string>, Option<string>))
    ensures overrideId != "" ==> r.0 == Some(overrideId)
    ensures overrideId != "" && (forall j :: 0 <= j < |defs| ==> defs[j].id != overrideId) ==> r.1 == prevYes
    ensures overrideId != "" ==>
      forall i | IsFirst(defs, i, (f: FieldDef) => f.id == overrideId) :: r.1 == YesOf(defs[i], prevYes)
    ensures overrideId == "" && (forall j :: 0 <= j < |defs| ==> !isRoleName(defs[j].name)) ==>
      r == (prevField, prevYes)
    ensures overrideId == "" ==>
      forall i | IsFirst(defs, i, (f: FieldDef) => isRoleName(f.name)) :: r == (Some(defs[i].id), YesOf(defs[i], prevYes))
  {
    if overrideId != "" then
      var yes :=
        match FirstIndex(defs, (f: FieldDef) => f.id == overrideId)
        case None => prevYes
        case Some(i) => YesOf(defs[i], prevYes);
      (Some(overrideId), yes)
    else
      match FirstIndex(defs, (f: FieldDef) => isRoleName(f.name))
      case None => (prevField, prevYes)
      case Some(i) => (Some(defs[i].id), YesOf(defs[i], prevYes))
  }

  /** What one run of the resolution leaves in the six role fields, given their previous values. */
  function Resolve(settings: Settings, defs: seq<FieldDef>, prev: Roles): (r: Roles)
    ensures settings.bookingRefFieldId != "" ==> r.bookingRef == Some(settings.bookingRefFieldId)
    ensures settings.hotelGuestFieldId != "" ==> r.hotelGuest == Some(settings.hotelGuestFieldId)
    ensures settings.dbbFieldId != "" ==> r.dbb == Some(settings.dbbFieldId)
    ensures r.groupExclude.Some? <==> exists j :: 0 <= j < |defs| && IsGroupExcludeName(defs[j].name)
    ensures settings.hotelGuestFieldId == "" && (forall j :: 0 <= j < |defs| ==> !IsHotelGuestName(defs[j].name)) ==>
      r.hotelGuest == prev.hotelGuest && r.hotelGuestYes == prev.hotelGuestYes
    ensures settings.dbbFieldId == "" && (forall j :: 0 <= j < |defs| ==> !IsDbbName(defs[j].name)) ==>
      r.dbb == prev.dbb && r.dbbYes == prev.dbbYes
  {
    var hotelGuest := ResolveChoiceRole(settings.hotelGuestFieldId, defs, IsHotelGuestName, prev.hotelGuest, prev.hotelGuestYes);
    var dbb := ResolveChoiceRole(settings.dbbFieldId, defs, IsDbbName, prev.dbb, prev.dbbYes);
    Roles(ResolveBookingRef(settings.bookingRefFieldId, defs), hotelGuest.0, hotelGuest.1,
          dbb.0, dbb.1, ResolveGroupExclude(defs))
  }

  /** Resolution depends on the previous roles only through the two keep-when-absent quirks. */
  lemma ResolveIdempotent(settings: Settings, defs: seq<FieldDef>, prev: Roles)
    ensures Resolve(settings, defs, Resolve(settings, defs, prev)) == Resolve(settings, defs, prev)
  {
  }
}
