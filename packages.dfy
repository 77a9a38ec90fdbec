/**
 * Package (dinner, bed and breakfast) detection: a stay is a package stay when one of
 * its inventory items is dated on the context date and its description contains the
 * configured package name, both compared in lower case.
 */
module Packages {
  import opened Js
  import opened Records

  /** `(settings.packageInventoryName || '').trim().toLowerCase()` */
  function PackageName(setting: string): string {
    ToLower(Trim(setting))
  }

  predicate ItemMatches(item: InventoryItem, date: string, name: string) {
    item.stayDate == date && Contains(ToLower(item.description), name)
  }

  /** The stay's inventory is an array with an item of the context date naming the package. */
  predicate IsPackageStay(nb: HotelBooking, date: string, name: string) {
    nb.inventory.Some? && exists k :: 0 <= k < |nb.inventory.value| && ItemMatches(nb.inventory.value[k], date, name)
  }

  function PackageIdsOf(date: string, name: string, hotel: seq<HotelBooking>): set<string>
    decreases |hotel|
  {
    if |hotel| == 0 then {}
    else
      var nb := hotel[|hotel| - 1];
      PackageIdsOf(date, name, hotel[..|hotel| - 1]) + (if IsPackageStay(nb, date, name) then {nb.bookingId} else {})
  }

  /** One more stay of the roster adds its id exactly when it is a package stay. */
  lemma PackageIdsOfSnoc(date: string, name: string, hotel: seq<HotelBooking>, i: nat)
    requires i < |hotel|
    ensures PackageIdsOf(date, name, hotel[..i + 1])
         == PackageIdsOf(date, name, hotel[..i]) + (if IsPackageStay(hotel[i], date, name) then {hotel[i].bookingId} else {})
  {
    assert hotel[..i + 1][..i] == hotel[..i];
  }

  /** `STATE.packageBookingIds` after `buildPackageSet`: empty without a package name or a context date. */
  function PackageIds(setting: string, contextDate: Option<string>, hotel: seq<HotelBooking>): (r: set<string>)
    ensures PackageName(setting) == "" || contextDate.None? || contextDate == Some("") ==> r == {}
  {
    var name := PackageName(setting);
    if name == "" || contextDate.None? || contextDate.value == "" then {}
    else PackageIdsOf(contextDate.value, name, hotel)
  }

  /** A hotel id is in the set exactly when some stay with that id is a package stay. */
  lemma {:induction false} PackageIdsIff(date: string, name: string, hotel: seq<HotelBooking>, x: string)
    ensures x in PackageIdsOf(date, name, hotel) <==>
      exists j :: 0 <= j < |hotel| && hotel[j].bookingId == x && IsPackageStay(hotel[j], date, name)
    decreases |hotel|
  {
    if |hotel| > 0 {
      var prefix := hotel[..|hotel| - 1];
      PackageIdsIff(date, name, prefix, x);
      assert forall j :: 0 <= j < |prefix| ==> prefix[j] == hotel[j];
    }
  }

  /** A package name made only of white space switches package detection off. */
  lemma BlankNameGivesNoPackages(setting: string, contextDate: Option<string>, hotel: seq<HotelBooking>)
    requires forall i :: 0 <= i < |setting| ==> IsSpace(setting[i])
    ensures PackageIds(setting, contextDate, hotel) == {}
  {
    TrimAllSpace(setting);
  }

  /** The per-stay scan of `buildPackageSet`, stopping at the first matching item. */
  method ScanInventory(nb: HotelBooking, date: string, name: string) returns (found: bool)
    ensures found == IsPackageStay(nb, date, name)
  {
    found := false;
    if nb.inventory.None? {
      return;
    }
    var items := nb.inventory.value;
    var k := 0;
    while k < |items|
      invariant 0 <= k <= |items|
      invariant forall i :: 0 <= i < k ==> !ItemMatches(items[i], date, name)
    {
      var item := items[k];
      if item.stayDate == date {
        var desc := ToLower(item.description);
        if Contains(desc, name) {
          found := true;
          return;
        }
      }
      k := k + 1;
    }
  }
}
