# Hotel roster / restaurant reservation reconciliation — a verified model

The extension's side panel shows one day. It compares the hotel's "staying tonight" roster from Newbook with the restaurant's reservations from ResOS for that day. The core of the panel is `sidepanel/sidepanel.js`. The model covers:

- **Field roles.** Which ResOS custom fields carry the hotel booking reference, the hotel-guest flag, the DBB (dinner, bed and breakfast) flag and the `GROUP/EXCLUDE` list. An explicit setting wins; otherwise a name heuristic picks the field. For the hotel-guest and DBB fields the role also records the id of the "yes" choice.
- **The `GROUP/EXCLUDE` mini-grammar.** The value is a comma-separated list. `G#x` names a hotel group, `#x` names a single stay, and `NOT-#x` entries are discarded.
- **Matching.** Builds the set of matched hotel stays and the map from each hotel stay to the last reservation that claimed it.
- **Orphan detection.** Finds reservations that point at a hotel booking which is not on the roster.
- **Package detection.** Finds stays with an inventory item for the day whose description contains the package name.
- **Statistics.** The counts in the stats bar, including first-night and last-night classification. The last night is the calendar day before departure.
- **Data fingerprint.** The fingerprint that decides whether a silent refresh changed anything.
- **State updates.** `loadData`, `silentRefresh` and the mark-as-left flow.
- **Small helpers.** Phone, table-name and HH:MM formatting, guest counting and opening-hour slot generation.

The shared `STATE` object is the class `Reconciliation.State`. Each `build*`/`detect*` function is a method whose loops rewrite one field. Each method's postcondition says the field ends up equal to a pure specification function of the inputs. The properties the panel relies on are then proved as lemmas about those functions.

Modules:

| module | contents |
|---|---|
| `Js` | The JavaScript string and number behaviour the code relies on: ASCII case mapping, `trim`, `split`, `join`, `includes`, `padStart`, and decimal digits. |
| `Records` | The hotel stay, reservation, custom-field and settings records, the active-status set and the falsy-field-id test. |
| `FieldRoles` | `resolveCustomFieldMappings` as a function from settings, field definitions and previous roles to new roles. |
| `GroupExclude` | `parseGroupExcludeField` and its properties. |
| `Matching` | The group index and the matched set and map of `buildMatchedSet`. |
| `Orphans` | `detectOrphanBookings`. |
| `Packages` | `buildPackageSet`. |
| `Calendar` | The date arithmetic behind the last-night test. |
| `Stats` | The counts of `updateStatsBar`. |
| `DataHash` | `computeDataHash`. |
| `Formatting` | The phone, time, slot, guest-count and table helpers. |
| `Reconciliation` | The `State` class and its methods. |

JavaScript values are modelled as follows:

- A field id that may be `null` or `""` is an `Option<string>`, and `Some("")` counts as disabled.
- A custom-field value is a `JsValue` (`Undefined`, a string or a number), and `String(v)` and truthiness are written out.
- `Number` and `parseInt` are modelled on decimal text, with NaN as `None`.
- JavaScript's truncating `%` is `Formatting.JsRem`.

## Model

| member | source | states |
|---|---|---|
| `Reconciliation.State.constructor` | sidepanel/sidepanel.js:6-31 | The initial state: empty roster, reservations and schema; no roles; empty matched set, map, package set and orphan list; no stored fingerprint. |
| `Reconciliation.State.ResolveCustomFieldMappings` | sidepanel/sidepanel.js:464-523 | The six role fields become `Resolve(settings, customFields, previous roles)`. |
| `FieldRoles.FirstIndex` | sidepanel/sidepanel.js:469-472 | `Array.prototype.find`: the result is the first index satisfying the predicate, and none means no element satisfies it. |
| `FieldRoles.FirstIsUnique` | sidepanel/sidepanel.js:469-472 | There is only one first match, so "the field `find` returns" is well defined. |
| `FieldRoles.YesChoice` | sidepanel/sidepanel.js:481 | The "yes" choice is the first choice whose lower-cased name is `yes`; there is none exactly when no choice is named so. |
| `FieldRoles.ResolveBookingRef` | sidepanel/sidepanel.js:467-475 | A non-empty override is used verbatim. Otherwise the role is the first field whose lower-cased name contains `booking` and `#`, or none when no field qualifies. |
| `FieldRoles.ResolveGroupExclude` | sidepanel/sidepanel.js:498-500 | There is no override path. The role is the first field named exactly `GROUP/EXCLUDE`, and it is cleared when none is. |
| `FieldRoles.ResolveChoiceRole` | sidepanel/sidepanel.js:477-496 | With an override, the field id is the override. The yes-choice comes from the first field with that id, and the previous yes-choice is kept when no field has the id or the field has no choices. Without an override, the first field matching the name test gives both. When none matches, both keep their previous values. |
| `FieldRoles.Resolve` | sidepanel/sidepanel.js:464-523 | Each override wins. The `GROUP/EXCLUDE` role is set exactly when some field has that name. Hotel-guest and DBB keep their previous field and yes-choice when no override is set and no field name qualifies. |
| `FieldRoles.ResolveIdempotent` | sidepanel/sidepanel.js:464-523 | Resolving a second time against the same schema changes nothing. |
| `GroupExclude.ParseGroupExcludeField` | sidepanel/sidepanel.js:590-610 | The loop's result equals the specification `Parse`, and `excludes` is always empty. |
| `GroupExclude.ClassifyEntry` | sidepanel/sidepanel.js:597-607 | What one entry contributes. It has no contract of its own; its properties are `EntryIdTrimmed`, `ClassifyGroupEntry`, `ClassifyIndividualEntry`, `GroupEntryAnyCase`, `IndividualEntrySpaced`, `MarkerWithoutIdSkipped` and `UnrecognisedEntryIgnored`. |
| `GroupExclude.ParseEntries` | sidepanel/sidepanel.js:595-608 | The left fold over the entries. It has no contract of its own; its properties are `ParseEntriesAppend`, `ParseEntriesNoExcludes`, `ParseEntriesIdsTrimmed`, `NotEntryIgnored` and `RenderRoundTrip`. |
| `GroupExclude.ParseEntriesAppend` | sidepanel/sidepanel.js:595-608 | Entries are processed independently: parsing `a + b` concatenates the groups and the individuals of each part, in input order. |
| `GroupExclude.ParseEntriesNoExcludes` | sidepanel/sidepanel.js:591-608 | No entry ever lands in `excludes`. |
| `GroupExclude.EntryIdTrimmed` | sidepanel/sidepanel.js:602-607 | Every id an entry contributes is non-empty and trimmed. |
| `GroupExclude.ParseEntriesIdsTrimmed` | sidepanel/sidepanel.js:596-608 | Every parsed group and individual id is non-empty and trimmed. |
| `GroupExclude.NotEntryIgnored` | sidepanel/sidepanel.js:599-601 | An entry starting with `NOT-#` (in any case) contributes nothing wherever it stands. |
| `GroupExclude.Prefixed` | sidepanel/sidepanel.js:602-607 | Prefixing each id keeps the ids and their order. |
| `GroupExclude.ClassifyGroupEntry` | sidepanel/sidepanel.js:602-604 | `G#x` with a plain id `x` is a group entry for `x`. |
| `GroupExclude.ClassifyIndividualEntry` | sidepanel/sidepanel.js:605-607 | `#x` with a plain id `x` is an individual entry for `x`. |
| `GroupExclude.GroupEntryAnyCase` | sidepanel/sidepanel.js:597-604 | `G#` or `g#`, then white space, then a trimmed id, with white space around the entry, is a group entry for the trimmed id. |
| `GroupExclude.IndividualEntrySpaced` | sidepanel/sidepanel.js:597-607 | `#`, then white space, then a trimmed id, with white space around the entry, is an individual entry for the trimmed id. |
| `GroupExclude.MarkerWithoutIdSkipped` | sidepanel/sidepanel.js:602-607 | A `G#`, `g#` or `#` with only white space after it adds nothing, because the trimmed id is empty. |
| `GroupExclude.UnrecognisedEntryIgnored` | sidepanel/sidepanel.js:597-607 | An entry that, once trimmed, starts with neither `#` nor `G#` in any case (such as `12` or `x#1`) contributes nothing wherever it stands. |
| `GroupExclude.ParseGroupEntries` | sidepanel/sidepanel.js:602-604 | A list of `G#` entries parses to exactly its groups, in order. |
| `GroupExclude.ParseIndividualEntries` | sidepanel/sidepanel.js:605-607 | A list of `#` entries parses to exactly its individuals, in order. |
| `GroupExclude.EntriesHaveNoComma` | sidepanel/sidepanel.js:595 | Rendered entries of plain ids contain no comma, so splitting on commas recovers them. |
| `GroupExclude.RenderNotEmpty` | sidepanel/sidepanel.js:592 | A non-empty result renders to a non-empty value, which the falsy-value guard lets through. |
| `GroupExclude.ParseWrittenEntries` | sidepanel/sidepanel.js:595-608 | Entries written from a result with plain ids parse back to that result. |
| `GroupExclude.RenderRoundTrip` | sidepanel/sidepanel.js:590-610 | Rendering a non-empty result with plain ids as `G#g,...,#i,...` and parsing it gives the result back. |
| `Matching.ElemsAppend` | sidepanel/sidepanel.js:558-581 | The ids added to the matched set by two runs of writes are the union of each run's ids. |
| `Matching.FlatMapIn` | sidepanel/sidepanel.js:577-583 | An id is in the concatenated writes exactly when one element wrote it. |
| `Matching.FlatMapAppend` | sidepanel/sidepanel.js:553-585 | The writes of a concatenation are the writes of each part in order. |
| `Matching.GroupMembers` | sidepanel/sidepanel.js:535-543 | A hotel id is listed for group `g` exactly when some stay with that id has a truthy group id whose string is `g`. |
| `Matching.IndexHoldsMembers` | sidepanel/sidepanel.js:535-543 | The group index built over the roster maps every group to its members, in roster order. |
| `Matching.BuildGroupIndex` | sidepanel/sidepanel.js:535-543 | The loop builds exactly that index. |
| `Matching.Writes` | sidepanel/sidepanel.js:545-547 | An inactive reservation, or one without custom fields, writes nothing. |
| `Matching.AssignAppend` | sidepanel/sidepanel.js:559-581 | Assigning two runs of ids equals assigning them one after the other. |
| `Matching.AssignKeys` | sidepanel/sidepanel.js:558-559 | After `set(id, resosId)` for each id, the map's keys are the old keys plus those ids. |
| `Matching.AssignLookup` | sidepanel/sidepanel.js:559-581 | An assigned id maps to the reservation; every other key keeps its old value. |
| `Matching.MatchFromKeys` | sidepanel/sidepanel.js:545-587 | The map's key set is the initial key set plus every id any reservation wrote. |
| `Matching.MatchedSetIsMapKeys` | sidepanel/sidepanel.js:529-581 | The matched set equals the key set of the hotel-to-restaurant map. |
| `Matching.MatchedIds` | sidepanel/sidepanel.js:528-588 | `STATE.matchedBookingIds` after `buildMatchedSet`. It has no contract of its own; its properties are `MatchedSetIsMapKeys` and `InactiveReservationIgnored`, and `Reconciliation.State.BuildMatchedSet` computes it. |
| `Matching.MatchMap` | sidepanel/sidepanel.js:528-588 | `STATE.matchedBookingResosMap` after `buildMatchedSet`. It has no contract of its own; its properties are `MatchValuesAreActiveWriters`, `LastWriteWins` and `MatchedSetIsMapKeys`. |
| `Matching.MatchFromValues` | sidepanel/sidepanel.js:549-581 | Every value in the map is either an initial one or the `_id` of a reservation that wrote that key. |
| `Matching.MatchValuesAreActiveWriters` | sidepanel/sidepanel.js:545-587 | Every value is the `_id` of an active reservation with custom fields that wrote that key. |
| `Matching.LastWriteWins` | sidepanel/sidepanel.js:545-587 | When several reservations claim a stay, the map holds the last one in reservation order. |
| `Matching.MatchFromAppend` | sidepanel/sidepanel.js:545-587 | Processing `a + b` equals processing `a`, then `b` from that map. |
| `Matching.InactiveReservationIgnored` | sidepanel/sidepanel.js:532-547 | Inserting an inactive reservation, or one without custom fields, anywhere changes neither the map nor the matched set. |
| `Matching.ExpandGroupsReaches` | sidepanel/sidepanel.js:535-583 | Group expansion reaches exactly the stays whose group id is one of the named groups. |
| `Matching.UnknownGroupAddsNothing` | sidepanel/sidepanel.js:578 | A group no stay belongs to expands to nothing. |
| `Reconciliation.State.Record` | sidepanel/sidepanel.js:572-575 | Adding a run of ids: the set gains them and the map assigns them to the reservation. |
| `Reconciliation.State.RecordRefField` | sidepanel/sidepanel.js:552-562 | The booking-reference loop adds exactly that field's writes. |
| `Reconciliation.State.RecordGroups` | sidepanel/sidepanel.js:577-583 | The group loop adds exactly the members of the named groups. |
| `Reconciliation.State.RecordGroupExcludeField` | sidepanel/sidepanel.js:565-586 | The `GROUP/EXCLUDE` loop adds exactly that field's individual and group writes. |
| `Reconciliation.State.BuildMatchedSet` | sidepanel/sidepanel.js:528-588 | The matched set and the map end up equal to `MatchedIds` and `MatchMap` of the current roles, roster and reservations. |
| `Orphans.OrphanOf` | sidepanel/sidepanel.js:624-641 | Only the first booking-reference entry with a truthy value of an active reservation is inspected; entries with a falsy value are skipped. It gives an orphan with its trimmed text exactly when that text is non-empty and not a roster id. A reservation with no such entry gives none. |
| `Orphans.Orphans` | sidepanel/sidepanel.js:616-618 | No booking-reference role means no orphans. |
| `Orphans.OrphansWellFormed` | sidepanel/sidepanel.js:624-642 | There are at most as many orphans as reservations. Each one comes from an active reservation and carries a non-empty, trimmed reference absent from the roster. |
| `Orphans.OrphansAppend` | sidepanel/sidepanel.js:624-642 | Orphans come out in reservation order. |
| `Orphans.KnownReferenceIsNoOrphan` | sidepanel/sidepanel.js:633-634 | A reservation whose first reference names a roster stay is no orphan. |
| `Orphans.FindOrphan` | sidepanel/sidepanel.js:629-640 | The inner loop, which breaks at the first reference entry, computes `OrphanOf`. |
| `Reconciliation.State.DetectOrphanBookings` | sidepanel/sidepanel.js:615-644 | The orphan list ends up equal to `Orphans` of the current role, roster and reservations. |
| `Packages.PackageIds` | sidepanel/sidepanel.js:651-655 | An empty package name or a missing or empty context date gives no packages. |
| `Packages.PackageIdsIff` | sidepanel/sidepanel.js:658-669 | A hotel id is a package id exactly when some stay with that id has an item on the context date whose lower-cased description contains the name. |
| `Packages.BlankNameGivesNoPackages` | sidepanel/sidepanel.js:651-652 | A package setting of white space only gives no packages. |
| `Packages.ScanInventory` | sidepanel/sidepanel.js:660-667 | The inventory loop, which breaks at the first hit, decides exactly `IsPackageStay`. |
| `Reconciliation.CollectPackageStays` | sidepanel/sidepanel.js:658-669 | The roster loop collects exactly `PackageIdsOf`. |
| `Reconciliation.State.BuildPackageSet` | sidepanel/sidepanel.js:649-670 | The package set ends up equal to `PackageIds` of the setting, context date and roster. |
| `Calendar.DaysInMonth` | sidepanel/sidepanel.js:799 | A month has 28 to 31 days, with Gregorian leap years. |
| `Calendar.Pred` | sidepanel/sidepanel.js:799 | `setDate(getDate() - 1)` gives a valid date, rolling back over month and year ends. |
| `Calendar.Succ` | sidepanel/sidepanel.js:799 | The next day is a valid date. |
| `Calendar.PredSucc` | sidepanel/sidepanel.js:799 | The day before the next day is the same day. |
| `Calendar.SuccPred` | sidepanel/sidepanel.js:799 | The day after the previous day is the same day. |
| `Calendar.Normalize` | sidepanel/sidepanel.js:798 | A day of the month from 1 to 31 that overruns the month rolls into the next one; an in-range day is kept. |
| `Calendar.ParseIsoDate` | sidepanel/sidepanel.js:796-798 | Any date parsed from `YYYY-MM-DD` is valid. |
| `Calendar.DecimalLength` | sidepanel/sidepanel.js:800 | The digit counts of the year, month and day pieces. |
| `Calendar.TwoDigits` | sidepanel/sidepanel.js:800 | `padStart(2, '0')` of a day or month is two digits with the same value. |
| `Calendar.FormatInjective` | sidepanel/sidepanel.js:800 | Different valid dates format differently. |
| `Calendar.ParseFormat` | sidepanel/sidepanel.js:798-800 | A formatted four-digit-year date parses back to itself. |
| `Calendar.InvalidTextIsNoDate` | sidepanel/sidepanel.js:800 | The "Invalid Date" text `NaN-NaN-NaN` is never a date's format, so a bad departure is never a last night. |
| `Calendar.LastNightIff` | sidepanel/sidepanel.js:796-803 | The context day is the last night exactly when the departure date is the day after it. |
| `Calendar.IsFirstNight` | sidepanel/sidepanel.js:793-802 | The first-night test: the arrival date equals the context date. It has no contract of its own; `Stats.CountHotel` counts with it. |
| `Calendar.IsLastNight` | sidepanel/sidepanel.js:793-802 | The last-night test. It has no contract of its own; its properties are `LastNightIff` and `CheckoutDayIsNotLastNight`. |
| `Calendar.CheckoutDayIsNotLastNight` | sidepanel/sidepanel.js:796-803 | The checkout day itself is never the last night. |
| `Stats.CountHotel` | sidepanel/sidepanel.js:1582-1608 | The total is the roster length. Matched, arrivals-matched and departures-matched never exceed their totals, and arrivals and departures never exceed the roster. |
| `Stats.CountRestaurant` | sidepanel/sidepanel.js:1611-1653 | Hotel-guest plus non-resident bookings and covers equal the active totals. DBB counts never exceed the totals, and only active reservations are counted. |
| `Stats.InactiveNotCounted` | sidepanel/sidepanel.js:1618 | Reservations that are all inactive count as zero everywhere. |
| `Reconciliation.ScanFlags` | sidepanel/sidepanel.js:1623-1639 | The custom-field loop sets the hotel-guest and DBB flags exactly when some entry targets the role with its yes-choice (both must be set). |
| `Reconciliation.CountStays` | sidepanel/sidepanel.js:1582-1608 | The roster loop computes `CountHotel`. |
| `Reconciliation.CountReservations` | sidepanel/sidepanel.js:1610-1653 | The reservation loop computes `CountRestaurant`. |
| `Reconciliation.State.UpdateStatsBar` | sidepanel/sidepanel.js:1581-1653 | Both groups of counts are the specification counts of the current state. |
| `DataHash.Keys` | sidepanel/sidepanel.js:1482-1483 | The key list has one key per booking, in order. |
| `DataHash.LessEqReflexive` | sidepanel/sidepanel.js:1482-1483 | The string order of `sort()` is reflexive. |
| `DataHash.LessEqTotal` | sidepanel/sidepanel.js:1482-1483 | The order is total. |
| `DataHash.LessEqAntisymmetric` | sidepanel/sidepanel.js:1482-1483 | The order is antisymmetric. |
| `DataHash.LessEqTransitive` | sidepanel/sidepanel.js:1482-1483 | The order is transitive. |
| `DataHash.InsertPermutes` | sidepanel/sidepanel.js:1482-1483 | Insertion adds exactly the inserted key. |
| `DataHash.InsertSorted` | sidepanel/sidepanel.js:1482-1483 | Insertion keeps a list sorted. |
| `DataHash.SortIsSortedPermutation` | sidepanel/sidepanel.js:1482-1483 | `sort()` returns a sorted permutation of its input. |
| `DataHash.SortedHeadIsLeast` | sidepanel/sidepanel.js:1482-1483 | The head of a sorted list is its least element. |
| `DataHash.SortedUnique` | sidepanel/sidepanel.js:1482-1483 | There is only one sorted arrangement of a bag of keys. |
| `DataHash.KeysOfPermutation` | sidepanel/sidepanel.js:1482-1483 | Reordering the bookings reorders their keys. |
| `DataHash.SortKeysOfPermutation` | sidepanel/sidepanel.js:1482-1483 | The sorted keys do not depend on the order of the bookings. |
| `DataHash.HashIgnoresOrder` | sidepanel/sidepanel.js:1480-1485 | The fingerprint is the same for any reordering of the roster and of the reservations, so a refresh that only reorders looks unchanged. |
| `DataHash.ComputeDataHash` | sidepanel/sidepanel.js:1480-1485 | The fingerprint: sorted roster keys, `|`, sorted reservation keys. It has no contract of its own; its property is `HashIgnoresOrder`. |
| `Reconciliation.State.TakeData` | sidepanel/sidepanel.js:439-451 | The state holds the new data and the roles resolved against the new schema. Matched set, map, packages and orphans equal `Derive` of that data, and the stored fingerprint is the new data's. |
| `Reconciliation.Derive` | sidepanel/sidepanel.js:528-670 | In the derived state, the matched set is the map's key set and no orphan's reference is a roster id. |
| `Reconciliation.State.RebuildDerived` | sidepanel/sidepanel.js:444-446 | The derived fields equal `Derive` of the current data. |
| `Reconciliation.State.LoadData` | sidepanel/sidepanel.js:420-451 | Without a context date nothing changes. Otherwise the state is the one `TakeData` produces. |
| `Reconciliation.State.SilentRefresh` | sidepanel/sidepanel.js:1528-1566 | The state changes exactly when there is a context date and the new fingerprint differs from the stored one. The derived fields are then rebuilt from the new data, the roles are kept, and the new fingerprint is stored. Otherwise nothing changes. |
| `Reconciliation.State.RefreshReservations` | sidepanel/sidepanel.js:1689-1696 | The fresh reservations replace the old ones, and the matched set, map and orphans are rebuilt. The stored fingerprint covers the fresh reservations, and a package set that was up to date stays so. |
| `Reconciliation.MarkedLeft` | sidepanel/sidepanel.js:1762-1764 | Marking keeps the length. Each reservation whose `_id` is listed gets status `left`, and the others are unchanged. |
| `Reconciliation.MarkedLeftIdempotent` | sidepanel/sidepanel.js:1762-1764 | Marking twice equals marking once. |
| `Reconciliation.MarkOneWrites` | sidepanel/sidepanel.js:1763 | Marking an active reservation as left keeps it active with the same writes. An inactive one writes nothing either way. |
| `Reconciliation.MarkingLeftKeepsMatches` | sidepanel/sidepanel.js:1762-1766 | No hotel stay loses its match when reservations are marked as left. |
| `Reconciliation.MarkingActiveKeepsMatching` | sidepanel/sidepanel.js:1699-1766 | When every listed reservation is active, as the seated/arrived filter ensures, the writes and the map do not change at all. |
| `Reconciliation.State.MarkAsLeft` | sidepanel/sidepanel.js:1762-1764 | The in-place loop leaves `MarkedLeft` of the old reservations. |
| `Reconciliation.State.ConfirmMarkAllAsLeft` | sidepanel/sidepanel.js:1743-1766 | An empty list changes nothing: the reservations, matched set, map and orphans are unchanged. Otherwise the listed reservations are marked as left, and the matched set, map and orphans equal `MatchedIds`, `MatchMap` and `Orphans` of the marked data. A package set that was up to date keeps the whole derived state equal to `Derive`, and a matched set that was up to date only grows. |
| `Formatting.DigitsOf` | sidepanel/sidepanel.js:343 | `replace(/\D/g, '')` keeps only digits. |
| `Formatting.DigitsOfAppend` | sidepanel/sidepanel.js:343 | Digit extraction distributes over concatenation. |
| `Formatting.DigitsOfDigits` | sidepanel/sidepanel.js:343 | A digit string is kept whole. |
| `Formatting.DigitsOfNoDigits` | sidepanel/sidepanel.js:343 | A string without digits gives "". |
| `Formatting.FormatPhoneForResos` | sidepanel/sidepanel.js:341-348 | An empty phone gives "". Any other phone gives `+44` followed by digits only. The lemmas below fix the value for each kind of input. |
| `Formatting.NationalNumber` | sidepanel/sidepanel.js:344-347 | A national number `0d` becomes `+44d`. |
| `Formatting.PunctuationIgnored` | sidepanel/sidepanel.js:343 | Non-digit separators inside a phone number do not change the result. |
| `Formatting.NoTrunkZero` | sidepanel/sidepanel.js:341-348 | A digit string that does not start with 0 gets `+44` in front and is otherwise unchanged. |
| `Formatting.InternationalPrefixedAgain` | sidepanel/sidepanel.js:341-348 | `+44d` becomes `+4444d`: only the `+` is dropped, and `+44` is put in front again. |
| `Formatting.NoDigitsGivesBarePrefix` | sidepanel/sidepanel.js:341-348 | Non-empty text without digits gives the bare `+44`. |
| `Formatting.FormatPhoneKeepingCountry` | sidepanel/sidepanel.js:341-348 | The corrected spelling of the finding below: empty stays empty, and anything else is `+` followed by digits. |
| `Formatting.InternationalKept` | sidepanel/sidepanel.js:341-348 | In the corrected spelling, `+d` is sent unchanged, so `+44d` keeps a single `44`. |
| `Formatting.KeepingCountryNationalNumber` | sidepanel/sidepanel.js:344-347 | In the corrected spelling, a national number `0d` still becomes `+44d`. |
| `Formatting.JsRem` | sidepanel/sidepanel.js:381 | JavaScript's `%` takes the sign of the dividend: for `a >= 0` it is `a % b`, for `a < 0` it is `-((-a) % b)`, and it always lies strictly inside `(-b, b)`. |
| `Formatting.ParseTimeToHHMM` | sidepanel/sidepanel.js:1123-1126 | `parseTimeToHHMM`. It has no contract of its own; its properties are `ParseTimeOf` and `FormatHHMMRoundTrip`. |
| `Formatting.FormatHHMM` | sidepanel/sidepanel.js:379-383 | `formatHHMM`. It has no contract of its own; its properties are `FormatHHMMRoundTrip` and `SlotLabelsReadBack`. |
| `Formatting.DigitsAsNumber` | sidepanel/sidepanel.js:1124 | `Number` of a digit string is its decimal value. |
| `Formatting.DecimalAsNumber` | sidepanel/sidepanel.js:1124 | `Number(String(n))` is `n`. |
| `Formatting.PaddedAsNumber` | sidepanel/sidepanel.js:1124 | `Number` of a zero-padded number is the number. |
| `Formatting.SplitTime` | sidepanel/sidepanel.js:1124 | Splitting `a:b` on `:` gives `[a, b]`. |
| `Formatting.ParseTimeOf` | sidepanel/sidepanel.js:1123-1126 | `h:m` parses to `h * 100 + m`. |
| `Formatting.FormatHHMMRoundTrip` | sidepanel/sidepanel.js:379-383 | Parsing the formatted text of any non-negative HHMM value gives it back. |
| `Formatting.Next` | sidepanel/sidepanel.js:1141-1142 | One step advances by exactly the interval in minutes and gives a valid minute field. |
| `Formatting.SlotsFrom` | sidepanel/sidepanel.js:1132-1143 | There are slots exactly when the start is before closing. The first slot is the start, and every slot lies in `[start, close)`. The slots strictly increase, and every slot after the first has minutes below 60. |
| `Formatting.SlotsEvenlySpaced` | sidepanel/sidepanel.js:1132-1143 | The k-th slot is k intervals after the start, in minutes. |
| `Formatting.SlotsComplete` | sidepanel/sidepanel.js:1132-1143 | The list is complete: one more step after the last slot reaches or passes `close`, so no slot before closing is missing. |
| `Formatting.SlotsFromStep` | sidepanel/sidepanel.js:1132-1143 | An open range starts with the current slot and continues from the next time. |
| `Formatting.SlotsBetween` | sidepanel/sidepanel.js:1131-1144 | The while loop produces `SlotsFrom(open, close, interval)`. |
| `Formatting.GenerateSlotsFromRange` | sidepanel/sidepanel.js:1128-1145 | The method returns the slots of the parsed range, and none when either time is NaN. |
| `Formatting.SlotLabelsReadBack` | sidepanel/sidepanel.js:1123-1138 | Every slot's label parses back to its HHMM value. |
| `Formatting.SlotLabelReadsBack` | sidepanel/sidepanel.js:1136-1138 | One slot's label parses back to its HHMM value. |
| `Formatting.DigitPrefix` | sidepanel/sidepanel.js:328-330 | `parseInt` reads the longest run of leading digits, stopping at the first non-digit. |
| `Formatting.DigitPrefixOf` | sidepanel/sidepanel.js:328-330 | The run of digits before a non-digit is read whole. |
| `Formatting.UnsignedDigitPrefix` | sidepanel/sidepanel.js:328-330 | Leading digits are read as their value. |
| `Formatting.NegativeDigitPrefix` | sidepanel/sidepanel.js:328-330 | A minus sign negates the digits read. |
| `Formatting.LeadingDigits` | sidepanel/sidepanel.js:328-330 | `parseInt("12abc")` is 12. |
| `Formatting.LeadingNegativeDigits` | sidepanel/sidepanel.js:328-330 | `parseInt("-12abc")` is -12. |
| `Formatting.ParseIntPrefix` | sidepanel/sidepanel.js:328-330 | `parseInt(String(i) + rest)` is `i` when `rest` does not start with a digit. |
| `Formatting.GuestCountOfNumber` | sidepanel/sidepanel.js:328-330 | A numeric count is taken as is. |
| `Formatting.GuestCountOfMissing` | sidepanel/sidepanel.js:330 | A missing count is 0. |
| `Formatting.GuestCount` | sidepanel/sidepanel.js:327-331 | One `parseInt(x) || 0` term. It has no contract of its own; its properties are `GuestCountOfNumber` and `GuestCountOfMissing`. |
| `Formatting.TotalGuests` | sidepanel/sidepanel.js:327-331 | `getTotalGuests`. It has no contract of its own; its property is `TotalGuestsOfNumbers`. |
| `Formatting.TotalGuestsOfNumbers` | sidepanel/sidepanel.js:327-331 | The total is adults plus children plus infants, with a missing infant count as 0. |
| `Formatting.LeadingSpace` | sidepanel/sidepanel.js:373 | The count of leading white space characters, followed by a non-space. |
| `Formatting.ShortenSingleTable` | sidepanel/sidepanel.js:372-376 | The result is either the name unchanged or `T` followed by at least one digit. |
| `Formatting.LeadingSpaceOf` | sidepanel/sidepanel.js:373 | White space followed by a non-space counts exactly the white space. |
| `Formatting.ShortenTableName` | sidepanel/sidepanel.js:372-376 | `Table<spaces><digits>`, in any case, becomes `T<digits>`. |
| `Formatting.ShortenedNameForm` | sidepanel/sidepanel.js:373-374 | A name that was shortened had the form `table`, white space, then the digits kept. |
| `Formatting.ShortenIdempotent` | sidepanel/sidepanel.js:372-376 | Shortening twice equals shortening once. |
| `Formatting.NoDigitsSortLast` | sidepanel/sidepanel.js:952-956 | A name without digits sorts last, at 9999. |
| `Formatting.TableSortNumber` | sidepanel/sidepanel.js:952-956 | `getTableSortNumber`. It has no contract of its own; its properties are `NoDigitsSortLast`, `TableSortNumberOf` and `ShortenKeepsSortNumber`. |
| `Formatting.TableSortNumberOf` | sidepanel/sidepanel.js:952-956 | The sort number is the value of the first run of digits. |
| `Formatting.ShortenKeepsSortNumber` | sidepanel/sidepanel.js:952-956 | A table keeps its sort number when its name is shortened. |
| `Js.ToLower` | sidepanel/sidepanel.js:470 | Lower-casing keeps the length. |
| `Js.ToUpper` | sidepanel/sidepanel.js:599 | Upper-casing keeps the length. |
| `Js.TrimStart` | sidepanel/sidepanel.js:328 | Leading white space is removed: the result is no longer and does not start with white space. |
| `Js.TrimEnd` | sidepanel/sidepanel.js:598 | Trailing white space is removed: the result is no longer, does not end with white space, and keeps the first character. |
| `Js.Trim` | sidepanel/sidepanel.js:598 | `trim()` gives a string with no white space at either end, no longer than the input. |
| `Js.TrimOfTrimmed` | sidepanel/sidepanel.js:603 | Trimming a trimmed string changes nothing. |
| `Js.TrimLeadingSpace` | sidepanel/sidepanel.js:598 | A leading white space character does not affect `trim()`. |
| `Js.TrimAllSpace` | sidepanel/sidepanel.js:651-652 | A string of white space trims to "", which is falsy. |
| `Js.TrimIdempotent` | sidepanel/sidepanel.js:598-603 | Trimming twice equals trimming once. |
| `Js.TrimStartDropsLeadingSpace` | sidepanel/sidepanel.js:328 | The result of removing leading white space is the rest of the input, and everything removed is white space. |
| `Js.TrimEndDropsTrailingSpace` | sidepanel/sidepanel.js:598 | The result of removing trailing white space is the front of the input, and everything removed is white space. |
| `Js.TrimKeepsMiddle` | sidepanel/sidepanel.js:598 | `trim()` returns a contiguous middle of the input; everything before and after it is white space. |
| `Js.ContainsIff` | sidepanel/sidepanel.js:471 | `includes` holds exactly when the substring occurs at some position. |
| `Js.Split` | sidepanel/sidepanel.js:595 | `split` always returns at least one piece. |
| `Js.SplitPiecesHaveNoSeparator` | sidepanel/sidepanel.js:595 | No piece contains the separator. |
| `Js.JoinSplit` | sidepanel/sidepanel.js:595 | Joining the pieces with the separator gives the input back. |
| `Js.SplitAtSeparator` | sidepanel/sidepanel.js:595 | A separator-free first piece is split off at the first separator. |
| `Js.SplitNoSeparator` | sidepanel/sidepanel.js:595 | A string without the separator is one piece. |
| `Js.SplitJoin` | sidepanel/sidepanel.js:595 | Splitting the join of separator-free pieces gives the pieces back. |
| `Js.DigitChar` | sidepanel/sidepanel.js:800 | A digit value below 10 is written as a digit character. |
| `Js.DigitValue` | sidepanel/sidepanel.js:955 | A digit character reads as a value below 10 that writes back to it. |
| `Js.NatToDecimal` | sidepanel/sidepanel.js:1136 | `String(n)` is a non-empty run of digits. |
| `Js.DecimalRoundTrip` | sidepanel/sidepanel.js:1124 | Reading `String(n)` gives `n`. |
| `Js.IntDecimalRoundTrip` | sidepanel/sidepanel.js:382 | Reading `String(i)` of a possibly negative integer gives `i`. |
| `Js.LeadingZero` | sidepanel/sidepanel.js:382 | A leading zero does not change a decimal value. |
| `Js.PadStart2Value` | sidepanel/sidepanel.js:382 | `padStart(2, '0')` keeps the value and the digits. |

Proof steps that are not listed above, because each only restates one iteration or one arithmetic fact for the proofs of the rows above:
- the one-step lemmas `GroupExclude.ParseEntriesSnoc`, `GroupExclude.GroupStep` and `GroupExclude.IndividualStep`;
- `Matching.RefWritesSnoc`, `Matching.GroupExcludeWritesSnoc`, `Matching.ExpandGroupsSnoc` and `Matching.AllWritesSnoc`;
- `Orphans.OrphansFromSnoc`, `Packages.PackageIdsOfSnoc` and `Stats.CountHotelSnoc`;
- `GroupExclude.AddConcat` and `GroupExclude.TrimmedIdsSnoc`;
- the sorting facts `DataHash.ConsSorted`, `InsertedFrom`, `MultisetCancel`, `RemoveAt`, `SortedTail`, `SameHead` and `SameTail`;
- the arithmetic and spelling steps `Formatting.HundredsAndRest`, `FormatPieces`, `StepIsNext`, `SlotIs`, `NoLeadingSpace` and `NegativeSpelling`;
- the trimming steps `Js.TrimStartSkipsSpace`, `Js.TrimEndSkipsSpace` and `Js.TrimSurrounded`, used by the `GroupExclude` entry lemmas.

## Findings

| source | as written | input that shows it | evidently intended | confidence | as-written member | corrected member |
|---|---|---|---|---|---|---|
| sidepanel/sidepanel.js:341-348 | `formatPhoneForResos` strips every non-digit, including a leading `+`, and then puts `+44` in front. | `+44 7700 900123` becomes `+44447700900123`. | A number already written with `+` and a country code keeps that code once. A national `0...` number still becomes `+44...`. | medium, not executed | `Formatting.InternationalPrefixedAgain` | `Formatting.FormatPhoneKeepingCountry` |

## Left out

- Network and browser I/O are not modelled. This covers the Newbook and ResOS API clients (`NewbookAPI`, `ResosAPI`), their `Promise.all` orchestration and error handling, and all rendering and DOM work. The methods take the fetched data as parameters.
- The `updateBooking` calls of `confirmMarkAllAsLeft` and their failure count are left out (remote calls). The local status update and the rebuild are modelled.
- `markAllAsLeft`'s choice of target reservations is not modelled. It uses `isBookingPast`, which reads the wall clock; the targets are a parameter of `ConfirmMarkAllAsLeft`.
- `Reconciliation.State.SilentRefresh`, `Reconciliation.State.LoadData`: `settings` and `contextDate` are fixed for the lifetime of a `State`. A `null` settings object is not modelled, and changing the day or the settings creates a new state rather than updating one. The timers (`resetAutoRefreshTimer`, `startRefreshTimerDisplay`) are not modelled.
- `Reconciliation.State.MarkAsLeft` rewrites the reservation sequence by value. The source assigns `b.status` on the shared object, which any other reference to that reservation also sees. Here nothing else holds one.
- The six role fields of `STATE` (`bookingRefFieldId` … `groupExcludeFieldId`) are kept as one `Roles` record.
- `updateStatsBar` computes the matched count with a separate `filter`. The model counts it in the same pass, which gives the same number.
- The view, selection, table and search fields of `STATE` are not modelled, because only the UI reads them.
- `Js.ToLower`, `Js.ToUpper`: only ASCII letters change case. JavaScript's full Unicode case mapping is not modelled.
- Strings are sequences of Unicode characters, not UTF-16 code units. The model's text never contains lone surrogates.
- `DataHash.HashIgnoresOrder`: a missing `booking_status` or `status` is modelled as "". The source's template literal prints `undefined` for it, so two data sets that differ only between a missing and an empty status give different fingerprints in the source and equal ones here. Likewise `people` is a number or absent: the source prints `null` for a JSON `null` party size and `undefined` for a missing one, and the model spells both as `undefined`, so two data sets that differ only there give different fingerprints in the source and equal ones here. The covers count (`b.people || 0`) treats both as 0, so nothing derived depends on the difference.
- `DataHash.LessEqTotal`: keys are ordered character by character. For characters outside the Basic Multilingual Plane this can differ from `sort()`'s UTF-16 code-unit order.
- `Formatting.ParseTimeOf`: `Number` is modelled on optionally signed decimal integers and "". Fractions, exponents, hex and `Infinity` read as NaN here.
- `Formatting.ParseIntPrefix`: `parseInt` is modelled on decimal digits only. A `0x` prefix is not modelled.
- `Calendar.ParseIsoDate`: `new Date(...)` is modelled on the `YYYY-MM-DD` form, with days 1 to 31 rolling over the month's end as V8 does. Any other text is an invalid date. Other date formats V8 accepts are not modelled.
- `Formatting.GenerateSlotsFromRange` requires an interval above zero and an opening time that is not negative (unless the range is empty). For some of the excluded inputs the source loops forever (for example interval 0, or opening `-1:30`, which is HHMM -70, with interval 15: the step goes to -255 and keeps running backwards). For others its loop ends: the same opening with interval 200 pushes a slot labelled `-1:-70` and moves on to 110. The model does not cover either kind.
- `shortenTableName`'s multi-table branch is not modelled because it builds HTML through `escapeHtml`. `shortenSingleTable` is modelled.
- `titleCase`, the guest name and contact getters, URL parsing, `background.js`, `content/floating-button.js` and the settings page are not modelled: they lie outside the reconciliation engine.
