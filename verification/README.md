# Venue supplies inventory: a Dafny model of the store transitions

The system is a small web application with maintenance scripts. It keeps
track of which supply items each venue of a site should hold, and it records
quick inventory checks of those items. This project models its core as pure
functions over an immutable relational store:

- **Store** (`store.dfy`). Five tables: venues, items, venue-item mappings,
  checks and check lines. Each table maps autoincrement ids to records. The
  module also holds the lookups the code performs with `filter_by(...).first()`
  and the constraints the database keeps: unique venue names, unique item
  names, one mapping per (venue, item), and the foreign keys.
- **Supplies and quick check** (`venue_items.dfy`). Saving a venue's supplies
  reconciles its active mappings with a selected set of item ids. A quick
  check records one normalised status per tracked item, and the check page
  prefills each item's latest status.
- **Item administration** (`admin.dfy`). Item creation is validate-then-upsert
  by name. Deactivation has a confirmation gate and cascades to the item's
  mappings. Activation raises the item's flag only.
- **Venue creation** (`venues.dfy`). The name is trimmed, and a blank or
  duplicate name is refused.
- **CSV seed** (`seed_from_csv.dfy`). The cell converters `to_bool`,
  `to_str_or_none` and `to_int_or_none`, venue-alias resolution, and the two
  upsert passes over item rows and mapping rows.
- **Core-venue seed** (`seed_core_venues.dfy`). Makes every venue of a fixed
  list exist, be core and be active.
- **Cleanup** (`cleanup_items.dfy`). Deletes the items whose names are not in
  a keep list read from CSV rows, together with all of their mappings.
- **Strings** (`strings.dfy`) and **Decimal** (`decimal.dfy`). Python's
  `str.strip()` and `str.lower()`, and decimal integer spelling. Every keyword
  comparison in the system goes through these.

Each handler or script is one atomic transition `Store -> (Store, outcome)`.
`get_or_404` becomes a `NotFound` response that leaves the store as it was.
The clock reading of a check is a parameter `now`. The `int(float(s))` branch
of `to_int_or_none` is a parameter `floatInt`.

The keyword comparisons (`strip().lower()` against a fixed word) are related to
an independent reference, `Strings.MatchesKeyword(s, k)`. It holds when `s` is
`k` in any letter case, surrounded by whitespace only.

## Model

| member | source | states |
|---|---|---|
| VenueItems.SuppliesPage | app/routes/venue_items.py:44-54 | the page is NotFound exactly for an unknown venue; otherwise it offers the active items and checks the items with an active mapping |
| VenueItems.SaveSupplies | app/routes/venue_items.py:8-42 | NotFound exactly for an unknown venue; a save changes only the mapping table |
| VenueItems.SaveSelectsExactly | app/routes/venue_items.py:25-38 | after a save, the items with an active mapping for the venue are exactly the selected set |
| VenueItems.SaveThenView | app/routes/venue_items.py:25-47 | the supplies page shown after a save checks exactly the selection |
| VenueItems.SaveKeepsRows | app/routes/venue_items.py:17-38 | no mapping row is deleted; existing rows change only their active flag; other venues' rows are untouched; inactive unselected rows keep all fields, quantities included |
| VenueItems.SaveAddsOnlyMissing | app/routes/venue_items.py:18-32 | every added row is an active, unconfigured mapping of the venue to a selected item it had no row for; the venue's mapped items become old plus selected |
| VenueItems.SaveKeepsValid | app/routes/venue_items.py:25-38 | when the selected ids name existing items, the save keeps at most one row per (venue, item) and every store constraint |
| VenueItems.SaveCounters | app/routes/venue_items.py:21-38 | `created` is the number of rows added; `activated` and `deactivated` are the numbers of existing rows switched on and off |
| VenueItems.SaveIdempotent | app/routes/venue_items.py:25-40 | saving the same selection a second time changes nothing and reports 0, 0, 0 |
| VenueItems.NormalizeStatus | app/routes/venue_items.py:77-79 | every recorded status is one of the five names |
| VenueItems.NormalizeStatusNamed | app/routes/venue_items.py:77-79 | a value records good, ok, low or out exactly when it spells that name in any case with whitespace around it |
| VenueItems.NormalizeStatusFallback | app/routes/venue_items.py:77-79 | a value records not_checked exactly when it spells not_checked or spells none of the five names |
| VenueItems.NormalizeMissing | app/routes/venue_items.py:77 | a missing or empty form value records not_checked |
| VenueItems.NormalizeStatusIdempotent | app/routes/venue_items.py:77-79 | a recorded status, submitted again, records itself |
| VenueItems.SubmitCheck | app/routes/venue_items.py:69-83 | NotFound exactly for an unknown venue; otherwise exactly one new check for the venue at time `now`, and venues, items and mappings are unchanged |
| VenueItems.Tracked | app/routes/venue_items.py:60-67 | an item is tracked at a venue exactly when it has an active mapping to the venue and is itself an active, existing item: the checked boxes of the supplies page, restricted to active items |
| VenueItems.SaveThenTracked | app/routes/venue_items.py:21-67 | after a supplies save, the quick check tracks exactly the selected items that are active |
| VenueItems.SubmitCheckLines | app/routes/venue_items.py:60-83 | the new check has one line per tracked item (active mapping and active item), each with the normalised form value; earlier lines are untouched; constraints and the five-status invariant are kept |
| VenueItems.LatestLine | app/routes/venue_items.py:89-96 | the chosen line is for the item in one of the venue's checks, no such line is in a later check, and there is none exactly when no such line exists |
| VenueItems.LatestStatus | app/routes/venue_items.py:88-97 | when every stored status is one of the five names, so is the shown status; PrefillLatest ties it to the latest line |
| VenueItems.Prefill | app/routes/venue_items.py:87-97 | NotFound exactly for an unknown venue; otherwise one entry per tracked item |
| VenueItems.PrefillLatest | app/routes/venue_items.py:87-97 | a tracked item shows the status of its line in a latest check of the venue that has one, and not_checked when there is none |
| VenueItems.SubmitThenPrefill | app/routes/venue_items.py:69-97 | when `now` is later than every earlier check of the venue, the prefill right after a submission shows exactly the statuses just recorded |
| Admin.CreateItem | app/routes/admin.py:10-33 | a blank trimmed name is refused first, then a type outside durable/consumable; a refusal leaves the store unchanged; an accepted form is stored by UpsertItem |
| Admin.UpsertItem | app/routes/admin.py:22-31 | an accepted name either reactivates an existing item or adds one; venues, mappings and checks are untouched |
| Admin.TypeAcceptedIffKeyword | app/routes/admin.py:12-20 | the type is accepted exactly when the field spells durable or consumable in any case with whitespace around it |
| Admin.UpsertExisting | app/routes/admin.py:22-28 | an existing name adds no row; that item becomes active with the new type and keeps its name |
| Admin.UpsertNew | app/routes/admin.py:30-31 | a new name adds exactly one active item with the given type under a fresh id |
| Admin.UpsertKeepsValid | app/routes/admin.py:22-31 | item names stay unique and every store constraint is kept |
| Admin.CreateKeepsValid | app/routes/admin.py:10-33 | creating an item, accepted or refused, keeps every store constraint |
| Admin.UpsertThenFind | app/routes/admin.py:22-31 | afterwards looking the name up finds an active item of the given type, whether it was added or reactivated |
| Admin.UpsertIdempotent | app/routes/admin.py:22-31 | submitting the same accepted item a second time leaves the store unchanged |
| Admin.DeactivateItem | app/routes/admin.py:39-66 | NotFound exactly for an unknown item; venues and check history never change |
| Admin.DeactivateUnused | app/routes/admin.py:44-55 | a GET for an item no venue tracks switches the item off and changes no mapping or other item |
| Admin.DeactivateNeedsConfirmation | app/routes/admin.py:43-58 | a GET for an item some venue tracks changes nothing and lists exactly the existing venues with an active mapping of it |
| Admin.DeactivateCascade | app/routes/admin.py:60-65 | a POST switches the item off and all of its mappings; other items and other items' mappings are unchanged; it reports the number of affected venues |
| Admin.DeactivatedUntracked | app/routes/admin.py:39-66 | after a deactivation the item is tracked at no venue |
| Admin.DeactivateKeepsValid | app/routes/admin.py:39-66 | every store constraint is kept |
| Admin.ActivateItem | app/routes/admin.py:69-75 | NotFound exactly for an unknown item |
| Admin.ActivateOnlyItem | app/routes/admin.py:69-73 | activation raises only the item's flag and changes no mapping |
| Admin.DeactivateThenActivate | app/routes/admin.py:60-73 | a confirmed deactivation followed by activation restores the item table but leaves the item out of every venue's active set |
| Venues.CreateVenue | app/routes/main.py:13-31 | a blank trimmed name is refused; only an Added outcome changes the store, and only its venue table |
| Venues.CreateDuplicate | app/routes/main.py:20-24 | a name some venue has is refused, pointing at that venue, with no change |
| Venues.CreateFresh | app/routes/main.py:26-28 | a new non-blank name adds exactly one venue, not core and active, under the trimmed name |
| Venues.CreateThenDuplicate | app/routes/main.py:13-31 | after a creation the name finds the venue, and the same form is refused the second time |
| Venues.CreateVenuesKeepValid | app/routes/main.py:20-28 | any sequence of submissions keeps venue names pairwise distinct, and every store constraint |
| Venues.CreateVenuesFind | app/routes/main.py:13-28 | after any sequence of submissions every non-blank submitted name names a venue |
| SeedFromCsv.ToBoolIffKeyword | seed_from_csv.py:14-18 | a present cell is true exactly when it spells true, 1, yes or y in any case with whitespace around it |
| SeedFromCsv.ToBool | seed_from_csv.py:14-18 | true only for a present cell with non-blank text; ToBoolIffKeyword gives the exact condition |
| SeedFromCsv.ToStrOrNoneBlank | seed_from_csv.py:31-37 | a present cell gives None exactly when it is whitespace only or spells nan; otherwise it gives the trimmed text |
| SeedFromCsv.ToStrOrNone | seed_from_csv.py:31-37 | a present result is trimmed and non-empty |
| SeedFromCsv.ToStrOrNoneIdempotent | seed_from_csv.py:31-37 | converting a converted cell again changes nothing |
| SeedFromCsv.ToIntOrNone | seed_from_csv.py:20-29 | an absent, blank or nan cell gives None |
| SeedFromCsv.ToIntOrNoneRoundTrip | seed_from_csv.py:20-29 | every integer of magnitude at most 2^53 written in decimal, with whitespace around it or not, reads back as itself |
| SeedFromCsv.ResolveVenueName | seed_from_csv.py:39-41 | a resolved name is final and ready to look up: it is trimmed and is not itself an alias; it is the alias target of the trimmed name, or the trimmed name itself |
| SeedFromCsv.AliasTargetsFinal | seed_from_csv.py:8-12 | no alias target is itself an alias |
| SeedFromCsv.ResolveIdempotent | seed_from_csv.py:39-41 | resolving a resolved name changes nothing |
| SeedFromCsv.ItemRow | seed_from_csv.py:56-58 | the row cannot be read exactly when its item_name or item_type cell is missing |
| SeedFromCsv.SeedItem | seed_from_csv.py:62-86 | a row whose type is not durable/consumable is skipped and changes nothing; an unchanged row changes nothing |
| SeedFromCsv.SeedItemExisting | seed_from_csv.py:66-83 | an existing name gets the row's type and flag, no row is added, and the row counts as updated exactly when a field changed |
| SeedFromCsv.SeedItemNew | seed_from_csv.py:84-86 | a new name adds exactly one item with the row's fields |
| SeedFromCsv.SeedItemTwice | seed_from_csv.py:62-86 | the same row applied again is skipped or changes nothing |
| SeedFromCsv.ReadAllAbort | seed_from_csv.py:52-60 | a pass aborts exactly when some row cannot be read, and otherwise uses each row's fields |
| SeedFromCsv.SeedItems | seed_from_csv.py:53-88 | the items pass aborts exactly when some row lacks item_name or item_type; otherwise it counts at most one creation or update per row and touches only the item table |
| SeedFromCsv.ApplyItems | seed_from_csv.py:55-86 | applying readable item rows counts at most one creation or update per row and changes nothing but the item table |
| SeedFromCsv.ApplyItemsKeepValid | seed_from_csv.py:52-88 | the items pass keeps every store constraint, and `created` is the number of items added |
| SeedFromCsv.LinkRow | seed_from_csv.py:94-99 | the row cannot be read exactly when its venue_name or item_name cell is missing |
| SeedFromCsv.SeedLink | seed_from_csv.py:101-138 | a row is skipped exactly when its venue or item is not found, and then nothing changes |
| SeedFromCsv.SeedLinkStored | seed_from_csv.py:113-138 | for a known venue and item, exactly one mapping for the pair ends up holding the row's values, None included; nothing else changes; it counts as created or updated exactly as the source decides |
| SeedFromCsv.SeedLinkKeepsValid | seed_from_csv.py:101-138 | at most one mapping per (venue, item), and every store constraint, are kept |
| SeedFromCsv.ApplyLinksKeepValid | seed_from_csv.py:90-140 | the mapping pass keeps every store constraint, and `created` is the number of mappings added |
| SeedFromCsv.SeedLinks | seed_from_csv.py:91-140 | the mapping pass aborts exactly when some row lacks venue_name or item_name; otherwise it counts each row at most once and touches only the mapping table |
| SeedFromCsv.ApplyLinks | seed_from_csv.py:93-138 | applying readable mapping rows counts each row at most once, as created, updated or skipped, and changes nothing but the mapping table |
| SeedFromCsv.Seed | seed_from_csv.py:43-140 | an unreadable items row aborts with no change; an unreadable mapping row aborts with the items pass kept |
| SeedFromCsv.SeedKeepsValid | seed_from_csv.py:43-140 | whatever the rows, the seed keeps every store constraint |
| SeedCoreVenues.EnsureCore | seed_core_venues.py:22-39 | a name counts as unchanged exactly when its venue is already core and active, and then nothing changes; it counts as created exactly when no venue has the name |
| SeedCoreVenues.EnsureCoreUpdated | seed_core_venues.py:25-36 | an existing venue counts as updated exactly when is_core or active was down |
| SeedCoreVenues.SeedCore | seed_core_venues.py:22-39 | over a list of names, at most one creation or update is counted per name and only venues change |
| SeedCoreVenues.Seed | seed_core_venues.py:16-42 | the run over the nine core venues counts at most nine changes and touches only the venue table |
| SeedCoreVenues.SeedCoreReady | seed_core_venues.py:22-39 | after the run every listed name names exactly one venue, and that venue is core and active |
| SeedCoreVenues.SeedCoreUntouched | seed_core_venues.py:22-23 | venues whose names are not listed are unchanged, and no venue is removed |
| SeedCoreVenues.SeedCoreAddsListed | seed_core_venues.py:37-39 | every venue the run adds has a listed name |
| SeedCoreVenues.SeedIdempotent | seed_core_venues.py:16-41 | a second run reports 0 created and 0 updated and leaves the store unchanged |
| SeedCoreVenues.SeedKeepsValid | seed_core_venues.py:16-41 | the run keeps every store constraint |
| CleanupItems.KeepNamesExactly | cleanup_items_not_in_csv.py:13-16 | a name is in the keep set exactly when it is non-blank and listed |
| CleanupItems.ReadKeepNames | cleanup_items_not_in_csv.py:9-17 | the blank name is never kept; ReadKeepNamesExactly gives the exact set |
| CleanupItems.ReadKeepNamesExactly | cleanup_items_not_in_csv.py:9-17 | the keep set holds exactly the trimmed non-empty item_name cells of the rows |
| CleanupItems.Cleanup | cleanup_items_not_in_csv.py:19-51 | an empty keep set aborts; a dry run reports; in both cases nothing changes; only items and mappings are ever touched |
| CleanupItems.DryRunLists | cleanup_items_not_in_csv.py:27-46 | a dry run reports exactly the items a real run with the same list deletes, which are the items whose names are not kept |
| CleanupItems.CleanupDeletes | cleanup_items_not_in_csv.py:28-46 | the items left are exactly those with kept names, as they were; the mappings left are exactly those of items left, as they were |
| CleanupItems.CleanupNoDangling | cleanup_items_not_in_csv.py:43-46 | no remaining mapping refers to a deleted item |
| CleanupItems.CleanupCounts | cleanup_items_not_in_csv.py:43-49 | the reported counts are the numbers of mapping rows and item rows removed |
| CleanupItems.CleanupIdempotent | cleanup_items_not_in_csv.py:19-51 | a second run with the same keep set deletes nothing |
| CleanupItems.ListedItemSurvives | cleanup_items_not_in_csv.py:9-46 | an item named by some row survives the run together with all of its mappings |
| Strings.StripUnique | app/routes/main.py:14 | `strip()` removes exactly the surrounding whitespace: any trimmed infix with only whitespace around it is the result |
| Strings.Strip | app/routes/main.py:14 | `strip()` cuts the text at two points with only whitespace outside them, and the result is trimmed |
| Strings.Lower | app/routes/admin.py:12 | `lower()` keeps the length and lowers each character on its own |
| Strings.Norm | app/routes/admin.py:12 | `strip().lower()` gives trimmed, lower-case text as long as the stripped text |
| Strings.StripBlank | app/routes/main.py:14-16 | a text strips to nothing exactly when it is whitespace only |
| Strings.NormMatchesKeyword | app/routes/admin.py:12 | `strip().lower()` equals a trimmed keyword exactly when the text spells it in any case with whitespace around it |
| Strings.NormIdempotent | app/routes/venue_items.py:77 | normalising twice is normalising once |
| Decimal.IntToStringRoundTrip | seed_from_csv.py:26-27 | a decimal integer spelling reads back as the integer it spells |
| Store.Find | app/routes/admin.py:22 | `filter_by(...).first()` gives a matching row, and none exactly when no row matches |
| Store.InsertManyFacts | app/routes/venue_items.py:25-32 | inserting one row per key keeps the old rows and adds exactly one row per key under distinct fresh ids |

## Left out

- Flask routing, redirects, `flash` messages and templates. The handlers return an outcome tag instead of a page.
- SQLAlchemy session mechanics: `add`, `flush`, `commit`, autoflush and the bulk `update`/`delete`. Each handler or script is one atomic transition.
- Opening the CSV files, `csv.DictReader` and `print`. Rows are given as a sequence of maps from header to cell, and the counters are return values.
- A pass of the CSV seed aborts on an unreadable row. It is modelled as "read every row, then apply". This is equivalent because nothing of the pass is committed before its end.
- SeedFromCsv.ToIntOrNone: only plain decimal integers of magnitude at most 2^53 are specified. Any other text goes to the `floatInt` parameter, which stands for `int(float(s))` with the `ValueError` turned into None. Float parsing, truncation and the uncaught `OverflowError` of inputs such as "inf" are not modelled.
- Strings.Lower: only the characters whose lower-case form is ASCII are lowered: `A`-`Z` and KELVIN SIGN. Other characters are kept. Lowered text is only compared with ASCII keywords or stored after matching one, so no comparison can tell the difference.
- Converting form ids with `int(...)` (app/routes/venue_items.py:14). The selection is given as a set of naturals.
- VenueItems.SaveKeepsValid: it requires the selected ids to name existing items. The handler does not check this, and the foreign-key behaviour for an unknown id is not part of this model.
- VenueItems.SaveSupplies: it sets every row of a selected item active. With two rows for one (venue, item) pair, the handler's dict keeps only one of them, so the two differ. The store constraint `LinksUnique` rules such pairs out, and SaveCounters assumes it.
- Store.Find: `.first()` without an ordering has no defined choice among matching rows; the model takes the lowest id. The unique name constraints and LinksUnique make the choice invisible.
- Orders of iteration and listing. Sets are iterated in ascending id order for batch inserts. Contracts state only set-level facts. Name ordering of list pages is not modelled.
- Ties in the check time `created_at` are resolved arbitrarily, as the query leaves them unspecified.
- Check lines of deleted items. Cleanup keeps them, so the store constraints do not require a check line's item to exist.
- The `String(120)` length limit, the `unit` and `notes` columns, and the item list pages (GET of app/routes/admin.py:35-36 and app/routes/main.py:33-35).
- The dashboard, the app factory and the model file beyond the record shapes.
