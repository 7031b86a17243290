/**
 The per-venue routes: the supplies editor (which items a venue tracks) and
 the quick check (recording and prefilling one status per tracked item).
 */
module VenueItems {
  import opened Optional
  import opened Strings
  import opened Store

  // ================================================================ supplies

  /** What the supplies save reports: rows added, rows re-enabled, rows disabled. */
  datatype SaveCounts = SaveCounts(created: nat, activated: nat, deactivated: nat)

  /** GET: the active items offered as boxes, and the ones shown checked. */
  function SuppliesPage(s: Store, v: nat): (r: Response<(set<nat>, set<nat>)>)
    ensures r.NotFound? <==> v !in s.venues.rows
  {
    if v !in s.venues.rows then NotFound
    else Found((ActiveItems(s), ActiveSet(s, v)))
  }

  /** An existing row after the save: a row of the venue is active exactly when its item was selected. */
  function Reconciled(row: VenueItem, v: nat, selected: set<nat>): VenueItem {
    if row.venueId == v then row.(active := row.itemId in selected) else row
  }

  function ReconcileRows(s: Store, v: nat, selected: set<nat>): (m: map<nat, VenueItem>)
    ensures m.Keys == s.links.rows.Keys
    ensures forall k | k in s.links.rows :: m[k] == Reconciled(s.links.rows[k], v, selected)
  {
    map k | k in s.links.rows :: Reconciled(s.links.rows[k], v, selected)
  }

  /** Selected items the venue has no row for: the rows the save creates. */
  function ToCreate(s: Store, v: nat, selected: set<nat>): set<nat> {
    selected - MappedItems(s, v)
  }

  /** The venue's active rows whose item was not selected: the rows the save disables. */
  function Unselected(s: Store, v: nat, selected: set<nat>): set<nat> {
    set k | k in s.links.rows && s.links.rows[k].venueId == v && s.links.rows[k].active && s.links.rows[k].itemId !in selected
  }

  /** The row a save creates for a newly selected item. */
  function NewMapping(v: nat): nat -> VenueItem {
    (i: nat) => VenueItem(v, i, true, None, None)
  }

  function SavedLinks(s: Store, v: nat, selected: set<nat>): Table<VenueItem> {
    var kept: Table<VenueItem> := RawTable(ReconcileRows(s, v, selected), s.links.next);
    InsertMany(kept, ToCreate(s, v, selected), NewMapping(v))
  }

  /**
   POST: makes the venue's active mappings match the selected item ids. A
   selected item with a row has it enabled, a selected item without one gets a
   new active row, and every other active row of the venue is disabled; rows
   are never deleted.
   */
  function SaveSupplies(s: Store, v: nat, selected: set<nat>): (r: Response<(Store, SaveCounts)>)
    ensures r.NotFound? <==> v !in s.venues.rows
    ensures r.Found? ==> var s' := r.value.0;
      s'.venues == s.venues && s'.items == s.items && s'.checks == s.checks && s'.lines == s.lines
  {
    if v !in s.venues.rows then NotFound
    else
      var counts := SaveCounts(|ToCreate(s, v, selected)|, |selected * InactiveSet(s, v)|, |Unselected(s, v, selected)|);
      Found((s.(links := SavedLinks(s, v, selected)), counts))
  }

  // ---------------------------------------------------------------- a save, row by row

  /** Every row that existed is still there, reconciled with the selection. */
  ghost predicate KeptReconciled(before: map<nat, VenueItem>, after: map<nat, VenueItem>, v: nat, selected: set<nat>) {
    forall k | k in before :: k in after && after[k] == Reconciled(before[k], v, selected)
  }

  /** Every added row is an active mapping of the venue, without stock configuration, to an item of `created`. */
  ghost predicate AddedRows(before: map<nat, VenueItem>, after: map<nat, VenueItem>, v: nat, created: set<nat>) {
    forall k | k in after && k !in before ::
      after[k] == VenueItem(v, after[k].itemId, true, None, None) && after[k].itemId in created
  }

  /** Every item of `created` got an added row. */
  ghost predicate AddedCover(before: map<nat, VenueItem>, after: map<nat, VenueItem>, created: set<nat>) {
    forall i | i in created :: exists k | k in after && k !in before :: after[k].itemId == i
  }

  /** No two added rows are for the same item. */
  ghost predicate AddedDistinct(before: map<nat, VenueItem>, after: map<nat, VenueItem>) {
    forall a, b | a in after && a !in before && b in after && b !in before && a != b :: after[a].itemId != after[b].itemId
  }

  /** All of the above, for the mapping table before and after a save. */
  ghost predicate Saved(s: Store, s2: Store, v: nat, selected: set<nat>) {
    var created := ToCreate(s, v, selected);
    && KeptReconciled(s.links.rows, s2.links.rows, v, selected)
    && AddedRows(s.links.rows, s2.links.rows, v, created)
    && AddedCover(s.links.rows, s2.links.rows, created)
    && AddedDistinct(s.links.rows, s2.links.rows)
    && |s2.links.rows| == |s.links.rows| + |created|
    && s2.venues == s.venues && s2.items == s.items && s2.checks == s.checks && s2.lines == s.lines
  }

  lemma SavedKept(s: Store, v: nat, selected: set<nat>)
    ensures KeptReconciled(s.links.rows, SavedLinks(s, v, selected).rows, v, selected)
  {
    var kept: Table<VenueItem> := RawTable(ReconcileRows(s, v, selected), s.links.next);
    InsertManyFacts(kept, ToCreate(s, v, selected), NewMapping(v));
  }

  lemma SavedAdded(s: Store, v: nat, selected: set<nat>)
    ensures AddedRows(s.links.rows, SavedLinks(s, v, selected).rows, v, ToCreate(s, v, selected))
  {
    var kept: Table<VenueItem> := RawTable(ReconcileRows(s, v, selected), s.links.next);
    var created := ToCreate(s, v, selected);
    var after := SavedLinks(s, v, selected).rows;
    InsertManyFacts(kept, created, NewMapping(v));
    forall k | k in after && k !in s.links.rows
      ensures after[k] == VenueItem(v, after[k].itemId, true, None, None) && after[k].itemId in created
    {
      var i :| i in created && k == NewId(kept, created, i);
      assert after[k] == NewMapping(v)(i);
    }
  }

  lemma SavedCoverDistinct(s: Store, v: nat, selected: set<nat>)
    ensures AddedCover(s.links.rows, SavedLinks(s, v, selected).rows, ToCreate(s, v, selected))
    ensures AddedDistinct(s.links.rows, SavedLinks(s, v, selected).rows)
  {
    var kept: Table<VenueItem> := RawTable(ReconcileRows(s, v, selected), s.links.next);
    var created := ToCreate(s, v, selected);
    var after := SavedLinks(s, v, selected).rows;
    InsertManyFacts(kept, created, NewMapping(v));
    forall a, b | a in after && a !in s.links.rows && b in after && b !in s.links.rows && a != b
      ensures after[a].itemId != after[b].itemId
    {
      var i :| i in created && a == NewId(kept, created, i);
      var j :| j in created && b == NewId(kept, created, j);
    }
    forall i | i in created ensures exists k | k in after && k !in s.links.rows :: after[k].itemId == i {
      var k := NewId(kept, created, i);
      assert k in after && k !in s.links.rows && after[k].itemId == i;
    }
  }

  /** What a save does to the mapping table, row by row; nothing else changes. */
  lemma SaveShape(s: Store, v: nat, selected: set<nat>)
    requires v in s.venues.rows
    ensures Saved(s, SaveSupplies(s, v, selected).value.0, v, selected)
  {
    var kept: Table<VenueItem> := RawTable(ReconcileRows(s, v, selected), s.links.next);
    InsertManyFacts(kept, ToCreate(s, v, selected), NewMapping(v));
    SavedKept(s, v, selected);
    SavedAdded(s, v, selected);
    SavedCoverDistinct(s, v, selected);
  }

  lemma SetsEqual(a: set<nat>, b: set<nat>)
    requires a <= b && b <= a
    ensures a == b
  {
  }

  lemma SelectedBecomeActive(s: Store, s2: Store, v: nat, selected: set<nat>)
    requires Saved(s, s2, v, selected)
    ensures selected <= ActiveSet(s2, v)
  {
    forall i | i in selected ensures i in ActiveSet(s2, v) {
      if i in MappedItems(s, v) {
        var k :| k in s.links.rows && s.links.rows[k].venueId == v && s.links.rows[k].itemId == i;
        assert s2.links.rows[k] == Reconciled(s.links.rows[k], v, selected);
      } else {
        assert i in ToCreate(s, v, selected);
        var k :| k in s2.links.rows && k !in s.links.rows && s2.links.rows[k].itemId == i;
        assert s2.links.rows[k].venueId == v && s2.links.rows[k].active;
      }
    }
  }

  lemma ActiveWereSelected(s: Store, s2: Store, v: nat, selected: set<nat>)
    requires Saved(s, s2, v, selected)
    ensures ActiveSet(s2, v) <= selected
  {
    forall i | i in ActiveSet(s2, v) ensures i in selected {
      var k :| k in s2.links.rows && s2.links.rows[k].venueId == v && s2.links.rows[k].active && s2.links.rows[k].itemId == i;
      if k in s.links.rows {
        assert s2.links.rows[k] == Reconciled(s.links.rows[k], v, selected);
      } else {
        assert i in ToCreate(s, v, selected);
      }
    }
  }

  /** After a save, the checked boxes are exactly the selection. */
  /** After a save, the quick check tracks exactly the selected items that are active. */
  lemma SaveThenTracked(s: Store, v: nat, selected: set<nat>)
    requires v in s.venues.rows
    ensures Tracked(SaveSupplies(s, v, selected).value.0, v) == selected * ActiveItems(s)
  {
    SaveSelectsExactly(s, v, selected);
  }

  lemma SaveSelectsExactly(s: Store, v: nat, selected: set<nat>)
    requires v in s.venues.rows
    ensures ActiveSet(SaveSupplies(s, v, selected).value.0, v) == selected
  {
    var s2 := SaveSupplies(s, v, selected).value.0;
    SaveShape(s, v, selected);
    SelectedBecomeActive(s, s2, v, selected);
    ActiveWereSelected(s, s2, v, selected);
    SetsEqual(ActiveSet(s2, v), selected);
  }

  /** After a save, the supplies page shows exactly the selection checked. */
  lemma SaveThenView(s: Store, v: nat, selected: set<nat>)
    requires v in s.venues.rows
    ensures var s2 := SaveSupplies(s, v, selected).value.0;
      SuppliesPage(s2, v) == Found((ActiveItems(s), selected))
  {
    SaveShape(s, v, selected);
    SaveSelectsExactly(s, v, selected);
  }

  lemma KeptRows(s: Store, s2: Store, v: nat, selected: set<nat>)
    requires KeptReconciled(s.links.rows, s2.links.rows, v, selected)
    ensures s.links.rows.Keys <= s2.links.rows.Keys
    ensures forall k | k in s.links.rows :: s2.links.rows[k] == s.links.rows[k].(active := s2.links.rows[k].active)
    ensures forall k | k in s.links.rows && s.links.rows[k].venueId != v :: s2.links.rows[k] == s.links.rows[k]
    ensures forall k | k in s.links.rows && !s.links.rows[k].active && s.links.rows[k].itemId !in selected ::
      s2.links.rows[k] == s.links.rows[k]
  {
  }

  /**
   A save never deletes a row, changes only the `active` flag of existing
   rows, leaves other venues' rows alone, and leaves unselected inactive rows
   exactly as they were (their quantities and thresholds included).
   */
  lemma SaveKeepsRows(s: Store, v: nat, selected: set<nat>)
    requires v in s.venues.rows
    ensures var s2 := SaveSupplies(s, v, selected).value.0;
      && s.links.rows.Keys <= s2.links.rows.Keys
      && (forall k | k in s.links.rows :: s2.links.rows[k] == s.links.rows[k].(active := s2.links.rows[k].active))
      && (forall k | k in s.links.rows && s.links.rows[k].venueId != v :: s2.links.rows[k] == s.links.rows[k])
      && (forall k | k in s.links.rows && !s.links.rows[k].active && s.links.rows[k].itemId !in selected ::
            s2.links.rows[k] == s.links.rows[k])
  {
    SaveShape(s, v, selected);
    KeptRows(s, SaveSupplies(s, v, selected).value.0, v, selected);
  }

  lemma SavedUnique(s: Store, s2: Store, v: nat, selected: set<nat>)
    requires Saved(s, s2, v, selected) && LinksUnique(s)
    ensures LinksUnique(s2)
  {
    forall a, b | a in s2.links.rows && b in s2.links.rows && a != b
      ensures s2.links.rows[a].venueId != s2.links.rows[b].venueId || s2.links.rows[a].itemId != s2.links.rows[b].itemId
    {
      if a in s.links.rows && b !in s.links.rows && s.links.rows[a].venueId == v {
        assert s.links.rows[a].itemId in MappedItems(s, v);
      } else if a !in s.links.rows && b in s.links.rows && s.links.rows[b].venueId == v {
        assert s.links.rows[b].itemId in MappedItems(s, v);
      }
    }
  }

  lemma SavedResolve(s: Store, s2: Store, v: nat, selected: set<nat>)
    requires Saved(s, s2, v, selected) && LinksResolve(s) && v in s.venues.rows
    requires selected <= s.items.rows.Keys
    ensures LinksResolve(s2)
  {
  }

  /**
   A save keeps the store's constraints, given that every selected id names an
   existing item (the form only offers existing items).
   */
  lemma SaveKeepsValid(s: Store, v: nat, selected: set<nat>)
    requires v in s.venues.rows && Valid(s) && selected <= s.items.rows.Keys
    ensures Valid(SaveSupplies(s, v, selected).value.0)
  {
    var s2 := SaveSupplies(s, v, selected).value.0;
    SaveShape(s, v, selected);
    SavedUnique(s, s2, v, selected);
    SavedResolve(s, s2, v, selected);
  }

  lemma MappedGrows(s: Store, s2: Store, v: nat, selected: set<nat>)
    requires Saved(s, s2, v, selected)
    ensures MappedItems(s, v) + selected <= MappedItems(s2, v)
  {
    forall i | i in MappedItems(s, v) + selected ensures i in MappedItems(s2, v) {
      if i in MappedItems(s, v) {
        var k :| k in s.links.rows && s.links.rows[k].venueId == v && s.links.rows[k].itemId == i;
        assert s2.links.rows[k] == Reconciled(s.links.rows[k], v, selected);
      } else {
        assert i in ToCreate(s, v, selected);
        var k :| k in s2.links.rows && k !in s.links.rows && s2.links.rows[k].itemId == i;
        assert s2.links.rows[k].venueId == v;
      }
    }
  }

  lemma MappedBounded(s: Store, s2: Store, v: nat, selected: set<nat>)
    requires Saved(s, s2, v, selected)
    ensures MappedItems(s2, v) <= MappedItems(s, v) + selected
  {
    forall i | i in MappedItems(s2, v) ensures i in MappedItems(s, v) + selected {
      var k :| k in s2.links.rows && s2.links.rows[k].venueId == v && s2.links.rows[k].itemId == i;
      if k in s.links.rows {
        assert s2.links.rows[k] == Reconciled(s.links.rows[k], v, selected);
        assert s.links.rows[k].venueId == v && s.links.rows[k].itemId == i;
      } else {
        assert i in ToCreate(s, v, selected);
      }
    }
  }

  /**
   Every added row is an unconfigured active mapping of the venue to a
   selected item it had no row for; the venue ends up with a row for every
   item it had one for plus every selected item, and no other.
   */
  lemma SaveAddsOnlyMissing(s: Store, v: nat, selected: set<nat>)
    requires v in s.venues.rows
    ensures var s2 := SaveSupplies(s, v, selected).value.0;
      && (forall k | k in s2.links.rows && k !in s.links.rows ::
            var m := s2.links.rows[k];
            m.venueId == v && m.active && m.itemId in selected && m.itemId !in MappedItems(s, v)
            && m.expectedQty.None? && m.reorderThreshold.None?)
      && MappedItems(s2, v) == MappedItems(s, v) + selected
  {
    var s2 := SaveSupplies(s, v, selected).value.0;
    SaveShape(s, v, selected);
    MappedGrows(s, s2, v, selected);
    MappedBounded(s, s2, v, selected);
    SetsEqual(MappedItems(s2, v), MappedItems(s, v) + selected);
  }

  /** The rows the save turned on, and the rows it turned off. */
  function Enabled(s: Store, s2: Store): set<nat> {
    set k | k in s.links.rows && k in s2.links.rows && !s.links.rows[k].active && s2.links.rows[k].active
  }

  function Disabled(s: Store, s2: Store): set<nat> {
    set k | k in s.links.rows && k in s2.links.rows && s.links.rows[k].active && !s2.links.rows[k].active
  }

  lemma DisabledUnselected(s: Store, s2: Store, v: nat, selected: set<nat>)
    requires KeptReconciled(s.links.rows, s2.links.rows, v, selected)
    ensures Disabled(s, s2) == Unselected(s, v, selected)
  {
  }

  lemma EnabledRows(s: Store, s2: Store, v: nat, selected: set<nat>)
    requires KeptReconciled(s.links.rows, s2.links.rows, v, selected)
    ensures forall k | k in Enabled(s, s2) :: k in s.links.rows && s.links.rows[k].venueId == v
    ensures (set k | k in Enabled(s, s2) :: s.links.rows[k].itemId) == selected * InactiveSet(s, v)
  {
    var enabled := Enabled(s, s2);
    var image := set k | k in enabled :: s.links.rows[k].itemId;
    forall i | i in selected * InactiveSet(s, v) ensures i in image {
      var k :| k in s.links.rows && s.links.rows[k].venueId == v && !s.links.rows[k].active && s.links.rows[k].itemId == i;
      assert k in enabled;
    }
  }

  /**
   The reported counters are the number of rows added, of existing rows
   switched on, and of existing rows switched off.
   */
  lemma SaveCounters(s: Store, v: nat, selected: set<nat>)
    requires v in s.venues.rows && LinksUnique(s)
    ensures var (s2, c) := SaveSupplies(s, v, selected).value;
      && c.created == |s2.links.rows| - |s.links.rows|
      && c.activated == |Enabled(s, s2)|
      && c.deactivated == |Disabled(s, s2)|
  {
    var s2 := SaveSupplies(s, v, selected).value.0;
    SaveShape(s, v, selected);
    DisabledUnselected(s, s2, v, selected);
    EnabledRows(s, s2, v, selected);
    LinkItemsSize(s, v, Enabled(s, s2));
  }

  /** Every row after a save already agrees with the selection. */
  lemma SavedFixed(s: Store, s2: Store, v: nat, selected: set<nat>)
    requires Saved(s, s2, v, selected)
    ensures forall k | k in s2.links.rows :: Reconciled(s2.links.rows[k], v, selected) == s2.links.rows[k]
  {
    forall k | k in s2.links.rows ensures Reconciled(s2.links.rows[k], v, selected) == s2.links.rows[k] {
      if k !in s.links.rows {
        assert s2.links.rows[k].itemId in ToCreate(s, v, selected);
      }
    }
  }

  lemma SavedNothingLeft(s: Store, s2: Store, v: nat, selected: set<nat>)
    requires Saved(s, s2, v, selected)
    ensures ToCreate(s2, v, selected) == {}
    ensures selected * InactiveSet(s2, v) == {}
    ensures Unselected(s2, v, selected) == {}
  {
    SelectedBecomeActive(s, s2, v, selected);
    SavedFixed(s, s2, v, selected);
    forall i | i in selected ensures i in MappedItems(s2, v) && i !in InactiveSet(s2, v) {
      assert i in ActiveSet(s2, v);
      forall k | k in s2.links.rows && s2.links.rows[k].venueId == v && !s2.links.rows[k].active
        ensures s2.links.rows[k].itemId != i
      {
        assert Reconciled(s2.links.rows[k], v, selected) == s2.links.rows[k];
      }
    }
    forall k | k in s2.links.rows ensures k !in Unselected(s2, v, selected) {
      assert Reconciled(s2.links.rows[k], v, selected) == s2.links.rows[k];
    }
  }

  lemma SavedLinksFixed(s: Store, s2: Store, v: nat, selected: set<nat>)
    requires Saved(s, s2, v, selected)
    ensures SavedLinks(s2, v, selected) == s2.links
  {
    SavedFixed(s, s2, v, selected);
    SavedNothingLeft(s, s2, v, selected);
    assert ReconcileRows(s2, v, selected) == s2.links.rows;
  }

  /**
   Saving the same selection again changes nothing and reports nothing: the
   handler is idempotent.
   */
  lemma SaveIdempotent(s: Store, v: nat, selected: set<nat>)
    requires v in s.venues.rows
    ensures var s2 := SaveSupplies(s, v, selected).value.0;
      SaveSupplies(s2, v, selected) == Found((s2, SaveCounts(0, 0, 0)))
  {
    var s2 := SaveSupplies(s, v, selected).value.0;
    SaveShape(s, v, selected);
    SavedNothingLeft(s, s2, v, selected);
    SavedLinksFixed(s, s2, v, selected);
  }

  // ================================================================ quick check

  /** The five statuses a check line may carry. */
  const StatusNames: set<string> := {"good", "ok", "low", "out", "not_checked"}

  /** Items tracked at a venue: an active mapping to an item that is itself active. */
  function Tracked(s: Store, v: nat): (r: set<nat>)
    ensures forall i | i in r :: i in s.items.rows && s.items.rows[i].active
    ensures r == ActiveSet(s, v) * ActiveItems(s)
  {
    TrackedIn(s.links, s.items, v)
  }

  function TrackedIn(links: Table<VenueItem>, items: Table<Item>, v: nat): set<nat> {
    set k | k in links.rows && links.rows[k].venueId == v && links.rows[k].active
              && links.rows[k].itemId in items.rows && items.rows[links.rows[k].itemId].active
      :: links.rows[k].itemId
  }

  /**
   The status stored for a submitted form value: missing or empty means
   `not_checked` (which trimming and lower-casing leave as it is, see
   `NotCheckedNormal`); otherwise trimmed and lower-cased, and anything that
   is not one of the five names becomes `not_checked`.
   */
  function NormalizeStatus(field: Option<string>): (r: string)
    ensures r in StatusNames
  {
    match field
    case None => "not_checked"
    case Some(raw) => if raw == "" then "not_checked" else StatusOf(raw)
  }

  /** A non-empty form value, trimmed and lower-cased, or `not_checked` when that is no status name. */
  function StatusOf(raw: string): (r: string)
    ensures r in StatusNames
  {
    var n := Norm(raw);
    if n in StatusNames then n else "not_checked"
  }

  // Each status name is its own normal form, one name at a time.
  lemma GoodNormal() ensures Norm("good") == "good" { NormFixed("good"); }
  lemma OkNormal() ensures Norm("ok") == "ok" { NormFixed("ok"); }
  lemma LowNormal() ensures Norm("low") == "low" { NormFixed("low"); }
  lemma OutNormal() ensures Norm("out") == "out" { NormFixed("out"); }
  lemma NotCheckedNormal() ensures Norm("not_checked") == "not_checked" { NormFixed("not_checked"); }

  /** Each status name is its own normal form. */
  lemma StatusNameFixed(n: string)
    requires n in StatusNames
    ensures Trimmed(n) && |n| > 0 && Norm(n) == n
  {
    if n == "good" {
      GoodNormal();
    } else if n == "ok" {
      OkNormal();
    } else if n == "low" {
      LowNormal();
    } else if n == "out" {
      OutNormal();
    } else {
      NotCheckedNormal();
    }
  }

  /** A status name, submitted again, records itself. */
  lemma NormalizeName(n: string)
    requires n in StatusNames
    ensures NormalizeStatus(Some(n)) == n
  {
    StatusNameFixed(n);
    StatusOfName(n);
    NormalizePresent(n);
  }

  /** A non-empty value is recorded as `StatusOf` reads it. */
  lemma NormalizePresent(raw: string)
    requires raw != ""
    ensures NormalizeStatus(Some(raw)) == StatusOf(raw)
  {
  }

  lemma StatusOfName(n: string)
    requires n in StatusNames && Norm(n) == n
    ensures StatusOf(n) == n
  {
  }

  /** A missing form value records `not_checked`. */
  lemma NormalizeMissing()
    ensures NormalizeStatus(None) == "not_checked"
    ensures NormalizeStatus(Some("")) == "not_checked"
  {
  }

  /**
   Against the reference keyword match: a value records one of the four
   named conditions exactly when it spells that name, in any letter case,
   with whitespace around it.
   */
  lemma NormalizeStatusNamed(raw: string, k: string)
    requires k in StatusNames && k != "not_checked"
    ensures NormalizeStatus(Some(raw)) == k <==> MatchesKeyword(raw, k)
  {
    StatusNameFixed(k);
    if raw == "" {
      NormalizeMissing();
      NoKeywordInEmpty(k);
    } else {
      NormMatchesKeyword(raw, k);
    }
  }

  lemma NormSpellsNoName(raw: string)
    ensures Norm(raw) !in StatusNames <==> forall n | n in StatusNames :: !MatchesKeyword(raw, n)
  {
    forall n | n in StatusNames ensures Norm(raw) == n <==> MatchesKeyword(raw, n) {
      StatusNameFixed(n);
      NormMatchesKeyword(raw, n);
    }
  }

  lemma EmptySpellsNoName()
    ensures forall n | n in StatusNames :: !MatchesKeyword("", n)
  {
    forall n | n in StatusNames ensures !MatchesKeyword("", n) {
      StatusNameFixed(n);
      NoKeywordInEmpty(n);
    }
  }

  /**
   Against the reference keyword match: a value records `not_checked`
   exactly when it spells `not_checked` or spells none of the five names.
   */
  lemma NormalizeStatusFallback(raw: string)
    ensures NormalizeStatus(Some(raw)) == "not_checked" <==>
      MatchesKeyword(raw, "not_checked") || forall n | n in StatusNames :: !MatchesKeyword(raw, n)
  {
    if raw == "" {
      NormalizeMissing();
      EmptySpellsNoName();
    } else {
      NormalizePresent(raw);
      StatusOfFallback(raw);
    }
  }

  lemma StatusOfFallback(raw: string)
    ensures StatusOf(raw) == "not_checked" <==>
      MatchesKeyword(raw, "not_checked") || forall n | n in StatusNames :: !MatchesKeyword(raw, n)
  {
    NotCheckedNormal();
    NormalMatchesKeyword(raw, "not_checked");
    NormSpellsNoName(raw);
  }

  /** A stored status normalises to itself. */
  lemma NormalizeStatusIdempotent(field: Option<string>)
    ensures NormalizeStatus(Some(NormalizeStatus(field))) == NormalizeStatus(field)
  {
    NormalizeName(NormalizeStatus(field));
  }

  /** The form value posted for an item, if any. */
  function FormStatus(form: map<nat, string>, i: nat): Option<string> {
    if i in form then Some(form[i]) else None
  }

  function NewLine(cid: nat, form: map<nat, string>): nat -> CheckLine {
    (i: nat) => CheckLine(cid, i, NormalizeStatus(FormStatus(form, i)))
  }

  /** POST: records one check for the venue at time `now`, with one line per tracked item. */
  function SubmitCheck(s: Store, v: nat, now: nat, form: map<nat, string>): (r: Response<(Store, nat)>)
    ensures r.NotFound? <==> v !in s.venues.rows
    ensures r.Found? ==> var (s', cid) := r.value;
      && s'.venues == s.venues && s'.items == s.items && s'.links == s.links
      && cid !in s.checks.rows && s'.checks.rows == s.checks.rows[cid := Check(v, now)]
  {
    if v !in s.venues.rows then NotFound
    else
      var cid := s.checks.next;
      var checks := Insert(s.checks, Check(v, now));
      var lines := InsertMany(s.lines, Tracked(s, v), NewLine(cid, form));
      Found((s.(checks := checks, lines := lines), cid))
  }

  /** The lines belonging to one check. */
  function LinesOf(s: Store, cid: nat): set<nat> {
    set l | l in s.lines.rows && s.lines.rows[l].checkId == cid
  }

  /** Every stored status is one of the five names. */
  predicate StatusesKnown(s: Store) {
    forall l | l in s.lines.rows :: s.lines.rows[l].status in StatusNames
  }

  // ---------------------------------------------------------------- a submission, line by line

  /** Every earlier line is still there, unchanged. */
  ghost predicate LinesKept(before: map<nat, CheckLine>, after: map<nat, CheckLine>) {
    forall l | l in before :: l in after && after[l] == before[l]
  }

  /** Every added line belongs to check `cid`, is for an item of `items`, and carries that item's normalised form value. */
  ghost predicate LinesAdded(before: map<nat, CheckLine>, after: map<nat, CheckLine>, cid: nat, items: set<nat>, form: map<nat, string>) {
    forall l | l in after && l !in before ::
      after[l].checkId == cid && after[l].itemId in items && after[l].status == NormalizeStatus(FormStatus(form, after[l].itemId))
  }

  /** Every item of `items` got an added line. */
  ghost predicate LinesCover(before: map<nat, CheckLine>, after: map<nat, CheckLine>, items: set<nat>) {
    forall i | i in items :: exists l | l in after && l !in before :: after[l].itemId == i
  }

  /** All of the above, for the store before and after a submission that created check `cid`. */
  ghost predicate Submitted(s: Store, s2: Store, v: nat, now: nat, form: map<nat, string>, cid: nat) {
    var items := Tracked(s, v);
    && s2.venues == s.venues && s2.items == s.items && s2.links == s.links
    && cid !in s.checks.rows && s2.checks.rows == s.checks.rows[cid := Check(v, now)]
    && LinesKept(s.lines.rows, s2.lines.rows)
    && LinesAdded(s.lines.rows, s2.lines.rows, cid, items, form)
    && LinesCover(s.lines.rows, s2.lines.rows, items)
    && |s2.lines.rows| == |s.lines.rows| + |items|
  }

  lemma SubmitLinesAdded(s: Store, v: nat, form: map<nat, string>)
    ensures LinesAdded(s.lines.rows, InsertMany(s.lines, Tracked(s, v), NewLine(s.checks.next, form)).rows,
                       s.checks.next, Tracked(s, v), form)
  {
    var items := Tracked(s, v);
    var mk := NewLine(s.checks.next, form);
    var after := InsertMany(s.lines, items, mk).rows;
    InsertManyFacts(s.lines, items, mk);
    forall l | l in after && l !in s.lines.rows
      ensures after[l].checkId == s.checks.next && after[l].itemId in items
      ensures after[l].status == NormalizeStatus(FormStatus(form, after[l].itemId))
    {
      var i :| i in items && l == NewId(s.lines, items, i);
      assert after[l] == mk(i);
    }
  }

  lemma SubmitLinesCover(s: Store, v: nat, form: map<nat, string>)
    ensures LinesCover(s.lines.rows, InsertMany(s.lines, Tracked(s, v), NewLine(s.checks.next, form)).rows, Tracked(s, v))
  {
    var items := Tracked(s, v);
    var mk := NewLine(s.checks.next, form);
    var after := InsertMany(s.lines, items, mk).rows;
    InsertManyFacts(s.lines, items, mk);
    forall i | i in items ensures exists l | l in after && l !in s.lines.rows :: after[l].itemId == i {
      var l := NewId(s.lines, items, i);
      assert after[l] == mk(i);
    }
  }

  /** What a submission does, line by line; venues, items and mappings do not change. */
  lemma SubmitShape(s: Store, v: nat, now: nat, form: map<nat, string>)
    requires v in s.venues.rows
    ensures var (s2, cid) := SubmitCheck(s, v, now, form).value;
      Submitted(s, s2, v, now, form, cid)
  {
    InsertManyFacts(s.lines, Tracked(s, v), NewLine(s.checks.next, form));
    SubmitLinesAdded(s, v, form);
    SubmitLinesCover(s, v, form);
  }

  /** The lines added by the submission. */
  function AddedLines(s: Store, s2: Store): set<nat> {
    set l | l in s2.lines.rows && l !in s.lines.rows
  }

  lemma DiffSize(a: set<nat>, b: set<nat>)
    requires a <= b
    ensures |b - a| == |b| - |a|
  {
    assert b == a + (b - a);
  }

  lemma SubmittedLinesOf(s: Store, s2: Store, v: nat, now: nat, form: map<nat, string>, cid: nat)
    requires Submitted(s, s2, v, now, form, cid) && LinesResolve(s)
    ensures LinesOf(s2, cid) == AddedLines(s, s2)
  {
    forall l | l in s.lines.rows ensures s2.lines.rows[l].checkId != cid {
      assert s2.lines.rows[l] == s.lines.rows[l];
      assert s.lines.rows[l].checkId in s.checks.rows;
    }
  }

  /** With earlier lines kept, the lines after are the earlier ones plus the added ones. */
  lemma AddedLinesKeys(s: Store, s2: Store)
    requires LinesKept(s.lines.rows, s2.lines.rows)
    ensures s2.lines.rows.Keys == s.lines.rows.Keys + AddedLines(s, s2)
  {
  }

  lemma AddedLinesSize(s: Store, s2: Store, v: nat, now: nat, form: map<nat, string>, cid: nat)
    requires LinesKept(s.lines.rows, s2.lines.rows) && |s2.lines.rows| == |s.lines.rows| + |Tracked(s, v)|
    ensures |AddedLines(s, s2)| == |Tracked(s, v)|
  {
    assert AddedLines(s, s2) == s2.lines.rows.Keys - s.lines.rows.Keys;
    DiffSize(s.lines.rows.Keys, s2.lines.rows.Keys);
  }

  lemma SubmittedItems(s: Store, s2: Store, v: nat, now: nat, form: map<nat, string>, cid: nat)
    requires Submitted(s, s2, v, now, form, cid)
    ensures (set l | l in AddedLines(s, s2) :: s2.lines.rows[l].itemId) == Tracked(s, v)
  {
    var items := Tracked(s, v);
    var image := set l | l in AddedLines(s, s2) :: s2.lines.rows[l].itemId;
    forall i | i in items ensures i in image {
      var l :| l in s2.lines.rows && l !in s.lines.rows && s2.lines.rows[l].itemId == i;
      assert l in AddedLines(s, s2);
    }
  }

  lemma SubmittedLinesResolve(s: Store, s2: Store, v: nat, now: nat, form: map<nat, string>, cid: nat)
    requires Submitted(s, s2, v, now, form, cid) && LinesResolve(s)
    ensures LinesResolve(s2)
  {
    forall l | l in s2.lines.rows ensures s2.lines.rows[l].checkId in s2.checks.rows {
      if l in s.lines.rows {
        assert s2.lines.rows[l] == s.lines.rows[l];
        assert s.lines.rows[l].checkId in s.checks.rows;
      } else {
        assert s2.lines.rows[l].checkId == cid;
      }
    }
  }

  lemma SubmittedStatuses(s: Store, s2: Store, v: nat, now: nat, form: map<nat, string>, cid: nat)
    requires Submitted(s, s2, v, now, form, cid) && StatusesKnown(s)
    ensures StatusesKnown(s2)
  {
    forall l | l in s2.lines.rows ensures s2.lines.rows[l].status in StatusNames {
      if l in s.lines.rows {
        assert s2.lines.rows[l] == s.lines.rows[l];
      } else {
        assert s2.lines.rows[l].status == NormalizeStatus(FormStatus(form, s2.lines.rows[l].itemId));
      }
    }
  }

  lemma SubmittedValid(s: Store, s2: Store, v: nat, now: nat, form: map<nat, string>, cid: nat)
    requires Submitted(s, s2, v, now, form, cid) && Valid(s) && v in s.venues.rows
    ensures Valid(s2)
    ensures StatusesKnown(s) ==> StatusesKnown(s2)
  {
    SubmittedLinesResolve(s, s2, v, now, form, cid);
    if StatusesKnown(s) {
      SubmittedStatuses(s, s2, v, now, form, cid);
    }
    assert VenueNamesUnique(s2) && ItemNamesUnique(s2) && LinksUnique(s2) && LinksResolve(s2);
  }

  /**
   A submitted check has exactly one line per tracked item, each carrying the
   normalised form value for that item; earlier lines are untouched and no
   other line is added, and the
   store's constraints and the five-status invariant are kept.
   */
  lemma SubmitCheckLines(s: Store, v: nat, now: nat, form: map<nat, string>)
    requires v in s.venues.rows && Valid(s)
    ensures var (s2, cid) := SubmitCheck(s, v, now, form).value;
      && (forall l | l in s.lines.rows :: l in s2.lines.rows && s2.lines.rows[l] == s.lines.rows[l])
      && (set l | l in LinesOf(s2, cid) :: s2.lines.rows[l].itemId) == Tracked(s, v)
      && |LinesOf(s2, cid)| == |Tracked(s, v)|
      && s2.lines.rows.Keys == s.lines.rows.Keys + LinesOf(s2, cid)
      && (forall l | l in LinesOf(s2, cid) ::
            s2.lines.rows[l].status == NormalizeStatus(FormStatus(form, s2.lines.rows[l].itemId)))
      && Valid(s2)
      && (StatusesKnown(s) ==> StatusesKnown(s2))
  {
    var (s2, cid) := SubmitCheck(s, v, now, form).value;
    SubmitShape(s, v, now, form);
    SubmittedLinesOf(s, s2, v, now, form, cid);
    AddedLinesKeys(s, s2);
    AddedLinesSize(s, s2, v, now, form, cid);
    SubmittedItems(s, s2, v, now, form, cid);
    SubmittedValid(s, s2, v, now, form, cid);
  }

  /** A line recorded for item `i` in one of the venue's checks. */
  predicate InVenueCheck(s: Store, v: nat, i: nat, l: nat) {
    && l in s.lines.rows
    && s.lines.rows[l].itemId == i
    && s.lines.rows[l].checkId in s.checks.rows
    && s.checks.rows[s.lines.rows[l].checkId].venueId == v
  }

  /** When the check holding a line was saved. */
  function LineTime(s: Store, l: nat): nat
    requires l in s.lines.rows && s.lines.rows[l].checkId in s.checks.rows
  {
    s.checks.rows[s.lines.rows[l].checkId].createdAt
  }

  /** Among lines with id below `n`, one for item `i` in a check of venue `v` saved last. */
  function LatestBelow(s: Store, v: nat, i: nat, n: nat): (r: Option<nat>)
    ensures r.None? <==> forall l: nat | l < n :: !InVenueCheck(s, v, i, l)
    ensures r.Some? ==> r.value < n && InVenueCheck(s, v, i, r.value)
    ensures r.Some? ==> forall l: nat | l < n && InVenueCheck(s, v, i, l) :: LineTime(s, l) <= LineTime(s, r.value)
  {
    if n == 0 then None
    else
      var best := LatestBelow(s, v, i, n - 1);
      if !InVenueCheck(s, v, i, n - 1) then best
      else if best.Some? && LineTime(s, best.value) > LineTime(s, n - 1) then best
      else Some(n - 1)
  }

  /** The line of item `i` in the venue's most recent check that has one; ties are broken arbitrarily. */
  function LatestLine(s: Store, v: nat, i: nat): (r: Option<nat>)
    ensures r.None? <==> forall l | l in s.lines.rows :: !InVenueCheck(s, v, i, l)
    ensures r.Some? ==> InVenueCheck(s, v, i, r.value)
    ensures r.Some? ==> forall l | InVenueCheck(s, v, i, l) :: LineTime(s, l) <= LineTime(s, r.value)
  {
    LatestBelow(s, v, i, s.lines.next)
  }

  /** GET: each tracked item's most recent recorded status, or `not_checked` if it never had one. */
  function Prefill(s: Store, v: nat): (r: Response<map<nat, string>>)
    ensures r.NotFound? <==> v !in s.venues.rows
    ensures r.Found? ==> r.value.Keys == Tracked(s, v)
  {
    if v !in s.venues.rows then NotFound
    else Found(map i | i in Tracked(s, v) :: LatestStatus(s, v, i))
  }

  /** The status shown for one item: that of its latest line at the venue, if any. */
  function LatestStatus(s: Store, v: nat, i: nat): (r: string)
    ensures StatusesKnown(s) ==> r in StatusNames
  {
    match LatestLine(s, v, i)
    case Some(l) => s.lines.rows[l].status
    case None => "not_checked"
  }

  /**
   The prefilled status of a tracked item is the status of its line in a
   latest check of the venue that has one, and `not_checked` when no check of
   the venue has a line for it.
   */
  lemma PrefillLatest(s: Store, v: nat, i: nat)
    requires v in s.venues.rows && i in Tracked(s, v)
    ensures (forall l | l in s.lines.rows :: !InVenueCheck(s, v, i, l)) ==> Prefill(s, v).value[i] == "not_checked"
    ensures (exists l :: InVenueCheck(s, v, i, l)) ==>
      exists l | InVenueCheck(s, v, i, l) ::
        && Prefill(s, v).value[i] == s.lines.rows[l].status
        && forall l' | InVenueCheck(s, v, i, l') :: LineTime(s, l') <= LineTime(s, l)
  {
    var r := LatestLine(s, v, i);
    if r.Some? {
      assert InVenueCheck(s, v, i, r.value);
    }
  }

  /** Lines of earlier checks of the venue are all older than `now`. */
  lemma EarlierLinesOlder(s: Store, s2: Store, v: nat, now: nat, form: map<nat, string>, cid: nat, i: nat)
    requires Submitted(s, s2, v, now, form, cid) && LinesResolve(s)
    requires forall c | c in s.checks.rows && s.checks.rows[c].venueId == v :: s.checks.rows[c].createdAt < now
    ensures forall l | l in s.lines.rows && InVenueCheck(s2, v, i, l) :: LineTime(s2, l) < now
  {
    forall l | l in s.lines.rows && InVenueCheck(s2, v, i, l) ensures LineTime(s2, l) < now {
      var c := s.lines.rows[l].checkId;
      assert c in s.checks.rows && s2.lines.rows[l].checkId == c;
    }
  }

  lemma PrefillAfterSubmit(s: Store, s2: Store, v: nat, now: nat, form: map<nat, string>, cid: nat, i: nat)
    requires Submitted(s, s2, v, now, form, cid) && LinesResolve(s) && v in s.venues.rows && i in Tracked(s, v)
    requires forall c | c in s.checks.rows && s.checks.rows[c].venueId == v :: s.checks.rows[c].createdAt < now
    ensures LatestStatus(s2, v, i) == NormalizeStatus(FormStatus(form, i))
  {
    var mine :| mine in s2.lines.rows && mine !in s.lines.rows && s2.lines.rows[mine].itemId == i;
    assert InVenueCheck(s2, v, i, mine);
    EarlierLinesOlder(s, s2, v, now, form, cid, i);
    var l := LatestLine(s2, v, i).value;
    assert LineTime(s2, mine) <= LineTime(s2, l);
    assert l !in s.lines.rows;
  }

  /**
   Submit then view: when the clock has moved past every earlier check of the
   venue, the prefill right after a submission shows exactly the statuses
   just recorded.
   */
  lemma SubmitThenPrefill(s: Store, v: nat, now: nat, form: map<nat, string>)
    requires v in s.venues.rows && Valid(s)
    requires forall c | c in s.checks.rows && s.checks.rows[c].venueId == v :: s.checks.rows[c].createdAt < now
    ensures var s2 := SubmitCheck(s, v, now, form).value.0;
      Prefill(s2, v) == Found(map i | i in Tracked(s, v) :: NormalizeStatus(FormStatus(form, i)))
  {
    var (s2, cid) := SubmitCheck(s, v, now, form).value;
    SubmitShape(s, v, now, form);
    SubmittedPrefill(s, s2, v, now, form, cid);
  }

  lemma SubmittedPrefill(s: Store, s2: Store, v: nat, now: nat, form: map<nat, string>, cid: nat)
    requires Submitted(s, s2, v, now, form, cid) && LinesResolve(s) && v in s.venues.rows
    requires forall c | c in s.checks.rows && s.checks.rows[c].venueId == v :: s.checks.rows[c].createdAt < now
    ensures Prefill(s2, v) == Found(map i | i in Tracked(s, v) :: NormalizeStatus(FormStatus(form, i)))
  {
    var shown := Prefill(s2, v).value;
    var recorded := map i | i in Tracked(s, v) :: NormalizeStatus(FormStatus(form, i));
    assert Tracked(s2, v) == Tracked(s, v);
    assert shown.Keys == recorded.Keys;
    forall i | i in Tracked(s, v) ensures shown[i] == recorded[i] {
      PrefillAfterSubmit(s, s2, v, now, form, cid, i);
    }
    MapsEqual(shown, recorded);
  }

  lemma MapsEqual(a: map<nat, string>, b: map<nat, string>)
    requires a.Keys == b.Keys && forall i | i in a :: a[i] == b[i]
    ensures a == b
  {
  }
}
