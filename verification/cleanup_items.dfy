/**
 The cleanup script: the item names listed in the items file are kept, and
 every other item is deleted together with all of its venue mappings, unless
 the run is a dry run or the list came out empty.
 */
module CleanupItems {
  import opened Optional
  import opened Strings
  import opened Store
  import SeedFromCsv

  /** The name a row contributes, blank when the cell is missing, absent or blank. */
  function CellName(row: SeedFromCsv.Row): string {
    Strip(SeedFromCsv.Lookup(row, "item_name").GetOr(""))
  }

  /** The non-blank names of a list, as a set. */
  function KeepNames(names: seq<string>): (r: set<string>)
    ensures "" !in r
    decreases |names|
  {
    if |names| == 0 then {}
    else (if names[0] == "" then {} else {names[0]}) + KeepNames(names[1..])
  }

  /** A name is in the set exactly when it is non-blank and listed. */
  lemma KeepNamesExactly(names: seq<string>, name: string)
    ensures name in KeepNames(names) <==> name != "" && name in names
  {
    if name in KeepNames(names) {
      KeptNameListed(names, name);
    }
    if name != "" && name in names {
      ListedNameKept(names, name);
    }
  }

  lemma {:induction false} KeptNameListed(names: seq<string>, name: string)
    requires name in KeepNames(names)
    ensures name in names
    decreases |names|
  {
    if names[0] != name {
      KeptNameListed(names[1..], name);
    }
  }

  lemma {:induction false} ListedNameKept(names: seq<string>, name: string)
    requires name != "" && name in names
    ensures name in KeepNames(names)
    decreases |names|
  {
    if names[0] != name {
      ListedNameKept(names[1..], name);
    }
  }

  /** The trimmed `item_name` cell of every row, in order. */
  function CellNames(rows: seq<SeedFromCsv.Row>): seq<string> {
    seq(|rows|, i requires 0 <= i < |rows| => CellName(rows[i]))
  }

  /** `read_csv_item_names`: the non-blank trimmed names of the rows. */
  function ReadKeepNames(rows: seq<SeedFromCsv.Row>): (r: set<string>)
    ensures "" !in r
  {
    KeepNames(CellNames(rows))
  }

  /** A name is kept exactly when some row carries it, trimmed, in its `item_name` cell. */
  lemma ReadKeepNamesExactly(rows: seq<SeedFromCsv.Row>, name: string)
    ensures name in ReadKeepNames(rows) <==> name != "" && exists i | 0 <= i < |rows| :: CellName(rows[i]) == name
  {
    var names := CellNames(rows);
    KeepNamesExactly(names, name);
    if name in names {
      var i :| 0 <= i < |names| && names[i] == name;
      assert CellName(rows[i]) == name;
    }
    if exists i | 0 <= i < |rows| :: CellName(rows[i]) == name {
      var i :| 0 <= i < |rows| && CellName(rows[i]) == name;
      assert names[i] == name;
    }
  }

  /** The items whose names are not kept. */
  function Doomed(s: Store, keep: set<string>): set<nat> {
    set k | k in s.items.rows && s.items.rows[k].name !in keep
  }

  /** The mapping rows of doomed items, active or not. */
  function DoomedLinks(s: Store, doomed: set<nat>): set<nat> {
    set k | k in s.links.rows && s.links.rows[k].itemId in doomed
  }

  datatype CleanupOutcome =
    | Aborted
    | DryRun(toDelete: set<nat>)
    | Deleted(links: nat, items: nat)

  /**
   `cleanup`: an empty keep list aborts; a dry run only reports the items
   that would go; otherwise the mappings of those items go first, then the
   items.
   */
  function Cleanup(s: Store, keep: set<string>, dryRun: bool): (r: (Store, CleanupOutcome))
    ensures keep == {} <==> r.1.Aborted?
    ensures r.1.Aborted? || r.1.DryRun? ==> r.0 == s
    ensures r.1.DryRun? <==> keep != {} && dryRun
    ensures r.0.venues == s.venues && r.0.checks == s.checks && r.0.lines == s.lines
  {
    if keep == {} then (s, Aborted)
    else
      var doomed := Doomed(s, keep);
      if dryRun then (s, DryRun(doomed))
      else if doomed == {} then (s, Deleted(0, 0))
      else
        var gone := DoomedLinks(s, doomed);
        (s.(links := Delete(s.links, gone), items := Delete(s.items, doomed)), Deleted(|gone|, |doomed|))
  }

  /** A dry run names exactly the items a real run would delete: those whose names are not kept. */
  lemma DryRunLists(s: Store, keep: set<string>, k: nat)
    requires keep != {}
    ensures Cleanup(s, keep, true).1 == DryRun(s.items.rows.Keys - Cleanup(s, keep, false).0.items.rows.Keys)
    ensures k in Cleanup(s, keep, true).1.toDelete <==> k in s.items.rows && s.items.rows[k].name !in keep
  {
    CleanupDeletes(s, keep);
  }

  /**
   A real run: the items left are exactly those whose names are kept, each as
   it was; the mapping rows left are exactly those of items left, each as it
   was.
   */
  lemma CleanupDeletes(s: Store, keep: set<string>)
    requires keep != {}
    ensures var s2 := Cleanup(s, keep, false).0;
      && (forall k :: k in s2.items.rows <==> k in s.items.rows && s.items.rows[k].name in keep)
      && (forall k | k in s2.items.rows :: s2.items.rows[k] == s.items.rows[k])
      && (forall k :: k in s2.links.rows <==> k in s.links.rows && s.links.rows[k].itemId !in Doomed(s, keep))
      && (forall k | k in s2.links.rows :: s2.links.rows[k] == s.links.rows[k])
  {
    var doomed := Doomed(s, keep);
    var s2 := Cleanup(s, keep, false).0;
    if doomed != {} {
      assert s2.items == Delete(s.items, doomed);
      assert s2.links == Delete(s.links, DoomedLinks(s, doomed));
    }
    forall k ensures k in s2.items.rows <==> k in s.items.rows && s.items.rows[k].name in keep {
      assert k in s.items.rows && s.items.rows[k].name !in keep <==> k in doomed;
    }
  }

  /** With every mapping pointing at an existing item, no mapping left points at a deleted one. */
  lemma CleanupNoDangling(s: Store, keep: set<string>, dryRun: bool)
    requires LinksResolve(s)
    ensures LinksResolve(Cleanup(s, keep, dryRun).0)
  {
    var s2 := Cleanup(s, keep, dryRun).0;
    if keep != {} && !dryRun {
      CleanupDeletes(s, keep);
      forall k | k in s2.links.rows
        ensures s2.links.rows[k].venueId in s2.venues.rows && s2.links.rows[k].itemId in s2.items.rows
      {
        var i := s.links.rows[k].itemId;
        assert i in s.items.rows && i !in Doomed(s, keep);
      }
    }
  }

  /** The run keeps every constraint of the store. */
  lemma CleanupKeepsValid(s: Store, keep: set<string>, dryRun: bool)
    requires Valid(s)
    ensures Valid(Cleanup(s, keep, dryRun).0)
  {
    CleanupNoDangling(s, keep, dryRun);
    var s2 := Cleanup(s, keep, dryRun).0;
    if keep != {} && !dryRun {
      CleanupDeletes(s, keep);
      assert s2.items.rows.Keys <= s.items.rows.Keys && s2.links.rows.Keys <= s.links.rows.Keys;
    }
  }

  /** The reported counts are the numbers of mapping rows and item rows removed. */
  lemma CleanupCounts(s: Store, keep: set<string>)
    requires keep != {}
    ensures var (s2, out) := Cleanup(s, keep, false);
      && out.Deleted?
      && |s2.items.rows| + out.items == |s.items.rows|
      && |s2.links.rows| + out.links == |s.links.rows|
  {
    var doomed := Doomed(s, keep);
    var gone := DoomedLinks(s, doomed);
    var (s2, out) := Cleanup(s, keep, false);
    if doomed != {} {
      RemovedSize(s.items.rows.Keys, doomed, s2.items.rows.Keys);
      RemovedSize(s.links.rows.Keys, gone, s2.links.rows.Keys);
    }
  }

  lemma RemovedSize(all: set<nat>, gone: set<nat>, left: set<nat>)
    requires gone <= all && left == all - gone
    ensures |left| + |gone| == |all|
  {
    assert all == left + gone;
  }

  /** A second real run with the same list deletes nothing. */
  lemma CleanupIdempotent(s: Store, keep: set<string>)
    requires keep != {}
    ensures var s2 := Cleanup(s, keep, false).0;
      Cleanup(s2, keep, false) == (s2, Deleted(0, 0))
  {
    var s2 := Cleanup(s, keep, false).0;
    CleanupDeletes(s, keep);
    assert Doomed(s2, keep) == {};
  }

  /** Reading the list from the rows: an item whose name a row carries survives, with its mappings. */
  lemma ListedItemSurvives(s: Store, rows: seq<SeedFromCsv.Row>, i: nat, k: nat)
    requires 0 <= i < |rows| && CellName(rows[i]) != ""
    requires k in s.items.rows && s.items.rows[k].name == CellName(rows[i])
    ensures var s2 := Cleanup(s, ReadKeepNames(rows), false).0;
      && k in s2.items.rows && s2.items.rows[k] == s.items.rows[k]
      && (forall l | l in s.links.rows && s.links.rows[l].itemId == k :: l in s2.links.rows)
  {
    var keep := ReadKeepNames(rows);
    ReadKeepNamesExactly(rows, CellName(rows[i]));
    CleanupDeletes(s, keep);
  }
}
