/**
 The core-venue seed: every venue of a fixed list must exist, be core and be
 active; missing ones are added and existing ones have their two flags
 raised.
 */
module SeedCoreVenues {
  import opened Optional
  import opened Store

  /** The venues the seed maintains, in the order it visits them. */
  const CoreVenues: seq<string> := [
    "Main Meditation Hall", "Veda 1", "Veda 2", "Veda 3", "Veda 4",
    "Ananda Hall", "Shakti Hall", "Gita Hall", "Argun"
  ]

  /** What one name did to the store, for the counters. */
  datatype Step = Created | Updated | Unchanged

  /** The venue found under `name` exists and is core and active. */
  predicate CoreReady(s: Store, name: string) {
    && VenueByName(s, name).Some?
    && s.venues.rows[VenueByName(s, name).value].isCore
    && s.venues.rows[VenueByName(s, name).value].active
  }

  /** One name of the list: add the venue, or raise its flags where they are down. */
  function EnsureCore(s: Store, name: string): (r: (Store, Step))
    ensures r.1 == Unchanged <==> CoreReady(s, name)
    ensures r.1 == Created <==> VenueByName(s, name).None?
    ensures r.1 == Unchanged ==> r.0 == s
    ensures r.0.items == s.items && r.0.links == s.links && r.0.checks == s.checks && r.0.lines == s.lines
  {
    match VenueByName(s, name)
    case Some(id) =>
      var v := s.venues.rows[id];
      if v.isCore && v.active then (s, Unchanged)
      else (s.(venues := Update(s.venues, id, v.(isCore := true, active := true))), Updated)
    case None => (s.(venues := Insert(s.venues, Venue(name, true, true))), Created)
  }

  /**
   The rows `EnsureCore` writes: afterwards the venue under the name is core
   and active, a venue under another name is as it was, and every added row
   carries the name.
   */
  lemma EnsureCoreRows(s: Store, name: string)
    requires VenueNamesUnique(s)
    ensures var s2 := EnsureCore(s, name).0;
      && VenueNamesUnique(s2)
      && CoreReady(s2, name)
      && s.venues.rows.Keys <= s2.venues.rows.Keys
      && (forall k | k in s.venues.rows && s.venues.rows[k].name != name :: s2.venues.rows[k] == s.venues.rows[k])
      && (forall k | k in s2.venues.rows && k !in s.venues.rows :: s2.venues.rows[k].name == name)
  {
    var (s2, step) := EnsureCore(s, name);
    var id := if step == Created then s.venues.next else VenueByName(s, name).value;
    assert id in s2.venues.rows && s2.venues.rows[id].name == name;
    EnsureCoreUnique(s, name);
    assert VenueByName(s2, name) == Some(id);
  }

  lemma EnsureCoreUnique(s: Store, name: string)
    requires VenueNamesUnique(s)
    ensures VenueNamesUnique(EnsureCore(s, name).0)
  {
    var (s2, step) := EnsureCore(s, name);
    if step == Created {
      var id := s.venues.next;
      forall a, b | a in s2.venues.rows && b in s2.venues.rows && a != b
        ensures s2.venues.rows[a].name != s2.venues.rows[b].name
      {
        if a == id {
          assert b in s.venues.rows;
        } else if b == id {
          assert a in s.venues.rows;
        }
      }
    }
  }

  /** An existing venue counts as updated exactly when one of its two flags was down. */
  lemma EnsureCoreUpdated(s: Store, name: string, id: nat)
    requires VenueNamesUnique(s)
    requires id in s.venues.rows && s.venues.rows[id].name == name
    ensures EnsureCore(s, name).1 == Updated <==> !s.venues.rows[id].isCore || !s.venues.rows[id].active
    ensures EnsureCore(s, name).1 != Created
  {
    assert VenueByName(s, name) == Some(id);
  }

  /** Raising another name's flags leaves a ready name ready. */
  lemma EnsureCoreKeepsReady(s: Store, name: string, other: string)
    requires VenueNamesUnique(s) && CoreReady(s, other)
    ensures CoreReady(EnsureCore(s, name).0, other)
  {
    var s2 := EnsureCore(s, name).0;
    EnsureCoreRows(s, name);
    var k := VenueByName(s, other).value;
    assert k in s2.venues.rows && s2.venues.rows[k].name == other;
    assert s2.venues.rows[k].isCore && s2.venues.rows[k].active;
    assert VenueByName(s2, other) == Some(k);
  }

  datatype CoreCounts = CoreCounts(created: nat, updated: nat)

  /** The seed over a list of names, with the counters the script prints. */
  function SeedCore(s: Store, names: seq<string>): (r: (Store, CoreCounts))
    ensures r.1.created + r.1.updated <= |names|
    ensures r.0.items == s.items && r.0.links == s.links && r.0.checks == s.checks && r.0.lines == s.lines
    decreases |names|
  {
    if |names| == 0 then (s, CoreCounts(0, 0))
    else
      var (s1, step) := EnsureCore(s, names[0]);
      var (s2, c) := SeedCore(s1, names[1..]);
      (s2, CoreCounts(c.created + (if step == Created then 1 else 0), c.updated + (if step == Updated then 1 else 0)))
  }

  /** `seed`: the run over the fixed list. */
  function Seed(s: Store): (r: (Store, CoreCounts))
    ensures r.1.created + r.1.updated <= |CoreVenues|
    ensures r.0.items == s.items && r.0.links == s.links && r.0.checks == s.checks && r.0.lines == s.lines
  {
    SeedCore(s, CoreVenues)
  }

  /**
   After the run, each listed name is the name of exactly one venue (names
   stay unique), and that venue is core and active.
   */
  lemma {:induction false} SeedCoreReady(s: Store, names: seq<string>)
    requires VenueNamesUnique(s)
    ensures VenueNamesUnique(SeedCore(s, names).0)
    ensures forall i | 0 <= i < |names| :: CoreReady(SeedCore(s, names).0, names[i])
    decreases |names|
  {
    if |names| > 0 {
      var s1 := EnsureCore(s, names[0]).0;
      EnsureCoreRows(s, names[0]);
      SeedCoreReady(s1, names[1..]);
      SeedCoreKeepsReady(s1, names[1..], names[0]);
      forall i | 1 <= i < |names| ensures CoreReady(SeedCore(s, names).0, names[i]) {
        assert names[1..][i - 1] == names[i];
      }
    }
  }

  lemma {:induction false} SeedCoreKeepsReady(s: Store, names: seq<string>, other: string)
    requires VenueNamesUnique(s) && CoreReady(s, other)
    ensures CoreReady(SeedCore(s, names).0, other)
    decreases |names|
  {
    if |names| > 0 {
      var s1 := EnsureCore(s, names[0]).0;
      EnsureCoreKeepsReady(s, names[0], other);
      EnsureCoreRows(s, names[0]);
      SeedCoreKeepsReady(s1, names[1..], other);
    }
  }

  /** A venue whose name is not listed is untouched, and no venue is removed. */
  lemma {:induction false} SeedCoreUntouched(s: Store, names: seq<string>)
    requires VenueNamesUnique(s)
    ensures var s2 := SeedCore(s, names).0;
      && s.venues.rows.Keys <= s2.venues.rows.Keys
      && (forall k | k in s.venues.rows && s.venues.rows[k].name !in names :: s2.venues.rows[k] == s.venues.rows[k])
    decreases |names|
  {
    if |names| > 0 {
      var s1 := EnsureCore(s, names[0]).0;
      EnsureCoreRows(s, names[0]);
      SeedCoreUntouched(s1, names[1..]);
      var s2 := SeedCore(s, names).0;
      forall k | k in s.venues.rows && s.venues.rows[k].name !in names
        ensures s2.venues.rows[k] == s.venues.rows[k]
      {
        assert s.venues.rows[k].name != names[0];
        assert s1.venues.rows[k].name !in names[1..];
      }
    }
  }

  /** No venue is renamed: the seed only adds rows and raises flags. */
  lemma EnsureCoreNames(s: Store, name: string)
    ensures var s2 := EnsureCore(s, name).0;
      && s.venues.rows.Keys <= s2.venues.rows.Keys
      && (forall k | k in s.venues.rows :: s2.venues.rows[k].name == s.venues.rows[k].name)
      && (forall k | k in s2.venues.rows && k !in s.venues.rows :: s2.venues.rows[k].name == name)
  {
  }

  lemma {:induction false} SeedCoreNames(s: Store, names: seq<string>)
    ensures var s2 := SeedCore(s, names).0;
      && s.venues.rows.Keys <= s2.venues.rows.Keys
      && (forall k | k in s.venues.rows :: s2.venues.rows[k].name == s.venues.rows[k].name)
    decreases |names|
  {
    if |names| > 0 {
      EnsureCoreNames(s, names[0]);
      SeedCoreNames(EnsureCore(s, names[0]).0, names[1..]);
    }
  }

  /** Every venue the run adds has a listed name. */
  lemma {:induction false} SeedCoreAddsListed(s: Store, names: seq<string>)
    ensures var s2 := SeedCore(s, names).0;
      forall k | k in s2.venues.rows && k !in s.venues.rows :: s2.venues.rows[k].name in names
    decreases |names|
  {
    if |names| > 0 {
      var s1 := EnsureCore(s, names[0]).0;
      EnsureCoreNames(s, names[0]);
      SeedCoreAddsListed(s1, names[1..]);
      SeedCoreNames(s1, names[1..]);
      var s2 := SeedCore(s, names).0;
      forall k | k in s2.venues.rows && k !in s.venues.rows
        ensures s2.venues.rows[k].name in names
      {
        if k in s1.venues.rows {
          assert s2.venues.rows[k].name == names[0];
        } else {
          assert s2.venues.rows[k].name in names[1..];
        }
      }
    }
  }

  /** A run over names that are all ready reports nothing and changes nothing. */
  lemma {:induction false} SeedCoreNoop(s: Store, names: seq<string>)
    requires forall i | 0 <= i < |names| :: CoreReady(s, names[i])
    ensures SeedCore(s, names) == (s, CoreCounts(0, 0))
    decreases |names|
  {
    if |names| > 0 {
      assert CoreReady(s, names[0]);
      forall i | 0 <= i < |names[1..]| ensures CoreReady(s, names[1..][i]) {
        assert names[1..][i] == names[i + 1];
      }
      SeedCoreNoop(s, names[1..]);
    }
  }

  /** Running the seed a second time reports no venue created or updated and leaves the store as it was. */
  lemma SeedIdempotent(s: Store)
    requires VenueNamesUnique(s)
    ensures var s2 := Seed(s).0;
      Seed(s2) == (s2, CoreCounts(0, 0))
  {
    SeedCoreReady(s, CoreVenues);
    SeedCoreNoop(Seed(s).0, CoreVenues);
  }

  /** The run keeps every constraint of the store. */
  lemma SeedKeepsValid(s: Store)
    requires Valid(s)
    ensures Valid(Seed(s).0)
  {
    SeedCoreReady(s, CoreVenues);
    SeedCoreUntouched(s, CoreVenues);
  }
}
