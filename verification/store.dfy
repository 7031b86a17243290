/**
 The relational store the handlers and scripts read and write: five tables
 (venues, items, venue-item mappings, checks, check lines), each a finite map
 from an autoincrement id to an immutable record, plus the invariants the
 database's primary-key, unique and foreign-key constraints maintain.
 */
module Store {
  import opened Optional

  /** A physical location; `isCore` marks the venues the core seed maintains. */
  datatype Venue = Venue(name: string, isCore: bool, active: bool)

  /** A supply type; `itemType` is "durable" or "consumable" whenever a writer stored it. */
  datatype Item = Item(name: string, itemType: string, active: bool)

  /** The two item types the writers accept. */
  const ItemTypes: set<string> := {"durable", "consumable"}

  /** A venue tracks an item, with optional stock configuration; inactive rows are kept as history. */
  datatype VenueItem = VenueItem(venueId: nat, itemId: nat, active: bool, expectedQty: Option<int>, reorderThreshold: Option<int>)

  /** One inventory walk at a venue; `createdAt` is the clock reading when it was saved. */
  datatype Check = Check(venueId: nat, createdAt: nat)

  /** The status recorded for one item in one check. */
  datatype CheckLine = CheckLine(checkId: nat, itemId: nat, status: string)

  /** A table: rows by id, and the next id its sequence hands out. */
  datatype RawTable<T> = RawTable(rows: map<nat, T>, next: nat)

  /** Every id in use is below the sequence's next value, so the next insert never collides. */
  type Table<T> = t: RawTable<T> | forall k | k in t.rows :: k < t.next witness RawTable(map[], 0)

  datatype Store = Store(
    venues: Table<Venue>,
    items: Table<Item>,
    links: Table<VenueItem>,
    checks: Table<Check>,
    lines: Table<CheckLine>)

  /** `get_or_404`: a handler either finds its target row or answers "not found" and changes nothing. */
  datatype Response<T> = NotFound | Found(value: T)

  // ---------------------------------------------------------------- tables

  /** Adds one row under the sequence's next id. */
  function Insert<T>(t: Table<T>, r: T): (t': Table<T>)
    ensures t.next !in t.rows && t'.next == t.next + 1
    ensures t'.rows.Keys == t.rows.Keys + {t.next} && t'.rows[t.next] == r
    ensures forall id | id in t.rows :: t'.rows[id] == t.rows[id]
    ensures |t'.rows| == |t.rows| + 1
  {
    RawTable(t.rows[t.next := r], t.next + 1)
  }

  /** Overwrites an existing row; no row is added or removed. */
  function Update<T>(t: Table<T>, id: nat, r: T): (t': Table<T>)
    requires id in t.rows
    ensures t'.next == t.next && t'.rows.Keys == t.rows.Keys && t'.rows[id] == r
    ensures forall k | k in t.rows && k != id :: t'.rows[k] == t.rows[k]
  {
    RawTable(t.rows[id := r], t.next)
  }

  /** Deletes the rows with the given ids; the id sequence is not rewound. */
  function Delete<T>(t: Table<T>, ids: set<nat>): (t': Table<T>)
    ensures t'.next == t.next && t'.rows.Keys == t.rows.Keys - ids
    ensures forall k | k in t'.rows :: t'.rows[k] == t.rows[k]
  {
    RawTable(map k | k in t.rows && k !in ids :: t.rows[k], t.next)
  }

  /** How many keys come before `k`: the position at which a batch insert handles `k`. */
  function Rank(keys: set<nat>, k: nat): nat {
    |Below(keys, k)|
  }

  function Below(keys: set<nat>, k: nat): set<nat> {
    set x | x in keys && x < k
  }

  lemma SubsetSize(a: set<nat>, b: set<nat>)
    requires a <= b
    ensures |a| <= |b|
    ensures a != b ==> |a| < |b|
  {
    assert b == a + (b - a);
    assert a !! (b - a);
    if a != b {
      var x :| x in b - a;
    }
  }

  lemma RankBelowSize(keys: set<nat>, k: nat)
    requires k in keys
    ensures Rank(keys, k) < |keys|
  {
    var below := set x | x in keys && x < k;
    assert below <= keys - {k};
    SubsetSize(below, keys - {k});
  }

  lemma RankIncreasing(keys: set<nat>, x: nat, y: nat)
    requires x in keys && y in keys && x < y
    ensures Rank(keys, x) < Rank(keys, y)
  {
    var belowX := set z | z in keys && z < x;
    var belowY := set z | z in keys && z < y;
    assert belowX + {x} <= belowY;
    assert x !in belowX;
    assert |belowX + {x}| == |belowX| + 1;
    SubsetSize(belowX + {x}, belowY);
  }

  /** The id a batch insert gives the row made for key `k`. */
  function NewId<T>(t: Table<T>, keys: set<nat>, k: nat): nat {
    t.next + Rank(keys, k)
  }

  /** The ids a batch insert hands out. */
  function NewIds<T>(t: Table<T>, keys: set<nat>): set<nat> {
    set k | k in keys :: NewId(t, keys, k)
  }

  /** Batch ids increase with the key and stay below the sequence's value after the batch. */
  lemma NewIdsBounds<T>(t: Table<T>, keys: set<nat>)
    ensures forall x, y | x in keys && y in keys && x != y :: NewId(t, keys, x) != NewId(t, keys, y)
    ensures forall x | x in keys :: t.next <= NewId(t, keys, x) < t.next + |keys|
  {
    forall x, y | x in keys && y in keys && x != y ensures NewId(t, keys, x) != NewId(t, keys, y) {
      if x < y {
        RankIncreasing(keys, x, y);
      } else {
        RankIncreasing(keys, y, x);
      }
    }
    forall x | x in keys ensures NewId(t, keys, x) < t.next + |keys| {
      RankBelowSize(keys, x);
    }
  }

  /** A one-to-one map keeps the size of the set it is applied to. */
  lemma {:induction false} InjectiveImageSize(xs: set<nat>, f: nat -> nat)
    requires forall x, y | x in xs && y in xs && f(x) == f(y) :: x == y
    ensures |set x | x in xs :: f(x)| == |xs|
    decreases |xs|
  {
    if xs != {} {
      var x :| x in xs;
      var rest := xs - {x};
      InjectiveImageSize(rest, f);
      assert (set y | y in xs :: f(y)) == (set y | y in rest :: f(y)) + {f(x)};
      assert f(x) !in (set y | y in rest :: f(y));
    }
  }

  lemma NewIdsSize<T>(t: Table<T>, keys: set<nat>)
    ensures |NewIds(t, keys)| == |keys|
  {
    NewIdsBounds(t, keys);
    var f := (k: nat) => NewId(t, keys, k);
    forall x, y | x in keys && y in keys && f(x) == f(y) ensures x == y {
      assert NewId(t, keys, x) == NewId(t, keys, y);
    }
    InjectiveImageSize(keys, f);
    assert (set k | k in keys :: f(k)) == NewIds(t, keys);
  }

  /** Below any member of a set of naturals there is a least member. */
  lemma LeastExists(keys: set<nat>, y: nat)
    requires y in keys
    ensures exists m | m in keys :: forall x | x in keys :: m <= x
    decreases y
  {
    if exists x | x in keys :: x < y {
      var x :| x in keys && x < y;
      LeastExists(keys, x);
    } else {
      assert forall x | x in keys :: y <= x;
    }
  }

  /** The smallest key of a non-empty set: the one a batch insert handles first. */
  function Least(keys: set<nat>): (m: nat)
    requires keys != {}
    ensures m in keys && forall x | x in keys :: m <= x
  {
    var y :| y in keys;
    LeastExists(keys, y);
    var m :| m in keys && forall x | x in keys :: m <= x;
    m
  }

  /** Handling the least key first shifts every other key's rank down by one. */
  lemma RankStep(keys: set<nat>)
    requires keys != {}
    ensures Rank(keys, Least(keys)) == 0
    ensures forall k | k in keys && k != Least(keys) :: Rank(keys - {Least(keys)}, k) + 1 == Rank(keys, k)
  {
    var m := Least(keys);
    assert Below(keys, m) == {};
    forall k | k in keys && k != m ensures Rank(keys - {m}, k) + 1 == Rank(keys, k) {
      var below := Below(keys, k);
      var rest := Below(keys - {m}, k);
      assert m < k;
      assert below == rest + {m};
      assert m !in rest;
    }
  }

  lemma NewIdsStep<T>(t: Table<T>, t1: Table<T>, keys: set<nat>)
    requires keys != {} && t1.next == t.next + 1
    ensures NewId(t, keys, Least(keys)) == t.next
    ensures forall k | k in keys && k != Least(keys) :: NewId(t1, keys - {Least(keys)}, k) == NewId(t, keys, k)
    ensures NewIds(t, keys) == {t.next} + NewIds(t1, keys - {Least(keys)})
  {
    var m := Least(keys);
    RankStep(keys);
    forall id | id in NewIds(t, keys) ensures id in {t.next} + NewIds(t1, keys - {m}) {
      var k :| k in keys && id == NewId(t, keys, k);
      if k != m {
        assert id == NewId(t1, keys - {m}, k);
      }
    }
    forall id | id in NewIds(t1, keys - {m}) ensures id in NewIds(t, keys) {
      var k :| k in keys - {m} && id == NewId(t1, keys - {m}, k);
      assert id == NewId(t, keys, k);
    }
    assert NewId(t, keys, m) in NewIds(t, keys);
  }

  /**
   Adds one row `mk(k)` for every key of a set, in ascending key order; the
   rows get consecutive fresh ids (see `InsertManyFacts`).
   */
  function InsertMany<T>(t: Table<T>, keys: set<nat>, mk: nat -> T): (t': Table<T>)
    ensures t'.next == t.next + |keys|
    decreases |keys|
  {
    if keys == {} then t
    else
      var m := Least(keys);
      InsertMany(Insert(t, mk(m)), keys - {m}, mk)
  }

  lemma {:induction false} InsertManyKeeps<T>(t: Table<T>, keys: set<nat>, mk: nat -> T)
    ensures forall id | id in t.rows :: id in InsertMany(t, keys, mk).rows && InsertMany(t, keys, mk).rows[id] == t.rows[id]
    decreases |keys|
  {
    if keys != {} {
      var m := Least(keys);
      InsertManyKeeps(Insert(t, mk(m)), keys - {m}, mk);
    }
  }

  lemma {:induction false} InsertManyKeys<T>(t: Table<T>, keys: set<nat>, mk: nat -> T)
    ensures InsertMany(t, keys, mk).rows.Keys == t.rows.Keys + NewIds(t, keys)
    decreases |keys|
  {
    if keys != {} {
      var m := Least(keys);
      var t1 := Insert(t, mk(m));
      var rest := keys - {m};
      NewIdsStep(t, t1, keys);
      InsertManyKeys(t1, rest, mk);
      UnionStep(InsertMany(t1, rest, mk).rows.Keys, t1.rows.Keys, NewIds(t1, rest), t.rows.Keys, NewIds(t, keys), t.next);
    }
  }

  lemma UnionStep(a: set<nat>, b1: set<nat>, n1: set<nat>, b: set<nat>, n: set<nat>, x: nat)
    requires a == b1 + n1 && b1 == b + {x} && n == {x} + n1
    ensures a == b + n
  {
  }

  lemma {:induction false} InsertManyAt<T>(t: Table<T>, keys: set<nat>, mk: nat -> T)
    ensures forall k | k in keys ::
      NewId(t, keys, k) in InsertMany(t, keys, mk).rows && InsertMany(t, keys, mk).rows[NewId(t, keys, k)] == mk(k)
    decreases |keys|
  {
    if keys != {} {
      var m := Least(keys);
      var t1 := Insert(t, mk(m));
      var rest := keys - {m};
      var after := InsertMany(t1, rest, mk);
      assert InsertMany(t, keys, mk) == after;
      NewIdsStep(t, t1, keys);
      InsertManyAt(t1, rest, mk);
      InsertManyKeeps(t1, rest, mk);
      forall k | k in keys
        ensures NewId(t, keys, k) in after.rows && after.rows[NewId(t, keys, k)] == mk(k)
      {
        if k != m {
          assert NewId(t1, rest, k) == NewId(t, keys, k);
        }
      }
    }
  }

  /** A batch insert adds exactly one row per key, each under its own id. */
  lemma InsertManySize<T>(t: Table<T>, keys: set<nat>, mk: nat -> T)
    ensures |InsertMany(t, keys, mk).rows| == |t.rows| + |keys|
  {
    NewIdsBounds(t, keys);
    NewIdsSize(t, keys);
    InsertManyKeys(t, keys, mk);
    var t' := InsertMany(t, keys, mk);
    assert t.rows.Keys !! NewIds(t, keys);
    assert |t'.rows.Keys| == |t.rows.Keys| + |NewIds(t, keys)|;
  }

  /**
   Everything a batch insert does: old rows are kept, the new ids are exactly
   the keys' ids, fresh and pairwise distinct, and each holds its key's row.
   */
  lemma InsertManyFacts<T>(t: Table<T>, keys: set<nat>, mk: nat -> T)
    ensures var t' := InsertMany(t, keys, mk);
      && (forall id | id in t.rows :: id in t'.rows && t'.rows[id] == t.rows[id])
      && t'.rows.Keys == t.rows.Keys + NewIds(t, keys)
      && (forall k | k in keys :: NewId(t, keys, k) !in t.rows && t'.rows[NewId(t, keys, k)] == mk(k))
      && (forall x, y | x in keys && y in keys && x != y :: NewId(t, keys, x) != NewId(t, keys, y))
      && |t'.rows| == |t.rows| + |keys|
  {
    InsertManyKeeps(t, keys, mk);
    InsertManyKeys(t, keys, mk);
    InsertManyAt(t, keys, mk);
    NewIdsBounds(t, keys);
    InsertManySize(t, keys, mk);
  }

  /** The lowest id at or above `k` whose row satisfies `p`. */
  function FindFrom<T>(t: Table<T>, p: T -> bool, k: nat): (r: Option<nat>)
    ensures r.Some? ==> k <= r.value && r.value in t.rows && p(t.rows[r.value])
    ensures r.Some? ==> forall j | k <= j < r.value && j in t.rows :: !p(t.rows[j])
    ensures r.None? ==> forall j | k <= j && j in t.rows :: !p(t.rows[j])
    decreases t.next - k
  {
    if k >= t.next then None
    else if k in t.rows && p(t.rows[k]) then Some(k)
    else FindFrom(t, p, k + 1)
  }

  /** `query.filter_by(...).first()`: a row that satisfies `p`; the model picks the lowest id. */
  function Find<T>(t: Table<T>, p: T -> bool): (r: Option<nat>)
    ensures r.Some? ==> r.value in t.rows && p(t.rows[r.value])
    ensures r.Some? ==> forall j | j < r.value && j in t.rows :: !p(t.rows[j])
    ensures r.None? <==> forall j | j in t.rows :: !p(t.rows[j])
  {
    FindFrom(t, p, 0)
  }

  // ---------------------------------------------------------------- lookups

  function VenueByName(s: Store, name: string): (r: Option<nat>)
    ensures r.Some? ==> r.value in s.venues.rows && s.venues.rows[r.value].name == name
    ensures r.Some? ==> forall j | j < r.value && j in s.venues.rows :: s.venues.rows[j].name != name
    ensures r.None? <==> forall j | j in s.venues.rows :: s.venues.rows[j].name != name
  {
    Find(s.venues, (v: Venue) => v.name == name)
  }

  function ItemByName(s: Store, name: string): (r: Option<nat>)
    ensures r.Some? ==> r.value in s.items.rows && s.items.rows[r.value].name == name
    ensures r.Some? ==> forall j | j < r.value && j in s.items.rows :: s.items.rows[j].name != name
    ensures r.None? <==> forall j | j in s.items.rows :: s.items.rows[j].name != name
  {
    Find(s.items, (it: Item) => it.name == name)
  }

  function LinkFor(s: Store, venueId: nat, itemId: nat): (r: Option<nat>)
    ensures r.Some? ==> r.value in s.links.rows && s.links.rows[r.value].venueId == venueId && s.links.rows[r.value].itemId == itemId
    ensures r.None? <==> forall j | j in s.links.rows :: s.links.rows[j].venueId != venueId || s.links.rows[j].itemId != itemId
  {
    Find(s.links, (m: VenueItem) => m.venueId == venueId && m.itemId == itemId)
  }

  // ---------------------------------------------------------------- invariants

  predicate VenueNamesUnique(s: Store) {
    forall a, b | a in s.venues.rows && b in s.venues.rows && a != b :: s.venues.rows[a].name != s.venues.rows[b].name
  }

  predicate ItemNamesUnique(s: Store) {
    forall a, b | a in s.items.rows && b in s.items.rows && a != b :: s.items.rows[a].name != s.items.rows[b].name
  }

  /** At most one mapping row per (venue, item) pair. */
  predicate LinksUnique(s: Store) {
    forall a, b | a in s.links.rows && b in s.links.rows && a != b ::
      s.links.rows[a].venueId != s.links.rows[b].venueId || s.links.rows[a].itemId != s.links.rows[b].itemId
  }

  predicate LinksResolve(s: Store) {
    forall k | k in s.links.rows :: s.links.rows[k].venueId in s.venues.rows && s.links.rows[k].itemId in s.items.rows
  }

  predicate ChecksResolve(s: Store) {
    forall k | k in s.checks.rows :: s.checks.rows[k].venueId in s.venues.rows
  }

  predicate LinesResolve(s: Store) {
    forall k | k in s.lines.rows :: s.lines.rows[k].checkId in s.checks.rows
  }

  /** The constraints the database keeps for every committed state. */
  predicate Valid(s: Store) {
    && VenueNamesUnique(s)
    && ItemNamesUnique(s)
    && LinksUnique(s)
    && LinksResolve(s)
    && ChecksResolve(s)
    && LinesResolve(s)
  }

  /** The item ids a venue has a mapping row for, active or not. */
  function MappedItems(s: Store, v: nat): set<nat> {
    set k | k in s.links.rows && s.links.rows[k].venueId == v :: s.links.rows[k].itemId
  }

  /** The item ids with an ACTIVE mapping row for the venue: the boxes the supplies page shows checked. */
  function ActiveSet(s: Store, v: nat): set<nat> {
    set k | k in s.links.rows && s.links.rows[k].venueId == v && s.links.rows[k].active :: s.links.rows[k].itemId
  }

  /** The ids of the active items. */
  function ActiveItems(s: Store): set<nat> {
    set i | i in s.items.rows && s.items.rows[i].active
  }

  /** The item ids with an inactive mapping row for the venue. */
  function InactiveSet(s: Store, v: nat): set<nat> {
    set k | k in s.links.rows && s.links.rows[k].venueId == v && !s.links.rows[k].active :: s.links.rows[k].itemId
  }

  /** With one row per pair, a set of a venue's rows has as many rows as items. */
  lemma {:induction false} LinkItemsSize(s: Store, v: nat, rowIds: set<nat>)
    requires LinksUnique(s)
    requires forall k | k in rowIds :: k in s.links.rows && s.links.rows[k].venueId == v
    ensures |set k | k in rowIds :: s.links.rows[k].itemId| == |rowIds|
    decreases |rowIds|
  {
    if rowIds != {} {
      var x :| x in rowIds;
      var rest := rowIds - {x};
      LinkItemsSize(s, v, rest);
      var image := set k | k in rowIds :: s.links.rows[k].itemId;
      var restImage := set k | k in rest :: s.links.rows[k].itemId;
      assert image == restImage + {s.links.rows[x].itemId};
      assert s.links.rows[x].itemId !in restImage;
    }
  }
}
