/**
 The CSV seed: two passes over rows read from two files, the first
 upserting items by name, the second upserting venue-item mappings by
 (venue, item), with the string converters that turn the CSV cells into
 field values.
 */
module SeedFromCsv {
  import opened Optional
  import opened Strings
  import opened Decimal
  import opened Store

  // ---------------------------------------------------------------- converters

  /** The spellings `to_bool` reads as true, after trimming and lower-casing. */
  const TrueWords: set<string> := {"true", "1", "yes", "y"}

  /** `to_bool`: an absent cell is false, any other is true exactly when it spells a word of `TrueWords`. */
  function ToBool(val: Option<string>): (r: bool)
    ensures r ==> val.Some? && Strip(val.value) != ""
  {
    match val
    case None => false
    case Some(v) => Norm(v) in TrueWords
  }

  lemma TrueNormal() ensures Norm("true") == "true" { NormFixed("true"); }
  lemma OneNormal() ensures Norm("1") == "1" { NormFixed("1"); }
  lemma YesNormal() ensures Norm("yes") == "yes" { NormFixed("yes"); }
  lemma YNormal() ensures Norm("y") == "y" { NormFixed("y"); }
  lemma NanNormal() ensures Norm("nan") == "nan" { NormFixed("nan"); }

  /** Against the reference keyword match: a present cell is true exactly when it spells one of the four words. */
  lemma ToBoolIffKeyword(raw: string)
    ensures ToBool(Some(raw)) <==>
      MatchesKeyword(raw, "true") || MatchesKeyword(raw, "1") || MatchesKeyword(raw, "yes") || MatchesKeyword(raw, "y")
  {
    InTrueWords(Norm(raw));
    TrueKeywords(raw);
  }

  lemma InTrueWords(x: string)
    ensures x in TrueWords <==> x == "true" || x == "1" || x == "yes" || x == "y"
  {
  }

  lemma TrueKeywords(raw: string)
    ensures Norm(raw) == "true" || Norm(raw) == "1" || Norm(raw) == "yes" || Norm(raw) == "y" <==>
      MatchesKeyword(raw, "true") || MatchesKeyword(raw, "1") || MatchesKeyword(raw, "yes") || MatchesKeyword(raw, "y")
  {
    TrueNormal();
    OneNormal();
    YesNormal();
    YNormal();
    NormalMatchesKeyword(raw, "true");
    NormalMatchesKeyword(raw, "1");
    NormalMatchesKeyword(raw, "yes");
    NormalMatchesKeyword(raw, "y");
  }

  /** A cell that holds nothing: blank once trimmed, or `nan` in any letter case. */
  predicate IsBlankCell(s: string) {
    Strip(s) == "" || Norm(s) == "nan"
  }

  /** `to_str_or_none`: the trimmed text, or absent for an absent or blank cell. */
  function ToStrOrNone(val: Option<string>): (r: Option<string>)
    ensures r.Some? ==> Trimmed(r.value) && r.value != ""
  {
    match val
    case None => None
    case Some(v) => if IsBlankCell(v) then None else Some(Strip(v))
  }

  /**
   Against the reference keyword match: a present cell gives nothing exactly
   when it is whitespace only or spells `nan`, and otherwise gives the cell
   without its surrounding whitespace.
   */
  lemma ToStrOrNoneBlank(raw: string)
    ensures ToStrOrNone(Some(raw)).None? <==> AllSpace(raw) || MatchesKeyword(raw, "nan")
    ensures ToStrOrNone(Some(raw)).Some? ==> ToStrOrNone(Some(raw)).value == Strip(raw)
  {
    NanNormal();
    NormalMatchesKeyword(raw, "nan");
    StripBlank(raw);
  }

  /** Converting a converted cell again changes nothing. */
  lemma ToStrOrNoneIdempotent(val: Option<string>)
    ensures ToStrOrNone(ToStrOrNone(val)) == ToStrOrNone(val)
  {
    if ToStrOrNone(val).Some? {
      var t := ToStrOrNone(val).value;
      StripTrimmed(t);
    }
  }

  /** Integers of at most this magnitude survive `int(float(s))` exactly: 2 to the 53rd. */
  const MaxExactInt: int := 0x20_0000_0000_0000

  /**
   `to_int_or_none`. A plain decimal integer of at most `MaxExactInt` in
   magnitude reads as its value; any other non-blank text is handed to
   `floatInt`, which stands for `int(float(s))` with the `ValueError`
   turned into None.
   */
  function ToIntOrNone(val: Option<string>, floatInt: string -> Option<int>): (r: Option<int>)
    ensures val.None? ==> r.None?
    ensures val.Some? && IsBlankCell(val.value) ==> r.None?
  {
    match val
    case None => None
    case Some(v) =>
      var s := Strip(v);
      if s == "" || Lower(s) == "nan" then None
      else if IsDecimalInt(s) && -MaxExactInt <= DecimalValue(s) <= MaxExactInt then Some(DecimalValue(s))
      else floatInt(s)
  }

  /** Every integer written out in decimal, with whitespace around it or not, reads back as itself. */
  lemma ToIntOrNoneRoundTrip(n: int, before: string, after: string, floatInt: string -> Option<int>)
    requires -MaxExactInt <= n <= MaxExactInt
    requires AllSpace(before) && AllSpace(after)
    ensures ToIntOrNone(Some(before + IntToString(n) + after), floatInt) == Some(n)
  {
    var t := IntToString(n);
    IntToStringRoundTrip(n);
    IntSpellingTrimmed(n);
    StripFramed(before, t, after);
    NotNan(t);
  }

  /** Whitespace around a trimmed text is exactly what stripping removes. */
  lemma StripFramed(before: string, t: string, after: string)
    requires AllSpace(before) && AllSpace(after) && Trimmed(t)
    ensures Strip(before + t + after) == t
  {
    var raw := before + t + after;
    assert raw[|before|..|before| + |t|] == t;
    forall m | 0 <= m < |before| ensures IsSpace(raw[m]) {
      assert raw[m] == before[m];
    }
    forall m | |before| + |t| <= m < |raw| ensures IsSpace(raw[m]) {
      assert raw[m] == after[m - |before| - |t|];
    }
    StripUnique(raw, |before|, |before| + |t|);
  }

  /** Text ending in a digit does not spell `nan`. */
  lemma NotNan(t: string)
    requires |t| > 0 && IsDigit(t[|t| - 1])
    ensures Lower(t) != "nan"
  {
    assert Lower(t)[|t| - 1] == t[|t| - 1];
  }

  /** A decimal spelling starts with a sign or digit and ends with a digit, so it carries no whitespace. */
  lemma IntSpellingTrimmed(n: int)
    ensures Trimmed(IntToString(n)) && |IntToString(n)| > 0 && IsDigit(IntToString(n)[|IntToString(n)| - 1])
  {
    IntToStringRoundTrip(n);
    var t := IntToString(n);
    if n < 0 {
      assert t[|t| - 1] == NatToString(-n)[|t| - 2];
    }
  }

  /** Aliases the venue file uses for three venues. */
  const VenueAliases: map<string, string> := map["Ananda" := "Ananda Hall", "Gita" := "Gita Hall", "Shakti" := "Shakti Hall"]

  /**
   `resolve_venue_name`: the trimmed name, replaced by its target if it is an
   alias. The result is final (no alias left to follow) and trimmed, so it is
   ready to be looked up.
   */
  function ResolveVenueName(name: string): (r: string)
    ensures r !in VenueAliases && Trimmed(r)
    ensures Strip(name) in VenueAliases ==> r == VenueAliases[Strip(name)]
    ensures Strip(name) !in VenueAliases ==> r == Strip(name)
  {
    AliasTargetsFinal();
    var n := Strip(name);
    if n in VenueAliases then VenueAliases[n] else n
  }

  /** No alias target is itself an alias, and every target is trimmed. */
  lemma AliasTargetsFinal()
    ensures forall a | a in VenueAliases :: VenueAliases[a] !in VenueAliases && Trimmed(VenueAliases[a])
  {
    assert VenueAliases.Keys == {"Ananda", "Gita", "Shakti"};
    assert VenueAliases["Ananda"] == "Ananda Hall";
    assert VenueAliases["Gita"] == "Gita Hall";
    assert VenueAliases["Shakti"] == "Shakti Hall";
  }

  /** Resolving a resolved name changes nothing. */
  lemma ResolveIdempotent(name: string)
    ensures ResolveVenueName(ResolveVenueName(name)) == ResolveVenueName(name)
  {
    AliasTargetsFinal();
    var r := ResolveVenueName(name);
    StripIdempotent(name);
    StripTrimmed(r);
  }

  // ---------------------------------------------------------------- rows

  /** One CSV record: header name to cell, a missing cell of a short record being None. */
  type Row = map<string, Option<string>>

  /** `row.get(key)`. */
  function Lookup(row: Row, key: string): Option<string> {
    if key in row then row[key] else None
  }

  /** `row.get(key, default)`. */
  function LookupOr(row: Row, key: string, default: Option<string>): Option<string> {
    if key in row then row[key] else default
  }

  /** The item fields one row of the items file carries. */
  datatype ItemFields = ItemFields(name: string, itemType: string, active: bool)

  /**
   The fields of an items-file row, or None where reading `item_name` or
   `item_type` fails because the cell is missing, which aborts the run.
   */
  function ItemRow(row: Row): (r: Option<ItemFields>)
    ensures r.None? <==> Lookup(row, "item_name").None? || Lookup(row, "item_type").None?
  {
    match (Lookup(row, "item_name"), Lookup(row, "item_type"))
    case (Some(n), Some(t)) => Some(ItemFields(Strip(n), Norm(t), ToBool(LookupOr(row, "active", Some("TRUE")))))
    case _ => None
  }

  /** What one row did to the store, for the counters. */
  datatype Step = Skipped | Created | Updated | Unchanged

  /**
   One items-file row: a type other than durable or consumable is skipped;
   an existing name has its type and active flag overwritten; a new name is
   added.
   */
  function SeedItem(s: Store, f: ItemFields): (r: (Store, Step))
    ensures r.1 == Skipped <==> f.itemType !in ItemTypes
    ensures r.1 == Skipped || r.1 == Unchanged ==> r.0 == s
    ensures r.0.venues == s.venues && r.0.links == s.links && r.0.checks == s.checks && r.0.lines == s.lines
  {
    if f.itemType !in ItemTypes then (s, Skipped)
    else
      match ItemByName(s, f.name)
      case Some(id) =>
        var it := s.items.rows[id];
        if it.itemType == f.itemType && it.active == f.active then (s, Unchanged)
        else (s.(items := Update(s.items, id, it.(itemType := f.itemType, active := f.active))), Updated)
      case None => (s.(items := Insert(s.items, Item(f.name, f.itemType, f.active))), Created)
  }

  /**
   A row naming an existing item: afterwards that item has exactly the row's
   fields and no row is added; the row counts as updated exactly when a
   field really changed.
   */
  lemma SeedItemExisting(s: Store, f: ItemFields, id: nat)
    requires ItemNamesUnique(s)
    requires id in s.items.rows && s.items.rows[id].name == f.name && f.itemType in ItemTypes
    ensures var (s2, step) := SeedItem(s, f);
      && s2.items.rows == s.items.rows[id := Item(f.name, f.itemType, f.active)]
      && (step == Updated <==> s.items.rows[id] != Item(f.name, f.itemType, f.active))
      && (step == Unchanged <==> s.items.rows[id] == Item(f.name, f.itemType, f.active))
  {
    assert ItemByName(s, f.name).Some?;
  }

  /** A row naming no item adds exactly one, with the row's fields. */
  lemma SeedItemNew(s: Store, f: ItemFields)
    requires forall k | k in s.items.rows :: s.items.rows[k].name != f.name
    requires f.itemType in ItemTypes
    ensures var (s2, step) := SeedItem(s, f);
      && step == Created
      && s.items.next !in s.items.rows
      && s2.items.rows == s.items.rows[s.items.next := Item(f.name, f.itemType, f.active)]
  {
  }

  lemma SeedItemKeepsValid(s: Store, f: ItemFields)
    requires Valid(s)
    ensures Valid(SeedItem(s, f).0)
  {
    SeedItemNamesUnique(s, f);
  }

  /** The same row applied twice: the second time it is skipped or changes nothing. */
  lemma SeedItemTwice(s: Store, f: ItemFields)
    requires ItemNamesUnique(s)
    ensures var s2 := SeedItem(s, f).0;
      SeedItem(s2, f) == (s2, if f.itemType in ItemTypes then Unchanged else Skipped)
  {
    var (s2, step) := SeedItem(s, f);
    if f.itemType in ItemTypes {
      var id := if step == Created then s.items.next else ItemByName(s, f.name).value;
      assert id in s2.items.rows && s2.items.rows[id] == Item(f.name, f.itemType, f.active);
      SeedItemNamesUnique(s, f);
      SeedItemExisting(s2, f, id);
    }
  }

  lemma SeedItemNamesUnique(s: Store, f: ItemFields)
    requires ItemNamesUnique(s)
    ensures ItemNamesUnique(SeedItem(s, f).0)
  {
    var (s2, step) := SeedItem(s, f);
    if step == Created {
      var id := s.items.next;
      forall a, b | a in s2.items.rows && b in s2.items.rows && a != b
        ensures s2.items.rows[a].name != s2.items.rows[b].name
      {
        if a == id {
          assert b in s.items.rows;
        } else if b == id {
          assert a in s.items.rows;
        }
      }
    }
  }

  datatype ItemCounts = ItemCounts(created: nat, updated: nat)

  function CountItem(c: ItemCounts, step: Step): ItemCounts {
    ItemCounts(c.created + (if step == Created then 1 else 0), c.updated + (if step == Updated then 1 else 0))
  }

  /** The fields of every row in order, or None when some row cannot be read. */
  function ReadAll<T>(rows: seq<Row>, read: Row -> Option<T>): (r: Option<seq<T>>)
    ensures r.Some? ==> |r.value| == |rows|
    decreases |rows|
  {
    if |rows| == 0 then Some([])
    else
      match (read(rows[0]), ReadAll(rows[1..], read))
      case (Some(f), Some(fs)) => Some([f] + fs)
      case _ => None
  }

  /** Reading fails exactly when some row cannot be read, and otherwise yields each row's fields at its place. */
  lemma {:induction false} ReadAllAbort<T>(rows: seq<Row>, read: Row -> Option<T>)
    ensures ReadAll(rows, read).None? <==> exists i | 0 <= i < |rows| :: read(rows[i]).None?
    ensures ReadAll(rows, read).Some? ==> forall i | 0 <= i < |rows| :: read(rows[i]) == Some(ReadAll(rows, read).value[i])
    decreases |rows|
  {
    if |rows| > 0 {
      ReadAllAbort(rows[1..], read);
      if exists i | 1 <= i < |rows| :: read(rows[i]).None? {
        var i :| 1 <= i < |rows| && read(rows[i]).None?;
        assert read(rows[1..][i - 1]).None?;
      }
      if exists i | 0 <= i < |rows[1..]| :: read(rows[1..][i]).None? {
        var i :| 0 <= i < |rows[1..]| && read(rows[1..][i]).None?;
        assert read(rows[i + 1]).None?;
      }
      if ReadAll(rows, read).Some? {
        var fs := ReadAll(rows, read).value;
        forall i | 0 <= i < |rows| ensures read(rows[i]) == Some(fs[i]) {
          if i > 0 {
            assert rows[1..][i - 1] == rows[i];
          }
        }
      }
    }
  }

  /** The rows applied one after another, with the counters the script prints. */
  function ApplyItems(s: Store, fs: seq<ItemFields>): (r: (Store, ItemCounts))
    ensures r.1.created + r.1.updated <= |fs|
    ensures r.0.venues == s.venues && r.0.links == s.links && r.0.checks == s.checks && r.0.lines == s.lines
    decreases |fs|
  {
    if |fs| == 0 then (s, ItemCounts(0, 0))
    else
      var (s1, step) := SeedItem(s, fs[0]);
      var (s2, c) := ApplyItems(s1, fs[1..]);
      (s2, CountItem(c, step))
  }

  /**
   The items pass, or None when a row cannot be read. Nothing the pass did
   is committed before its end, so an unreadable row anywhere leaves the
   store as it was, as if the rows were all read first.
   */
  function SeedItems(s: Store, rows: seq<Row>): (r: Option<(Store, ItemCounts)>)
    ensures r.None? <==> exists i | 0 <= i < |rows| :: ItemRow(rows[i]).None?
    ensures r.Some? ==> r.value.1.created + r.value.1.updated <= |rows|
    ensures r.Some? ==> r.value.0.venues == s.venues && r.value.0.links == s.links && r.value.0.checks == s.checks && r.value.0.lines == s.lines
  {
    ReadAllAbort(rows, ItemRow);
    match ReadAll(rows, ItemRow)
    case None => None
    case Some(fs) => Some(ApplyItems(s, fs))
  }

  /** The rows keep every constraint of the store, and `created` is the number of items they added. */
  lemma {:induction false} ApplyItemsKeepValid(s: Store, fs: seq<ItemFields>)
    requires Valid(s)
    ensures Valid(ApplyItems(s, fs).0)
    ensures s.items.rows.Keys <= ApplyItems(s, fs).0.items.rows.Keys
    ensures |ApplyItems(s, fs).0.items.rows| == |s.items.rows| + ApplyItems(s, fs).1.created
    decreases |fs|
  {
    if |fs| > 0 {
      var (s1, step) := SeedItem(s, fs[0]);
      SeedItemKeepsValid(s, fs[0]);
      ApplyItemsKeepValid(s1, fs[1..]);
      SeedItemSize(s, fs[0]);
    }
  }

  lemma SeedItemSize(s: Store, f: ItemFields)
    ensures var (s2, step) := SeedItem(s, f);
      && s.items.rows.Keys <= s2.items.rows.Keys
      && |s2.items.rows| == |s.items.rows| + (if step == Created then 1 else 0)
  {
  }

  // ---------------------------------------------------------------- mapping rows

  /** The mapping fields one row of the venue-items file carries. */
  datatype LinkFields = LinkFields(venueName: string, itemName: string, active: bool, expectedQty: Option<int>, reorderThreshold: Option<int>)

  /**
   The fields of a venue-items row, or None where reading `venue_name` or
   `item_name` fails because the cell is missing, which aborts the pass.
   */
  function LinkRow(row: Row, floatInt: string -> Option<int>): (r: Option<LinkFields>)
    ensures r.None? <==> Lookup(row, "venue_name").None? || Lookup(row, "item_name").None?
  {
    match (Lookup(row, "venue_name"), Lookup(row, "item_name"))
    case (Some(v), Some(n)) =>
      Some(LinkFields(ResolveVenueName(v), Strip(n), ToBool(LookupOr(row, "active", Some("TRUE"))),
                      ToIntOrNone(Lookup(row, "expected_qty"), floatInt), ToIntOrNone(Lookup(row, "reorder_threshold"), floatInt)))
    case _ => None
  }

  /** The mapping a row asks for. */
  function LinkOf(venueId: nat, itemId: nat, f: LinkFields): VenueItem {
    VenueItem(venueId, itemId, f.active, f.expectedQty, f.reorderThreshold)
  }

  /**
   One venue-items row: skipped when the venue or the item is unknown;
   otherwise the (venue, item) mapping is overwritten with the row's active
   flag and stock fields, absent values included, or added.
   */
  function SeedLink(s: Store, f: LinkFields): (r: (Store, Step))
    ensures r.1 == Skipped <==> VenueByName(s, f.venueName).None? || ItemByName(s, f.itemName).None?
    ensures r.1 == Skipped || r.1 == Unchanged ==> r.0 == s
    ensures r.0.venues == s.venues && r.0.items == s.items && r.0.checks == s.checks && r.0.lines == s.lines
  {
    match (VenueByName(s, f.venueName), ItemByName(s, f.itemName))
    case (Some(v), Some(i)) =>
      (match LinkFor(s, v, i)
       case Some(k) =>
         if s.links.rows[k] == LinkOf(v, i, f) then (s, Unchanged)
         else (s.(links := Update(s.links, k, LinkOf(v, i, f))), Updated)
       case None => (s.(links := Insert(s.links, LinkOf(v, i, f))), Created))
    case _ => (s, Skipped)
  }

  /**
   A row for a known venue and item: afterwards exactly one mapping row for
   the pair carries the row's values; at most one row is added, and the row
   counts as updated exactly when a value really changed.
   */
  lemma SeedLinkStored(s: Store, f: LinkFields, v: nat, i: nat)
    requires LinksUnique(s)
    requires VenueByName(s, f.venueName) == Some(v) && ItemByName(s, f.itemName) == Some(i)
    ensures var (s2, step) := SeedLink(s, f);
      && step != Skipped
      && LinkFor(s2, v, i).Some?
      && s2.links.rows[LinkFor(s2, v, i).value] == LinkOf(v, i, f)
      && (forall k | k in s.links.rows && k != LinkFor(s2, v, i).value :: k in s2.links.rows && s2.links.rows[k] == s.links.rows[k])
      && (step == Created <==> LinkFor(s, v, i).None?)
      && (step == Updated <==> LinkFor(s, v, i).Some? && s.links.rows[LinkFor(s, v, i).value] != LinkOf(v, i, f))
  {
    var (s2, step) := SeedLink(s, f);
    var k := if step == Created then s.links.next else LinkFor(s, v, i).value;
    assert k in s2.links.rows && s2.links.rows[k] == LinkOf(v, i, f);
    SeedLinkUnique(s, f);
    assert LinkFor(s2, v, i) == Some(k);
  }

  /** At most one mapping row per (venue, item) pair, before and after. */
  lemma SeedLinkUnique(s: Store, f: LinkFields)
    requires LinksUnique(s)
    ensures LinksUnique(SeedLink(s, f).0)
  {
    var step := SeedLink(s, f).1;
    if step == Created {
      SeedLinkCreatedUnique(s, f);
    } else if step == Updated {
      SeedLinkUpdatedUnique(s, f);
    }
  }

  lemma SeedLinkCreatedUnique(s: Store, f: LinkFields)
    requires LinksUnique(s) && SeedLink(s, f).1 == Created
    ensures LinksUnique(SeedLink(s, f).0)
  {
    var s2 := SeedLink(s, f).0;
    var id := s.links.next;
    forall a, b | a in s2.links.rows && b in s2.links.rows && a != b
      ensures s2.links.rows[a].venueId != s2.links.rows[b].venueId || s2.links.rows[a].itemId != s2.links.rows[b].itemId
    {
      if a == id {
        assert b in s.links.rows;
      } else if b == id {
        assert a in s.links.rows;
      }
    }
  }

  lemma SeedLinkUpdatedUnique(s: Store, f: LinkFields)
    requires LinksUnique(s) && SeedLink(s, f).1 == Updated
    ensures LinksUnique(SeedLink(s, f).0)
  {
    var s2 := SeedLink(s, f).0;
    forall a, b | a in s2.links.rows && b in s2.links.rows && a != b
      ensures s2.links.rows[a].venueId != s2.links.rows[b].venueId || s2.links.rows[a].itemId != s2.links.rows[b].itemId
    {
      assert s.links.rows[a].venueId != s.links.rows[b].venueId || s.links.rows[a].itemId != s.links.rows[b].itemId;
    }
  }

  /** A mapping is only written for a venue and an item that exist. */
  lemma SeedLinkResolve(s: Store, f: LinkFields)
    requires LinksResolve(s)
    ensures LinksResolve(SeedLink(s, f).0)
  {
    var (s2, step) := SeedLink(s, f);
    if step == Created || step == Updated {
      var v := VenueByName(s, f.venueName).value;
      var i := ItemByName(s, f.itemName).value;
      forall k | k in s2.links.rows
        ensures s2.links.rows[k].venueId in s2.venues.rows && s2.links.rows[k].itemId in s2.items.rows
      {
        if k !in s.links.rows || s2.links.rows[k] != s.links.rows[k] {
          assert s2.links.rows[k] == LinkOf(v, i, f);
        }
      }
    }
  }

  lemma SeedLinkKeepsValid(s: Store, f: LinkFields)
    requires Valid(s)
    ensures Valid(SeedLink(s, f).0)
  {
    SeedLinkUnique(s, f);
    SeedLinkResolve(s, f);
  }

  datatype LinkCounts = LinkCounts(created: nat, updated: nat, skipped: nat)

  function CountLink(c: LinkCounts, step: Step): LinkCounts {
    LinkCounts(c.created + (if step == Created then 1 else 0), c.updated + (if step == Updated then 1 else 0),
               c.skipped + (if step == Skipped then 1 else 0))
  }

  /** The rows applied one after another, with the counters the script prints. */
  function ApplyLinks(s: Store, fs: seq<LinkFields>): (r: (Store, LinkCounts))
    ensures r.1.created + r.1.updated + r.1.skipped <= |fs|
    ensures r.0.venues == s.venues && r.0.items == s.items && r.0.checks == s.checks && r.0.lines == s.lines
    decreases |fs|
  {
    if |fs| == 0 then (s, LinkCounts(0, 0, 0))
    else
      var (s1, step) := SeedLink(s, fs[0]);
      var (s2, c) := ApplyLinks(s1, fs[1..]);
      (s2, CountLink(c, step))
  }

  /** The venue-items pass, or None when a row cannot be read; as for items, an abort keeps nothing of this pass. */
  function SeedLinks(s: Store, rows: seq<Row>, floatInt: string -> Option<int>): (r: Option<(Store, LinkCounts)>)
    ensures r.None? <==> exists i | 0 <= i < |rows| :: LinkRow(rows[i], floatInt).None?
    ensures r.Some? ==> r.value.1.created + r.value.1.updated + r.value.1.skipped <= |rows|
    ensures r.Some? ==> r.value.0.venues == s.venues && r.value.0.items == s.items && r.value.0.checks == s.checks && r.value.0.lines == s.lines
  {
    ReadAllAbort(rows, row => LinkRow(row, floatInt));
    match ReadAll(rows, row => LinkRow(row, floatInt))
    case None => None
    case Some(fs) => Some(ApplyLinks(s, fs))
  }

  lemma SeedLinkSize(s: Store, f: LinkFields)
    ensures var (s2, step) := SeedLink(s, f);
      && s.links.rows.Keys <= s2.links.rows.Keys
      && |s2.links.rows| == |s.links.rows| + (if step == Created then 1 else 0)
  {
  }

  /** The rows keep every constraint of the store, and `created` is the number of mappings they added. */
  lemma {:induction false} ApplyLinksKeepValid(s: Store, fs: seq<LinkFields>)
    requires Valid(s)
    ensures Valid(ApplyLinks(s, fs).0)
    ensures s.links.rows.Keys <= ApplyLinks(s, fs).0.links.rows.Keys
    ensures |ApplyLinks(s, fs).0.links.rows| == |s.links.rows| + ApplyLinks(s, fs).1.created
    decreases |fs|
  {
    if |fs| > 0 {
      var (s1, step) := SeedLink(s, fs[0]);
      SeedLinkKeepsValid(s, fs[0]);
      ApplyLinksKeepValid(s1, fs[1..]);
      SeedLinkSize(s, fs[0]);
    }
  }

  // ---------------------------------------------------------------- the run

  datatype SeedResult =
    | Aborted
    | Completed(items: ItemCounts, links: LinkCounts)

  /**
   `seed`: the items pass is committed before the venue-items pass starts,
   so an abort in the second pass keeps the first pass's items, and an abort
   in the first keeps nothing.
   */
  function Seed(s: Store, itemRows: seq<Row>, linkRows: seq<Row>, floatInt: string -> Option<int>): (r: (Store, SeedResult))
    ensures SeedItems(s, itemRows).None? ==> r == (s, Aborted)
    ensures SeedItems(s, itemRows).Some? && SeedLinks(SeedItems(s, itemRows).value.0, linkRows, floatInt).None? ==>
      r == (SeedItems(s, itemRows).value.0, Aborted)
  {
    match SeedItems(s, itemRows)
    case None => (s, Aborted)
    case Some((s1, ic)) =>
      match SeedLinks(s1, linkRows, floatInt)
      case None => (s1, Aborted)
      case Some((s2, lc)) => (s2, Completed(ic, lc))
  }

  /** Whatever the rows, the seed leaves a store satisfying every constraint it started with. */
  lemma SeedKeepsValid(s: Store, itemRows: seq<Row>, linkRows: seq<Row>, floatInt: string -> Option<int>)
    requires Valid(s)
    ensures Valid(Seed(s, itemRows, linkRows, floatInt).0)
  {
    if ReadAll(itemRows, ItemRow).Some? {
      var fs := ReadAll(itemRows, ItemRow).value;
      ApplyItemsKeepValid(s, fs);
      var s1 := ApplyItems(s, fs).0;
      var read := row => LinkRow(row, floatInt);
      if ReadAll(linkRows, read).Some? {
        ApplyLinksKeepValid(s1, ReadAll(linkRows, read).value);
      }
    }
  }
}
