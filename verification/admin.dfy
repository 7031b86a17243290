/**
 The item administration routes: creating an item (an upsert keyed by the
 trimmed name), deactivating it behind a confirmation gate with a cascade to
 its venue mappings, and re-activating it.
 */
module Admin {
  import opened Optional
  import opened Strings
  import opened Store
  import VenueItems

  datatype ItemOutcome =
    | NameRequired
    | TypeInvalid
    | Reactivated(id: nat)
    | Added(id: nat)

  // ---------------------------------------------------------------- create

  /** The name the form carries: `request.form.get("name", "").strip()`. */
  function FormName(field: Option<string>): string {
    Strip(field.GetOr(""))
  }

  /** The type the form carries: `request.form.get("item_type", "").strip().lower()`. */
  function FormType(field: Option<string>): string {
    Norm(field.GetOr(""))
  }

  /**
   POST /admin/items. The name is checked first, then the type; an accepted
   form is stored by `UpsertItem`.
   */
  function CreateItem(s: Store, nameField: Option<string>, typeField: Option<string>): (r: (Store, ItemOutcome))
    ensures r.1.NameRequired? <==> FormName(nameField) == ""
    ensures r.1.TypeInvalid? <==> FormName(nameField) != "" && FormType(typeField) !in ItemTypes
    ensures r.1.NameRequired? || r.1.TypeInvalid? ==> r.0 == s
    ensures FormName(nameField) != "" && FormType(typeField) in ItemTypes ==>
      r == UpsertItem(s, FormName(nameField), FormType(typeField))
  {
    var name := FormName(nameField);
    var itemType := FormType(typeField);
    if name == "" then (s, NameRequired)
    else if itemType !in ItemTypes then (s, TypeInvalid)
    else UpsertItem(s, name, itemType)
  }

  /**
   Storing an accepted item: a name some item already has re-activates that
   item with the given type, any other name adds a new active item.
   */
  function UpsertItem(s: Store, name: string, itemType: string): (r: (Store, ItemOutcome))
    ensures r.1.Reactivated? || r.1.Added?
    ensures r.0.venues == s.venues && r.0.links == s.links && r.0.checks == s.checks && r.0.lines == s.lines
  {
    match ItemByName(s, name)
    case Some(id) => (s.(items := Update(s.items, id, s.items.rows[id].(active := true, itemType := itemType))), Reactivated(id))
    case None => (s.(items := Insert(s.items, Item(name, itemType, true))), Added(s.items.next))
  }

  lemma DurableNormal() ensures Norm("durable") == "durable" { NormFixed("durable"); }
  lemma ConsumableNormal() ensures Norm("consumable") == "consumable" { NormFixed("consumable"); }

  /**
   Against the reference keyword match: the type is accepted exactly when
   the field spells `durable` or `consumable`, in any letter case, with
   whitespace around it.
   */
  lemma TypeAcceptedIffKeyword(typeField: Option<string>)
    ensures FormType(typeField) in ItemTypes <==>
      MatchesKeyword(typeField.GetOr(""), "durable") || MatchesKeyword(typeField.GetOr(""), "consumable")
  {
    TypeKeywords(typeField.GetOr(""));
  }

  lemma TypeKeywords(raw: string)
    ensures Norm(raw) == "durable" || Norm(raw) == "consumable" <==>
      MatchesKeyword(raw, "durable") || MatchesKeyword(raw, "consumable")
  {
    DurableNormal();
    ConsumableNormal();
    NormalMatchesKeyword(raw, "durable");
    NormalMatchesKeyword(raw, "consumable");
  }

  /** A name that an item already has: no row is added, and that item becomes active with the given type. */
  lemma UpsertExisting(s: Store, name: string, itemType: string, id: nat)
    requires ItemNamesUnique(s)
    requires id in s.items.rows && s.items.rows[id].name == name
    ensures var (s2, out) := UpsertItem(s, name, itemType);
      && out == Reactivated(id)
      && s2.items.rows == s.items.rows[id := Item(name, itemType, true)]
  {
    var found := ItemByName(s, name);
    assert found.Some?;
  }

  /** A name no item has: exactly one row is added, an active item with that name and type. */
  lemma UpsertNew(s: Store, name: string, itemType: string)
    requires forall k | k in s.items.rows :: s.items.rows[k].name != name
    ensures var (s2, out) := UpsertItem(s, name, itemType);
      && out.Added? && out.id !in s.items.rows
      && s2.items.rows == s.items.rows[out.id := Item(name, itemType, true)]
  {
  }

  /** Item names stay unique. */
  lemma UpsertKeepsNamesUnique(s: Store, name: string, itemType: string)
    requires ItemNamesUnique(s)
    ensures ItemNamesUnique(UpsertItem(s, name, itemType).0)
  {
    var (s2, out) := UpsertItem(s, name, itemType);
    if out.Added? {
      forall a, b | a in s2.items.rows && b in s2.items.rows && a != b
        ensures s2.items.rows[a].name != s2.items.rows[b].name
      {
        if a == out.id {
          assert b in s.items.rows;
        } else if b == out.id {
          assert a in s.items.rows;
        }
      }
    }
  }

  lemma UpsertKeepsValid(s: Store, name: string, itemType: string)
    requires Valid(s)
    ensures Valid(UpsertItem(s, name, itemType).0)
  {
    UpsertKeepsNamesUnique(s, name, itemType);
  }

  /** Creating an item keeps every constraint of the store. */
  lemma CreateKeepsValid(s: Store, nameField: Option<string>, typeField: Option<string>)
    requires Valid(s)
    ensures Valid(CreateItem(s, nameField, typeField).0)
  {
    if FormName(nameField) != "" && FormType(typeField) in ItemTypes {
      UpsertKeepsValid(s, FormName(nameField), FormType(typeField));
    }
  }

  /**
   After a stored item, looking its name up finds an active item of the
   given type, whether it was added or re-activated.
   */
  lemma UpsertThenFind(s: Store, name: string, itemType: string)
    requires ItemNamesUnique(s)
    ensures var s2 := UpsertItem(s, name, itemType).0;
      && ItemByName(s2, name).Some?
      && s2.items.rows[ItemByName(s2, name).value] == Item(name, itemType, true)
  {
    var (s2, out) := UpsertItem(s, name, itemType);
    UpsertKeepsNamesUnique(s, name, itemType);
    if out.Added? {
      UpsertNew(s, name, itemType);
    } else {
      UpsertExisting(s, name, itemType, out.id);
    }
    var id := ItemByName(s2, name).value;
    assert out.id in s2.items.rows && s2.items.rows[out.id].name == name;
    assert id == out.id;
  }

  /** Submitting the same accepted form twice changes nothing the second time. */
  lemma UpsertIdempotent(s: Store, name: string, itemType: string)
    requires ItemNamesUnique(s)
    ensures var s2 := UpsertItem(s, name, itemType).0;
      UpsertItem(s2, name, itemType).0 == s2
  {
    var s2 := UpsertItem(s, name, itemType).0;
    UpsertThenFind(s, name, itemType);
    UpsertKeepsNamesUnique(s, name, itemType);
    var id := ItemByName(s2, name).value;
    UpsertExisting(s2, name, itemType, id);
    assert s2.items.rows[id := Item(name, itemType, true)] == s2.items.rows;
  }

  // ---------------------------------------------------------------- deactivate / activate

  datatype Verb = Get | Post

  datatype DeactivateOutcome =
    | Deactivated(venueCount: nat)
    | NeedsConfirmation(venues: set<nat>)

  /** The existing venues where the item is tracked by an active mapping: the ones the confirmation page lists. */
  function AffectedVenues(s: Store, id: nat): set<nat> {
    set k | k in s.links.rows && s.links.rows[k].itemId == id && s.links.rows[k].active && s.links.rows[k].venueId in s.venues.rows
      :: s.links.rows[k].venueId
  }

  /** Every mapping row of the item is switched off; other rows are kept as they are. */
  function Unmapped(links: Table<VenueItem>, id: nat): (r: Table<VenueItem>)
    ensures r.next == links.next && r.rows.Keys == links.rows.Keys
  {
    RawTable(map k | k in links.rows :: if links.rows[k].itemId == id then links.rows[k].(active := false) else links.rows[k], links.next)
  }

  /** The item's flag set to `active`; nothing else changes. */
  function SetItemActive(s: Store, id: nat, active: bool): Store
    requires id in s.items.rows
  {
    s.(items := Update(s.items, id, s.items.rows[id].(active := active)))
  }

  /**
   /admin/items/<id>/deactivate. A GET deactivates the item only when no
   venue tracks it, and otherwise asks for confirmation and changes nothing;
   a POST (the confirmation) deactivates the item and every active mapping
   of it, reporting how many venues were affected.
   */
  function DeactivateItem(s: Store, id: nat, verb: Verb): (r: Response<(Store, DeactivateOutcome)>)
    ensures r.NotFound? <==> id !in s.items.rows
    ensures r.Found? ==> r.value.0.venues == s.venues && r.value.0.checks == s.checks && r.value.0.lines == s.lines
  {
    if id !in s.items.rows then NotFound
    else
      var venues := AffectedVenues(s, id);
      match verb
      case Get =>
        if |venues| == 0 then Found((SetItemActive(s, id, false), Deactivated(0)))
        else Found((s, NeedsConfirmation(venues)))
      case Post =>
        Found((SetItemActive(s, id, false).(links := Unmapped(s.links, id)), Deactivated(|venues|)))
  }

  /** The mapping rows of an item that are active. */
  function ActiveLinksOf(s: Store, id: nat): set<nat> {
    set k | k in s.links.rows && s.links.rows[k].itemId == id && s.links.rows[k].active
  }

  /** A GET for an item no existing venue tracks: the item is switched off and no mapping changes. */
  lemma DeactivateUnused(s: Store, id: nat)
    requires id in s.items.rows && AffectedVenues(s, id) == {}
    ensures var (s2, out) := DeactivateItem(s, id, Get).value;
      && out == Deactivated(0)
      && s2.items.rows.Keys == s.items.rows.Keys
      && s2.items.rows[id] == s.items.rows[id].(active := false)
      && (forall k | k in s.items.rows && k != id :: s2.items.rows[k] == s.items.rows[k])
      && s2.links == s.links
  {
  }

  /** A GET for an item some venue tracks: only a confirmation listing those venues, no change. */
  lemma DeactivateNeedsConfirmation(s: Store, id: nat)
    requires id in s.items.rows && AffectedVenues(s, id) != {}
    ensures DeactivateItem(s, id, Get) == Found((s, NeedsConfirmation(AffectedVenues(s, id))))
    ensures forall v | v in AffectedVenues(s, id) :: v in s.venues.rows && id in ActiveSet(s, v)
  {
    forall v | v in AffectedVenues(s, id) ensures v in s.venues.rows && id in ActiveSet(s, v) {
      var k :| k in s.links.rows && s.links.rows[k].itemId == id && s.links.rows[k].active
               && s.links.rows[k].venueId in s.venues.rows && s.links.rows[k].venueId == v;
      assert s.links.rows[k].itemId in ActiveSet(s, v);
    }
  }

  /**
   The confirmed POST: the item is switched off, it has no active mapping
   left, every mapping row of another item is as it was, and no row is added
   or removed.
   */
  lemma DeactivateCascade(s: Store, id: nat)
    requires id in s.items.rows
    ensures var (s2, out) := DeactivateItem(s, id, Post).value;
      && out == Deactivated(|AffectedVenues(s, id)|)
      && s2.items.rows.Keys == s.items.rows.Keys
      && s2.items.rows[id] == s.items.rows[id].(active := false)
      && (forall k | k in s.items.rows && k != id :: s2.items.rows[k] == s.items.rows[k])
      && s2.links.rows.Keys == s.links.rows.Keys
      && ActiveLinksOf(s2, id) == {}
      && (forall k | k in s.links.rows && s.links.rows[k].itemId != id :: s2.links.rows[k] == s.links.rows[k])
      && (forall k | k in s.links.rows :: s2.links.rows[k] == s.links.rows[k].(active := s2.links.rows[k].active))
  {
  }

  /** After either kind of deactivation the item is tracked nowhere, so no quick check lists it. */
  lemma DeactivatedUntracked(s: Store, id: nat, verb: Verb, v: nat)
    requires id in s.items.rows
    requires DeactivateItem(s, id, verb).value.1.Deactivated?
    ensures id !in VenueItems.Tracked(DeactivateItem(s, id, verb).value.0, v)
  {
    var s2 := DeactivateItem(s, id, verb).value.0;
    assert !s2.items.rows[id].active;
  }

  lemma DeactivateKeepsValid(s: Store, id: nat, verb: Verb)
    requires Valid(s) && id in s.items.rows
    ensures Valid(DeactivateItem(s, id, verb).value.0)
  {
    var s2 := DeactivateItem(s, id, verb).value.0;
    assert s2.links.rows.Keys == s.links.rows.Keys;
    forall a, b | a in s2.links.rows && b in s2.links.rows && a != b
      ensures s2.links.rows[a].venueId != s2.links.rows[b].venueId || s2.links.rows[a].itemId != s2.links.rows[b].itemId
    {
      assert s.links.rows[a].venueId != s.links.rows[b].venueId || s.links.rows[a].itemId != s.links.rows[b].itemId;
    }
  }

  /** POST /admin/items/<id>/activate: the item's flag goes up, and nothing else changes. */
  function ActivateItem(s: Store, id: nat): (r: Response<Store>)
    ensures r.NotFound? <==> id !in s.items.rows
  {
    if id !in s.items.rows then NotFound else Found(SetItemActive(s, id, true))
  }

  /**
   Activation touches only the item's flag: in particular it does not bring
   back the mappings a cascade switched off.
   */
  lemma ActivateOnlyItem(s: Store, id: nat)
    requires id in s.items.rows
    ensures var s2 := ActivateItem(s, id).value;
      && s2.items.rows.Keys == s.items.rows.Keys
      && s2.items.rows[id] == s.items.rows[id].(active := true)
      && (forall k | k in s.items.rows && k != id :: s2.items.rows[k] == s.items.rows[k])
      && s2.venues == s.venues && s2.links == s.links && s2.checks == s.checks && s2.lines == s.lines
  {
  }

  /**
   Deactivating with confirmation and then activating restores the item's
   row, but its mappings stay off: the item is back in no venue's supplies.
   */
  lemma DeactivateThenActivate(s: Store, id: nat, v: nat)
    requires id in s.items.rows && s.items.rows[id].active
    ensures var s2 := DeactivateItem(s, id, Post).value.0;
      && id in s2.items.rows
      && var s3 := ActivateItem(s2, id).value;
         s3.items == s.items && id !in ActiveSet(s3, v)
  {
    var s2 := DeactivateItem(s, id, Post).value.0;
    DeactivateCascade(s, id);
    var s3 := ActivateItem(s2, id).value;
    assert s3.items.rows == s.items.rows;
    assert s3.links == s2.links;
    assert ActiveLinksOf(s2, id) == {};
  }
}
