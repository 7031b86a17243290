/**
 The venue form: a venue is added under its trimmed name unless the name is
 blank or some venue already has it. Venues added this way are never core.
 */
module Venues {
  import opened Optional
  import opened Strings
  import opened Store

  datatype VenueOutcome =
    | NameRequired
    | AlreadyExists(id: nat)
    | Added(id: nat)

  /** POST /venues. */
  function CreateVenue(s: Store, nameField: Option<string>): (r: (Store, VenueOutcome))
    ensures r.1.NameRequired? <==> Strip(nameField.GetOr("")) == ""
    ensures !r.1.Added? ==> r.0 == s
    ensures r.0.items == s.items && r.0.links == s.links && r.0.checks == s.checks && r.0.lines == s.lines
  {
    var name := Strip(nameField.GetOr(""));
    if name == "" then (s, NameRequired)
    else
      match VenueByName(s, name)
      case Some(id) => (s, AlreadyExists(id))
      case None => (s.(venues := Insert(s.venues, Venue(name, false, true))), Added(s.venues.next))
  }

  /** A name some venue has is refused, pointing at that venue, and nothing changes. */
  lemma CreateDuplicate(s: Store, nameField: Option<string>, id: nat)
    requires VenueNamesUnique(s)
    requires id in s.venues.rows && s.venues.rows[id].name == Strip(nameField.GetOr(""))
    requires Strip(nameField.GetOr("")) != ""
    ensures CreateVenue(s, nameField) == (s, AlreadyExists(id))
  {
    assert VenueByName(s, Strip(nameField.GetOr(""))).Some?;
  }

  /**
   A non-blank name no venue has adds exactly one row: an active venue,
   not core, under the trimmed name.
   */
  lemma CreateFresh(s: Store, nameField: Option<string>)
    requires Strip(nameField.GetOr("")) != ""
    requires forall k | k in s.venues.rows :: s.venues.rows[k].name != Strip(nameField.GetOr(""))
    ensures var (s2, out) := CreateVenue(s, nameField);
      && out.Added? && out.id !in s.venues.rows
      && s2.venues.rows == s.venues.rows[out.id := Venue(Strip(nameField.GetOr("")), false, true)]
  {
  }

  /** Venue names stay unique, and so do all the store's constraints. */
  lemma CreateKeepsValid(s: Store, nameField: Option<string>)
    requires Valid(s)
    ensures Valid(CreateVenue(s, nameField).0)
  {
    var (s2, out) := CreateVenue(s, nameField);
    if out.Added? {
      forall a, b | a in s2.venues.rows && b in s2.venues.rows && a != b
        ensures s2.venues.rows[a].name != s2.venues.rows[b].name
      {
        if a == out.id {
          assert b in s.venues.rows;
        } else if b == out.id {
          assert a in s.venues.rows;
        }
      }
    }
  }

  /**
   Whatever the outcome for a non-blank name, afterwards exactly that venue
   is found under it, and submitting the same form again is refused as a
   duplicate without changing anything.
   */
  lemma CreateThenDuplicate(s: Store, nameField: Option<string>)
    requires Valid(s)
    requires Strip(nameField.GetOr("")) != ""
    ensures var (s2, out) := CreateVenue(s, nameField);
      && VenueByName(s2, Strip(nameField.GetOr(""))) == Some(out.id)
      && CreateVenue(s2, nameField) == (s2, AlreadyExists(out.id))
  {
    var name := Strip(nameField.GetOr(""));
    var (s2, out) := CreateVenue(s, nameField);
    CreateKeepsValid(s, nameField);
    assert out.id in s2.venues.rows && s2.venues.rows[out.id].name == name;
    CreateDuplicate(s2, nameField, out.id);
  }

  /** The venue form submitted once per entry, in order. */
  function CreateVenues(s: Store, fields: seq<Option<string>>): (r: Store)
    ensures r.items == s.items && r.links == s.links && r.checks == s.checks && r.lines == s.lines
    decreases |fields|
  {
    if |fields| == 0 then s else CreateVenues(CreateVenue(s, fields[0]).0, fields[1..])
  }

  /**
   However many names are submitted, repeated or blank, the store stays
   valid, so no two venues share a name.
   */
  lemma {:induction false} CreateVenuesKeepValid(s: Store, fields: seq<Option<string>>)
    requires Valid(s)
    ensures Valid(CreateVenues(s, fields))
    decreases |fields|
  {
    if |fields| > 0 {
      CreateKeepsValid(s, fields[0]);
      CreateVenuesKeepValid(CreateVenue(s, fields[0]).0, fields[1..]);
    }
  }

  /** Every non-blank name submitted is the name of some venue afterwards. */
  lemma CreateVenuesFind(s: Store, fields: seq<Option<string>>)
    ensures forall i | 0 <= i < |fields| && Strip(fields[i].GetOr("")) != "" ::
      VenueByName(CreateVenues(s, fields), Strip(fields[i].GetOr(""))).Some?
  {
    forall i | 0 <= i < |fields| && Strip(fields[i].GetOr("")) != ""
      ensures VenueByName(CreateVenues(s, fields), Strip(fields[i].GetOr(""))).Some?
    {
      CreateVenuesFindOne(s, fields, i, Strip(fields[i].GetOr("")));
    }
  }

  lemma {:induction false} CreateVenuesFindOne(s: Store, fields: seq<Option<string>>, i: nat, name: string)
    requires i < |fields| && Strip(fields[i].GetOr("")) == name && name != ""
    ensures VenueByName(CreateVenues(s, fields), name).Some?
    decreases i, 1
  {
    if i == 0 {
      CreateVenuesFindFirst(s, fields, name);
    } else {
      CreateVenuesFindLater(s, fields, i, name);
    }
  }

  /** A later name is found after the rest of the sequence, run from the store the first entry leaves. */
  lemma {:induction false} CreateVenuesFindLater(s: Store, fields: seq<Option<string>>, i: nat, name: string)
    requires 0 < i < |fields| && Strip(fields[i].GetOr("")) == name && name != ""
    ensures VenueByName(CreateVenues(s, fields), name).Some?
    decreases i, 0
  {
    var s1 := CreateVenue(s, fields[0]).0;
    CreateVenuesStep(s, fields);
    TailAt(fields, i);
    CreateVenuesFindOne(s1, fields[1..], i - 1, name);
  }

  /** The first name submitted names a venue after the whole sequence. */
  lemma CreateVenuesFindFirst(s: Store, fields: seq<Option<string>>, name: string)
    requires 0 < |fields| && Strip(fields[0].GetOr("")) == name && name != ""
    ensures VenueByName(CreateVenues(s, fields), name).Some?
  {
    var s1 := CreateVenue(s, fields[0]).0;
    CreateVenuesStep(s, fields);
    CreateFinds(s, fields[0]);
    CreateVenuesKeepNames(s1, fields[1..], name);
  }

  /** After one submission of a non-blank name, some venue has it, added or already there. */
  lemma CreateFinds(s: Store, nameField: Option<string>)
    requires Strip(nameField.GetOr("")) != ""
    ensures VenueByName(CreateVenue(s, nameField).0, Strip(nameField.GetOr(""))).Some?
  {
    var (s2, out) := CreateVenue(s, nameField);
    if out.Added? {
      assert out.id in s2.venues.rows && s2.venues.rows[out.id].name == Strip(nameField.GetOr(""));
    }
  }

  lemma CreateVenuesStep(s: Store, fields: seq<Option<string>>)
    requires |fields| > 0
    ensures CreateVenues(s, fields) == CreateVenues(CreateVenue(s, fields[0]).0, fields[1..])
  {
  }

  lemma TailAt<T>(xs: seq<T>, i: nat)
    requires 0 < i < |xs|
    ensures xs[1..][i - 1] == xs[i]
  {
  }

  /** A name that some venue has keeps being the name of some venue: the form never removes or renames one. */
  lemma {:induction false} CreateVenuesKeepNames(s: Store, fields: seq<Option<string>>, name: string)
    requires VenueByName(s, name).Some?
    ensures VenueByName(CreateVenues(s, fields), name).Some?
    decreases |fields|
  {
    if |fields| > 0 {
      var s1 := CreateVenue(s, fields[0]).0;
      var k := VenueByName(s, name).value;
      assert k in s1.venues.rows && s1.venues.rows[k].name == name;
      CreateVenuesKeepNames(s1, fields[1..], name);
    }
  }
}
