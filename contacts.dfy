/** The contact repository: an in-memory store of contact records standing
    for the `contacts` table, the ownership-scoped queries over it
    (listing, search, lookup by id) and the three operations that change it
    (create, update, delete). Each SQL filter of the repository is a
    predicate over records; a raised `HTTPException` is an `Err` value. */
module Contacts {
  import opened Wrappers
  import opened Text
  import opened Calendar

  /** A row of the contacts table. `userId` is None for a row whose
      owner column is NULL. */
  datatype Contact = Contact(
    id: int,
    userId: Option<int>,
    firstName: string,
    lastName: string,
    email: string,
    phone: string,
    birthday: CalendarDate,
    notes: string)

  /** A request body (`ContactModel`). `userId` is None when the body
      carries no owner field at all. */
  datatype ContactBody = ContactBody(
    userId: Option<int>,
    firstName: string,
    lastName: string,
    email: string,
    phone: string,
    birthday: CalendarDate,
    notes: string)

  /** What the repository raises. */
  datatype Failure = HttpException(statusCode: int, detail: string) | OverflowError

  /** The JSON object `{"message": ...}` returned on a successful delete. */
  datatype Message = Message(message: string)

  const NotFoundStatus: int := 404
  const DeletedMessage: string := "Contact successfully deleted"

  function NotFoundDetail(contactId: int): string {
    "Contact with id: " + IntToString(contactId) + " was not found"
  }

  function NotFound(contactId: int): Failure {
    HttpException(NotFoundStatus, NotFoundDetail(contactId))
  }

  /** The detail text of a not-found error names the id it was raised for. */
  lemma NotFoundDetailNamesId(a: int, b: int)
    requires NotFoundDetail(a) == NotFoundDetail(b)
    ensures a == b
  {
    var prefix := "Contact with id: ";
    var suffix := " was not found";
    var x, y := NotFoundDetail(a), NotFoundDetail(b);
    assert |x| == |y|;
    assert x[|prefix|..|x| - |suffix|] == IntToString(a);
    assert y[|prefix|..|y| - |suffix|] == IntToString(b);
    IntToStringInjective(a, b);
  }

  // ---------------------------------------------------------------------
  // Filters

  /** `Contact.user_id == user.id` (NULL never equals an id). */
  predicate OwnedBy(c: Contact, userId: int) {
    c.userId == Some(userId)
  }

  /** The `or_` of the three `ILIKE '%q%'` filters of the search. */
  predicate MatchesQuery(c: Contact, q: string) {
    ContainsIgnoreCase(c.firstName, q)
    || ContainsIgnoreCase(c.lastName, q)
    || ContainsIgnoreCase(c.email, q)
  }

  /** `and_(Contact.user_id == user.id, Contact.id == contact_id)`. */
  predicate IsTarget(c: Contact, contactId: int, userId: int) {
    OwnedBy(c, userId) && c.id == contactId
  }

  /** `query.filter(keep).all()`: the kept rows, in store order. */
  function Select(s: seq<Contact>, keep: Contact -> bool): (r: seq<Contact>)
    ensures forall x :: x in r <==> x in s && keep(x)
    ensures |r| <= |s|
  {
    if s == [] then []
    else (if keep(s[0]) then [s[0]] else []) + Select(s[1..], keep)
  }

  /** Selection distributes over concatenation, so it keeps store order. */
  lemma {:induction false} SelectAppend(a: seq<Contact>, b: seq<Contact>, keep: Contact -> bool)
    ensures Select(a + b, keep) == Select(a, keep) + Select(b, keep)
  {
    if a != [] {
      var head := if keep(a[0]) then [a[0]] else [];
      assert (a + b)[0] == a[0];
      assert (a + b)[1..] == a[1..] + b;
      SelectAppend(a[1..], b, keep);
      calc {
        Select(a + b, keep);
        head + Select(a[1..] + b, keep);
        head + (Select(a[1..], keep) + Select(b, keep));
        (head + Select(a[1..], keep)) + Select(b, keep);
        Select(a, keep) + Select(b, keep);
      }
    } else {
      assert a + b == b;
    }
  }

  /** Selecting by a filter that keeps every row returns the rows unchanged. */
  lemma {:induction false} SelectAll(s: seq<Contact>, keep: Contact -> bool)
    requires forall x :: x in s ==> keep(x)
    ensures Select(s, keep) == s
  {
    if s != [] {
      SelectAll(s[1..], keep);
    }
  }

  /** Selecting by a filter that keeps no row returns nothing. */
  lemma {:induction false} SelectNone(s: seq<Contact>, keep: Contact -> bool)
    requires forall x :: x in s ==> !keep(x)
    ensures Select(s, keep) == []
  {
    if s != [] {
      SelectNone(s[1..], keep);
    }
  }

  /** Two filters that agree on every row select the same rows. */
  lemma {:induction false} SelectSame(s: seq<Contact>, f: Contact -> bool, g: Contact -> bool)
    requires forall x :: x in s ==> f(x) == g(x)
    ensures Select(s, f) == Select(s, g)
  {
    if s != [] {
      SelectSame(s[1..], f, g);
    }
  }

  // ---------------------------------------------------------------------
  // read_contacts

  /** `read_contacts`: owned rows, and with a non-empty q only those whose
      first name, last name or email contains q ignoring case. */
  function ReadContacts(s: seq<Contact>, q: string, userId: int): (r: seq<Contact>)
    ensures forall c :: c in r <==> c in s && OwnedBy(c, userId) && (q != "" ==> MatchesQuery(c, q))
  {
    if q != "" then Select(s, c => MatchesQuery(c, q) && OwnedBy(c, userId))
    else Select(s, c => OwnedBy(c, userId))
  }

  /** The result keeps store order: listing a concatenation lists each part in turn. */
  lemma ReadContactsAppend(a: seq<Contact>, b: seq<Contact>, q: string, userId: int)
    ensures ReadContacts(a + b, q, userId) == ReadContacts(a, q, userId) + ReadContacts(b, q, userId)
  {
    if q != "" {
      SelectAppend(a, b, c => MatchesQuery(c, q) && OwnedBy(c, userId));
    } else {
      SelectAppend(a, b, c => OwnedBy(c, userId));
    }
  }

  /** Other users' rows never change what a user sees. */
  lemma ReadContactsIgnoresOthers(s: seq<Contact>, t: seq<Contact>, q: string, userId: int)
    requires forall c :: c in t ==> !OwnedBy(c, userId)
    ensures ReadContacts(s + t, q, userId) == ReadContacts(s, q, userId)
  {
    ReadContactsAppend(s, t, q, userId);
    if q != "" {
      SelectNone(t, c => MatchesQuery(c, q) && OwnedBy(c, userId));
    } else {
      SelectNone(t, c => OwnedBy(c, userId));
    }
    assert ReadContacts(s, q, userId) + [] == ReadContacts(s, q, userId);
  }

  /** With an empty query the listing is all of the user's rows in store
      order, which is also what the search filter with an empty q keeps. */
  lemma ReadContactsEmptyQuery(s: seq<Contact>, userId: int)
    ensures ReadContacts(s, "", userId) == Select(s, c => MatchesQuery(c, "") && OwnedBy(c, userId))
  {
    forall c | c in s
      ensures MatchesQuery(c, "")
    {
      EmptyPatternMatches(c.firstName);
    }
    SelectSame(s, c => OwnedBy(c, userId), c => MatchesQuery(c, "") && OwnedBy(c, userId));
  }

  /** A user who owns every row sees the whole store. */
  lemma ReadContactsAllOwned(s: seq<Contact>, userId: int)
    requires forall c :: c in s ==> OwnedBy(c, userId)
    ensures ReadContacts(s, "", userId) == s
  {
    SelectAll(s, c => OwnedBy(c, userId));
  }

  // ---------------------------------------------------------------------
  // find_contact

  /** Position of the first row with that id owned by that user (`.first()`). */
  function FindIndex(s: seq<Contact>, contactId: int, userId: int): (r: Option<nat>)
    ensures r.Some? ==> r.value < |s| && IsTarget(s[r.value], contactId, userId)
    ensures r.Some? ==> forall j :: 0 <= j < r.value ==> !IsTarget(s[j], contactId, userId)
    ensures r.None? <==> forall j :: 0 <= j < |s| ==> !IsTarget(s[j], contactId, userId)
  {
    if s == [] then None
    else if IsTarget(s[0], contactId, userId) then Some(0)
    else match FindIndex(s[1..], contactId, userId)
      case None => None
      case Some(i) => Some(i + 1)
  }

  /** `find_contact`. */
  function FindContact(s: seq<Contact>, contactId: int, userId: int): (r: Result<Contact, Failure>)
    ensures r.Ok? ==> r.value in s && r.value.id == contactId && r.value.userId == Some(userId)
    ensures r.Ok? ==> exists i :: 0 <= i < |s| && s[i] == r.value
                                 && forall j :: 0 <= j < i ==> !IsTarget(s[j], contactId, userId)
    ensures r.Err? <==> forall c :: c in s ==> !IsTarget(c, contactId, userId)
    ensures r.Err? ==> r.error == NotFound(contactId)
  {
    match FindIndex(s, contactId, userId)
    case None => Err(NotFound(contactId))
    case Some(i) => Ok(s[i])
  }

  /** No two rows share an id (the primary key). */
  predicate UniqueIds(s: seq<Contact>) {
    forall i, j :: 0 <= i < j < |s| ==> s[i].id != s[j].id
  }

  /** With unique ids, a lookup by id succeeds for the owner and only for the owner. */
  lemma FindOwnedRow(s: seq<Contact>, k: nat, userId: int)
    requires UniqueIds(s) && k < |s|
    ensures FindContact(s, s[k].id, userId) == if OwnedBy(s[k], userId) then Ok(s[k]) else Err(NotFound(s[k].id))
  {
    var r := FindContact(s, s[k].id, userId);
    if r.Ok? {
      var i :| 0 <= i < |s| && s[i] == r.value;
      assert i == k;
    }
  }

  // ---------------------------------------------------------------------
  // The fields a request body overwrites

  datatype Field = UserId | FirstName | LastName | Email | Phone | Birthday | Notes

  datatype FieldValue = OwnerValue(owner: Option<int>) | TextValue(text: string) | DateValue(date: CalendarDate)

  /** The keys of `body.model_dump()`. */
  function BodyFields(body: ContactBody): seq<Field> {
    (if body.userId.Some? then [UserId] else []) + [FirstName, LastName, Email, Phone, Birthday, Notes]
  }

  function BodyValue(body: ContactBody, f: Field): FieldValue {
    match f
    case UserId => OwnerValue(body.userId)
    case FirstName => TextValue(body.firstName)
    case LastName => TextValue(body.lastName)
    case Email => TextValue(body.email)
    case Phone => TextValue(body.phone)
    case Birthday => DateValue(body.birthday)
    case Notes => TextValue(body.notes)
  }

  function FieldOf(c: Contact, f: Field): FieldValue {
    match f
    case UserId => OwnerValue(c.userId)
    case FirstName => TextValue(c.firstName)
    case LastName => TextValue(c.lastName)
    case Email => TextValue(c.email)
    case Phone => TextValue(c.phone)
    case Birthday => DateValue(c.birthday)
    case Notes => TextValue(c.notes)
  }

  /** `setattr(contact, key, value)` with the body's value for that key. */
  function SetField(c: Contact, f: Field, body: ContactBody): Contact {
    match f
    case UserId => c.(userId := body.userId)
    case FirstName => c.(firstName := body.firstName)
    case LastName => c.(lastName := body.lastName)
    case Email => c.(email := body.email)
    case Phone => c.(phone := body.phone)
    case Birthday => c.(birthday := body.birthday)
    case Notes => c.(notes := body.notes)
  }

  /** The record after setting the fields fs, in order, from the body. */
  function ApplyFields(c: Contact, fs: seq<Field>, body: ContactBody): Contact {
    if fs == [] then c
    else SetField(ApplyFields(c, fs[..|fs| - 1], body), fs[|fs| - 1], body)
  }

  /** Setting fields from a body gives exactly those fields the body's values,
      keeps the others and never changes the id. */
  lemma {:induction false} ApplyFieldsEffect(c: Contact, fs: seq<Field>, body: ContactBody)
    ensures ApplyFields(c, fs, body).id == c.id
    ensures forall f :: FieldOf(ApplyFields(c, fs, body), f) == if f in fs then BodyValue(body, f) else FieldOf(c, f)
  {
    if fs != [] {
      var init := fs[..|fs| - 1];
      ApplyFieldsEffect(c, init, body);
      assert forall f :: f in fs <==> f in init || f == fs[|fs| - 1] by {
        assert fs == init + [fs[|fs| - 1]];
      }
    }
  }

  /** After an update the record holds the body: every data field equals the
      body's, the owner is the body's when the body has one, the id stays. */
  lemma UpdatedRecordHoldsBody(c: Contact, body: ContactBody)
    ensures var u := ApplyFields(c, BodyFields(body), body);
      && u.id == c.id
      && u.firstName == body.firstName && u.lastName == body.lastName
      && u.email == body.email && u.phone == body.phone
      && u.birthday == body.birthday && u.notes == body.notes
      && u.userId == (if body.userId.Some? then body.userId else c.userId)
  {
    var fs := BodyFields(body);
    ApplyFieldsEffect(c, fs, body);
    var u := ApplyFields(c, fs, body);
    assert FirstName in fs && LastName in fs && Email in fs && Phone in fs && Birthday in fs && Notes in fs;
    assert FieldOf(u, FirstName) == TextValue(body.firstName);
    assert FieldOf(u, LastName) == TextValue(body.lastName);
    assert FieldOf(u, Email) == TextValue(body.email);
    assert FieldOf(u, Phone) == TextValue(body.phone);
    assert FieldOf(u, Birthday) == DateValue(body.birthday);
    assert FieldOf(u, Notes) == TextValue(body.notes);
    assert FieldOf(u, UserId) == OwnerValue(if body.userId.Some? then body.userId else c.userId);
  }

  /** `Contact(**contact.model_dump())` with the id the table assigns. */
  function NewRecord(id: int, body: ContactBody): Contact {
    Contact(id, body.userId, body.firstName, body.lastName, body.email, body.phone, body.birthday, body.notes)
  }

  /** A created record holds every field of the body. */
  lemma NewRecordHoldsBody(id: int, body: ContactBody)
    ensures NewRecord(id, body).id == id
    ensures forall f :: f in BodyFields(body) ==> FieldOf(NewRecord(id, body), f) == BodyValue(body, f)
    ensures body.userId.None? ==> NewRecord(id, body).userId.None?
  {
  }

  /** A record created with a body owned by u is found by u under its new id,
      and by nobody else. */
  lemma CreatedIsFound(s: seq<Contact>, id: int, body: ContactBody, userId: int)
    requires UniqueIds(s) && forall c :: c in s ==> c.id != id
    ensures FindContact(s + [NewRecord(id, body)], id, userId)
         == if body.userId == Some(userId) then Ok(NewRecord(id, body)) else Err(NotFound(id))
  {
    var t := s + [NewRecord(id, body)];
    assert UniqueIds(t) by {
      forall i, j | 0 <= i < j < |t| ensures t[i].id != t[j].id {
        if j == |s| {
          assert t[i] in s;
        }
      }
    }
    FindOwnedRow(t, |s|, userId);
  }

  /** After the owner deletes a row its id is not found any more. */
  lemma DeletedIsNotFound(s: seq<Contact>, contactId: int, userId: int, i: nat)
    requires UniqueIds(s)
    requires FindIndex(s, contactId, userId) == Some(i)
    ensures FindContact(s[..i] + s[i + 1..], contactId, userId) == Err(NotFound(contactId))
  {
    var t := s[..i] + s[i + 1..];
    forall c | c in t
      ensures !IsTarget(c, contactId, userId)
    {
      var k :| 0 <= k < |t| && t[k] == c;
      if k < i {
        assert c == s[k];
      } else {
        assert c == s[k + 1];
      }
    }
  }

  // ---------------------------------------------------------------------
  // The store and the operations that change it

  class ContactStore {
    /** The rows of the table, in storage order. */
    var contacts: seq<Contact>
    /** The id the table's sequence hands out next. */
    var nextId: int

    ghost predicate Valid()
      reads this
    {
      1 <= nextId && UniqueIds(contacts) && forall c :: c in contacts ==> c.id < nextId
    }

    constructor ()
      ensures Valid() && contacts == [] && nextId == 1
    {
      contacts := [];
      nextId := 1;
    }

    /** `create_contact`: inserts the body as a new row. The caller's user is not used. */
    method CreateContact(body: ContactBody, userId: int) returns (c: Contact)
      requires Valid()
      modifies this
      ensures Valid()
      ensures c == NewRecord(old(nextId), body)
      ensures contacts == old(contacts) + [c]
      ensures nextId == old(nextId) + 1
    {
      c := NewRecord(nextId, body);
      assert forall x :: x in contacts + [c] ==> x in contacts || x == c;
      contacts := contacts + [c];
      nextId := nextId + 1;
    }

    /** `update_contact`: overwrites the fields of the owned row field by field. */
    method UpdateContact(contactId: int, userId: int, body: ContactBody) returns (r: Result<Contact, Failure>)
      requires Valid()
      modifies this
      ensures Valid() && nextId == old(nextId)
      ensures match FindIndex(old(contacts), contactId, userId)
        case None => r == Err(NotFound(contactId)) && contacts == old(contacts)
        case Some(i) =>
          && contacts == old(contacts)[i := ApplyFields(old(contacts)[i], BodyFields(body), body)]
          && r == Ok(contacts[i])
    {
      var found := FindIndex(contacts, contactId, userId);
      if found.None? {
        return Err(NotFound(contactId));
      }
      var i := found.value;
      var fields := BodyFields(body);
      var k := 0;
      while k < |fields|
        invariant 0 <= k <= |fields|
        invariant |contacts| == |old(contacts)| && nextId == old(nextId)
        invariant contacts == old(contacts)[i := ApplyFields(old(contacts)[i], fields[..k], body)]
      {
        assert fields[..k + 1][..k] == fields[..k];
        contacts := contacts[i := SetField(contacts[i], fields[k], body)];
        k := k + 1;
      }
      assert fields[..k] == fields;
      ApplyFieldsEffect(old(contacts)[i], fields, body);
      assert forall j :: 0 <= j < |contacts| ==> contacts[j].id == old(contacts)[j].id;
      forall c | c in contacts
        ensures c.id < nextId
      {
        var j :| 0 <= j < |contacts| && contacts[j] == c;
        assert old(contacts)[j] in old(contacts);
      }
      r := Ok(contacts[i]);
    }

    /** `delete_contact`: removes the owned row. */
    method DeleteContact(contactId: int, userId: int) returns (r: Result<Message, Failure>)
      requires Valid()
      modifies this
      ensures Valid() && nextId == old(nextId)
      ensures match FindIndex(old(contacts), contactId, userId)
        case None => r == Err(NotFound(contactId)) && contacts == old(contacts)
        case Some(i) => r == Ok(Message(DeletedMessage)) && contacts == old(contacts)[..i] + old(contacts)[i + 1..]
    {
      var found := FindIndex(contacts, contactId, userId);
      if found.None? {
        return Err(NotFound(contactId));
      }
      var i := found.value;
      ghost var before := contacts;
      contacts := contacts[..i] + contacts[i + 1..];
      assert forall j :: 0 <= j < |contacts| ==> contacts[j] == before[if j < i then j else j + 1];
      r := Ok(Message(DeletedMessage));
    }
  }
}
