# Contact book repository, modelled in Dafny

This project models the core of a small contact-book web service in Dafny.
Each user owns contacts, and each contact has a first name, last name,
email, phone, birthday and notes. The service has four parts:

- create, list/search, look up, update and delete contacts, always scoped to
  the calling user;
- two queries for "contacts whose birthday is in the next N days";
- a report of which database tables already exist;
- the PostgreSQL connection URL built from the configured settings.

The database is replaced by an in-memory store, `Contacts.ContactStore`. It
is a class whose `contacts` field is the sequence of rows in storage order.
`nextId` is the id the table hands out next.

- **Filters.** Every SQL filter of the repository is a predicate over
  records. A query is the selection of the rows satisfying it, in storage
  order.
- **Errors.** A raised `HTTPException` becomes an `Err` value carrying the
  status code and the exact detail text. Python's `OverflowError` from
  `date + timedelta` becomes `Err(OverflowError)`.
- **`today`.** It is a parameter of the birthday queries.

Modules:

- `Wrappers`: Option and Result.
- `Calendar`: the proleptic Gregorian calendar of Python's `datetime.date`.
  - Years run from 1 to 9999, and day number 1 is 0001-01-01.
  - `toordinal` and `fromordinal` are defined and proved inverse.
  - `date + timedelta(days=n)` is the date whose day number is n more, or
    an overflow outside the representable range.
- `Text`: the string operations the queries rely on.
  - Case-insensitive substring search, ASCII case folding only.
  - `%02d` padding, and the lexical order of the resulting `"MM-DD"` strings.
  - Decimal rendering of an integer.
- `Contacts`: the records, the five repository operations, and the store
  class with the three operations that change it.
- `Birthdays`: the two birthday queries exactly as written, including their
  flaws.
  - A separate reference predicate compares against them. It is not part
    of the repository's code: "the next birthday, projected into this year
    or the next, is 0 to N days away".
  - The lemmas show where the two queries agree with the reference and
    where they do not.
- `Database`: `table_check`, written as a loop proved against a
  specification function, and the connection-URL template.
  - A URL reader is included, so it can be shown when the settings can be
    read back from the URL.

Two points about ownership, both as the code has them:

- **Owner of a created contact.** The route passes the authenticated user
  to `create_contact` (`src/routes/contacts.py:19`). The repository,
  however, builds the record from the request body alone
  (`src/repository/contacts.py:13`) and never uses that user. A created
  contact's owner is therefore whatever the body carries.
  `Contacts.CreatedIsFound` shows what follows from that.
- **Rows without an owner.** Nothing in the repository code requires a
  contact to have an owner, so a row may have none (`userId == None`).
  Such a row is never visible to anyone.

## Model

| member | source | states |
|---|---|---|
| Calendar.AddDays | src/repository/contacts.py:124 | `d + timedelta(days=n)`: when it succeeds, the result is a representable date exactly n days after d; it is an overflow exactly when no representable date lies n days after d |
| Calendar.AddDaysIs | src/repository/contacts.py:124 | any representable date whose day number is n more than d's is the result of adding n days to d |
| Calendar.AddDaysAcrossYearEnd | src/repository/contacts.py:89 | adding days to a December date past the 31st lands in January of the next year, on the expected day |
| Calendar.AddDaysSameMonth | src/repository/contacts.py:124 | when the sum stays in the same month, only the day moves, by exactly n |
| Calendar.FromOrdinal | src/repository/contacts.py:124 | every day number from 1 on names a well-formed date with that day number |
| Calendar.FromOrdinalToOrdinal | src/repository/contacts.py:124 | converting a date to its day number and back gives the same date |
| Calendar.OrdinalOrder | src/repository/contacts.py:124 | day numbers order dates exactly as the calendar (year, month, day) does, and equal day numbers mean equal dates |
| Calendar.OrdinalRange | src/repository/contacts.py:124 | a date is representable exactly when its day number is at most that of 9999-12-31 |
| Text.MonthDayTextOrder | src/repository/contacts.py:97 | the lexical order of two zero-padded `"MM-DD"` strings is the (month, day) order |
| Text.EmptyPatternMatches | src/repository/contacts.py:27 | the pattern `%%` matches every string |
| Text.ContainsIgnoreCaseOfLower | src/repository/contacts.py:27-29 | case-insensitive search gives the same answer when either side is first lower-cased |
| Text.DigitsValueOfNatToString | src/repository/contacts.py:44 | the decimal rendering of a natural number reads back as that number |
| Text.IntToStringInjective | src/repository/contacts.py:44 | distinct ids are rendered as distinct strings |
| Contacts.NotFoundDetailNamesId | src/repository/contacts.py:44 | two not-found messages are equal only when they name the same id |
| Contacts.ReadContacts | src/repository/contacts.py:20-37 | a contact is listed exactly when it is in the store and owned by the caller, and, for a non-empty q, its first name, last name or email contains q ignoring case |
| Contacts.ReadContactsAppend | src/repository/contacts.py:34-37 | listing keeps storage order: the listing of two stretches of rows is the listing of the first followed by that of the second |
| Contacts.ReadContactsIgnoresOthers | src/repository/contacts.py:31-37 | adding rows the caller does not own changes nothing in the caller's listing or search |
| Contacts.ReadContactsEmptyQuery | src/repository/contacts.py:21-37 | the unfiltered listing equals the search filter applied with an empty q |
| Contacts.ReadContactsAllOwned | src/repository/contacts.py:37 | a caller who owns every row sees the whole store, in order |
| Contacts.FindIndex | src/repository/contacts.py:41 | `.first()`: the position of the first row with that id owned by the caller, and none exactly when no row matches |
| Contacts.FindContact | src/repository/contacts.py:40-46 | the result is the first row with that id owned by the caller; otherwise 404 with `Contact with id: {id} was not found`, exactly when no such row exists |
| Contacts.FindOwnedRow | src/repository/contacts.py:41-46 | with unique ids, looking up a row's id returns that row to its owner and not-found to everybody else |
| Contacts.ApplyFieldsEffect | src/repository/contacts.py:62-63 | setting a list of fields from the body gives exactly those fields the body's values, keeps every other field, and never changes the id |
| Contacts.UpdatedRecordHoldsBody | src/repository/contacts.py:62-63 | after the update loop, every data field equals the body's, the owner is the body's when the body has one, and the id is kept |
| Contacts.NewRecordHoldsBody | src/repository/contacts.py:13 | a created record holds every field of the body; a body without an owner gives a row without one |
| Contacts.CreatedIsFound | src/repository/contacts.py:12-17 | a created row can be found under its new id by the owner the body named, and by nobody else |
| Contacts.DeletedIsNotFound | src/repository/contacts.py:80 | once the matching row is removed, looking its id up again gives not-found |
| Contacts.ContactStore.CreateContact | src/repository/contacts.py:12-17 | appends exactly one row, built from the body under a fresh id; the store grows by one, and ids stay unique |
| Contacts.ContactStore.UpdateContact | src/repository/contacts.py:49-67 | with no owned match: 404 and the store unchanged; otherwise only the first owned match changes, to that row with the body's fields set, and that row is returned |
| Contacts.ContactStore.DeleteContact | src/repository/contacts.py:70-82 | with no owned match: 404 and the store unchanged; otherwise exactly that row is removed, all others keep their order, and the result is the success message |
| Birthdays.BetweenMonthDays | src/repository/contacts.py:97 | `BETWEEN` on `"MM-DD"` strings is an inclusive range on (month, day) pairs |
| Birthdays.NextWeekBirthdays | src/repository/contacts.py:85-101 | overflow exactly when `today + N` overflows; otherwise exactly the owned contacts whose (month, day) lies between today's and the end date's, inclusive |
| Birthdays.NextWeekYearEndEmpty | src/repository/contacts.py:87-99 | a window that runs from December into January selects nothing at all |
| Birthdays.NextWeekMissesNewYear | src/repository/contacts.py:87-99 | on 2023-12-28 with the default window of 7, a birthday on 2 January is not returned, though the reference includes it |
| Birthdays.NextWeekAgreesWithinYear | src/repository/contacts.py:87-99 | when the window stays within the current year and no 29 February birthday falls in a common year, the query returns what the reference predicate returns |
| Birthdays.WeekBirthdays | src/repository/contacts.py:122-145 | overflow exactly when `today + N` overflows; otherwise exactly the owned contacts with (day ≥ today's day and today's month) or (day ≤ the end day and the end month) |
| Birthdays.WeekWindowMonths | src/repository/contacts.py:129-140 | only contacts born in today's month or in the end date's month ever match, so the months in between are never matched |
| Birthdays.WeekSameMonthWholeMonth | src/repository/contacts.py:129-140 | when today and the end date fall in the same month, every owned contact born in that month matches, whatever the day |
| Birthdays.WeekIncludesLaterInMonth | src/repository/contacts.py:124-140 | on 2023-06-01 with a window of 5, a birthday on 10 June is returned, though the reference excludes it |
| Birthdays.WeekSkipsMiddleMonth | src/repository/contacts.py:124-140 | on 2023-01-31 with a window of 30 (end 2023-03-02), a birthday on 15 February is not returned, though the reference includes it |
| Birthdays.DaysUntilBirthday | src/repository/contacts.py:87-89 | reference, not in the code: the number of days from today to the next occurrence of the birthday, never negative |
| Birthdays.DaysUntilBirthdayWithinYear | src/repository/contacts.py:87-89 | reference, not in the code: the next birthday is never more than a year away |
| Birthdays.UpcomingBirthdays | src/repository/contacts.py:85-101 | reference, not in the code: exactly the owned contacts whose next birthday is at most N days away |
| Birthdays.ReferenceWithinYear | src/repository/contacts.py:87-99 | reference, not in the code: for a window inside the current year, "at most N days away" is "(month, day) between today's and the end date's" |
| Birthdays.ReferenceSameMonth | src/repository/contacts.py:129-140 | reference, not in the code: in the same-month case, the window is the one range of days from today's day to the end day |
| Birthdays.ReferenceYearEnd | src/repository/contacts.py:87-99 | reference, not in the code: on 2023-12-28, 01-02 is 5 days away and 12-28 is 0 (both within 7); 12-20 is 358 and 01-05 is 8 (both outside) |
| Birthdays.ReferenceEarlyJune | src/repository/contacts.py:124-140 | reference, not in the code: on 2023-06-01, 06-03 is 2 days away (within 5) and 06-10 is 9 (outside) |
| Database.TableCheck | src/database/db.py:29-36 | the loop builds exactly the report: the no-table message for no tables, otherwise the header followed by one entry per table |
| Database.ReportShape | src/database/db.py:30-35 | the report is the no-table message exactly when there are no tables; otherwise it starts with the header, and the listing follows it |
| Database.ListingAppend | src/database/db.py:32-33 | the listing of two lists of names is the first listing followed by the second, so the entries come in iteration order |
| Database.ListingEntry | src/database/db.py:32-33 | entry i of the listing is `"\n\t- "` followed by name i, placed right after the entries of the names before it |
| Database.ListingLength | src/database/db.py:31-33 | the listing's length is the sum over the names of 4 plus the name's length |
| Database.ReportLength | src/database/db.py:31-33 | with tables, the report's length is the header's length plus 4 plus the length of each name |
| Database.ConnectionUrl | src/database/db.py:20 | `"postgresql+psycopg2://" + user + ":" + password + "@" + domain + ":5432/" + db_name`: the URL starts with the scheme, `:5432/` always follows the domain so the port is always 5432, the database name ends it, and the length is the settings' lengths plus the fixed text |
| Database.ConnectionUrlRoundTrip | src/database/db.py:20 | if no setting contains a delimiter of its own part, reading the URL back gives the four settings and port 5432 |
| Database.ConnectionUrlAmbiguous | src/database/db.py:20 | two different settings, user `admin:x` with password `pw` and user `admin` with password `x:pw`, give the same URL |
| Database.ConnectionUrlPasswordWithAt | src/database/db.py:20 | a password holding an `@` is cut at it when the URL is read back, and the rest of it becomes part of the host |
| Database.UnquoteQuote | src/database/db.py:20 | percent-decoding undoes percent-encoding, for every string |
| Database.QuotedConnectionUrlRoundTrip | src/database/db.py:20 | with the user name and password percent-encoded, any user name and password read back as they were, with the host, port 5432 and database |
| Database.QuotedConnectionUrlInjective | src/database/db.py:20 | with the credentials encoded, distinct settings give distinct URLs |

## Left out

- The FastAPI routes, the application wiring and the authentication
  collaborator: the caller's user id is a plain parameter.
- The ORM and session machinery: `db.add`, `commit`, `refresh`, `delete`,
  the session lifecycle of `get_db`, engine creation and table reflection,
  and `reset_db`. The store is a sequence of records instead.
- File reading by `ConfigParser` in `get_connection_string`: the four
  settings are parameters of `Database.ConnectionUrl`.
- `debug_print` in `get_week_birthdays`: console output only.
- `async`/`await`, and the clock `datetime.today()`: `today` is a parameter.
- Contacts.ReadContacts: `ILIKE` folds case with ASCII letters only; the
  database's Unicode case folding is not modelled, and neither are `%`
  and `_` inside q acting as wildcards.
- Birthdays.NextWeekBirthdays: the database compares the `to_char` strings
  in its collation; the model compares code points. For digits and `-`
  the two orders agree.
- Contacts.ContactStore.CreateContact: the schema behind `ContactModel` is
  not part of this model. The body's owner field is therefore optional: a
  body without it gives a row with no owner.
- Contacts.FindContact: `.first()` without `ORDER BY` leaves the choice to
  the database. The model takes the first match in storage order. With
  unique ids there is at most one match (`Contacts.FindOwnedRow`).
- Contacts.ContactStore.UpdateContact: the update is applied field by
  field in the body's key order. No transaction or concurrent writer is
  modelled.
- Birthdays.NextWeekBirthdays and Birthdays.WeekBirthdays: `timedelta`
  itself rejects more than 999999999 days. The model folds that into the
  overflow of the date addition, and the result is the same.
- Birthdays.UpcomingBirthdays: the reference places a 29 February
  birthday on 28 February in common years. This is a choice of the
  reference, not of the code.
- Database.ParseConnectionUrl: a reader written for the generic syntax of
  section 3.2 of RFC 3986. It is not the URL parser of SQLAlchemy or of
  psycopg2.

## Findings

| source | as written | input that shows it | evidently intended | confidence | as-written member | corrected member |
|---|---|---|---|---|---|---|
| src/repository/contacts.py:87-99 | `"MM-DD" BETWEEN start AND end` on text, where start is today and end is today + N | today 2023-12-28, N 7: start `"12-28"` sorts after end `"01-04"`, so a birthday on 01-02 (or on 12-30) is not returned | every birthday 0 to N days away is returned, across the new year too | high; not executed | Birthdays.NextWeekMissesNewYear | Birthdays.UpcomingBirthdays |
| src/repository/contacts.py:129-140 | two clauses: (day ≥ today's day, today's month) or (day ≤ end day, end month) | today 2023-06-01, N 5: the end is 06-06, the first clause matches every day from the 1st on, so 06-10 is returned | only days 1 to 6 of June are returned | high; not executed | Birthdays.WeekIncludesLaterInMonth | Birthdays.UpcomingBirthdays |
| src/database/db.py:20 | the settings are put into the URL without percent-encoding | password `p@ss`: the URL reads back with password `p` and host `ss@localhost` | user name and password percent-encoded, so every password reads back intact | medium; not executed | Database.ConnectionUrlPasswordWithAt | Database.QuotedConnectionUrl |

- **First two rows.** The correction is the reference predicate
  `Birthdays.UpcomingBirthdays`.
  - `Birthdays.ReferenceYearEnd` and `Birthdays.ReferenceEarlyJune` prove
    the intended answers on those two inputs.
  - `Birthdays.NextWeekAgreesWithinYear` proves that the first query is
    right wherever the window stays within one year.
  - `Birthdays.ReferenceSameMonth` proves that, in the same-month case, the
    reference keeps only the range of days from today's day to the end day.
- **Third row.** `Database.QuotedConnectionUrlRoundTrip` and
  `Database.QuotedConnectionUrlInjective` prove that the encoded URL reads
  back intact for every user name and password.
