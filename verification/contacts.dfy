/**
 * The contact book: a store of (name, phone, email) records kept in file
 * order, the rules that decide whether a new contact is added, the numbered
 * listing and the case-insensitive substring search.
 *
 * The backing file is held abstractly by `ContactBook`: a flag saying whether
 * the file (with its header row) exists, and the sequence of records that
 * follow the header.
 */
module Contacts {
  import opened Text

  datatype Contact = Contact(name: string, phone: string, email: string)

  /** What adding a contact reports. */
  datatype AddOutcome = Saved | MissingField | BadPhone | Duplicate

  /** One numbered line of a listing: `number. name | phone | email`. */
  datatype Entry = Entry(number: nat, contact: Contact)

  datatype ListOutcome = NoContacts | Listing(entries: seq<Entry>)

  datatype SearchOutcome = EmptyQuery | NoMatches | Found(count: nat, entries: seq<Entry>)

  /* ---------- Adding ---------- */

  /** The record that a successful add appends: all three inputs trimmed. */
  function Record(name: string, phone: string, email: string): Contact {
    Contact(Trim(name), Trim(phone), Trim(email))
  }

  /** Some stored record's trimmed phone is exactly `phone`. */
  predicate PhoneTaken(rows: seq<Contact>, phone: string) {
    exists k :: 0 <= k < |rows| && Trim(rows[k].phone) == phone
  }

  /** The decision an add makes against the stored records `rows`. */
  function AddResult(rows: seq<Contact>, name: string, phone: string, email: string): (r: AddOutcome)
    ensures r == Duplicate ==> rows != []
    ensures r == Saved || r == Duplicate ==> Trim(name) != [] && ValidPhone(Trim(phone))
  {
    var n, p := Trim(name), Trim(phone);
    if n == [] || p == [] then MissingField
    else if !ValidPhone(p) then BadPhone
    else if PhoneTaken(rows, p) then Duplicate
    else Saved
  }

  /** The stored records after an add. */
  function AfterAdd(rows: seq<Contact>, name: string, phone: string, email: string): seq<Contact> {
    if AddResult(rows, name, phone, email) == Saved then rows + [Record(name, phone, email)] else rows
  }

  /* ---------- Listing ---------- */

  /** Records numbered from 1 in store order. */
  function Numbered(rows: seq<Contact>): seq<Entry> {
    seq(|rows|, i requires 0 <= i < |rows| => Entry(i + 1, rows[i]))
  }

  function ListingOf(rows: seq<Contact>): ListOutcome {
    if rows == [] then NoContacts else Listing(Numbered(rows))
  }

  /* ---------- Searching ---------- */

  /** `q` (already trimmed and lower-cased) occurs in the lower-cased name,
      phone or email of `c`. */
  predicate Matches(c: Contact, q: string) {
    Contains(Lower(c.name), q) || Contains(Lower(c.phone), q) || Contains(Lower(c.email), q)
  }

  /** The records of `rows` that match `q`, in store order. */
  function Matching(rows: seq<Contact>, q: string): (r: seq<Contact>)
    ensures |r| <= |rows|
    decreases |rows|
  {
    if rows == [] then []
    else
      var last := rows[|rows| - 1];
      Matching(rows[..|rows| - 1], q) + (if Matches(last, q) then [last] else [])
  }

  /** The positions in `rows` of the records `Matching` keeps. */
  ghost function MatchIndices(rows: seq<Contact>, q: string): seq<nat>
    decreases |rows|
  {
    if rows == [] then []
    else
      MatchIndices(rows[..|rows| - 1], q) + (if Matches(rows[|rows| - 1], q) then [|rows| - 1] else [])
  }

  /** The query as the search uses it: trimmed, then lower-cased. */
  function NormalQuery(query: string): string {
    Lower(Trim(query))
  }

  function SearchResult(rows: seq<Contact>, query: string): (r: SearchOutcome)
    ensures r.Found? ==> 0 < r.count == |r.entries| <= |rows|
  {
    var q := NormalQuery(query);
    if q == [] then EmptyQuery
    else
      var m := Matching(rows, q);
      if m == [] then NoMatches else Found(|m|, Numbered(m))
  }

  /* ---------- The store ---------- */

  class ContactBook {
    /** The backing file exists, with its header row. */
    var fileExists: bool
    /** The records after the header, in file order. */
    var contacts: seq<Contact>

    /** A file that does not exist holds no records. */
    ghost predicate Valid()
      reads this
    {
      fileExists || contacts == []
    }

    /** A book over a file that is absent, or present with `rows`. */
    constructor (present: bool, rows: seq<Contact>)
      requires present || rows == []
      ensures Valid() && fileExists == present && contacts == rows
    {
      fileExists := present;
      contacts := rows;
    }

    /** Creates the file with its header when it is absent; otherwise does
        nothing. */
    method EnsureFile()
      requires Valid()
      modifies this
      ensures Valid() && fileExists && contacts == old(contacts)
      ensures old(fileExists) ==> unchanged(this)
    {
      if !fileExists {
        fileExists := true;
      }
    }

    /** All records in file order, creating the file first if needed. */
    method Load() returns (rows: seq<Contact>)
      requires Valid()
      modifies this
      ensures Valid() && fileExists && contacts == old(contacts)
      ensures rows == contacts
    {
      EnsureFile();
      rows := contacts;
    }

    /** Appends one record at the end of the file. */
    method Save(c: Contact)
      requires Valid()
      modifies this
      ensures Valid() && fileExists
      ensures contacts == old(contacts) + [c]
    {
      EnsureFile();
      contacts := contacts + [c];
    }

    /** Adds a contact unless a field is missing, the phone is malformed or
        the trimmed phone is already stored. The file is only touched once
        the first two checks pass. */
    method Add(name: string, phone: string, email: string) returns (outcome: AddOutcome)
      requires Valid()
      modifies this
      ensures Valid()
      ensures outcome == AddResult(old(contacts), name, phone, email)
      ensures contacts == AfterAdd(old(contacts), name, phone, email)
      ensures fileExists == (old(fileExists) || outcome == Saved || outcome == Duplicate)
    {
      var n, p, e := Trim(name), Trim(phone), Trim(email);
      if n == [] || p == [] {
        return MissingField;
      }
      if !IsDigits(StripSeparators(p)) {
        return BadPhone;
      }
      var rows := Load();
      var taken := FindPhone(rows, p);
      if taken {
        return Duplicate;
      }
      Save(Contact(n, p, e));
      return Saved;
    }

    /** Lists every record, numbered from 1, or reports that there are none. */
    method View() returns (outcome: ListOutcome)
      requires Valid()
      modifies this
      ensures Valid() && fileExists && contacts == old(contacts)
      ensures outcome == ListingOf(contacts)
    {
      var rows := Load();
      if rows == [] {
        return NoContacts;
      }
      var entries := Enumerate(rows);
      assert entries == Numbered(rows);
      return Listing(entries);
    }

    /** Finds the records whose name, phone or email contains the query,
        ignoring case. A blank query is refused before the file is read. */
    method Search(query: string) returns (outcome: SearchOutcome)
      requires Valid()
      modifies this
      ensures Valid() && contacts == old(contacts)
      ensures fileExists == (old(fileExists) || NormalQuery(query) != [])
      ensures outcome == SearchResult(contacts, query)
    {
      var q := Lower(Trim(query));
      if q == [] {
        return EmptyQuery;
      }
      var rows := Load();
      var matches := [];
      for i := 0 to |rows|
        invariant matches == Matching(rows[..i], q)
      {
        var c := rows[i];
        assert rows[..i + 1][..i] == rows[..i];
        if Contains(Lower(c.name), q) || Contains(Lower(c.phone), q) || Contains(Lower(c.email), q) {
          matches := matches + [c];
        }
      }
      assert rows[..|rows|] == rows;
      if matches == [] {
        return NoMatches;
      }
      var entries := Enumerate(matches);
      assert entries == Numbered(matches);
      return Found(|matches|, entries);
    }
  }

  /** The duplicate scan of an add: walks the records in order and stops at
      the first whose trimmed phone is exactly `phone`. */
  method FindPhone(rows: seq<Contact>, phone: string) returns (taken: bool)
    ensures taken <==> exists k :: 0 <= k < |rows| && Trim(rows[k].phone) == phone
  {
    for i := 0 to |rows|
      invariant forall k :: 0 <= k < i ==> Trim(rows[k].phone) != phone
    {
      if Trim(rows[i].phone) == phone {
        return true;
      }
    }
    return false;
  }

  /** `enumerate(rows, start=1)`: pairs each record with its 1-based
      position. */
  method Enumerate(rows: seq<Contact>) returns (entries: seq<Entry>)
    ensures |entries| == |rows|
    ensures forall i :: 0 <= i < |rows| ==> entries[i].number == i + 1 && entries[i].contact == rows[i]
  {
    entries := [];
    for i := 0 to |rows|
      invariant |entries| == i
      invariant forall k :: 0 <= k < i ==> entries[k] == Entry(k + 1, rows[k])
    {
      entries := entries + [Entry(i + 1, rows[i])];
    }
  }
}
