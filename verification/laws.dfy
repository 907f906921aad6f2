/**
 * Properties of the contact book's rules: what each add outcome means in
 * terms of the raw inputs, the invariants an add keeps (earlier records,
 * phone uniqueness, well-formed records), and the exact characterisation of
 * search results and listings.
 */
module ContactLaws {
  import opened Text
  import opened Contacts

  /* ---------- Adding ---------- */

  /** Each outcome of an add, stated on the raw inputs. */
  lemma AddOutcomeCases(rows: seq<Contact>, name: string, phone: string, email: string)
    ensures var r := AddResult(rows, name, phone, email);
      && (r == MissingField <==>
            (forall k :: 0 <= k < |name| ==> IsSpace(name[k]))
            || (forall k :: 0 <= k < |phone| ==> IsSpace(phone[k])))
      && (r == BadPhone <==>
            r != MissingField
            && !((forall i :: 0 <= i < |Trim(phone)| ==> IsDigit(Trim(phone)[i]) || IsSeparator(Trim(phone)[i]))
                 && (exists i :: 0 <= i < |Trim(phone)| && IsDigit(Trim(phone)[i]))))
      && (r == Duplicate <==>
            r != MissingField && r != BadPhone
            && exists k :: 0 <= k < |rows| && Trim(rows[k].phone) == Trim(phone))
  {
    ValidPhoneIff(Trim(phone));
  }

  /** A rejected add leaves the store as it was; a successful one appends
      exactly the trimmed record and keeps every earlier record in place. */
  lemma AddAppendsOneRecord(rows: seq<Contact>, name: string, phone: string, email: string)
    ensures var after := AfterAdd(rows, name, phone, email);
      if AddResult(rows, name, phone, email) == Saved then
        |after| == |rows| + 1 && after[..|rows|] == rows
        && after[|rows|] == Contact(Trim(name), Trim(phone), Trim(email))
      else after == rows
  {
    var after := AfterAdd(rows, name, phone, email);
    if AddResult(rows, name, phone, email) == Saved {
      assert after[..|rows|] == rows;
    }
  }

  /** No two records share a trimmed phone. */
  ghost predicate PhonesUnique(rows: seq<Contact>) {
    forall i, j :: 0 <= i < j < |rows| ==> Trim(rows[i].phone) != Trim(rows[j].phone)
  }

  /** Whatever its outcome, an add keeps phones unique. */
  lemma AddPreservesUniquePhones(rows: seq<Contact>, name: string, phone: string, email: string)
    requires PhonesUnique(rows)
    ensures PhonesUnique(AfterAdd(rows, name, phone, email))
  {
    if AddResult(rows, name, phone, email) == Saved {
      var after := AfterAdd(rows, name, phone, email);
      TrimIdempotent(phone);
      forall i, j | 0 <= i < j < |after|
        ensures Trim(after[i].phone) != Trim(after[j].phone)
      {
        if j == |rows| {
          assert after[i] == rows[i];
          assert !PhoneTaken(rows, Trim(phone));
        } else {
          assert after[i] == rows[i] && after[j] == rows[j];
        }
      }
    }
  }

  /** The shape of every record a successful add writes: trimmed fields, a
      non-empty name and a valid phone. */
  ghost predicate WellFormed(c: Contact) {
    c.name == Trim(c.name) && c.name != []
    && c.phone == Trim(c.phone) && ValidPhone(c.phone)
    && c.email == Trim(c.email)
  }

  /** An add never stores a record with a blank name or phone, or a phone
      that fails the digit test. */
  lemma AddPreservesWellFormed(rows: seq<Contact>, name: string, phone: string, email: string)
    requires forall k :: 0 <= k < |rows| ==> WellFormed(rows[k])
    ensures var after := AfterAdd(rows, name, phone, email);
      forall k :: 0 <= k < |after| ==> WellFormed(after[k])
  {
    if AddResult(rows, name, phone, email) == Saved {
      TrimIdempotent(name);
      TrimIdempotent(phone);
      TrimIdempotent(email);
      ValidPhoneIff(Trim(phone));
      var after := AfterAdd(rows, name, phone, email);
      forall k | 0 <= k < |after| ensures WellFormed(after[k]) {
        if k < |rows| {
          assert after[k] == rows[k];
        } else {
          assert after[k] == Record(name, phone, email);
        }
      }
    }
  }

  /** One add as the menu would issue it. */
  datatype Request = Request(name: string, phone: string, email: string)

  /** The store after the adds of `reqs`, in order. */
  ghost function AddAll(rows: seq<Contact>, reqs: seq<Request>): seq<Contact>
    decreases |reqs|
  {
    if reqs == [] then rows
    else AddAll(AfterAdd(rows, reqs[0].name, reqs[0].phone, reqs[0].email), reqs[1..])
  }

  /** Any run of adds, starting from a store with unique phones, ends with
      unique phones; in particular every run starting from an empty file. */
  lemma {:induction false} AddAllPreservesUniquePhones(rows: seq<Contact>, reqs: seq<Request>)
    requires PhonesUnique(rows)
    ensures PhonesUnique(AddAll(rows, reqs))
    decreases |reqs|
  {
    if reqs != [] {
      AddPreservesUniquePhones(rows, reqs[0].name, reqs[0].phone, reqs[0].email);
      AddAllPreservesUniquePhones(AfterAdd(rows, reqs[0].name, reqs[0].phone, reqs[0].email), reqs[1..]);
    }
  }

  /** A run of adds only ever appends: the records present before it are an
      unchanged prefix afterwards. */
  lemma {:induction false} AddAllKeepsPrefix(rows: seq<Contact>, reqs: seq<Request>)
    ensures |rows| <= |AddAll(rows, reqs)| <= |rows| + |reqs|
    ensures AddAll(rows, reqs)[..|rows|] == rows
    decreases |reqs|
  {
    if reqs == [] {
      assert rows[..|rows|] == rows;
    } else {
      var next := AfterAdd(rows, reqs[0].name, reqs[0].phone, reqs[0].email);
      AddAppendsOneRecord(rows, reqs[0].name, reqs[0].phone, reqs[0].email);
      AddAllKeepsPrefix(next, reqs[1..]);
      var all := AddAll(next, reqs[1..]);
      assert AddAll(rows, reqs) == all;
      assert next[..|rows|] == rows;
      assert all[..|rows|] == all[..|next|][..|rows|];
    }
  }

  /* The two lemmas below take their example strings as parameters fixed by
     `requires`: written inline, the literals make the verifier unfold the
     separator removal character by character and run out of resources. */

  /** Both spellings of the same number pass the phone test. */
  lemma ExamplePhonesAreValid(stored: string, phone: string)
    requires stored == "+1 555-0100" && phone == "15550100"
    ensures ValidPhone(stored) && ValidPhone(phone)
    ensures Trim(stored) == stored && Trim(phone) == phone
  {
    ValidPhoneIff(stored);
    ValidPhoneIff(phone);
    assert IsDigit(stored[1]) && IsDigit(phone[0]);
    assert TrimStart(stored) == stored && TrimEnd(stored) == stored;
    assert TrimStart(phone) == phone && TrimEnd(phone) == phone;
  }

  /** The duplicate test compares trimmed phone strings, not their digits:
      with "+1 555-0100" stored, "15550100", a valid phone with the same
      digits, is still accepted. */
  lemma FormattedPhoneIsNotDuplicate(stored: string, phone: string)
    requires stored == "+1 555-0100" && phone == "15550100"
    ensures AddResult([Contact("Jane Doe", stored, "jane@x.com")], "John", phone, "") == Saved
  {
    ExamplePhonesAreValid(stored, phone);
  }

  /* ---------- Searching ---------- */

  /** A record is in the results exactly when it is stored and matches. */
  lemma {:induction false} MatchingMembers(rows: seq<Contact>, q: string, c: Contact)
    ensures c in Matching(rows, q) <==> c in rows && Matches(c, q)
    decreases |rows|
  {
    if rows != [] {
      var init := rows[..|rows| - 1];
      MatchingMembers(init, q, c);
      assert rows == init + [rows[|rows| - 1]];
    }
  }

  /** `sub` is `s` read at the strictly increasing positions `idx`. */
  ghost predicate InOrderAt<T>(sub: seq<T>, s: seq<T>, idx: seq<nat>) {
    |idx| == |sub|
    && (forall k :: 0 <= k < |idx| ==> idx[k] < |s| && sub[k] == s[idx[k]])
    && (forall k, l :: 0 <= k < l < |idx| ==> idx[k] < idx[l])
  }

  /** The results are the stored records at exactly the matching positions,
      in store order. */
  lemma {:induction false} MatchingInStoreOrder(rows: seq<Contact>, q: string)
    ensures InOrderAt(Matching(rows, q), rows, MatchIndices(rows, q))
    ensures forall i :: 0 <= i < |rows| ==> (i in MatchIndices(rows, q) <==> Matches(rows[i], q))
    decreases |rows|
  {
    if rows != [] {
      var n := |rows| - 1;
      var init := rows[..n];
      MatchingInStoreOrder(init, q);
      var idx := MatchIndices(init, q);
      forall i | 0 <= i < |rows|
        ensures i in MatchIndices(rows, q) <==> Matches(rows[i], q)
      {
        if i < n {
          assert rows[i] == init[i];
        } else {
          assert n !in idx;
        }
      }
    }
  }

  /** What a search reports, on the raw query. */
  lemma SearchOutcomeCases(rows: seq<Contact>, query: string)
    ensures var r, q := SearchResult(rows, query), NormalQuery(query);
      && (r == EmptyQuery <==> forall k :: 0 <= k < |query| ==> IsSpace(query[k]))
      && (r == NoMatches <==> q != [] && forall c :: c in rows ==> !Matches(c, q))
      && (r.Found? ==>
            r.count == |r.entries| > 0
            && forall i :: 0 <= i < |r.entries| ==>
                 r.entries[i].number == i + 1 && r.entries[i].contact in rows
                 && Matches(r.entries[i].contact, q))
  {
    var q := NormalQuery(query);
    var m := Matching(rows, q);
    if m == [] {
      forall c | c in rows ensures !Matches(c, q) {
        MatchingMembers(rows, q, c);
      }
    } else {
      forall c | c in m ensures c in rows && Matches(c, q) {
        MatchingMembers(rows, q, c);
      }
      assert Matches(m[0], q) && m[0] in rows;
    }
  }

  /** A contact just saved is found again by searching for its phone. */
  lemma SavedContactIsFoundByPhone(rows: seq<Contact>, name: string, phone: string, email: string)
    requires AddResult(rows, name, phone, email) == Saved
    ensures var after := AfterAdd(rows, name, phone, email);
      SearchResult(after, phone).Found?
      && Record(name, phone, email) in Matching(after, NormalQuery(phone))
  {
    var after := AfterAdd(rows, name, phone, email);
    var c := Record(name, phone, email);
    var q := NormalQuery(phone);
    ContainsSelf(q);
    assert Matches(c, q);
    MatchingMembers(after, q, c);
  }

  /* ---------- Listing ---------- */

  /** An empty store lists as "no contacts"; otherwise entry i is the i-th
      record, numbered i + 1. */
  lemma ListingNumbersStoreOrder(rows: seq<Contact>)
    ensures ListingOf(rows) == NoContacts <==> rows == []
    ensures ListingOf(rows).Listing? ==>
      var es := ListingOf(rows).entries;
      |es| == |rows| && forall i :: 0 <= i < |rows| ==> es[i] == Entry(i + 1, rows[i])
  {
  }
}
