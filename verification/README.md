# Contact book model

A Dafny model of the core of a small terminal contact book (`contact_book.py`).
The program keeps contacts, each a name, a phone and an optional email, as rows
of a CSV file with a `name,phone,email` header. It offers three operations:

- **Add** trims its three inputs and rejects the contact in this order: a blank
  name or phone; a phone that is not a non-empty run of digits once `+`, `-`
  and spaces are removed; a phone whose trimmed text equals the trimmed phone
  of a stored record. Otherwise it appends one row.
- **View** lists every record numbered from 1, or reports that there are none.
- **Search** trims and lower-cases the query, refuses a blank one, and returns
  every record whose lower-cased name, phone or email contains it, in file
  order and numbered from 1.

The file is modelled by the class `Contacts.ContactBook`. It has a flag
`fileExists`, meaning the file and its header row exist, and a sequence
`contacts` holding the rows after the header in file order. `EnsureFile`,
`Load` and `Save` are the storage helpers. `Add`, `View` and `Search` are the
three operations. Each operation's outcome is a datatype:
`Saved | MissingField | BadPhone | Duplicate`, `NoContacts | Listing(entries)`
and `EmptyQuery | NoMatches | Found(count, entries)`.

The methods are proved against specification functions (`AddResult`,
`AfterAdd`, `ListingOf`, `SearchResult`). Module `ContactLaws` proves what
those functions mean.

Python's string built-ins are modelled in module `Text` over ASCII:
- `strip` removes space, tab, line feed, carriage return, vertical tab, form
  feed and U+001C..U+001F;
- `lower` maps `A`..`Z` to `a`..`z`;
- `isdigit` accepts `0`..`9` and is false on the empty string;
- `in` is substring containment, and the empty string occurs in every string.

The duplicate check compares trimmed phone strings exactly, while validation
looks at the separator-free digits. So `+1 555-0100` and `15550100` are both
accepted as different contacts; `ContactLaws.FormattedPhoneIsNotDuplicate`
shows this.

The code catches no exception, so a failed file operation ends the program;
file I/O is outside this model.

## Model

| member | source | states |
|---|---|---|
| `Text.TrimStart` | contact_book.py:30-32 | every dropped leading character is whitespace and the result does not start with whitespace |
| `Text.TrimEnd` | contact_book.py:30-32 | every dropped trailing character is whitespace and the result does not end with whitespace |
| `Text.TrimStartIsSuffix` | contact_book.py:30-32 | what the leading trim keeps is a suffix of the input |
| `Text.TrimEndIsPrefix` | contact_book.py:30-32 | what the trailing trim keeps is a prefix of the input |
| `Text.Trim` | contact_book.py:30-32 | `strip()` is empty exactly when the input is all whitespace; otherwise it starts and ends with non-whitespace and is never longer than the input; `TrimIsMiddle` adds that it is the input's middle slice |
| `Text.TrimIsMiddle` | contact_book.py:30-32 | `strip()` returns a slice of its input with only whitespace before and after it, so the inner text is kept as it was |
| `Text.TrimIdempotent` | contact_book.py:46 | stripping a stripped string changes nothing, so a stored phone strips to itself |
| `Text.Lower` | contact_book.py:65 | `lower()` keeps the length and leaves no upper-case ASCII letter |
| `Text.RemoveAll` | contact_book.py:39 | `replace(x, "")` leaves no `x` and never lengthens the string |
| `Text.RemoveAllCounts` | contact_book.py:39 | `replace(x, "")` keeps every other character exactly as many times as it occurred |
| `Text.RemoveAllMembers` | contact_book.py:39 | a character survives `replace(x, "")` exactly when it occurs and is not `x` |
| `Text.StripSeparatorsMembers` | contact_book.py:39 | a character survives removing `+`, `-` and space exactly when it occurs in the phone and is not one of them |
| `Text.ValidPhoneIff` | contact_book.py:39-41 | the phone passes exactly when every character is a digit, `+`, `-` or space and at least one is a digit |
| `Text.ValidPhone` | contact_book.py:39 | a phone that passes the test is never empty; `ValidPhoneIff` gives the exact condition |
| `Text.Contains` | contact_book.py:73-75 | a string containing the needle is at least as long as it, and the empty needle occurs in every string |
| `Text.ContainsIff` | contact_book.py:73-75 | `q in s` holds exactly when some suffix of `s` starts with `q` |
| `Text.ContainsSelf` | contact_book.py:73-75 | every string contains itself |
| `Contacts.AddResult` | contact_book.py:34-48 | a duplicate needs a stored record; an add that reaches the duplicate scan has a non-blank name and a valid trimmed phone; `AddOutcomeCases` characterises every outcome |
| `Contacts.Matching` | contact_book.py:71-76 | the matches are never more than the records; `MatchingMembers` and `MatchingInStoreOrder` say exactly which records they are |
| `Contacts.SearchResult` | contact_book.py:65-84 | a found result's count equals its number of entries, is positive and at most the number of records; `SearchOutcomeCases` characterises every outcome |
| `Contacts.ContactBook.constructor` | contact_book.py:7-12 | a book over an absent file holds no records |
| `Contacts.ContactBook.EnsureFile` | contact_book.py:7-12 | afterwards the file exists and the records are unchanged; if it already existed nothing changes, so calling it again is a no-op |
| `Contacts.ContactBook.Load` | contact_book.py:14-19 | ensures the file exists and returns all records in file order, changing none |
| `Contacts.ContactBook.Save` | contact_book.py:21-26 | ensures the file exists and appends exactly the given record at the end |
| `Contacts.ContactBook.Add` | contact_book.py:28-52 | reports `AddResult` of the old records; the records become `AfterAdd`; the file is created only when the duplicate scan is reached |
| `Contacts.FindPhone` | contact_book.py:44-48 | the scan reports a duplicate exactly when some stored record's trimmed phone equals the new trimmed phone |
| `Contacts.ContactBook.View` | contact_book.py:54-61 | returns `ListingOf` the unchanged records and leaves the file in existence |
| `Contacts.Enumerate` | contact_book.py:60-61 | entry i carries number i + 1 and the i-th record, for every record |
| `Contacts.ContactBook.Search` | contact_book.py:63-84 | returns `SearchResult` of the unchanged records; a blank query does not touch the file |
| `ContactLaws.AddOutcomeCases` | contact_book.py:34-48 | missing field exactly when name or phone is all whitespace; bad phone exactly when the trimmed phone has a character other than a digit or separator, or no digit; duplicate exactly when the first two checks pass and a stored trimmed phone equals the trimmed phone |
| `ContactLaws.AddAppendsOneRecord` | contact_book.py:50-51 | a rejected add leaves the records unchanged; a saved one appends exactly the trimmed record and keeps all earlier records in place |
| `ContactLaws.AddPreservesUniquePhones` | contact_book.py:43-51 | if no two records share a trimmed phone before an add, none do after it, whatever the outcome |
| `ContactLaws.AddPreservesWellFormed` | contact_book.py:34-51 | if every record has trimmed fields, a non-blank name and a valid phone, so does every record after an add |
| `ContactLaws.AddAllPreservesUniquePhones` | contact_book.py:43-51 | any run of adds keeps trimmed phones unique, in particular from an empty file |
| `ContactLaws.AddAllKeepsPrefix` | contact_book.py:21-26 | a run of n adds only appends, at most n records, and leaves the earlier records as an unchanged prefix |
| `ContactLaws.ExamplePhonesAreValid` | contact_book.py:39 | `+1 555-0100` and `15550100` both pass the phone test and are already trimmed |
| `ContactLaws.FormattedPhoneIsNotDuplicate` | contact_book.py:39-48 | with `+1 555-0100` stored, adding `15550100` is saved, not refused as a duplicate |
| `ContactLaws.MatchingMembers` | contact_book.py:71-76 | a record is among the matches exactly when it is stored and the query occurs in its lower-cased name, phone or email |
| `ContactLaws.MatchingInStoreOrder` | contact_book.py:71-76 | the matches are the stored records at exactly the matching positions, read in increasing position order |
| `ContactLaws.SearchOutcomeCases` | contact_book.py:65-84 | empty query exactly when the query is all whitespace; no matches exactly when it is not and no record matches; otherwise the count equals the number of entries, which are numbered from 1 and are stored, matching records |
| `ContactLaws.SavedContactIsFoundByPhone` | contact_book.py:72-76 | after a saved add, searching for the same phone finds the new record |
| `ContactLaws.ListingNumbersStoreOrder` | contact_book.py:56-61 | the listing is the empty report exactly when there are no records; otherwise entry i is the i-th record numbered i + 1 |

## Left out

- The menu loop, prompts and printed messages (contact_book.py:86-109 and the `input`/`print` calls). Inputs are method parameters and messages are outcome values.
- The text of a printed line (`1. name | phone | email`). An entry carries its number and its record, but the line is not rendered.
- Opening, reading and appending the real file, and the file name. The file is the `fileExists` flag plus the `contacts` sequence. Failures of the file system are not modelled.
- CSV quoting and parsing by Python's `csv` module: the file holds records, not text, so there is no encode/decode round trip to prove. Rows that are short or malformed when read back, with a missing field, are not modelled.
- Non-ASCII behaviour of `strip`, `lower` and `isdigit`: for example U+00A0 counts as whitespace in Python, and Unicode digits such as `²` pass `isdigit`. The model uses the ASCII sets above.
- `Text.Lower`: states only that the length is kept and no ASCII capital remains. The exact letter-by-letter mapping is the function's definition.
