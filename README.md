# Client manager record store, in Dafny

`Program/client_manager.py` is a menu-driven contact manager. It keeps client records
(name, company, email, phone) in `clients.csv`. This project models the record store
under its console and CSV glue, and proves what each operation does to the stored
records:

- bootstrap creates a missing file with only the header;
- load returns the rows in file order, or nothing when the file is missing;
- save rewrites the whole file;
- add appends one row;
- search filters by a case-insensitive substring of the name;
- delete shows the first exact-name match but removes every record of that name.

Layout:

- `text.dfy`, module `Text`: ASCII models of `str.strip()`, `str.lower()` and the
  substring test `needle in hay`, with their properties.
- `sequences.dfy`, module `Sequences`: the list comprehension `[x for x in s if p(x)]` as
  `Filter`, with order preservation (`IsSubsequence`), counting and a uniqueness theorem.
- `clients.dfy`, module `Clients`: the `Record` datatype, the search filter (`Matches`),
  the delete filter (`Remaining`), and the first-match scan of `delete_client`. The scan is
  an imperative loop (`FindFirstNamed`) proved equal to a recursive specification
  (`FirstNamed`).
- `store.dfy`, module `Store`: class `ClientStore`. Its fields are `present` (the file
  exists) and `records` (its data rows in order). Its methods are the seven operations
  (`Bootstrap`, `Load`, `Save`, `Add`, `View`, `Search`, `Delete`) and one pass of the
  menu loop (`Step`). Each returns a value for the message the source prints: `Bootstrap`
  says whether it created the file, the four menu operations return an outcome datatype,
  and `Step` returns the outcome of the operation it ran, the goodbye of choice "5" or the
  invalid-choice message.

Console answers are method parameters. So is `writable`, which says whether the file can
be opened for writing during that call. A write failure is modelled as "error reported,
store unchanged".

`delete_client` prints "Client deleted successfully." even when `save_clients` failed,
because `save_clients` catches the `IOError`, prints its message and returns normally.
The model keeps this: the outcome is `Deleted(shown, saved)` with `saved == false`, and
the records are unchanged.

The code reads names as `.strip().lower()`. `Text.LowerStripCommute` proves that this
equals lower-casing first and then stripping, for ASCII.

## Model

| member | source | states |
|---|---|---|
| `Text.Strip` | Program/client_manager.py:76-82 | the stripped string has no whitespace at either end, and it is empty exactly when the input is all whitespace (the "empty name" test of add) |
| `Text.StripIsSlice` | Program/client_manager.py:76-79 | strip returns a contiguous slice of its input with only whitespace before and after it |
| `Text.StripIdempotent` | Program/client_manager.py:210 | stripping an already stripped string changes nothing |
| `Text.TrimStart` | Program/client_manager.py:76 | the result does not start with whitespace and everything dropped from the front is whitespace; `TrimStartIsSuffix` adds that it is a suffix of the input |
| `Text.TrimEnd` | Program/client_manager.py:76 | the result does not end with whitespace and everything dropped from the back is whitespace; `TrimEndIsPrefix` adds that it is a prefix of the input |
| `Text.LowerIsFolded` | Program/client_manager.py:137 | lower-casing an already lower-cased string changes nothing |
| `Text.LowerIgnoresCase` | Program/client_manager.py:123-125 | two strings fold to the same string if and only if they differ at most in the case of their ASCII letters |
| `Text.LowerStripCommute` | Program/client_manager.py:155 | `.strip().lower()` equals lower-casing then stripping |
| `Text.Contains` | Program/client_manager.py:137 | defining predicate of `search_name in client['name'].lower()`: the empty query occurs in every name, and a query that occurs is no longer than the name; `Text.ContainsIff` proves it equal to the existential substring definition |
| `Sequences.Filter` | Program/client_manager.py:137 | defining function of the list comprehensions with a condition (also line 181): no longer than its input, every kept element is in the input and passes, and every passing element is kept; `FilterIsSubsequence`, `FilterLength` and `FilterUnique` add order and count and show these determine it |
| `Text.ContainsIff` | Program/client_manager.py:137 | `query in name` holds exactly when some suffix of the name starts with the query |
| `Sequences.FilterIsSubsequence` | Program/client_manager.py:137 | a list comprehension with a condition keeps its elements in their original order |
| `Sequences.FilterLength` | Program/client_manager.py:181 | the comprehension keeps exactly as many elements as satisfy the condition |
| `Sequences.FilterUnique` | Program/client_manager.py:181 | an order-preserving subsequence of passing elements that is as long as the number of passing elements is the comprehension's result |
| `Sequences.FilterAppend` | Program/client_manager.py:137 | filtering a concatenation is concatenating the filters |
| `Sequences.FilterIdempotent` | Program/client_manager.py:181 | filtering twice by the same condition is filtering once |
| `Clients.FirstNamedIndex` | Program/client_manager.py:164-168 | the index found is the first one whose lower-cased name equals the key, or the list length when there is none |
| `Clients.FindFirstNamed` | Program/client_manager.py:164-168 | the loop with `break` returns exactly the first record whose lower-cased name equals the key, or nothing |
| `Clients.FoundIffNamed` | Program/client_manager.py:170 | a candidate is found exactly when at least one record carries the name, and the candidate is one of the loaded records |
| `Clients.MatchesSpec` | Program/client_manager.py:137 | search hits form an order-preserving subsequence of the store; every hit contains the query; no record that contains it is omitted; the number of hits equals the number of such records |
| `Clients.MatchesAppend` | Program/client_manager.py:137 | searching a store with one record appended gives the old hits, then the new record if it is a hit |
| `Clients.RemainingSpec` | Program/client_manager.py:181 | after a confirmed delete the list is an order-preserving subsequence of the store; no record of that name remains; every record with another name survives; the length drops by the number of records of that name |
| `Clients.RemainingUnique` | Program/client_manager.py:181 | any list with the three properties of RemainingSpec is exactly the delete filter's result |
| `Clients.RemovesAllNamesakes` | Program/client_manager.py:164-183 | when a candidate was shown, a confirmed delete removes at least one record, the shown record among them, and leaves no record that a second delete could find |
| `Clients.RemainingIdempotent` | Program/client_manager.py:181 | deleting the same name a second time removes nothing more |
| `Clients.DeleteShowsOneRemovesTwo` | Program/client_manager.py:164-183 | on a concrete store with "Alice" and "ALICE", the prompt shows only the first record, yet the rewrite removes both |
| `Text.Lower` | Program/client_manager.py:137 | defining function of `str.lower()`: same length, every upper-case ASCII letter replaced by the lower-case letter at the same place in the alphabet, every other character kept in place; `LowerIsFolded` adds idempotence and `LowerIgnoresCase` that it forgets exactly the case |
| `Clients.NameKey` | Program/client_manager.py:137 | defining function of `client['name'].lower()` (also lines 166 and 181): no upper-case letter, and equal to the stored name up to case; `Text.LowerIgnoresCase` shows two names have the same key exactly when they differ only in case |
| `Store.DeleteConfirmed` | Program/client_manager.py:155-183 | defining predicate of the path to the rewrite: a non-empty name, a record carrying it, and the answer "y"; it implies that the stripped answer was "y" or "Y" and that the rewrite removes at least one record; `Store.DeleteReport` reports "deleted" exactly when it holds |
| `Store.YesAnswer` | Program/client_manager.py:178-179 | the only answers that read as "y" are "y" and "Y", up to surrounding whitespace |
| `Clients.Matches` | Program/client_manager.py:137 | defining function of search's `found_clients`: no longer than the store, every hit is a stored record containing the query, and no such record is missing; `MatchesSpec` adds order and count |
| `Clients.Remaining` | Program/client_manager.py:181 | defining function of delete's `updated_clients`: no longer than the store, no record of that name is left, and every record with another name is kept; `RemainingSpec` adds order and count, `RemainingUnique` that these properties determine it |
| `Clients.FirstNamed` | Program/client_manager.py:164-170 | defining function of `client_to_delete`: nothing exactly when no record carries the name; otherwise a stored record carrying it; `FirstNamedIndex` makes it the first one and `FindFirstNamed` is the loop that computes it |
| `Store.Key` | Program/client_manager.py:128 | defining function of `input(...).strip().lower()` (also lines 155 and 178): empty exactly when the answer is all whitespace, no upper-case letter, no whitespace at either end; `Text.LowerStripCommute` shows the order of the two calls does not matter |
| `Store.NewRecord` | Program/client_manager.py:87 | defining function of the record add builds: its name is empty exactly when the name answer is all whitespace, and every field is already stripped; `Store.ClientStore.Add` appends it and `Store.AddedRecordIsFound` finds it |
| `Store.Dispatch` | Program/client_manager.py:210-225 | defining function of the menu choice: exit exactly on the stripped input "5", and any valid choice is one character after stripping; `Store.DispatchSpec` states the full case split |
| `Store.ChoiceOf` | Program/client_manager.py:212-225 | defining function of the if/elif chain: add exactly for "1", view exactly for "2", search exactly for "3", delete exactly for "4", exit exactly for "5", and invalid for every other input; `Store.DispatchSpec` lifts this to the raw input |
| `Store.DispatchSpec` | Program/client_manager.py:210-225 | the stripped input "1", "2", "3" or "4" selects add, view, search or delete, and only that input does; only "5" ends the loop; anything other than "1" to "5" is an invalid choice; surrounding whitespace does not change the choice |
| `Store.AddReport` | Program/client_manager.py:81-97 | what add reports: the empty-name refusal exactly when the name answer is all whitespace, the write error only when the file cannot be written, success only when it can; `Store.ClientStore.Add` returns it |
| `Store.DeleteReport` | Program/client_manager.py:155-186 | what delete reports: the empty-name refusal exactly when the name answer is all whitespace, "not found" exactly when the name is non-empty and no record carries it, "cancelled" exactly when a record was found and the answer is not "y", "deleted" exactly when a record was found and the answer is "y", with `saved` telling whether the rewrite succeeded, and any shown record is the first match; `Store.ClientStore.Delete` returns it |
| `Clients.MatchesIgnoreCase` | Program/client_manager.py:123-137 | two queries that differ only in case find the same records once folded |
| `Store.KeyIgnoresCase` | Program/client_manager.py:128 | answers that differ at most in case read as the same key (also lines 155 and 178) |
| `Store.DeleteMatchIgnoresCase` | Program/client_manager.py:149-166 | a record is a delete candidate for a name answer exactly when its name differs from the stripped answer at most in case |
| `Store.ClientStore.Bootstrap` | Program/client_manager.py:16-33 | a missing file becomes present with zero records and the "created" message is reported exactly then; an existing file keeps its records, so a second call changes nothing |
| `Store.ClientStore.Load` | Program/client_manager.py:35-51 | an existing file yields its records in stored order; a missing file yields the empty list, not an error |
| `Store.ClientStore.Save` | Program/client_manager.py:53-67 | on success the file holds exactly the given records in the given order (so a later load returns them); on a write error nothing changes and the failure is reported |
| `Store.ClientStore.Add` | Program/client_manager.py:69-97 | reports what `AddReport` states; an empty name after stripping is refused and nothing changes; otherwise exactly one record of the four stripped fields is appended at the end, with no duplicate check; on a write error nothing changes |
| `Store.ClientStore.View` | Program/client_manager.py:100-120 | lists every record in file order, reports "no clients" exactly when there are none, and does not change the store |
| `Store.ClientStore.Search` | Program/client_manager.py:122-147 | an empty query is refused; otherwise the hits are the order-preserving subsequence of records whose lower-cased name contains the lower-cased query, none omitted; "no match" is reported exactly when there are no hits; the store never changes |
| `Store.ClientStore.Delete` | Program/client_manager.py:149-186 | reports what `DeleteReport` states; an empty name, an unmatched name or an answer other than "y" leaves the store unchanged; otherwise the first match is shown and the store becomes the delete filter of the old store, removing every record of that name |
| `Store.ClientStore.Step` | Program/client_manager.py:208-225 | one pass of the menu: "1" to "4" report what add, view, search and delete report; "1" appends as add does, "4" filters as delete does, every other choice leaves the records unchanged; "5" reports the goodbye and is the only choice that stops the loop; any other input reports an invalid choice |
| `Store.SearchAliceExample` | Program/client_manager.py:128-137 | with " Alice " added to an empty store, the queries "alice" and "ALI" find it and "bob" finds nothing |
| `Store.AddedRecordIsFound` | Program/client_manager.py:87-94 | a record just added is found by any non-empty query that occurs in its lower-cased stripped name, after the hits that were already there |

## Left out

- File I/O and the `csv` module: quoting, encoding, newlines and the header row are abstracted into the `present` and `records` fields. That a later load returns what save wrote is taken as the store's abstract behaviour, not proved about CSV text.
- Console `input`/`print` and the fixed-width tables of `view_clients` and `search_client` (lines 114-120, 144-147): answers are parameters and printed messages are outcome values.
- Store.ClientStore.Add: requires an existing file. `main` always calls `initialize_data_file` first (line 205), and nothing deletes the file. Appending to a missing file would create a file without a header, which `csv.DictReader` would read wrongly; that is not modelled.
- Store.ClientStore.Bootstrap: does not model a failure to create the file. The source does not catch that error, so the program would stop.
- Store.ClientStore.Load: does not model read errors other than a missing file. The source does not catch them.
- Store.ClientStore.Save: does not model a write that fails part-way and leaves a truncated file. A failure means the file could not be opened, so nothing changes.
- `str.strip()` and `str.lower()` are modelled on ASCII only: whitespace is space, 9-13 and 28-31, and case folding maps `A`-`Z` to `a`-`z`. Full Unicode is not modelled.
- Rows with missing columns are not modelled; every record here has four strings. `name` is the first column and `csv.DictReader` skips empty lines, so a short row always has a name, and the `.lower()` calls of lines 137, 166 and 181 never see `None`. Such a row has `None` for company, email or phone instead. The table rows of lines 120 and 147 then raise `TypeError`, because `None` does not accept a width format. The delete prompt of line 175 just prints "None".
- Rows with extra columns are not modelled either. `csv.DictReader` stores the surplus values under the key `None`. A later `save_clients` then raises `ValueError` in `writerows` (line 64). That is not an `IOError`, so it is not caught and the program stops. By then `open(..., 'w')` has already truncated the file, which keeps only the header and the rows written before the failing one.
- The endless `while True` loop and the "Press Enter to continue" pause (lines 208-227): only one pass of the loop is modelled (`Step`).
- Email and phone validation is only suggested in a closing comment (line 238). The source does not implement it, so it is not modelled.
