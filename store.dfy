/** The file-backed client store of client_manager.py and the operations of its menu.
    The CSV file is abstracted to whether it exists and the records its data rows hold;
    console answers and whether the file can be opened for writing are parameters. */
module Store {
  import opened Text
  import opened Sequences
  import opened Clients

  /** What add_client reports. */
  datatype AddOutcome = NameMissing | Added | AddWriteError

  /** What view_clients reports. */
  datatype ViewOutcome = NoClients | Listed(count: nat)

  /** What search_client reports: an empty query, no hit, or the number of hits. */
  datatype SearchOutcome = QueryMissing | NoMatch | Found(count: nat)

  /** What delete_client reports. `Deleted` is reported whether or not the rewrite
      succeeded (`saved`), because save_clients only prints its error and returns. */
  datatype DeleteOutcome =
    | DeleteNameMissing
    | NotFound
    | Cancelled(shown: Record)
    | Deleted(shown: Record, saved: bool)

  /** What one pass of main's loop reports: the outcome of the operation it ran, the
      goodbye of choice "5", or the invalid-choice message. */
  datatype StepOutcome =
    | AddDone(add: AddOutcome)
    | ViewDone(listed: seq<Record>, view: ViewOutcome)
    | SearchDone(found: seq<Record>, search: SearchOutcome)
    | DeleteDone(delete: DeleteOutcome)
    | Exiting
    | InvalidInput

  /** The menu entries of main. */
  datatype Choice = AddChoice | ViewChoice | SearchChoice | DeleteChoice | ExitChoice | InvalidChoice

  /** Everything one pass of the menu loop may read from the console, and whether the
      file can be opened for writing during that pass. */
  datatype Answers = Answers(
    name: string, company: string, email: string, phone: string,
    query: string, confirm: string, writable: bool)

  /** `input(...).strip().lower()`: how search and delete read a name, and how delete
      reads its confirmation. */
  function Key(raw: string): (key: string)
    ensures key == [] <==> forall k :: 0 <= k < |raw| ==> IsSpace(raw[k])
    ensures forall i :: 0 <= i < |key| ==> !IsUpper(key[i])
    ensures key != [] ==> !IsSpace(key[0]) && !IsSpace(key[|key| - 1])
  {
    LowerStripCommute(raw);
    Lower(Strip(raw))
  }

  /** The record add_client builds from its four answers, each stripped: its name is empty
      exactly when the name answer is all whitespace, and stripping its fields again
      changes nothing. */
  function NewRecord(name: string, company: string, email: string, phone: string): (r: Record)
    ensures r.name == [] <==> forall k :: 0 <= k < |name| ==> IsSpace(name[k])
    ensures Strip(r.name) == r.name && Strip(r.company) == r.company
    ensures Strip(r.email) == r.email && Strip(r.phone) == r.phone
  {
    StripIdempotent(name);
    StripIdempotent(company);
    StripIdempotent(email);
    StripIdempotent(phone);
    Record(Strip(name), Strip(company), Strip(email), Strip(phone))
  }

  /** delete_client reaches the rewrite: a non-empty name, a record carrying it, and the
      answer "y". The answer was then "y" or "Y" up to surrounding whitespace, and the
      rewrite removes at least one record. */
  predicate DeleteConfirmed(clients: seq<Record>, rawName: string, rawConfirm: string)
    ensures DeleteConfirmed(clients, rawName, rawConfirm) ==>
              Strip(rawConfirm) == "y" || Strip(rawConfirm) == "Y"
    ensures DeleteConfirmed(clients, rawName, rawConfirm) ==>
              |Remaining(clients, Key(rawName))| < |clients|
  {
    var key := Key(rawName);
    if key != [] && FirstNamed(clients, key).Some? && Key(rawConfirm) == "y" then
      RemovesAllNamesakes(clients, key);
      YesAnswer(rawConfirm);
      true
    else
      false
  }

  /** The only answers that read as "y" are "y" and "Y", up to surrounding whitespace. */
  lemma YesAnswer(raw: string)
    requires Key(raw) == "y"
    ensures Strip(raw) == "y" || Strip(raw) == "Y"
  {
    var s := Strip(raw);
    assert |s| == 1 && Lower(s)[0] == 'y';
    assert s == [s[0]];
  }

  /** The menu choice for one line of input, after `.strip()`. */
  function Dispatch(raw: string): (choice: Choice)
    ensures choice == ExitChoice <==> Strip(raw) == "5"
    ensures choice != InvalidChoice ==> |Strip(raw)| == 1
  {
    ChoiceOf(Strip(raw))
  }

  /** The if/elif chain of main on the stripped input: "1" to "5" pick the five entries and
      every other input is invalid. */
  function ChoiceOf(c: string): (choice: Choice)
    ensures choice == InvalidChoice <==> c !in ["1", "2", "3", "4", "5"]
    ensures choice == AddChoice <==> c == "1"
    ensures choice == ViewChoice <==> c == "2"
    ensures choice == SearchChoice <==> c == "3"
    ensures choice == DeleteChoice <==> c == "4"
    ensures choice == ExitChoice <==> c == "5"
  {
    if c == "1" then AddChoice
    else if c == "2" then ViewChoice
    else if c == "3" then SearchChoice
    else if c == "4" then DeleteChoice
    else if c == "5" then ExitChoice
    else InvalidChoice
  }

  /** The full case split of main's menu: "1" to "4" run add, view, search and delete,
      only "5" ends the loop, everything else is invalid, and surrounding whitespace does
      not change the choice. */
  lemma DispatchSpec(raw: string)
    ensures Dispatch(raw) == AddChoice <==> Strip(raw) == "1"
    ensures Dispatch(raw) == ViewChoice <==> Strip(raw) == "2"
    ensures Dispatch(raw) == SearchChoice <==> Strip(raw) == "3"
    ensures Dispatch(raw) == DeleteChoice <==> Strip(raw) == "4"
    ensures Dispatch(raw) == ExitChoice <==> Strip(raw) == "5"
    ensures Dispatch(raw) == InvalidChoice <==> Strip(raw) !in ["1", "2", "3", "4", "5"]
    ensures Dispatch(Strip(raw)) == Dispatch(raw)
  {
    StripIdempotent(raw);
  }

  /** What add_client reports for the given answers: the empty-name refusal exactly when
      the name answer is all whitespace, and the write error only when the file cannot be
      written. */
  function AddReport(name: string, writable: bool): (outcome: AddOutcome)
    ensures outcome == NameMissing <==> forall k :: 0 <= k < |name| ==> IsSpace(name[k])
    ensures outcome == AddWriteError ==> !writable
    ensures outcome == Added ==> writable
  {
    if Strip(name) == [] then NameMissing else if writable then Added else AddWriteError
  }

  /** What delete_client reports for the given answers on the given records: the
      empty-name refusal exactly when the name answer is all whitespace, "deleted" exactly
      when the delete is confirmed, and a shown record that is always the first match. */
  function DeleteReport(clients: seq<Record>, rawName: string, rawConfirm: string, writable: bool)
    : (outcome: DeleteOutcome)
    ensures outcome == DeleteNameMissing <==> forall k :: 0 <= k < |rawName| ==> IsSpace(rawName[k])
    ensures outcome.Deleted? <==> DeleteConfirmed(clients, rawName, rawConfirm)
    ensures outcome.Deleted? ==> outcome.saved == writable
    ensures outcome == NotFound <==> Key(rawName) != [] && FirstNamed(clients, Key(rawName)).None?
    ensures outcome.Cancelled? <==>
              Key(rawName) != [] && FirstNamed(clients, Key(rawName)).Some? && Key(rawConfirm) != "y"
    ensures outcome.Deleted? || outcome.Cancelled? ==>
              FirstNamed(clients, Key(rawName)) == Some(outcome.shown)
  {
    var key := Key(rawName);
    if key == [] then DeleteNameMissing
    else match FirstNamed(clients, key)
      case None => NotFound
      case Some(shown) => if Key(rawConfirm) == "y" then Deleted(shown, writable) else Cancelled(shown)
  }

  class ClientStore {
    /** Whether the data file exists. */
    var present: bool
    /** The data rows of the file, in file order. */
    var records: seq<Record>

    /** A missing file holds no records. */
    ghost predicate Valid()
      reads this
    {
      !present ==> records == []
    }

    constructor (present: bool, records: seq<Record>)
      requires present || records == []
      ensures Valid() && this.present == present && this.records == records
    {
      this.present := present;
      this.records := records;
    }

    /** initialize_data_file: a missing file is created holding only the header; an
        existing file is left alone. A second call therefore changes nothing. `created`
        says whether the "file created" message is printed. */
    method Bootstrap() returns (created: bool)
      requires Valid()
      modifies this
      ensures Valid() && present
      ensures created == !old(present)
      ensures !old(present) ==> records == []
      ensures old(present) ==> records == old(records)
    {
      created := !present;
      if !present {
        present := true;
        records := [];
      }
    }

    /** load_clients: every record in file order, and no records (not an error) when the
        file is missing. */
    method Load() returns (clients: seq<Record>)
      requires Valid()
      ensures present ==> clients == records
      ensures !present ==> clients == []
    {
      if present {
        clients := records;
      } else {
        clients := [];
      }
    }

    /** save_clients: the file is rewritten to hold exactly `clients`, in order; when it
        cannot be opened for writing the error is reported and nothing changes. */
    method Save(clients: seq<Record>, writable: bool) returns (saved: bool)
      requires Valid()
      modifies this
      ensures Valid() && saved == writable
      ensures writable ==> present && records == clients
      ensures !writable ==> present == old(present) && records == old(records)
    {
      saved := writable;
      if writable {
        present := true;
        records := clients;
      }
    }

    /** add_client: an empty name after stripping is refused and nothing is written;
        otherwise exactly one record, with all four fields stripped, is appended at the end,
        even when a record of that name already exists. */
    method Add(name: string, company: string, email: string, phone: string, writable: bool)
      returns (outcome: AddOutcome)
      requires Valid() && present
      modifies this`records
      ensures Valid() && present
      ensures outcome == AddReport(name, writable)
      ensures records == if outcome == Added
                         then old(records) + [NewRecord(name, company, email, phone)]
                         else old(records)
    {
      if Strip(name) == [] {
        outcome := NameMissing;
      } else if !writable {
        outcome := AddWriteError;
      } else {
        records := records + [NewRecord(name, company, email, phone)];
        outcome := Added;
      }
    }

    /** view_clients: lists every record in file order and changes nothing. */
    method View() returns (shown: seq<Record>, outcome: ViewOutcome)
      requires Valid()
      ensures shown == records
      ensures outcome == if records == [] then NoClients else Listed(|records|)
    {
      shown := Load();
      outcome := if shown == [] then NoClients else Listed(|shown|);
    }

    /** search_client: an empty query is refused; otherwise the hits are exactly the records
        whose lower-cased name contains the lower-cased query, in file order. Nothing changes. */
    method Search(rawQuery: string) returns (found: seq<Record>, outcome: SearchOutcome)
      requires Valid()
      ensures Key(rawQuery) == [] ==> found == [] && outcome == QueryMissing
      ensures Key(rawQuery) != [] ==>
                && found == Matches(records, Key(rawQuery))
                && IsSubsequence(found, records)
                && (forall r :: r in found ==> Contains(NameKey(r), Key(rawQuery)))
                && (forall r :: r in records && Contains(NameKey(r), Key(rawQuery)) ==> r in found)
                && outcome == (if found == [] then NoMatch else Found(|found|))
    {
      var query := Key(rawQuery);
      if query == [] {
        return [], QueryMissing;
      }
      var clients := Load();
      found := Filter(clients, SearchHit(query));
      MatchesSpec(clients, query);
      outcome := if found == [] then NoMatch else Found(|found|);
    }

    /** delete_client: the first record whose lower-cased name equals the lower-cased input
        is shown; on the answer "y" every record of that name is removed by a full rewrite,
        and on any other answer, an empty name or no such record nothing changes. */
    method Delete(rawName: string, rawConfirm: string, writable: bool) returns (outcome: DeleteOutcome)
      requires Valid()
      modifies this
      ensures Valid() && present == old(present)
      ensures outcome == DeleteReport(old(records), rawName, rawConfirm, writable)
      ensures records == if DeleteConfirmed(old(records), rawName, rawConfirm) && writable
                         then Remaining(old(records), Key(rawName))
                         else old(records)
    {
      var key := Key(rawName);
      if key == [] {
        return DeleteNameMissing;
      }
      var clients := Load();
      var candidate := FindFirstNamed(clients, key);
      if candidate.None? {
        return NotFound;
      }
      FoundIffNamed(clients, key);
      if Key(rawConfirm) == "y" {
        var updated := Filter(clients, LacksName(key));
        var saved := Save(updated, writable);
        outcome := Deleted(candidate.value, saved);
      } else {
        outcome := Cancelled(candidate.value);
      }
    }

    /** One pass of main's loop on a bootstrapped store: "1" to "4" run add, view, search and
        delete and report their outcome, "5" reports the goodbye and ends the loop, and any
        other input reports an invalid choice, changes nothing and shows the menu again. */
    method Step(rawChoice: string, a: Answers) returns (outcome: StepOutcome, more: bool)
      requires Valid() && present
      modifies this
      ensures Valid() && present
      ensures more <==> Dispatch(rawChoice) != ExitChoice
      ensures Dispatch(rawChoice) == AddChoice ==>
                && outcome == AddDone(AddReport(a.name, a.writable))
                && records == if AddReport(a.name, a.writable) == Added
                              then old(records) + [NewRecord(a.name, a.company, a.email, a.phone)]
                              else old(records)
      ensures Dispatch(rawChoice) == ViewChoice ==>
                outcome == ViewDone(old(records), if old(records) == [] then NoClients else Listed(|old(records)|))
      ensures Dispatch(rawChoice) == SearchChoice ==>
                && outcome.SearchDone?
                && outcome.found == (if Key(a.query) == [] then [] else Matches(old(records), Key(a.query)))
                && outcome.search == (if Key(a.query) == [] then QueryMissing
                                      else if outcome.found == [] then NoMatch
                                      else Found(|outcome.found|))
      ensures Dispatch(rawChoice) == DeleteChoice ==>
                && outcome == DeleteDone(DeleteReport(old(records), a.query, a.confirm, a.writable))
                && records == if DeleteConfirmed(old(records), a.query, a.confirm) && a.writable
                              then Remaining(old(records), Key(a.query))
                              else old(records)
      ensures Dispatch(rawChoice) == ExitChoice ==> outcome == Exiting
      ensures Dispatch(rawChoice) == InvalidChoice ==> outcome == InvalidInput
      ensures Dispatch(rawChoice) !in {AddChoice, DeleteChoice} ==> records == old(records)
    {
      var choice := Dispatch(rawChoice);
      more := true;
      match choice {
        case AddChoice =>
          var added := Add(a.name, a.company, a.email, a.phone, a.writable);
          outcome := AddDone(added);
        case ViewChoice =>
          var listed, view := View();
          outcome := ViewDone(listed, view);
        case SearchChoice =>
          var found, search := Search(a.query);
          outcome := SearchDone(found, search);
        case DeleteChoice =>
          var deleted := Delete(a.query, a.confirm, a.writable);
          outcome := DeleteDone(deleted);
        case ExitChoice =>
          outcome := Exiting;
          more := false;
        case InvalidChoice =>
          outcome := InvalidInput;
      }
    }
  }

  /** Delete's "exact, case-insensitive match": a record is a candidate for a name answer
      exactly when its name differs from the stripped answer at most in case. */
  lemma DeleteMatchIgnoresCase(r: Record, rawName: string)
    ensures NameKey(r) == Key(rawName) <==> SameUpToCase(r.name, Strip(rawName))
  {
    LowerIgnoresCase(r.name, Strip(rawName));
  }

  /** Search's and delete's reading of a name ignores case: answers that differ at most in
      case read as the same key, so they find the same records. */
  lemma KeyIgnoresCase(a: string, b: string)
    requires SameUpToCase(a, b)
    ensures Key(a) == Key(b)
  {
    LowerIgnoresCase(a, b);
    LowerStripCommute(a);
    LowerStripCommute(b);
  }

  /** A record just added is found by any non-empty query that occurs in its lower-cased
      name, after the hits that were already there. */
  lemma AddedRecordIsFound(clients: seq<Record>, name: string, company: string, email: string,
                           phone: string, rawQuery: string)
    requires Key(rawQuery) != []
    requires Contains(Lower(Strip(name)), Key(rawQuery))
    ensures var rec := NewRecord(name, company, email, phone);
            Matches(clients + [rec], Key(rawQuery)) == Matches(clients, Key(rawQuery)) + [rec]
  {
    MatchesAppend(clients, NewRecord(name, company, email, phone), Key(rawQuery));
  }

  /** Searching ignores case: with " Alice " added to an empty store, the queries "alice"
      and "ALI" find it and "bob" finds nothing. */
  lemma SearchAliceExample()
    ensures var store := [NewRecord(" Alice ", "ACME", "a@acme.test", "555")];
            && Matches(store, Key("alice")) == store
            && Matches(store, Key("ALI")) == store
            && Matches(store, Key("bob")) == []
  {
    var rec := NewRecord(" Alice ", "ACME", "a@acme.test", "555");
    FoldedExampleNames();
    AliceRecordKey();
    BobNotInAlice();
    assert Contains("alice", "ali");
    assert Contains("alice", "alice");
    MatchesSingle(rec, "alice");
    MatchesSingle(rec, "ali");
    MatchesSingle(rec, "bob");
  }

  /** Searching a one-record store finds that record exactly when it is a hit. */
  lemma MatchesSingle(rec: Record, query: string)
    ensures Matches([rec], query) == if Contains(NameKey(rec), query) then [rec] else []
  {
    assert [rec][1..] == [];
  }

  /** The example record's name folds to "alice". */
  lemma AliceRecordKey()
    ensures NameKey(NewRecord(" Alice ", "ACME", "a@acme.test", "555")) == "alice"
  {
    FoldedExampleNames();
  }

  /** The folded forms of the example's name and queries. */
  lemma FoldedExampleNames()
    ensures Key(" Alice ") == "alice" && Key("alice") == "alice"
    ensures Key("ALI") == "ali" && Key("bob") == "bob"
  {
    FoldedAlice();
    FoldedQuery("alice");
    FoldedQuery("ALI");
    FoldedQuery("bob");
    LoweredQueries();
  }

  lemma FoldedAlice()
    ensures Key(" Alice ") == "alice"
  {
    assert TrimStart(" Alice ") == "Alice ";
    assert TrimEnd("Alice ") == "Alice";
    assert Lower("Alice") == "alice";
  }

  /** The example queries carry no whitespace, so their key is their lower-cased form. */
  lemma FoldedQuery(q: string)
    requires q in ["alice", "ALI", "bob"]
    ensures Key(q) == Lower(q)
  {
    assert TrimStart(q) == q;
    assert TrimEnd(q) == q;
  }

  lemma LoweredQueries()
    ensures Lower("alice") == "alice" && Lower("ALI") == "ali" && Lower("bob") == "bob"
  {
    assert Lower("alice") == "alice";
    assert Lower("ALI") == "ali";
  }

  /** "bob" does not occur in "alice". */
  lemma BobNotInAlice()
    ensures !Contains("alice", "bob")
  {
    assert !Contains("", "bob");
    assert "e"[1..] == "";
    assert !Contains("e", "bob");
    assert "ce"[1..] == "e";
    assert !Contains("ce", "bob");
    assert "ice"[1..] == "ce";
    assert "bob"[0] != "ice"[0];
    assert !Contains("ice", "bob");
    assert "lice"[1..] == "ice";
    assert "bob"[0] != "lice"[0];
    assert !Contains("lice", "bob");
    assert "alice"[1..] == "lice";
    assert "bob"[0] != "alice"[0];
  }
}
