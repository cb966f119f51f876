/** Client records and the three scans the operations run over the loaded list:
    the substring search, the first exact-name match and the delete filter. */
module Clients {
  import opened Text
  import opened Sequences

  datatype Option<T> = None | Some(value: T)

  /** One data row of the file, in the fixed column order name, company, email, phone. */
  datatype Record = Record(name: string, company: string, email: string, phone: string)

  /** `client['name'].lower()`: the name as both search and delete compare it. It has no
      upper-case letter and differs from the stored name only in case. */
  function NameKey(r: Record): (key: string)
    ensures forall i :: 0 <= i < |key| ==> !IsUpper(key[i])
    ensures SameUpToCase(key, r.name)
  {
    LowerIsFolded(r.name);
    LowerIgnoresCase(Lower(r.name), r.name);
    Lower(r.name)
  }

  /** Search's test: the (already folded) query occurs in the folded name. */
  function SearchHit(query: string): Record -> bool {
    r => Contains(NameKey(r), query)
  }

  /** Delete's test for a candidate: the folded name equals the key exactly. */
  function HasName(key: string): Record -> bool {
    r => NameKey(r) == key
  }

  /** Delete's test for a survivor: the folded name differs from the key. */
  function LacksName(key: string): Record -> bool {
    r => NameKey(r) != key
  }

  /** `found_clients` in search_client: the records whose folded name contains the query. */
  function Matches(clients: seq<Record>, query: string): (found: seq<Record>)
    ensures |found| <= |clients|
    ensures forall r :: r in found ==> r in clients && Contains(NameKey(r), query)
    ensures forall r :: r in clients && Contains(NameKey(r), query) ==> r in found
  {
    Filter(clients, SearchHit(query))
  }

  /** `updated_clients` in delete_client: the records whose folded name is not the key. */
  function Remaining(clients: seq<Record>, key: string): (rest: seq<Record>)
    ensures |rest| <= |clients|
    ensures forall r :: r in rest ==> r in clients && NameKey(r) != key
    ensures forall r :: r in clients && NameKey(r) != key ==> r in rest
  {
    Filter(clients, LacksName(key))
  }

  /** How many records carry the name `key`. */
  function NamedCount(clients: seq<Record>, key: string): nat {
    Count(clients, HasName(key))
  }

  /** Position of the first record named `key`, or |clients| when there is none. */
  function FirstNamedIndex(clients: seq<Record>, key: string): (i: nat)
    ensures i <= |clients|
    ensures i < |clients| ==> NameKey(clients[i]) == key
    ensures forall j :: 0 <= j < i ==> NameKey(clients[j]) != key
  {
    if clients == [] then 0
    else if NameKey(clients[0]) == key then 0
    else 1 + FirstNamedIndex(clients[1..], key)
  }

  /** `client_to_delete`: the first record named `key`, if any. */
  function FirstNamed(clients: seq<Record>, key: string): (found: Option<Record>)
    ensures found.None? <==> forall j :: 0 <= j < |clients| ==> NameKey(clients[j]) != key
    ensures found.Some? ==> found.value in clients && NameKey(found.value) == key
  {
    var i := FirstNamedIndex(clients, key);
    if i < |clients| then Some(clients[i]) else None
  }

  /** The scan of delete_client: walk the list in order and stop at the first record whose
      folded name equals `key`. */
  method FindFirstNamed(clients: seq<Record>, key: string) returns (found: Option<Record>)
    ensures found == FirstNamed(clients, key)
  {
    found := None;
    var i := 0;
    while i < |clients|
      invariant 0 <= i <= |clients|
      invariant forall j :: 0 <= j < i ==> NameKey(clients[j]) != key
    {
      if Lower(clients[i].name) == key {
        found := Some(clients[i]);
        break;
      }
      i := i + 1;
    }
    FirstIndexIsDetermined(clients, key, i);
  }

  /** The first-match index is the unique position where a match follows only non-matches. */
  lemma {:induction false} FirstIndexIsDetermined(clients: seq<Record>, key: string, i: nat)
    requires i <= |clients|
    requires i < |clients| ==> NameKey(clients[i]) == key
    requires forall j :: 0 <= j < i ==> NameKey(clients[j]) != key
    ensures FirstNamedIndex(clients, key) == i
    decreases i
  {
    if i > 0 {
      assert NameKey(clients[0]) != key;
      FirstIndexIsDetermined(clients[1..], key, i - 1);
    }
  }

  /** A candidate is found exactly when at least one record carries the name. */
  lemma FoundIffNamed(clients: seq<Record>, key: string)
    ensures FirstNamed(clients, key).Some? <==> NamedCount(clients, key) > 0
    ensures FirstNamed(clients, key).Some? ==> FirstNamed(clients, key).value in clients
  {
    CountPositive(clients, HasName(key));
    if FirstNamed(clients, key).None? {
      assert forall x :: x in clients ==> !HasName(key)(x);
    } else {
      assert HasName(key)(clients[FirstNamedIndex(clients, key)]);
    }
  }

  /** Search keeps, in store order, exactly the records whose folded name contains the
      query, and as many of them as there are such records. */
  lemma MatchesSpec(clients: seq<Record>, query: string)
    ensures IsSubsequence(Matches(clients, query), clients)
    ensures forall r :: r in Matches(clients, query) ==> Contains(NameKey(r), query)
    ensures forall r :: r in clients && Contains(NameKey(r), query) ==> r in Matches(clients, query)
    ensures |Matches(clients, query)| == Count(clients, SearchHit(query))
  {
    FilterIsSubsequence(clients, SearchHit(query));
    FilterLength(clients, SearchHit(query));
  }

  /** Search is case-insensitive: two queries that differ only in case, once folded, find
      the same records. */
  lemma MatchesIgnoreCase(clients: seq<Record>, a: string, b: string)
    requires SameUpToCase(a, b)
    ensures Matches(clients, Lower(a)) == Matches(clients, Lower(b))
  {
    LowerIgnoresCase(a, b);
  }

  /** Search over a list with one record appended: the old hits, then the new record
      when it is itself a hit. */
  lemma MatchesAppend(clients: seq<Record>, rec: Record, query: string)
    ensures Matches(clients + [rec], query)
         == Matches(clients, query) + (if Contains(NameKey(rec), query) then [rec] else [])
  {
    FilterAppend(clients, [rec], SearchHit(query));
    assert Filter([rec], SearchHit(query)) == (if Contains(NameKey(rec), query) then [rec] else []) by {
      assert [rec][1..] == [];
    }
  }

  /** What a confirmed delete leaves: an order-preserving subsequence of the store in
      which no record carries the name, every record with another name survives, and the
      length drops by the number of records carrying the name. */
  lemma RemainingSpec(clients: seq<Record>, key: string)
    ensures IsSubsequence(Remaining(clients, key), clients)
    ensures forall r :: r in Remaining(clients, key) ==> NameKey(r) != key
    ensures forall r :: r in clients && NameKey(r) != key ==> r in Remaining(clients, key)
    ensures |Remaining(clients, key)| == |clients| - NamedCount(clients, key)
  {
    FilterIsSubsequence(clients, LacksName(key));
    FilterLength(clients, LacksName(key));
    CountComplement(clients, HasName(key), LacksName(key));
  }

  /** The three properties of RemainingSpec pin the delete filter down: any other list with
      them is the same list. */
  lemma RemainingUnique(clients: seq<Record>, key: string, survivors: seq<Record>)
    requires IsSubsequence(survivors, clients)
    requires forall r :: r in survivors ==> NameKey(r) != key
    requires |survivors| == |clients| - NamedCount(clients, key)
    ensures survivors == Remaining(clients, key)
  {
    CountComplement(clients, HasName(key), LacksName(key));
    FilterUnique(survivors, clients, LacksName(key));
  }

  /** When a candidate was found, a confirmed delete removes at least that one record and,
      with it, every other record of the same name. */
  lemma RemovesAllNamesakes(clients: seq<Record>, key: string)
    requires FirstNamed(clients, key).Some?
    ensures |Remaining(clients, key)| == |clients| - NamedCount(clients, key) < |clients|
    ensures FirstNamed(clients, key).value !in Remaining(clients, key)
    ensures FirstNamed(Remaining(clients, key), key).None?
  {
    RemainingSpec(clients, key);
    FoundIffNamed(clients, key);
    var rest := Remaining(clients, key);
    FoundIffNamed(rest, key);
    CountPositive(rest, HasName(key));
  }

  /** Deleting the same name again removes nothing more. */
  lemma RemainingIdempotent(clients: seq<Record>, key: string)
    ensures Remaining(Remaining(clients, key), key) == Remaining(clients, key)
  {
    FilterIdempotent(clients, LacksName(key));
  }

  /** The asymmetry of delete_client on a concrete list: the prompt shows one record
      ("Alice" at ACME), yet confirming removes both records whose name folds to "alice". */
  lemma DeleteShowsOneRemovesTwo()
    ensures var clients := [Record("Alice", "ACME", "a@acme.test", "1"),
                            Record("ALICE", "Initech", "alice@initech.test", "2"),
                            Record("Bob", "ACME", "b@acme.test", "3")];
            FirstNamed(clients, "alice") == Some(clients[0])
            && NamedCount(clients, "alice") == 2
            && Remaining(clients, "alice") == [clients[2]]
  {
    var clients := [Record("Alice", "ACME", "a@acme.test", "1"),
                    Record("ALICE", "Initech", "alice@initech.test", "2"),
                    Record("Bob", "ACME", "b@acme.test", "3")];
    assert NameKey(clients[0]) == "alice";
    assert NameKey(clients[1]) == "alice";
    assert NameKey(clients[2]) == "bob";
    assert clients[1..][1..][1..] == [];
  }
}
