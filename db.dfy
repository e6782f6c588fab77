/** The report store: the `reports` table of the local database, keyed by
    `id`, and the six operations the application performs on it. */
module ReportStore {
  import opened ReportTypes
  import opened Text

  /** The contents of the `reports` table, primary key to record. */
  type Table = map<string, Report>

  /** The primary key is the record's own `id` field. */
  predicate Keyed(t: Table)
  {
    forall k :: k in t ==> t[k].id == k
  }

  /** How a store call can fail: `add` on a key already present, or the
      storage engine not completing the request for any reason. */
  datatype StoreError = DuplicateKey | StorageUnavailable

  datatype Outcome = Done | Failed(error: StoreError)

  // ---------------------------------------------------------------------------
  // The table after a write

  /** The table after `put(r)`: r is stored under r.id, replacing any record
      there, and no other key changes. */
  function Put(t: Table, r: Report): (t': Table)
    ensures r.id in t' && t'[r.id] == r
    ensures t'.Keys == t.Keys + {r.id}
    ensures forall k :: k in t && k != r.id ==> t'[k] == t[k]
  {
    t[r.id := r]
  }

  /** The table after `delete(id)`: that key is gone and no other key
      changes. */
  function Remove(t: Table, id: string): (t': Table)
    ensures t'.Keys == t.Keys - {id}
    ensures forall k :: k in t' ==> t'[k] == t[k]
  {
    t - {id}
  }

  lemma PutKeepsKeyed(t: Table, r: Report)
    requires Keyed(t)
    ensures Keyed(Put(t, r))
  {
  }

  lemma RemoveKeepsKeyed(t: Table, id: string)
    requires Keyed(t)
    ensures Keyed(Remove(t, id))
  {
  }

  /** `put` twice is `put` once. */
  lemma PutIdempotent(t: Table, r: Report)
    ensures Put(Put(t, r), r) == Put(t, r)
  {
  }

  /** `delete` twice is `delete` once, and deleting an absent key changes
      nothing. */
  lemma RemoveIdempotent(t: Table, id: string)
    ensures Remove(Remove(t, id), id) == Remove(t, id)
    ensures id !in t ==> Remove(t, id) == t
  {
  }

  // ---------------------------------------------------------------------------
  // Queries

  /** `toArray()` on the whole table: exactly the stored records. */
  function AllReports(t: Table): (r: set<Report>)
    requires Keyed(t)
    ensures forall x :: x in r <==> x.id in t && t[x.id] == x
    ensures t == map[] ==> r == {}
  {
    t.Values
  }

  /** The `searchReports` filter: the lowercased query occurs in the
      lowercased title or in the lowercased description. */
  predicate Matches(x: Report, q: string)
    ensures Matches(x, q) <==>
      (exists i :: OccursAt(Lower(x.title), Lower(q), i))
      || (exists i :: OccursAt(Lower(x.description), Lower(q), i))
  {
    ContainsIffOccurs(Lower(x.title), Lower(q));
    ContainsIffOccurs(Lower(x.description), Lower(q));
    Contains(Lower(x.title), Lower(q)) || Contains(Lower(x.description), Lower(q))
  }

  function SearchReports(t: Table, q: string): (r: set<Report>)
    requires Keyed(t)
    ensures forall x :: x in r <==> x in AllReports(t) && Matches(x, q)
  {
    set x | x in t.Values && Matches(x, q)
  }

  /** `where('status').equals(s)`: the stored records whose status is s. */
  function ReportsByStatus(t: Table, s: Status): (r: set<Report>)
    requires Keyed(t)
    ensures forall x :: x in r <==> x in AllReports(t) && x.status == s
  {
    set x | x in t.Values && x.status == s
  }

  /** Searching for the empty string finds every record. */
  lemma SearchEmptyFindsAll(t: Table)
    requires Keyed(t)
    ensures SearchReports(t, "") == AllReports(t)
  {
  }

  /** Search is case-insensitive: queries that lowercase alike find the same
      records. */
  lemma SearchIgnoresQueryCase(t: Table, q1: string, q2: string)
    requires Keyed(t)
    requires Lower(q1) == Lower(q2)
    ensures SearchReports(t, q1) == SearchReports(t, q2)
  {
  }

  /** The active and archived records are disjoint and together are all
      the records. */
  lemma StatusPartition(t: Table)
    requires Keyed(t)
    ensures ReportsByStatus(t, Active) !! ReportsByStatus(t, Archived)
    ensures ReportsByStatus(t, Active) + ReportsByStatus(t, Archived) == AllReports(t)
  {
  }

  /** After adding r under a fresh key, exactly one stored record has r's id
      and it is r; the other records are the ones there before. */
  lemma AddThenAll(t: Table, r: Report)
    requires Keyed(t) && r.id !in t
    ensures Keyed(Put(t, r))
    ensures AllReports(Put(t, r)) == AllReports(t) + {r}
    ensures forall x :: x in AllReports(Put(t, r)) && x.id == r.id ==> x == r
  {
  }

  /** After `put(r)` the records are the old ones with other ids, and r. */
  lemma PutThenAll(t: Table, r: Report)
    requires Keyed(t)
    ensures Keyed(Put(t, r))
    ensures AllReports(Put(t, r)) == (set x | x in AllReports(t) && x.id != r.id) + {r}
  {
  }

  /** After `delete(id)` no record has that id and every other record
      remains. */
  lemma RemoveThenAll(t: Table, id: string)
    requires Keyed(t)
    ensures Keyed(Remove(t, id))
    ensures AllReports(Remove(t, id)) == set x | x in AllReports(t) && x.id != id
  {
  }

  // ---------------------------------------------------------------------------
  // Collecting query results into an array

  predicate DistinctIds(l: seq<Report>)
  {
    forall i, j :: 0 <= i < j < |l| ==> l[i].id != l[j].id
  }

  /** No two records of s share an id. */
  predicate UniqueIds(s: set<Report>)
  {
    forall x, y :: x in s && y in s && x.id == y.id ==> x == y
  }

  /** l lists exactly the records of s, each once. */
  ghost predicate Lists(l: seq<Report>, s: set<Report>)
  {
    (forall x :: x in l <==> x in s) && DistinctIds(l)
  }

  /** The records of a table, and so of every query result, have distinct
      ids. */
  lemma TableHasUniqueIds(t: Table, s: set<Report>)
    requires Keyed(t) && s <= AllReports(t)
    ensures UniqueIds(s)
  {
  }

  /** `toArray()`: the records of a query result as an array, each once, in
      an order this model leaves open. */
  method ToArray(s: set<Report>) returns (l: seq<Report>)
    requires UniqueIds(s)
    ensures Lists(l, s)
  {
    var rest := s;
    l := [];
    while rest != {}
      invariant rest <= s
      invariant forall x :: x in l <==> x in s && x !in rest
      invariant DistinctIds(l)
      decreases rest
    {
      var x :| x in rest;
      l := l + [x];
      rest := rest - {x};
    }
  }

  // ---------------------------------------------------------------------------
  // The database object

  /** The `reports` table of the `ReportsDB` database, schema version 1. */
  class ReportsDatabase {
    var table: Table

    ghost predicate Valid()
      reads this
    {
      Keyed(table)
    }

    /** Opening `ReportsDB`: the table holds whatever earlier sessions
        stored, which is empty on the very first opening. */
    constructor (stored: Table)
      requires Keyed(stored)
      ensures Valid() && table == stored
    {
      table := stored;
    }

    /** `addReport`: `add(r)` inserts r, failing with `DuplicateKey` when its
        id is already stored. `available` says whether the storage engine
        completes the request. */
    method AddReport(r: Report, available: bool) returns (res: Outcome)
      requires Valid()
      modifies this
      ensures Valid()
      ensures !available ==> res == Failed(StorageUnavailable)
      ensures available && r.id in old(table) ==> res == Failed(DuplicateKey)
      ensures available && r.id !in old(table) ==> res == Done
      ensures res == Done ==> table == Put(old(table), r)
      ensures res != Done ==> table == old(table)
    {
      if !available {
        res := Failed(StorageUnavailable);
      } else if r.id in table {
        res := Failed(DuplicateKey);
      } else {
        PutKeepsKeyed(table, r);
        table := Put(table, r);
        res := Done;
      }
    }

    /** `updateReport`: `put(r)` stores r under its id whether or not the id
        was present. */
    method UpdateReport(r: Report, available: bool) returns (res: Outcome)
      requires Valid()
      modifies this
      ensures Valid()
      ensures res == if available then Done else Failed(StorageUnavailable)
      ensures res == Done ==> table == Put(old(table), r)
      ensures res != Done ==> table == old(table)
    {
      if !available {
        res := Failed(StorageUnavailable);
      } else {
        PutKeepsKeyed(table, r);
        table := Put(table, r);
        res := Done;
      }
    }

    /** `deleteReport`: `delete(id)` removes the key; an absent key is not
        an error. */
    method DeleteReport(id: string, available: bool) returns (res: Outcome)
      requires Valid()
      modifies this
      ensures Valid()
      ensures res == if available then Done else Failed(StorageUnavailable)
      ensures res == Done ==> table == Remove(old(table), id)
      ensures res != Done ==> table == old(table)
    {
      if !available {
        res := Failed(StorageUnavailable);
      } else {
        RemoveKeepsKeyed(table, id);
        table := Remove(table, id);
        res := Done;
      }
    }
  }
}
