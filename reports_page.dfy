/** The Reports page: the state its handlers keep (the displayed list, the
    dialog, the form, the filter and the search text) and how each handler
    reconciles the displayed list with the store without querying it again. */
module ReportsPage {
  import opened ReportTypes
  import opened Text
  import opened ReportStore

  datatype Option<T> = None | Some(value: T)

  /** The dialog's form: a report without its id and date. */
  datatype FormData = FormData(title: string, description: string, status: Status)

  /** The status select: all reports, or only those with one status. */
  datatype Filter = ShowAll | ShowStatus(status: Status)

  /** The form a create dialog opens with. */
  const EmptyForm: FormData := FormData("", "", Active)

  /** The create dialog opens with the form an edit dialog would show for a
      report with blank title and description and status active, and for
      no other report. */
  lemma EmptyFormIsBlankActive(r: Report)
    ensures FormOf(r) == EmptyForm <==> r.title == "" && r.description == "" && r.status == Active
  {
  }

  // ---------------------------------------------------------------------------
  // Building records from the form

  /** The form an edit dialog opens with: the report's editable fields. */
  function FormOf(r: Report): (f: FormData)
    ensures f.title == r.title && f.description == r.description && f.status == r.status
  {
    FormData(r.title, r.description, r.status)
  }

  /** `{ ...editingReport, ...formData }`: the form's fields override the
      report's; the form has no id or date, so those are kept. */
  function Merge(e: Report, f: FormData): (r: Report)
    ensures r.id == e.id && r.date == e.date
    ensures FormOf(r) == f
  {
    e.(title := f.title, description := f.description, status := f.status)
  }

  /** `{ id, date, ...formData }` for a new report. */
  function NewReport(id: string, date: string, f: FormData): (r: Report)
    ensures r.id == id && r.date == date
    ensures FormOf(r) == f
  {
    Report(id, f.title, f.description, date, f.status)
  }

  /** Submitting an edit dialog whose form was left as opened changes
      nothing. */
  lemma MergeUnchangedForm(e: Report)
    ensures Merge(e, FormOf(e)) == e
  {
  }

  /** Merging is determined by the id and date of the original alone. */
  lemma MergeKeepsOnlyIdAndDate(e1: Report, e2: Report, f: FormData)
    ensures Merge(e1, f) == Merge(e2, f) <==> e1.id == e2.id && e1.date == e2.date
  {
  }

  // ---------------------------------------------------------------------------
  // Reconciling the displayed list

  /** `reports.map(r => r.id === id ? u : r)`. */
  function ReplaceById(l: seq<Report>, id: string, u: Report): (r: seq<Report>)
    ensures |r| == |l|
    ensures forall i :: 0 <= i < |l| ==> r[i] == if l[i].id == id then u else l[i]
  {
    if l == [] then []
    else [if l[0].id == id then u else l[0]] + ReplaceById(l[1..], id, u)
  }

  /** `reports.filter(r => r.id !== id)`. */
  function RemoveById(l: seq<Report>, id: string): (r: seq<Report>)
    ensures |r| <= |l|
    ensures forall x :: x in r <==> x in l && x.id != id
  {
    if l == [] then []
    else if l[0].id == id then RemoveById(l[1..], id)
    else [l[0]] + RemoveById(l[1..], id)
  }

  /** Removal keeps the survivors in their original order: it acts on each
      part of a list separately. */
  lemma {:induction false} RemoveByIdAppend(a: seq<Report>, b: seq<Report>, id: string)
    ensures RemoveById(a + b, id) == RemoveById(a, id) + RemoveById(b, id)
  {
    if a != [] {
      assert (a + b)[1..] == a[1..] + b;
      RemoveByIdAppend(a[1..], b, id);
    } else {
      assert a + b == b;
    }
  }

  /** A list without the id is left exactly as it was. */
  lemma {:induction false} RemoveByIdAbsent(l: seq<Report>, id: string)
    requires forall i :: 0 <= i < |l| ==> l[i].id != id
    ensures RemoveById(l, id) == l
  {
    if l != [] {
      RemoveByIdAbsent(l[1..], id);
    }
  }

  /** Removing twice is removing once. */
  lemma RemoveByIdIdempotent(l: seq<Report>, id: string)
    ensures RemoveById(RemoveById(l, id), id) == RemoveById(l, id)
  {
  }

  lemma {:induction false} RemoveKeepsDistinct(l: seq<Report>, id: string)
    requires DistinctIds(l)
    ensures DistinctIds(RemoveById(l, id))
  {
    if l != [] {
      RemoveKeepsDistinct(l[1..], id);
      if l[0].id != id {
        var rest := RemoveById(l[1..], id);
        forall j | 0 <= j < |rest| ensures rest[j].id != l[0].id {
          assert rest[j] in l[1..];
          var k :| 0 <= k < |l[1..]| && l[1..][k] == rest[j];
          assert l[k + 1] == rest[j];
        }
      }
    }
  }

  /** Every displayed record is the record the store holds under its id. */
  ghost predicate InStore(l: seq<Report>, t: Table)
  {
    forall x :: x in l ==> x.id in t && t[x.id] == x
  }

  /** A listing of a query result shows stored records. */
  lemma ListingInStore(l: seq<Report>, s: set<Report>, t: Table)
    requires Keyed(t) && s <= AllReports(t) && Lists(l, s)
    ensures InStore(l, t)
  {
  }

  /** Appending a record just added under a fresh key keeps the list
      duplicate-free and in step with the store. */
  lemma AppendInStore(l: seq<Report>, t: Table, n: Report)
    requires DistinctIds(l) && InStore(l, t) && n.id !in t
    ensures DistinctIds(l + [n]) && InStore(l + [n], Put(t, n))
  {
  }

  /** Replacing by id with the record just put keeps the list duplicate-free
      and in step with the store. */
  lemma ReplaceInStore(l: seq<Report>, t: Table, u: Report)
    requires DistinctIds(l) && InStore(l, t)
    ensures DistinctIds(ReplaceById(l, u.id, u)) && InStore(ReplaceById(l, u.id, u), Put(t, u))
  {
  }

  /** Removing by id what was just deleted keeps the list duplicate-free and
      in step with the store. */
  lemma RemoveInStore(l: seq<Report>, t: Table, id: string)
    requires DistinctIds(l) && InStore(l, t)
    ensures DistinctIds(RemoveById(l, id)) && InStore(RemoveById(l, id), Remove(t, id))
  {
  }

  /** With every stored record on display, a create reconciled by appending
      still displays exactly the stored records. */
  lemma CreateKeepsFullListing(l: seq<Report>, t: Table, n: Report)
    requires Keyed(t) && Lists(l, AllReports(t)) && n.id !in t
    ensures Keyed(Put(t, n)) && Lists(l + [n], AllReports(Put(t, n)))
  {
  }

  /** With every stored record on display, an edit of a stored record
      reconciled by replacing still displays exactly the stored records. */
  lemma EditKeepsFullListing(l: seq<Report>, t: Table, u: Report)
    requires Keyed(t) && Lists(l, AllReports(t)) && u.id in t
    ensures Keyed(Put(t, u)) && Lists(ReplaceById(l, u.id, u), AllReports(Put(t, u)))
  {
    PutThenAll(t, u);
    ReplaceInStore(l, t, u);
    var r := ReplaceById(l, u.id, u);
    assert t[u.id] in l;
    var i :| 0 <= i < |l| && l[i] == t[u.id];
    assert r[i] == u;
    forall x | x in AllReports(Put(t, u)) ensures x in r {
      if x != u {
        var j :| 0 <= j < |l| && l[j] == x;
        assert r[j] == x;
      }
    }
  }

  /** With every stored record on display, a delete reconciled by removing
      still displays exactly the stored records. */
  lemma DeleteKeepsFullListing(l: seq<Report>, t: Table, id: string)
    requires Keyed(t) && Lists(l, AllReports(t))
    ensures Keyed(Remove(t, id)) && Lists(RemoveById(l, id), AllReports(Remove(t, id)))
  {
    RemoveThenAll(t, id);
    RemoveKeepsDistinct(l, id);
  }

  // ---------------------------------------------------------------------------
  // Which query fills the list

  predicate Admits(f: Filter, x: Report)
  {
    f.ShowAll? || x.status == f.status
  }

  /** `loadReports`: `getAllReports()` for the `all` filter, otherwise
      `getReportsByStatus(filter)`. */
  function LoadQuery(t: Table, f: Filter): (r: set<Report>)
    requires Keyed(t)
    ensures forall x :: x in r <==> x in AllReports(t) && Admits(f, x)
  {
    match f
    case ShowAll => AllReports(t)
    case ShowStatus(s) => ReportsByStatus(t, s)
  }

  /** `handleSearch`: a query that trims to nothing falls back to the
      filtered load; any other query is passed, untrimmed, to
      `searchReports`. */
  function DisplayQuery(t: Table, f: Filter, q: string): (r: set<Report>)
    requires Keyed(t)
    ensures r <= AllReports(t)
  {
    if Trim(q) == [] then LoadQuery(t, f) else SearchReports(t, q)
  }

  /** A query of whitespace only shows what the filter alone shows. */
  lemma BlankSearchIsLoad(t: Table, f: Filter, q: string)
    requires Keyed(t)
    requires forall i :: 0 <= i < |q| ==> IsWhitespace(q[i])
    ensures DisplayQuery(t, f, q) == LoadQuery(t, f)
  {
  }

  /** A query that is not all whitespace shows exactly the search matches,
      whatever the status filter. */
  lemma SearchIgnoresFilter(t: Table, f: Filter, q: string)
    requires Keyed(t)
    requires exists i :: 0 <= i < |q| && !IsWhitespace(q[i])
    ensures DisplayQuery(t, f, q) == SearchReports(t, q)
    ensures DisplayQuery(t, f, q) == DisplayQuery(t, ShowAll, q)
  {
  }

  /** Reconciling without a fresh query ignores the status filter: after a
      displayed active report is edited to archived under the `active`
      filter, the list shows it although the filter's query no longer
      returns it. */
  lemma FilteredEditOutlivesFilter(t: Table, l: seq<Report>, r: Report)
    requires Keyed(t) && Lists(l, LoadQuery(t, ShowStatus(Active))) && r in l
    ensures var u := Merge(r, FormOf(r).(status := Archived));
      && u in ReplaceById(l, r.id, u)
      && u !in LoadQuery(Put(t, u), ShowStatus(Active))
  {
  }

  // ---------------------------------------------------------------------------
  // The page component

  class ReportsView {
    const db: ReportsDatabase
    var reports: seq<Report>
    var open: bool
    var editingReport: Option<Report>
    var loading: bool
    var searchQuery: string
    var statusFilter: Filter
    var formData: FormData

    /** The displayed list has no id twice and shows each record exactly as
        the store holds it (it may omit stored records). */
    ghost predicate Valid()
      reads this, db
    {
      db.Valid() && DistinctIds(reports) && InStore(reports, db.table)
    }

    /** The page's initial state, before the mount-time load. */
    constructor (db: ReportsDatabase)
      requires db.Valid()
      ensures Valid() && this.db == db
      ensures reports == [] && !open && editingReport == None && loading
      ensures searchQuery == "" && statusFilter == ShowAll && formData == EmptyForm
    {
      this.db := db;
      reports := [];
      open := false;
      editingReport := None;
      loading := true;
      searchQuery := "";
      statusFilter := ShowAll;
      formData := EmptyForm;
    }

    /** `loadReports`: the list is replaced wholesale by the filter's query
        when the store answers, and kept otherwise; loading ends either way. */
    method LoadReports(available: bool)
      requires Valid()
      modifies this
      ensures Valid() && !loading
      ensures available ==> Lists(reports, LoadQuery(db.table, statusFilter))
      ensures !available ==> reports == old(reports)
      ensures open == old(open) && editingReport == old(editingReport) && formData == old(formData)
      ensures searchQuery == old(searchQuery) && statusFilter == old(statusFilter)
    {
      loading := true;
      if available {
        var found := LoadQuery(db.table, statusFilter);
        TableHasUniqueIds(db.table, found);
        reports := ToArray(found);
        ListingInStore(reports, found, db.table);
      }
      loading := false;
    }

    /** The status select's `onChange`, followed by the effect that reloads
        whenever the filter changes; selecting the current filter again
        changes nothing, so the list stays as it is. */
    method SetStatusFilter(f: Filter, available: bool)
      requires Valid()
      modifies this
      ensures Valid() && statusFilter == f
      ensures f != old(statusFilter) ==> !loading
      ensures f != old(statusFilter) && available ==> Lists(reports, LoadQuery(db.table, f))
      ensures f != old(statusFilter) && !available ==> reports == old(reports)
      ensures f == old(statusFilter) ==> reports == old(reports) && loading == old(loading)
      ensures open == old(open) && editingReport == old(editingReport) && formData == old(formData)
      ensures searchQuery == old(searchQuery)
    {
      if f != statusFilter {
        statusFilter := f;
        LoadReports(available);
      }
    }

    /** `handleSearch`: records the query, then shows the filtered load for a
        blank query or the search result otherwise; a failed store call
        leaves the list as it was. */
    method HandleSearch(query: string, available: bool)
      requires Valid()
      modifies this
      ensures Valid() && searchQuery == query
      ensures available ==> Lists(reports, DisplayQuery(db.table, statusFilter, query))
      ensures !available ==> reports == old(reports)
      ensures loading == if Trim(query) == [] then false else old(loading)
      ensures open == old(open) && editingReport == old(editingReport) && formData == old(formData)
      ensures statusFilter == old(statusFilter)
    {
      searchQuery := query;
      if Trim(query) == [] {
        LoadReports(available);
        return;
      }
      if available {
        var found := SearchReports(db.table, query);
        TableHasUniqueIds(db.table, found);
        reports := ToArray(found);
        ListingInStore(reports, found, db.table);
      }
    }

    /** `handleOpen`: for an edit, the form starts from the report's fields;
        for a create, from the empty form. The dialog opens. */
    method HandleOpen(report: Option<Report>)
      requires Valid()
      modifies this
      ensures Valid() && open && editingReport == report
      ensures formData == match report case Some(r) => FormOf(r) case None => EmptyForm
      ensures reports == old(reports) && loading == old(loading)
      ensures searchQuery == old(searchQuery) && statusFilter == old(statusFilter)
    {
      match report {
        case Some(r) =>
          editingReport := Some(r);
          formData := FormOf(r);
        case None =>
          editingReport := None;
          formData := EmptyForm;
      }
      open := true;
    }

    /** `handleClose`: the dialog closes and forgets the report being
        edited; the form keeps its contents. */
    method HandleClose()
      requires Valid()
      modifies this
      ensures Valid() && !open && editingReport == None
      ensures reports == old(reports) && formData == old(formData) && loading == old(loading)
      ensures searchQuery == old(searchQuery) && statusFilter == old(statusFilter)
    {
      open := false;
      editingReport := None;
    }

    /** The title field's `onChange`. */
    method SetFormTitle(title: string)
      requires Valid()
      modifies this
      ensures Valid() && formData == old(formData).(title := title)
      ensures reports == old(reports) && open == old(open) && editingReport == old(editingReport)
      ensures loading == old(loading) && searchQuery == old(searchQuery) && statusFilter == old(statusFilter)
    {
      formData := formData.(title := title);
    }

    /** The description field's `onChange`. */
    method SetFormDescription(description: string)
      requires Valid()
      modifies this
      ensures Valid() && formData == old(formData).(description := description)
      ensures reports == old(reports) && open == old(open) && editingReport == old(editingReport)
      ensures loading == old(loading) && searchQuery == old(searchQuery) && statusFilter == old(statusFilter)
    {
      formData := formData.(description := description);
    }

    /** The status field's `onChange`. */
    method SetFormStatus(status: Status)
      requires Valid()
      modifies this
      ensures Valid() && formData == old(formData).(status := status)
      ensures reports == old(reports) && open == old(open) && editingReport == old(editingReport)
      ensures loading == old(loading) && searchQuery == old(searchQuery) && statusFilter == old(statusFilter)
    {
      formData := formData.(status := status);
    }

    /** `handleSubmit`. An edit puts the merged record and replaces it in the
        list by id; a create adds a record whose id is the clock reading
        `nowMillis` in decimal and whose date is `nowIso`, and appends it.
        Only after the store call succeeds is the list updated and the
        dialog closed; on failure nothing changes. */
    method HandleSubmit(nowMillis: nat, nowIso: string, available: bool)
      requires Valid()
      modifies this, db
      ensures Valid()
      ensures formData == old(formData) && loading == old(loading)
      ensures searchQuery == old(searchQuery) && statusFilter == old(statusFilter)
      ensures old(editingReport).Some? ==>
        var u := Merge(old(editingReport).value, old(formData));
        if available then
          db.table == Put(old(db.table), u) && reports == ReplaceById(old(reports), u.id, u)
          && !open && editingReport == None
        else
          db.table == old(db.table) && reports == old(reports)
          && open == old(open) && editingReport == old(editingReport)
      ensures old(editingReport).None? ==>
        var n := NewReport(Decimal(nowMillis), nowIso, old(formData));
        if available && n.id !in old(db.table) then
          db.table == Put(old(db.table), n) && reports == old(reports) + [n]
          && !open && editingReport == None
        else
          db.table == old(db.table) && reports == old(reports)
          && open == old(open) && editingReport == None
    {
      var res: Outcome;
      match editingReport {
        case Some(e) =>
          var updated := Merge(e, formData);
          res := db.UpdateReport(updated, available);
          if res == Done {
            ReplaceInStore(reports, old(db.table), updated);
            reports := ReplaceById(reports, e.id, updated);
          }
        case None =>
          var created := NewReport(Decimal(nowMillis), nowIso, formData);
          res := db.AddReport(created, available);
          if res == Done {
            AppendInStore(reports, old(db.table), created);
            reports := reports + [created];
          }
      }
      if res == Done {
        HandleClose();
      }
    }

    /** `handleDelete`: after the store deletes the id, every displayed
        record with that id is dropped; on failure nothing changes. */
    method HandleDelete(id: string, available: bool)
      requires Valid()
      modifies this, db
      ensures Valid()
      ensures available ==> db.table == Remove(old(db.table), id) && reports == RemoveById(old(reports), id)
      ensures !available ==> db.table == old(db.table) && reports == old(reports)
      ensures open == old(open) && editingReport == old(editingReport) && formData == old(formData)
      ensures loading == old(loading) && searchQuery == old(searchQuery) && statusFilter == old(statusFilter)
    {
      var res := db.DeleteReport(id, available);
      if res == Done {
        RemoveInStore(reports, old(db.table), id);
        reports := RemoveById(reports, id);
      }
    }
  }
}
