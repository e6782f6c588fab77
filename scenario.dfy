/** The store's end-to-end behaviour on one sequence of user actions: two
    creates, a status query, a search, an edit and a delete. */
module Scenario {
  import opened ReportTypes
  import opened Text
  import opened ReportStore
  import opened ReportsPage

  /** The search text, in lower case. */
  const Term: string := "audit"

  /** The search text matches the title "Audit", ignoring case. */
  lemma AuditMatches(r: Report)
    requires r.title == "Audit"
    ensures Matches(r, Term)
  {
  }

  /** A record does not match a query with a character that neither of its
      lowercased fields has. */
  lemma MissingCharMisses(r: Report, q: string, c: char)
    requires c in Lower(q) && c !in Lower(r.title) && c !in Lower(r.description)
    ensures !Matches(r, q)
  {
    if Contains(Lower(r.title), Lower(q)) {
      ContainedCharsOccur(Lower(r.title), Lower(q), c);
    }
    if Contains(Lower(r.description), Lower(q)) {
      ContainedCharsOccur(Lower(r.description), Lower(q), c);
    }
  }

  /** The lowercase forms of the scenario's strings. */
  lemma LowercaseForms()
    ensures Lower(Term) == Term && Lower("internal notes") == "internal notes"
    ensures Lower("Draft") == "draft"
  {
  }

  /** The search text occurs in neither field of the second report, which
      has no 'u'. */
  lemma DraftMisses(r: Report)
    requires r.title == "Draft" && r.description == "internal notes"
    ensures !Matches(r, Term)
  {
    LowercaseForms();
    assert Term[1] == 'u';
    assert 'u' !in "draft" && 'u' !in "internal notes";
    MissingCharMisses(r, Term, 'u');
  }

  /** The table after storing two reports and removing the first. */
  lemma SecondRemains(a: Report, d: Report)
    requires a.id != d.id
    ensures Keyed(Remove(Put(Put(map[], a), d), a.id))
    ensures AllReports(Remove(Put(Put(map[], a), d), a.id)) == {d}
  {
  }

  /** With two reports stored, the archived query returns the archived one. */
  lemma ArchivedQuery(a: Report, d: Report)
    requires a.id != d.id && a.status == Active && d.status == Archived
    ensures ReportsByStatus(Put(Put(map[], a), d), Archived) == {d}
  {
  }

  /** With two reports stored, the active query returns both once both are
      active. */
  lemma ActiveQuery(a: Report, d: Report)
    requires a.id != d.id && a.status == Active && d.status == Active
    ensures ReportsByStatus(Put(Put(map[], a), d), Active) == {a, d}
  {
  }

  /** With two reports stored, a search matching only the first returns it. */
  lemma SearchQuery(a: Report, d: Report, q: string)
    requires a.id != d.id && Matches(a, q) && !Matches(d, q)
    ensures SearchReports(Put(Put(map[], a), d), q) == {a}
  {
  }

  /** Create "Audit" (active), create "Draft" (archived), query archived,
      search "audit", edit "Draft" to active, query active, delete "Audit".
      The two reports are any with those fields and different ids. */
  lemma AuditDraftScenario(audit: Report, draft: Report)
    requires audit.id != draft.id
    requires audit.title == "Audit" && audit.status == Active
    requires draft.title == "Draft" && draft.description == "internal notes" && draft.status == Archived
    ensures AllReports(Put(map[], audit)) == {audit}
    ensures ReportsByStatus(Put(Put(map[], audit), draft), Archived) == {draft}
    ensures SearchReports(Put(Put(map[], audit), draft), Term) == {audit}
    ensures var edited := Merge(draft, FormData(draft.title, draft.description, Active));
      ReportsByStatus(Put(Put(Put(map[], audit), draft), edited), Active) == {audit, edited}
    ensures var edited := Merge(draft, FormData(draft.title, draft.description, Active));
      AllReports(Remove(Put(Put(Put(map[], audit), draft), edited), audit.id)) == {edited}
  {
    var edited := Merge(draft, FormData(draft.title, draft.description, Active));
    assert Put(map[], audit).Values == {audit};
    ArchivedQuery(audit, draft);
    AuditMatches(audit);
    DraftMisses(draft);
    SearchQuery(audit, draft, Term);
    assert Put(Put(Put(map[], audit), draft), edited) == Put(Put(map[], audit), edited);
    ActiveQuery(audit, edited);
    SecondRemains(audit, edited);
  }
}
