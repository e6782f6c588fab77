# Report tracker: store and page handlers in Dafny

This project models the two pieces of logic in a browser-local report tracker. Users create, edit, delete, search and filter short reports, which are kept in an IndexedDB table through Dexie.

- **The report store** (`src/services/db.ts`). It is the `reports` table of the `ReportsDB` database, keyed by `id`. It has three writes: `addReport` (insert; fails on a key already present), `updateReport` (`put`, an upsert) and `deleteReport` (no error for an absent key). It has three reads: `getAllReports`, `searchReports` (case-insensitive substring match on title or description) and `getReportsByStatus`.
- **The Reports page handlers** (`src/pages/Reports.tsx`). They keep a displayed list of reports in step with the store without querying it again after each write. A create appends, an edit replaces by id, and a delete filters by id. Loading runs the status filter's query. A search runs `searchReports` unless its trimmed text is empty.

Files:

- `report.dfy`, module `ReportTypes`. The `Report` record (five fields) and its two-valued `Status`.
- `text.dfy`, module `Text`. The JavaScript string operations the code uses:
  - `toLowerCase`, restricted to ASCII letters;
  - `includes`, with a proof that it agrees with the index-window definition of a substring;
  - `trim`, with ECMAScript's exact set of whitespace and line-terminator code points;
  - the decimal `toString` of a non-negative integer, used for `Date.now().toString()`.
- `db.dfy`, module `ReportStore`:
  - The table is a `map<string, Report>`. `Keyed` says each record sits under its own id.
  - `Put` and `Remove` give the table after a write.
  - The queries are functions returning sets, because this model leaves result order open.
  - `ToArray` collects a query result into a list with each record once.
  - Class `ReportsDatabase` holds the table. Its methods `AddReport`, `UpdateReport` and `DeleteReport` change it in place.
- `reports_page.dfy`, module `ReportsPage`:
  - the form record and the status filter;
  - the pure list transformations (`ReplaceById`, `RemoveById`) and the record builders (`Merge`, `NewReport`);
  - the query dispatch (`LoadQuery`, `DisplayQuery`);
  - class `ReportsView`, with the component's state fields and one method per handler.
- `scenario.dfy`, module `Scenario`. One sequence of user actions, with its results proved about the store functions: create "Audit", create "Draft", query, search "audit", edit, query, delete.

The main invariant is `ReportsView.Valid()`. No id appears twice in the displayed list, and every displayed record is exactly the record the store holds under its id. Every handler preserves it. So reconciling without re-querying never shows stale contents. The list can still miss stored records, or show records outside the active filter (`FilteredEditOutlivesFilter`). When the list shows every stored record (filter `all`, no search), the three reconciliations keep it equal to a fresh `getAllReports` (`CreateKeepsFullListing`, `EditKeepsFullListing`, `DeleteKeepsFullListing`).

Inputs from the environment are parameters:

- The clock reading `Date.now()` is `nowMillis: nat`. The timestamp `new Date().toISOString()` is `nowIso: string`.
- The records persisted by earlier sessions are the `stored` table passed to the `ReportsDatabase` constructor. It is empty on the very first opening.
- Whether the storage engine completes a request is `available: bool`. A request it does not complete fails with `StorageUnavailable` and changes nothing.

Behaviours of the code that a reader might not expect:

- A blank search (whitespace only, by `trim`) falls back to the *status-filtered* load, not to `getAllReports`.
- Any other search passes the query to `searchReports` untrimmed.
- `searchReports("")` is well defined and returns every record (`SearchEmptyFindsAll`).
- Selecting the status filter that is already selected triggers no reload, because the effect runs only when `statusFilter` changes. A list left by a search stays on screen.
- "The date is kept on edit" comes from the page's merge `{...editingReport, ...formData}`. The store's `put` replaces the whole record.

## Model

| member | source | states |
|---|---|---|
| `ReportTypes.StatusIsTwoValued` | src/types/Report.ts:6 | every status is `Active` or `Archived`; no other lifecycle state exists |
| `Text.LowerChar` | src/services/db.ts:38-39 | uppercase ASCII letters map to their lowercase partner, every other character is kept, and no uppercase letter is left |
| `Text.Lower` | src/services/db.ts:38-39 | lowercasing keeps the length, moves each uppercase ASCII letter 32 code points up to its lowercase partner, keeps every other character, and leaves no uppercase letter |
| `Text.LowerWithoutUpper` | src/services/db.ts:38-39 | a string with no uppercase ASCII letter lowercases to itself |
| `Text.LowerIdempotent` | src/services/db.ts:38-39 | lowercasing twice equals lowercasing once |
| `Text.Contains` | src/services/db.ts:38-39 | a string includes each of its prefixes, and never a query longer than itself |
| `Text.ContainsIffOccurs` | src/services/db.ts:38-39 | `includes` holds exactly when the query occurs as an index window of the string |
| `Text.ContainedCharsOccur` | src/services/db.ts:38-39 | each character of an included string occurs in the including string |
| `Text.ContainsEmpty` | src/services/db.ts:38-39 | every string includes the empty string |
| `Text.TrimStart` | src/pages/Reports.tsx:66 | the result is a suffix of the input, does not start with whitespace, and everything dropped is whitespace |
| `Text.TrimEnd` | src/pages/Reports.tsx:66 | the result is a prefix of the input, does not end with whitespace, and everything dropped is whitespace |
| `Text.TrimEmptyIffBlank` | src/pages/Reports.tsx:66 | `query.trim() === ''` holds exactly when every character of the query is whitespace |
| `Text.Trim` | src/pages/Reports.tsx:66 | the trimmed string is a window of the input with only whitespace before and after it, and it neither starts nor ends with whitespace |
| `Text.TrimWindowOccurs` | src/pages/Reports.tsx:66 | the trimmed string sits in the input at the point where leading whitespace ends |
| `Text.TrimTailIsWhitespace` | src/pages/Reports.tsx:66 | everything after the trimmed string is whitespace |
| `Text.TrimEndsKept` | src/pages/Reports.tsx:66 | a non-empty trimmed string starts and ends with a non-whitespace character |
| `Text.Decimal` | src/pages/Reports.tsx:112 | the decimal rendering is non-empty, all digits, and has no leading zero |
| `Text.DecimalRoundTrip` | src/pages/Reports.tsx:112 | reading back the decimal rendering of n gives n |
| `Text.DecimalInjective` | src/pages/Reports.tsx:112 | two clock readings give the same id exactly when they are equal |
| `ReportStore.Put` | src/services/db.ts:27-29 | after `put(r)` the table maps r.id to r, its keys gain r.id, and every other key keeps its record |
| `ReportStore.Remove` | src/services/db.ts:31-33 | after `delete(id)` the key is gone and every other key keeps its record |
| `ReportStore.PutKeepsKeyed` | src/services/db.ts:9-11 | `put` keeps every record under its own id |
| `ReportStore.RemoveKeepsKeyed` | src/services/db.ts:9-11 | `delete` keeps every record under its own id |
| `ReportStore.PutIdempotent` | src/services/db.ts:27-29 | applying `put(r)` twice equals applying it once |
| `ReportStore.RemoveIdempotent` | src/services/db.ts:31-33 | deleting twice equals deleting once, and deleting an absent key changes nothing |
| `ReportStore.AllReports` | src/services/db.ts:19-21 | a record is returned exactly when the table holds it under its id; an empty table gives no records |
| `ReportStore.Matches` | src/services/db.ts:37-40 | a record matches exactly when the lowercased query occurs as an index window of its lowercased title or of its lowercased description |
| `ReportStore.SearchReports` | src/services/db.ts:35-42 | a record is returned exactly when it is stored and its lowercased title or description includes the lowercased query |
| `ReportStore.ReportsByStatus` | src/services/db.ts:44-49 | a record is returned exactly when it is stored and its status equals the given one |
| `ReportStore.SearchEmptyFindsAll` | src/services/db.ts:35-42 | searching for the empty string returns every stored record |
| `ReportStore.SearchIgnoresQueryCase` | src/services/db.ts:38-39 | queries that lowercase alike return the same records |
| `ReportStore.StatusPartition` | src/services/db.ts:44-49 | the active and archived results are disjoint and together are all stored records |
| `ReportStore.AddThenAll` | src/services/db.ts:23-25 | after adding r under a fresh key, all records are the old ones plus r, and r is the only record with its id |
| `ReportStore.PutThenAll` | src/services/db.ts:27-29 | after `put(r)` all records are the old ones with other ids, plus r |
| `ReportStore.RemoveThenAll` | src/services/db.ts:31-33 | after `delete(id)` all records are the old ones with other ids |
| `ReportStore.TableHasUniqueIds` | src/services/db.ts:9-11 | no two records of a query result share an id |
| `ReportStore.ToArray` | src/services/db.ts:20 | `toArray()` lists exactly the records of the result, each once |
| `ReportStore.ReportsDatabase.constructor` | src/services/db.ts:7-13 | opening the database yields the keyed table persisted by earlier sessions (empty the first time) |
| `ReportStore.ReportsDatabase.AddReport` | src/services/db.ts:23-25 | fails with `DuplicateKey` and changes nothing when r.id is stored; otherwise the table becomes `Put(old, r)`; an engine failure changes nothing |
| `ReportStore.ReportsDatabase.UpdateReport` | src/services/db.ts:27-29 | the table becomes `Put(old, r)` whether or not r.id was stored; an engine failure changes nothing |
| `ReportStore.ReportsDatabase.DeleteReport` | src/services/db.ts:31-33 | the table becomes `Remove(old, id)`, also for an absent id; an engine failure changes nothing |
| `ReportsPage.EmptyFormIsBlankActive` | src/pages/Reports.tsx:40-44 | the form a create dialog opens with (`EmptyForm`, also restored at lines 88-92) is the form of exactly the reports with blank title and description and status active |
| `ReportsPage.FormOf` | src/pages/Reports.tsx:81-85 | opening an edit copies the report's title, description and status into the form |
| `ReportsPage.Merge` | src/pages/Reports.tsx:105 | the edited record keeps the original id and date and takes the form's three fields |
| `ReportsPage.NewReport` | src/pages/Reports.tsx:111-115 | the new record has the given id and date and the form's three fields |
| `ReportsPage.MergeUnchangedForm` | src/pages/Reports.tsx:105 | submitting an edit whose form was left as opened reproduces the original record |
| `ReportsPage.MergeKeepsOnlyIdAndDate` | src/pages/Reports.tsx:105 | two originals merge with the same form to the same record exactly when their ids and dates agree |
| `ReportsPage.ReplaceById` | src/pages/Reports.tsx:107-109 | same length and order; each entry whose id is the edited id becomes the edited record, every other entry is kept |
| `ReportsPage.RemoveById` | src/pages/Reports.tsx:128 | an entry survives exactly when it was displayed and its id differs from the deleted id |
| `ReportsPage.RemoveByIdAppend` | src/pages/Reports.tsx:128 | removal distributes over concatenation, so the survivors keep their order |
| `ReportsPage.RemoveByIdAbsent` | src/pages/Reports.tsx:128 | a list without the id is left exactly as it was |
| `ReportsPage.RemoveByIdIdempotent` | src/pages/Reports.tsx:128 | removing by id twice equals removing once |
| `ReportsPage.RemoveKeepsDistinct` | src/pages/Reports.tsx:128 | removal keeps a duplicate-free list duplicate-free |
| `ReportsPage.ListingInStore` | src/pages/Reports.tsx:53-56 | a listing of a query result shows records exactly as the store holds them |
| `ReportsPage.AppendInStore` | src/pages/Reports.tsx:116-117 | appending the record just added under a fresh key keeps the list duplicate-free and in step with the store |
| `ReportsPage.ReplaceInStore` | src/pages/Reports.tsx:106-109 | replacing by id with the record just put keeps the list duplicate-free and in step with the store |
| `ReportsPage.RemoveInStore` | src/pages/Reports.tsx:127-128 | removing by id what was just deleted keeps the list duplicate-free and in step with the store |
| `ReportsPage.CreateKeepsFullListing` | src/pages/Reports.tsx:111-117 | if the list showed every stored record, appending the created record still shows exactly the stored records |
| `ReportsPage.EditKeepsFullListing` | src/pages/Reports.tsx:104-109 | if the list showed every stored record, replacing an edited stored record still shows exactly the stored records |
| `ReportsPage.DeleteKeepsFullListing` | src/pages/Reports.tsx:125-128 | if the list showed every stored record, removing the deleted id still shows exactly the stored records |
| `ReportsPage.FilteredEditOutlivesFilter` | src/pages/Reports.tsx:104-109 | under the `active` filter, a report edited to archived stays displayed although the filter's query no longer returns it |
| `ReportsPage.LoadQuery` | src/pages/Reports.tsx:53-55 | filter `all` returns exactly the stored records; a status filter returns exactly the stored records with that status |
| `ReportsPage.DisplayQuery` | src/pages/Reports.tsx:64-72 | what a search displays is always a subset of the stored records |
| `ReportsPage.BlankSearchIsLoad` | src/pages/Reports.tsx:66-68 | a search text of whitespace only displays the status-filtered load |
| `ReportsPage.SearchIgnoresFilter` | src/pages/Reports.tsx:70-72 | any other search text displays exactly the search result, the same under every status filter |
| `ReportsPage.ReportsView.constructor` | src/pages/Reports.tsx:34-44 | initially the list is empty, the dialog closed, nothing is being edited, loading is on, the filter is `all`, the search text empty and the form empty with status active |
| `ReportsPage.ReportsView.LoadReports` | src/pages/Reports.tsx:50-62 | when the store answers, the list is replaced wholesale by a listing of the filter's query; otherwise it is kept; loading ends off either way |
| `ReportsPage.ReportsView.SetStatusFilter` | src/pages/Reports.tsx:46-48 | the filter is recorded; when it differs from the current one the list is reloaded with it (kept if the store fails) and loading ends; selecting the current filter again leaves the list and loading as they were |
| `ReportsPage.ReportsView.HandleSearch` | src/pages/Reports.tsx:64-76 | records the search text; when the store answers, the list becomes a listing of `DisplayQuery`; a failure keeps the list; only a blank search touches loading |
| `ReportsPage.ReportsView.HandleOpen` | src/pages/Reports.tsx:78-95 | opens the dialog, sets the report being edited, and fills the form from it or with the empty active form |
| `ReportsPage.ReportsView.HandleClose` | src/pages/Reports.tsx:97-100 | closes the dialog and clears the report being edited; the form is kept |
| `ReportsPage.ReportsView.SetFormTitle` | src/pages/Reports.tsx:228 | only the form's title changes |
| `ReportsPage.ReportsView.SetFormDescription` | src/pages/Reports.tsx:234 | only the form's description changes |
| `ReportsPage.ReportsView.SetFormStatus` | src/pages/Reports.tsx:244 | only the form's status changes |
| `ReportsPage.ReportsView.HandleSubmit` | src/pages/Reports.tsx:102-123 | an edit puts the merged record and replaces it by id; a create adds a record with id `Decimal(nowMillis)` and date `nowIso` and appends it; only a successful store call updates the list and closes the dialog, and a failure (including a duplicate id) changes nothing |
| `ReportsPage.ReportsView.HandleDelete` | src/pages/Reports.tsx:125-132 | after the store deletes the id, every displayed entry with that id is dropped; a failure changes nothing |
| `Scenario.AuditMatches` | src/services/db.ts:38-39 | the query "audit" matches the title "Audit" |
| `Scenario.DraftMisses` | src/services/db.ts:38-39 | the query "audit" matches neither "Draft" nor "internal notes" |
| `Scenario.AuditDraftScenario` | src/services/db.ts:19-49 | create Audit then Draft; archived query gives Draft; search "audit" gives Audit; after editing Draft to active, the active query gives both; after deleting Audit, all records are the edited Draft |

## Left out

- Result order. Dexie returns records in primary-key order. Here the queries return sets and `ToArray` picks an arbitrary order.
- Unicode case mapping. `Text.Lower` lowercases only ASCII letters; `toLowerCase` on other scripts is not modelled.
- Concurrency. Each handler is one atomic step. Overlapping searches, and the suspension at each `await`, are not modelled.
- Storage-engine errors are the single flag `available`. Quota, corruption and schema versioning are not modelled.
- Dexie's secondary indexes on title, description, date and status (`src/services/db.ts:10`). Only primary-key semantics are modelled.
- The clock and `new Date().toISOString()` are parameters. ISO-8601 formatting is not modelled.
- `Text.Decimal`: does not model the exponent notation `toString` uses from 1e21 up; clock readings are far below that.
- `console.error` logging, the loading spinner, JSX rendering, the dialog widgets and date display formatting.
- `src/App.tsx`, `src/components/Layout.tsx` and `src/pages/Settings.tsx`: routing, navigation shell, theming and UI-only toggles with no effect on the store or the list.
