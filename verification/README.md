# Company table: a Dafny model

This project models the logic of the company table of a small web tool
that stores website metadata (name, description, logo, screenshot) for
URLs a user submits. The table component lists the stored companies, pages
through them ten at a time, lets the user select rows and delete the
selection, exports the list as CSV, and validates URLs before submitting
them. Everything else in the repository is network, storage and rendering
plumbing.

The model is written as pure functions over immutable data:

- `text.dfy`: `Wrappers.Option`; `Sequences`, small facts about
  concatenation and slicing that the larger proofs cite; `Text.Join`
  (`Array.prototype.join`, with `Text.Split` as its inverse) and `Text.Trim`
  (`String.prototype.trim`, with ECMAScript's exact white space and line
  terminator sets).
- `csv.dfy`: `Csv.ConvertToCsv` (`convertToCSV`) over records given as
  (key, value) pairs, with a value a string, another value's text, or null.
  The module also has a reader for the quoting of section 2 of RFC 4180,
  with LF as the record separator, and proves that reading an export back
  gives the header and every record's fields.
- `pagination.dfy`: the page window, the page count, the click handler's
  offset, and the proof that the pages tile the list.
- `selection.dfy`: the selection array as a set: row toggle, page select
  (a de-duplicated union), page deselect (a filter) and the header's
  "all selected" test.
- `url.dfy`: the URL regular expression. It is written twice: once as a
  declarative description of the strings it matches, once as a scheme test
  followed by a small automaton. The two are proved equal.
- `table.dfy`: the component's state and its handlers as state
  transitions. The outcome of each network request is a parameter:
  whether the request succeeded, and what the list request after it
  returned. It also proves that the selection never holds an id twice.

A few behaviours of the code differ from what a user of the table would
expect. The model keeps the code's behaviour in each case:

- A failed add request is only logged. The success path shows a message,
  but the failure path shows none, so `CompanyTable.AddCompany` clears
  both messages and changes nothing else.
- The page click takes the offset modulo the list length on every click.
  `Pagination.PageClickOffset` proves that this wrap-around never changes
  the offset for a page the paginator offers.
- One might expect the selection to stay a subset of the loaded ids, but it
  does not: a reload keeps the selection whatever the new list holds, so no
  such invariant is claimed.
- The component renders an Export button, but it has no click handler, so
  the export is never offered. The serialiser is still modelled.

`CompanyTable.DeleteCanLeaveEmptyPage` records one consequence of the code.
A successful delete reloads the list but keeps the page offset. So when the
reloaded list ends at or before the offset, as it does after deleting every
row of the last page, an empty page is on view while the list may still
have records.

## Model

| member | source | states |
|---|---|---|
| `Csv.ConvertToCsv` | client/src/components/CompanyTable.jsx:86-102 | The export is the empty text exactly when there are no records; any record, even one without keys, yields a line break |
| `Csv.Lookup` | client/src/components/CompanyTable.jsx:92 | `row[field]` is the value stored under the first occurrence of the key, and null when the key is absent |
| `Csv.KeysLookup` | client/src/components/CompanyTable.jsx:88-92 | Looking a record up under each of its own keys gives back each value stored with it |
| `Text.JoinSplit` | client/src/components/CompanyTable.jsx:89-101 | Splitting a join of separator-free parts at the separator gives the parts back, so `join` inserts one separator between each two consecutive parts and nothing else |
| `Csv.FieldValue` | client/src/components/CompanyTable.jsx:92 | A field is never null: a missing or null value reads as the empty string, any other value is the record's own value |
| `Csv.DoubleQuotes` | client/src/components/CompanyTable.jsx:94 | Doubling quotes keeps the set of characters, never shortens the text, and leaves quote-free text unchanged |
| `Csv.EscapeString` | client/src/components/CompanyTable.jsx:93-96 | A string field is wrapped in quotes, with its quotes doubled, exactly when it holds a quote, comma or LF; otherwise it is emitted unchanged |
| `Csv.QuotedRoundTrip` | client/src/components/CompanyTable.jsx:94-95 | The content of a quoted field reads back as the original value under RFC 4180 rule 7 |
| `Csv.FieldRoundTrip` | client/src/components/CompanyTable.jsx:92-97 | Every written field, quoted or plain, reads back as its text when followed by a comma, an LF or the end |
| `Csv.RecordRoundTrip` | client/src/components/CompanyTable.jsx:91-99 | A comma-joined line of written fields reads back as one record with exactly those fields |
| `Csv.DocumentRoundTrip` | client/src/components/CompanyTable.jsx:89-101 | LF-joined lines read back as one record per line, in order |
| `Csv.ExportRoundTrip` | client/src/components/CompanyTable.jsx:86-102 | Reading the export back gives the first record's keys, then one row per record with one field per key: the record's value under that key, empty for null or missing values |
| `Text.Trim` | client/src/components/CompanyTable.jsx:63 | Trimming yields the middle of the input with only white space or line terminators cut off; it starts and ends with neither; it is empty exactly for blank input |
| `Text.TrimIdempotent` | client/src/components/CompanyTable.jsx:63 | Trimming is idempotent: trimming the trimmed input changes nothing |
| `Pagination.PageWindow` | client/src/components/CompanyTable.jsx:44-46 | The visible page is the items from the offset on, `min(10, n - offset)` of them when the offset is inside the list, none otherwise |
| `Pagination.Slice` | client/src/components/CompanyTable.jsx:46 | `slice` clamps both bounds to the length and is empty when the end comes before the beginning; its elements are the list's from the beginning on |
| `Pagination.PageCount` | client/src/components/CompanyTable.jsx:47 | The page count is the ceiling of n/10: its pages hold all items and one page fewer would not |
| `Pagination.PageClickOffset` | client/src/components/CompanyTable.jsx:50-53 | For a non-empty list the new offset is inside the list, and for every offered page number `p` it is exactly `10 * p` |
| `Pagination.PagesTileList` | client/src/components/CompanyTable.jsx:44-53 | The offered pages, each the window a click on its number shows, concatenate back to the whole list |
| `Selection.Without` | client/src/components/CompanyTable.jsx:208 | Filtering ids out keeps exactly the members not filtered and keeps the array duplicate-free |
| `Selection.WithoutAppend` | client/src/components/CompanyTable.jsx:208 | Filtering distributes over concatenation, so the kept ids stay in their order |
| `Selection.Dedup` | client/src/components/CompanyTable.jsx:207 | `[...new Set(s)]` has no duplicates and the same members, and is `s` itself when `s` has none |
| `Selection.DedupAppend` | client/src/components/CompanyTable.jsx:207 | De-duplicating `a + b` gives de-duplicated `a` followed by what `b` adds, in `b`'s order |
| `Selection.Toggle` | client/src/components/CompanyTable.jsx:237-241 | The row toggle flips the membership of its id, leaves every other id's membership alone and keeps the array duplicate-free |
| `Selection.ToggleTwice` | client/src/components/CompanyTable.jsx:237-241 | Toggling twice restores the selected set, and the very array when the id was not selected |
| `Selection.SelectPage` | client/src/components/CompanyTable.jsx:207 | Page select is a duplicate-free union; for a duplicate-free selection it is the selection followed by the page's new ids in page order |
| `Selection.DeselectPage` | client/src/components/CompanyTable.jsx:208 | Page deselect keeps exactly the selected ids not on the page |
| `Selection.SelectThenDeselect` | client/src/components/CompanyTable.jsx:203-209 | Selecting and then deselecting a page gives the prior selection minus the page's ids, in order |
| `Selection.AllSelected` | client/src/components/CompanyTable.jsx:198-201 | The header is checked exactly when the page is non-empty and every id on it is selected |
| `UrlValidation.IsValidUrlMatchesPattern` | client/src/components/CompanyTable.jsx:55-58 | The recogniser accepts exactly the strings the URL regular expression matches: http or https scheme, one or more dotted labels, a final label of at least two characters, an optional path without line terminators |
| `CompanyTable.HeaderChecked` | client/src/components/CompanyTable.jsx:198-201 | The header checkbox is checked exactly when the page shows at least one record and every record on it has its id selected |
| `CompanyTable.ListLoaded` | client/src/components/CompanyTable.jsx:31-38 | A list response replaces the list and nothing else; a failed list request changes nothing |
| `CompanyTable.PageClicked` | client/src/components/CompanyTable.jsx:50-53 | A page click only moves the offset, into the list, showing a non-empty page; an offered page number shows exactly that page |
| `CompanyTable.RowToggled` | client/src/components/CompanyTable.jsx:236-241 | A row checkbox flips its id's selection and changes nothing else |
| `CompanyTable.HeaderChanged` | client/src/components/CompanyTable.jsx:198-209 | Checking the header adds the page's ids and shows it checked; clearing it removes them and shows it unchecked; only the selection changes |
| `CompanyTable.HeaderCheckThenClear` | client/src/components/CompanyTable.jsx:202-209 | Checking and clearing the header on one page gives the earlier selection minus that page |
| `CompanyTable.DeleteSelected` | client/src/components/CompanyTable.jsx:118-131 | A delete request is sent exactly when something is selected, carrying the selection; success reloads the list and clears the selection; failure or an empty selection changes nothing |
| `CompanyTable.AddCompany` | client/src/components/CompanyTable.jsx:60-84 | A request is sent exactly when the trimmed input matches the URL pattern, and it carries the trimmed input; otherwise only the validation message is set; success clears the input and reloads the list; failure only clears the messages |
| `CompanyTable.SelectionStaysDuplicateFree` | client/src/components/CompanyTable.jsx:26-241 | From the initial state, after any events, the selection array holds no id twice |
| `CompanyTable.DeleteCanLeaveEmptyPage` | client/src/components/CompanyTable.jsx:44-131 | A successful delete whose reloaded list ends at or before the offset keeps the offset and leaves the page on view empty, whatever the list holds |

## Left out

- `server/index.js` (the metadata endpoint) is Express routing around a third-party metadata service and a hosted database insert. Neither library is visible, and the list and delete endpoints the table calls are not part of this model.
- `client/src/components/CompanyDetail.jsx`, `client/src/App.jsx`, `client/src/pages/Home.jsx` and `client/src/context/CompanyContext.jsx` are rendering, routing and context wiring with no logic to verify.
- `downloadCSV` and `copyToClipboard` use browser APIs (Blob, object URLs, the clipboard). The serialiser they would feed is modelled.
- JSX rendering, icons, styles and the "Showing a-b of n" label are presentation only.
- The `setTimeout` calls that clear messages after three seconds are timers. Messages therefore stay set in the model until the next handler clears them.
- The `loading` flag is set and then reset by the same handler. Its only effect is to disable the button while a request is in flight, which needs a concurrency model.
- Overlapping requests and races between `fetchCompanies` responses are not modelled. Each request's outcome is applied as one event, in the order the events are given.
- `Csv.Keys`: follows the record's key order. JavaScript's `Object.keys` lists integer-like keys first, in ascending order; the record's field names are not integer-like.
- `Csv.Value`: a non-string value is given by the text JavaScript converts it to. That conversion is not modelled, so neither is the way an array value would bring commas into its line.
- `Csv.ExportRoundTrip`: the read-back is proved only for exports with a non-empty header and with keys and non-string values free of quotes, commas and LFs. The code does not escape those, and an empty header makes every line a single empty field.
- `UrlValidation.IsValidUrl`: works on Unicode scalar values. JavaScript strings are UTF-16 code units; lone surrogates cannot be written in the model.
- `Pagination.Slice`: handles only non-negative bounds. The offset is never negative because the paginator's page numbers start at 0.
- `CompanyTable.Apply`: a page click on an empty list is ignored, because the paginator shows no page numbers then. In the code the remainder by zero would be NaN.
