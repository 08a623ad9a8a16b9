# WebHarvester-AI core, modelled in Dafny

WebHarvester-AI fetches a web page and asks a language model which
repeating structures on it hold data, for example "the product cards". The
model answers with "collections": a CSS selector for the repeating element,
and for each field a label, a selector and an optional attribute. The app
then does the following:

- It validates the proposals against the parsed page and numbers the
  survivors `coll-i` and `dp-i-j`.
- It lets the user pick points, with a search filter and a select-all
  button.
- It extracts one row per matched element from the first selected
  collection.
- It exports the rows as CSV.
- The page keeps an app state machine, scrape statistics, and a history of
  the five most recent scrapes.

This project models those rules and proves properties of them.

| file | module | what it models |
|---|---|---|
| `wrappers.dfy` | `Wrappers` | `Option` and `Result` |
| `dom.dfy` | `Dom` | the parsed document, only through the queries the core makes |
| `jsstring.dfy` | `JsString` | `String.prototype.trim`, `toLowerCase`, `includes`, decimal formatting, `join`, and a `split` used to read output back |
| `jsonstring.dfy` | `JsonString` | `JSON.stringify` on a string, and a decoder for its output |
| `rows.dfy` | `Rows` | a scraped row as a JavaScript object: own keys in insertion order, its prototype, `row[k] = v` and `row[k]` |
| `collections.dfy` | `Collections` | proposed and validated collections and points, and the id strings |
| `validation.dfy` | `Validation` | the validation step of the suggestion effect |
| `selection.dfy` | `Selection` | toggling, the search filter, "all visible selected", select/deselect all |
| `extraction.dfy` | `Extraction` | `handleScrape`: choosing the collection, building rows, its outcomes |
| `workspace.dfy` | `ScrapingWorkspace` | the workspace component's state and its handlers (class `Workspace`) |
| `csv.dfy` | `Csv` | `convertToCSV` |
| `app.dfy` | `App` | the page component's state and its handlers (class `Home`) |

Four behaviours of the code worth knowing:

- CSV cells are quoted by `JSON.stringify`, as `src/lib/csv.ts:13` does. A
  quote inside a value becomes `\"`, not `""` as RFC 4180 would have it.
  Control characters are escaped, so no cell holds a line break.
- A cell is computed as `value ? value.trim() : null`
  (`src/components/ScrapingWorkspace.tsx:244`). A value made only of white
  space becomes the empty string, not `null`. Only an empty or missing value
  becomes `null`.
- A selector the browser's engine rejects makes `querySelectorAll` and
  `querySelector` throw. The throw is caught once, for the whole suggestion
  step or the whole scrape. It is not caught per selector. One bad selector
  therefore aborts all of validation ("AI Suggestion Failed") or all of
  extraction ("Scraping Failed").
- A row starts as `{}`, so it inherits `Object.prototype`, whose
  `__proto__` is a setter. Writing `row["__proto__"] = null` drops the
  prototype; writing a string there does nothing. Only a later
  `__proto__` write, after the prototype is gone, creates the key. Reading
  `row["__proto__"]` on a row that still has its prototype gives
  `Object.prototype`, which `JSON.stringify` writes as `{}`. See
  "## Findings".

## Model

| member | source | states |
|---|---|---|
| JsString.Trim | src/components/ScrapingWorkspace.tsx:244 | the result is a contiguous piece of the input with only white space cut from both ends; it neither starts nor ends with white space; it is empty exactly when the input is all white space |
| JsString.TrimIdempotent | src/components/ScrapingWorkspace.tsx:244 | trimming a trimmed value changes nothing |
| JsString.Includes | src/components/ScrapingWorkspace.tsx:158-159 | `s.includes(t)`; `IncludesIff` states what it means |
| JsString.IncludesIff | src/components/ScrapingWorkspace.tsx:158-159 | `includes` holds exactly when the needle occurs at some position |
| JsString.ToLower | src/components/ScrapingWorkspace.tsx:158-159 | the result has the same length, no upper-case ASCII letter, and each character is the original or, for `A`-`Z`, its lower-case letter |
| JsString.IncludesEmpty | src/components/ScrapingWorkspace.tsx:158-159 | every string includes the empty string, so an empty search term hides nothing |
| JsString.DecimalRoundTrip | src/components/ScrapingWorkspace.tsx:108 | the decimal text of an index reads back as that index |
| JsString.Join | src/lib/csv.ts:10-16 | `xs.join(sep)`; `SplitJoin` and `JoinAvoids` state what it keeps |
| JsString.SplitJoin | src/lib/csv.ts:16 | splitting the CRLF-joined lines on CRLF gives back the lines when none holds a carriage return |
| JsString.JoinAvoids | src/lib/csv.ts:14 | joining pieces that avoid a character, with a separator that avoids it, gives text that avoids it |
| JsonString.EscapeChar | src/lib/csv.ts:13 | an escaped character holds no control character |
| JsonString.Quote | src/lib/csv.ts:13 | a quoted string is delimited by double quotes and holds no control character, so no CR or LF; `QuoteRoundTrip` decodes it back |
| JsonString.QuoteRoundTrip | src/lib/csv.ts:13 | decoding a quoted string gives back the string |
| Rows.Keys | src/lib/csv.ts:6 | `Object.keys` lists each own property's key, in insertion order |
| Rows.LookupFound | src/lib/csv.ts:13 | a property is found exactly when its key is listed |
| Rows.Assign | src/components/ScrapingWorkspace.tsx:244 | `row[k] = v` leaves every other key alone; while the row still has `Object.prototype`, writing `__proto__` creates no key and drops the prototype exactly when `v` is `null`; in every other case `k` is set to `v`, a new key is appended to the key order, an existing one keeps its place, and the prototype is unchanged |
| Rows.Put | src/components/ScrapingWorkspace.tsx:244 | creating or overwriting an own property sets that key, leaves the others alone, and appends a new key at the end of the key order |
| Rows.Get | src/lib/csv.ts:13 | `row[k]` is an own value exactly when `k` is a key; it is the inherited prototype exactly for `__proto__` on a row that has no such key and still has its prototype; otherwise `undefined`, which also stands for an inherited function such as `toString`, since `JSON.stringify` gives `undefined` for a function and the CSV cell is the same |
| Rows.ReadAfterWrite | src/components/ScrapingWorkspace.tsx:244 | after `row[k] = v`, reading `row[k]` gives `v`, except that after the `__proto__` setter it gives `undefined` when `v` was `null` and the prototype otherwise |
| Collections.CollectionId | src/components/ScrapingWorkspace.tsx:108 | the id `coll-i`; `CollectionIdRoundTrip` reads `i` back |
| Collections.PointId | src/components/ScrapingWorkspace.tsx:113 | the id `dp-i-j`; `PointIdRoundTrip` and `PointIdInjective` read the indices back |
| Collections.CollectionIdRoundTrip | src/components/ScrapingWorkspace.tsx:108 | `coll-i` parses back to `i` |
| Collections.PointIdRoundTrip | src/components/ScrapingWorkspace.tsx:113 | `dp-i-j` parses back to `(i, j)` |
| Collections.PointIdInjective | src/components/ScrapingWorkspace.tsx:113 | two point ids are equal only when both indices are |
| Validation.KeptPoints | src/components/ScrapingWorkspace.tsx:95-101 | the kept points are no more than the proposed ones, and each resolves inside the first matched element |
| Validation.KeptNonEmpty | src/components/ScrapingWorkspace.tsx:95-105 | some point is kept exactly when some proposed point resolves |
| Validation.KeptInOrder | src/components/ScrapingWorkspace.tsx:95-101 | the kept points are the proposed ones at strictly increasing positions, so the order is kept |
| Validation.KeptExactly | src/components/ScrapingWorkspace.tsx:95-101 | a proposed point is kept exactly when it resolves |
| Validation.ValidateCollection | src/components/ScrapingWorkspace.tsx:85-115 | a proposal survives exactly when its selector matches and some point resolves in the first match; a survivor has id `coll-i`, keeps name and selector, and numbers its kept points `dp-i-0`, `dp-i-1`, … in order |
| Validation.ValidateFrom | src/components/ScrapingWorkspace.tsx:85-116 | the survivors are no more than the proposals, and each is sound: its selector matches, it has points, and each point resolves in the first match |
| Validation.ValidateCollections | src/components/ScrapingWorkspace.tsx:85-116 | the validated collections; `SurvivorAt`, `SurvivesExactly`, `ValidatedPoints` and `IdsDistinct` state what they hold |
| Validation.SurvivorsIncrease | src/components/ScrapingWorkspace.tsx:116 | the survivors come from strictly increasing oracle indices inside the proposal list |
| Validation.SurvivorAt | src/components/ScrapingWorkspace.tsx:85-116 | the `k`-th survivor is what validating the proposal at its oracle index gives |
| Validation.SurvivesExactly | src/components/ScrapingWorkspace.tsx:88-105 | a proposal is among the survivors exactly when it survives validation on its own |
| Validation.ValidatedPoints | src/components/ScrapingWorkspace.tsx:95-114 | each survivor's points are its proposal's resolving points, in proposed order, numbered with the oracle index |
| Validation.PointIdAt | src/components/ScrapingWorkspace.tsx:113 | the `j`-th point of a survivor has id `dp-i-j`, where `i` is the oracle index before filtering |
| Validation.CollectionIdAt | src/components/ScrapingWorkspace.tsx:108 | the `k`-th collection of the result has id `coll-i`, where `i` is its oracle index before filtering |
| Validation.CollectionIdsDiffer | src/components/ScrapingWorkspace.tsx:108 | two survivors with the same id are the same survivor |
| Validation.PointIdsDiffer | src/components/ScrapingWorkspace.tsx:113 | two points with the same id are the same point of the same survivor |
| Validation.IdsDistinct | src/components/ScrapingWorkspace.tsx:107-116 | no two collections and no two points of the whole result share an id |
| Validation.Validate | src/components/ScrapingWorkspace.tsx:78-131 | the step fails exactly when some proposal's selectors throw; otherwise every collection it yields is sound |
| Validation.ValidatedSelectorsValid | src/components/ScrapingWorkspace.tsx:85-116 | after a successful step, every collection selector and point selector in the result is accepted by the selector engine |
| Validation.SelectorValidAt | src/components/ScrapingWorkspace.tsx:87 | after a successful step, each resulting collection's repeating selector is accepted by the selector engine |
| Validation.PointSelectorValidAt | src/components/ScrapingWorkspace.tsx:95-101 | after a successful step, each resulting point's selector is accepted by the selector engine |
| Validation.InitialSelection | src/components/ScrapingWorkspace.tsx:120-124 | the auto-selection is the first collection's point ids, or empty when there is no collection |
| Validation.InitialSelectionOfValidated | src/components/ScrapingWorkspace.tsx:118-124 | after validation the selection is empty exactly when nothing survived; otherwise it is `dp-i-0` … `dp-i-(n-1)` of the first survivor |
| Selection.Toggled | src/components/ScrapingWorkspace.tsx:143-153 | toggling flips the membership of that id and of no other |
| Selection.ToggleTwice | src/components/ScrapingWorkspace.tsx:143-153 | toggling the same id twice restores the selection |
| Selection.VisiblePoints | src/components/ScrapingWorkspace.tsx:157-160 | the visible points are exactly the points that match the search term in their label or their collection's name |
| Selection.FilteredCollections | src/components/ScrapingWorkspace.tsx:155-163 | each result is an input collection cut down to its visible points and has at least one; every input collection with a visible point appears cut down, so one with none is dropped |
| Selection.FilteredInOrder | src/components/ScrapingWorkspace.tsx:155-163 | the filtered collections are the cut-down input collections at increasing positions, so the input order is kept |
| Selection.FlatIds | src/components/ScrapingWorkspace.tsx:165-167 | an id is listed exactly when some point of some collection carries it |
| Selection.PointVisible | src/components/ScrapingWorkspace.tsx:157-159 | the search filter on one point; `VisiblePoints` and `VisibleIdsExactly` state its effect |
| Selection.VisibleIds | src/components/ScrapingWorkspace.tsx:165-167 | `allVisibleDataPointIds`; `VisibleIdsExactly` states which ids it holds |
| Selection.VisibleIdsExactly | src/components/ScrapingWorkspace.tsx:155-167 | an id is visible exactly when a point carrying it passes the search filter in its collection |
| Selection.AllVisibleSelected | src/components/ScrapingWorkspace.tsx:169-172 | true exactly when something is visible and every visible id is selected |
| Selection.Every | src/components/ScrapingWorkspace.tsx:171 | `every` holds exactly when each listed id is selected |
| Selection.BulkToggled | src/components/ScrapingWorkspace.tsx:174-186 | when all visible ids are selected they are all removed, otherwise they are all added; hidden ids keep their membership |
| Selection.BulkToggleTwice | src/components/ScrapingWorkspace.tsx:174-186 | with something visible, each press flips "all selected"; two presses from a partial selection deselect every visible id, and two presses from a full selection leave everything visible selected |
| Extraction.RawValueRead | src/components/ScrapingWorkspace.tsx:235-243 | nothing is read when no descendant matches; with no attribute, or the empty one, a match is always read, as its text; with an attribute, what is read is that attribute |
| Extraction.RawValue | src/components/ScrapingWorkspace.tsx:235-243 | what one point reads inside one element; `RawValueRead` and `CellValue` state its cases |
| Extraction.CellValue | src/components/ScrapingWorkspace.tsx:236-244 | the cell is `null` exactly when no element matched, the attribute is absent, or the value is empty; otherwise it is the trimmed value |
| Extraction.CellIsTrimmed | src/components/ScrapingWorkspace.tsx:244 | a cell is already trimmed, and a value made only of white space gives the empty string |
| Extraction.RowKeys | src/components/ScrapingWorkspace.tsx:232-247 | when at most one selected point is labelled `__proto__`, a row's keys depend only on the selected points, so every row of a scrape has the same keys; with no such label the prototype is kept |
| Extraction.RowNullProto | src/components/ScrapingWorkspace.tsx:234-245 | a row loses its prototype exactly when some point labelled `__proto__` reads `null` in that element |
| Extraction.RowProtoKey | src/components/ScrapingWorkspace.tsx:234-245 | a row has the key `__proto__` exactly when a point labelled `__proto__` reads `null` and a later point carries the same label |
| Extraction.RowOtherKeys | src/components/ScrapingWorkspace.tsx:234-245 | for any points, the keys other than `__proto__` are exactly the ones `KeysFor` lists |
| Extraction.RowFor | src/components/ScrapingWorkspace.tsx:233-246 | the row of one element, assigning each selected point's cell in turn to a fresh `{}`; `RowKeys`, `RowNullProto`, `RowProtoKey`, `RowOtherKeys` and `LastLabelWins` state what it holds |
| Extraction.RaggedRows | src/components/ScrapingWorkspace.tsx:233-244 | for a concrete page with two points labelled `__proto__`, one row has the key `__proto__` and the other has no key, and the CSV writes `{}` for the second row |
| Extraction.BareRowKeys | src/components/ScrapingWorkspace.tsx:233-244 | a row started without a prototype has one key per distinct label, `__proto__` included, in order of first occurrence, for every element |
| Extraction.KeysForExactly | src/components/ScrapingWorkspace.tsx:234-245 | `KeysFor` lists a key exactly when it is a selected label other than `__proto__`, and lists none twice |
| Extraction.KeysAreLabels | src/components/ScrapingWorkspace.tsx:234-245 | with distinct labels and no `__proto__`, the keys are the labels in selection order |
| Extraction.LastLabelWins | src/components/ScrapingWorkspace.tsx:234-245 | when labels repeat, reading the label gives the value of the last point with that label |
| Extraction.BuildRow | src/components/ScrapingWorkspace.tsx:233-246 | the loop, starting from `{}`, builds the row that assigning each selected point's cell in turn defines |
| Extraction.BuildRows | src/components/ScrapingWorkspace.tsx:232-247 | one row per matched element, in document order |
| Extraction.SelectedCollections | src/components/ScrapingWorkspace.tsx:196-198 | a collection is kept exactly when one of its points is selected, and none is kept exactly when no point of any collection is selected |
| Extraction.SelectedInOrder | src/components/ScrapingWorkspace.tsx:196-198 | the kept collections are the collections at strictly increasing positions, so their order is kept |
| Extraction.MultipleSelected | src/components/ScrapingWorkspace.tsx:209-214 | more than one collection is kept exactly when two different collections each have a selected point |
| Extraction.FirstSelectedIsFirst | src/components/ScrapingWorkspace.tsx:196-216 | the collection scraped is the first collection, in order, that has a selected point |
| Extraction.FilterSelected | src/components/ScrapingWorkspace.tsx:217-219 | the points scraped are exactly the chosen collection's selected points |
| Extraction.FilterInOrder | src/components/ScrapingWorkspace.tsx:217-219 | the selected points are the collection's points at strictly increasing positions, so their order is kept |
| Extraction.ScrapeShape | src/components/ScrapingWorkspace.tsx:196-247 | "No Data Points Selected" exactly when nothing is selected; a successful scrape has one row per matched element of the first selected collection, in order, each built from that collection's selected points |
| Extraction.ScrapeNotesMultiple | src/components/ScrapingWorkspace.tsx:209-214 | once a collection is chosen, every outcome (throw, no elements, rows) records the "Multiple Collections Selected" note exactly when two collections have selected points |
| Extraction.ScrapedRowsRectangular | src/components/ScrapingWorkspace.tsx:232-247 | when at most one selected point is labelled `__proto__`, every row of a successful scrape has the same keys |
| Extraction.ScrapeResult | src/components/ScrapingWorkspace.tsx:188-262 | the outcome of the handler; `ScrapeShape`, `ScrapeNotesMultiple`, `ScrapedRowsRectangular` and `ValidatedScrapeSucceeds` state its properties |
| Extraction.ValidatedScrapeSucceeds | src/components/ScrapingWorkspace.tsx:85-116 | scraping the page the collections were validated against never throws and never finds no elements: it reports that nothing is selected, or it yields rows |
| Extraction.Scrape | src/components/ScrapingWorkspace.tsx:188-262 | the handler's outcome is the one `ScrapeResult` defines, including the multiple-collections flag on every outcome after a collection is chosen |
| ScrapingWorkspace.Workspace.constructor | src/components/ScrapingWorkspace.tsx:46-48 | the workspace starts with no collections, no selection and an empty search term |
| ScrapingWorkspace.Workspace.Suggest | src/components/ScrapingWorkspace.tsx:51-136 | a missing key is reported exactly when the key is empty; collections are set exactly when there is a key, the oracle succeeds and no selector throws, and then the selection is the first collection's points; otherwise collections and selection are left empty |
| ScrapingWorkspace.Workspace.SetSearchTerm | src/components/ScrapingWorkspace.tsx:293 | the search box sets the term |
| ScrapingWorkspace.Workspace.ToggleDataPoint | src/components/ScrapingWorkspace.tsx:143-153 | the new selection is the old one with that id flipped |
| ScrapingWorkspace.Workspace.ToggleSelectAll | src/components/ScrapingWorkspace.tsx:174-186 | the deletion loop and the union produce the bulk-toggled selection |
| Csv.EncodeCell | src/lib/csv.ts:7-13 | a cell is blank exactly when the property is `undefined`, and holds no control character; `ParseEncodedCell` reads it back |
| Csv.ConvertToCsv | src/lib/csv.ts:1-19 | the output is empty exactly when there are no rows |
| Csv.RowView | src/lib/csv.ts:11-15 | what a reader should find on a row's data line: one cell per header, blank where the property is `undefined`, `{}` for the inherited prototype, otherwise the row's value |
| Csv.ParseEncodedCell | src/lib/csv.ts:13 | an encoded cell followed by a comma or the end reads back as its view: blank for `undefined`, the empty string for `null`, the string otherwise, an empty object for the prototype |
| Csv.ParseQuotedCell | src/lib/csv.ts:13 | a quoted string followed by a comma or the end of the line reads back as that string |
| Csv.DataLineRoundTrip | src/lib/csv.ts:11-15 | a data line reads back as the row's values under the headers |
| Csv.DataLineHasNoLineBreak | src/lib/csv.ts:11-15 | a data line holds no CR and no LF |
| Csv.CsvLines | src/lib/csv.ts:6-16 | n rows give n + 1 lines, the header line and then one data line per row, when no key of the first row holds a carriage return |
| Csv.CsvRoundTrip | src/lib/csv.ts:1-19 | the header line splits back into the first row's keys, and each data line reads back as that row's values under those keys |
| App.PageTitle | src/app/page.tsx:104-117 | the title is the URL unless there is content, a `<title>` element and non-empty text in it; then it is that text trimmed |
| App.PushRecent | src/app/page.tsx:132 | the new entry comes first, then the previous entries in order, at most five in all |
| App.HistoryIsLatestFirst | src/app/page.tsx:132 | after any run of scrapes the history is the latest five entries, newest first, followed by what is left of the earlier history |
| App.WindowAbsorbs | src/app/page.tsx:132 | cutting the old history to five before prepending does not change the first five |
| App.Home.constructor | src/app/page.tsx:43-47 | idle, no content, no rows, no history, zero counters, empty form |
| App.Home.SetUrl | src/app/page.tsx:68-73 | the form field holds the typed URL |
| App.Home.StartFetch | src/app/page.tsx:75-78 | loading, with rows and content cleared |
| App.Home.FinishFetch | src/app/page.tsx:79-94 | non-empty content makes the page ready with that content; `null`, empty or a failed fetch goes back to idle |
| App.Home.RecentScrapeClick | src/app/page.tsx:145-148 | the clicked URL goes into the form and a fetch starts |
| App.Home.ScrapingComplete | src/app/page.tsx:97-143 | the rows are stored and shown; with an empty form nothing else changes; otherwise the scrape count goes up by one, the row count by the number of rows, the new entry heads the history, and the history stays at most five |
| App.Home.ClearAllActivity | src/app/page.tsx:150-166 | the history is emptied and nothing else changes |
| App.Home.ClearStats | src/app/page.tsx:168-184 | both counters are zeroed and nothing else changes |
| App.Home.Reset | src/app/page.tsx:186-191 | idle, with form, content and rows cleared; counters and history are kept |

## Left out

- Network, the model oracle and local storage are not modelled. The page
  content is a parameter of `FinishFetch` and the oracle's answer is a
  parameter of `Suggest`. Loading and saving the history and the counters,
  and reading the API key from storage, are not modelled either. The
  `apiKey` is a parameter of `Suggest`.
- `src/ai/flows/suggest-data-points.ts` and `src/app/actions.ts` are not
  part of this model beyond the shape of what they return.
- HTML parsing and CSS selector matching: the `Document` holds them as
  uninterpreted functions, so every property holds for any page and any
  selector engine. `Document.queryAll` and `Document.queryFirst` are not
  tied to each other.
- The 50 ms `setTimeout` before a scrape: `Scrape` runs synchronously.
- The `isSuggesting` and `isScraping` flags, the toasts and the scrolling
  are not modelled. The toasts show up only as the outcome values.
- The suggestion effect's trigger: it runs whenever the content changes
  and is non-empty. `Suggest` is the effect's body.
- ScrapingWorkspace.Workspace.Suggest: on `KeyMissing` the component also
  calls `onReset`. That call is `App.Home.Reset` and is not chained here.
- `Workspace.Suggest` does not model a failure of `DOMParser` itself, which
  does not throw on any string.
- JsString.ToLower: only ASCII letters are lower-cased. Unicode case
  mapping is not modelled.
- Rows.Keys: keys that are array indices (such as "3") come first in
  ascending numeric order in `Object.keys`. The model keeps plain
  insertion order for every key.
- JsonString.Quote: strings are sequences of Unicode scalar values. A lone
  UTF-16 surrogate, which `JSON.stringify` escapes as `\uXXXX`, cannot
  occur.
- App.Home.ScrapingComplete: the counters are JavaScript numbers. The model
  uses unbounded naturals and does not model floating-point rounding above
  2^53. The timestamp is a parameter, not the clock.
- App.Home: `Valid` only bounds the history at five, which is what
  `HistoryIsLatestFirst` needs of the history it starts from. Values loaded
  from storage are not checked, and the source does not check them either.
- The rendering components (`DashboardStats`, `RecentScrapes`,
  `ResultsDisplay`, `Header`, dialogs) and the CSV download are not part of
  this model.

## Findings

| source | as written | input that shows it | evidently intended | confidence | as-written member | corrected member |
|---|---|---|---|---|---|---|
| src/components/ScrapingWorkspace.tsx:233-244 | each row starts as `{}`, so `row[point.label] = value` with the label `__proto__` runs the prototype setter. A `null` drops the prototype and a string is ignored. A key is created only by a later `__proto__` write after a `null`, so rows of the same scrape can have different keys. | two selected points labelled `__proto__`. In the first element the first point matches nothing and the second reads `x`; in the second element both read `x`. The first row has the key `__proto__` and the second has none. The CSV header is `__proto__` and the second data line is `{}`. | every selected label is a column of every row, as with a row created by `Object.create(null)` | low: not executed; needs a label `__proto__` from the suggestion oracle | Extraction.RaggedRows | Extraction.BareRowKeys |

`Extraction.RowFor`, `BuildRow` and `Scrape` keep the code's behaviour,
starting each row from `{}`. `RowFrom` with `BareRow` as its start is the
corrected row. `BareRowKeys` proves that such rows have the same keys for
every element, `__proto__` included. `RowKeys` and `ScrapedRowsRectangular`
give the condition under which the code's rows are rectangular: at most
one selected point is labelled `__proto__`.
