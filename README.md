# Salesforce Field Usage Extension — a Dafny model of its core

The extension measures how many records of a Salesforce SObject populate each chosen field. The popup works in steps:
- It keeps a catalog of SObjects, a per-SObject cache of field metadata, and the user's selected SObjects and fields.
- It turns the selection into `(sobject, field)` pairs and marks each pair skipped or requestable.
- It sends the requestable pairs in composite batches of five. Each sub-request asks for the query plan of `SELECT count(Id) FROM <sobject> WHERE <field> != null`.
- It turns every sub-response into a row of counts and a population ratio, or into an error row.

The background worker holds a finished report until the report page takes it out, once. The report page sorts the rows by the column whose header was clicked. It draws one bar per field, in groups of fifty, scaled against the tallest bar of the group.

The model follows the three script files:

| module (file) | what it models |
|---|---|
| `Wrappers` (wrappers.dfy) | `Option` and `Result` |
| `JsValues` (js_values.dfy) | JSON values, JavaScript truthiness, property reads that throw on `null`, `String(v)`, `indexOf`, `findIndex` / `find`, `trim` and ASCII `toLowerCase`. The host builtins `JSON.stringify`, `Number#toString` and `localeCompare` are parameters (`Runtime`). |
| `JsNumbers` (js_numbers.dfy) | `ToNumber`, as the relational comparison of a status code with a number applies it: string numeric literals (decimal, exponent, `0b`/`0o`/`0x`, `Infinity`), arrays and objects through their text, and the TypeError of an object whose own `toString` is not callable |
| `Chunking` (chunking.dfy) | `chunkArray`, which popup.js and report.js each define |
| `StableSort` (stable_sort.dfy) | `Array.prototype.sort` with a comparator. It is stable since ES2019, so the model is a stable insertion sort, together with the proof that a consistent comparator admits exactly one stable sorted result. |
| `Fields` (fields.dfy) | `buildFieldKey` / `parseFieldKey`, `getFieldMetadata`, `getSObjectLabel`, `isFilterableField` |
| `QueryPlan` (query_plan.dfy) | `parsePlanFromResponse`, `extractCompositeError`, and the demultiplexing loop of `fetchQueryPlansBatch` |
| `Processing` (processing.dfy) | the skip pass and the batch loop of `handleProcessSelections`, with its progress counter |
| `Selection` (selection.dfy) | the popup state (`PopupState`): field add and remove, `setSObjects` pruning, `buildSelectionPairs`, `ensureFieldsLoaded`, and `handleProcessSelections` end to end |
| `ReportSort` (report_sort.dfy) | `getSortValue`, the comparator of `sortResults`, and `handleSort` on the page state (`ReportView`) |
| `BarChart` (bar_chart.dfy) | the chart data, the groups of fifty with their captions, and the bar heights |
| `ReportStore` (report_store.dfy) | `storeReportData`, `getStoredReportData` and the `onMessage` dispatch (`Store`) |

These remote calls are parameters:
- the composite call: `call(c)` answers the c-th batch;
- the describe call: `describe(sobject)`.

JavaScript numbers are modelled as `real`.

Where the code behaves in a way one might not expect, the model follows the code:
- When sorting descending, the direction multiplier also applies to the null branches, so null values come first.
- The progress counter advances once per requestable detail, not once per batch.
- The status test `httpStatusCode >= 200 && httpStatusCode < 300` converts the status as JavaScript does, so a status of "204", " 204 " or ["204"] counts as 2xx.
- A thrown TypeError inside a batch is caught by the batch loop and turns every member of that batch into an error row. Examples are a `null` sub-response, `null` as the first plan, or a composite response longer than the batch.

## Model

| member | source | states |
|---|---|---|
| Chunking.ChunksShape | scripts/popup.js:501-507 | concatenating the chunks gives back the array; every chunk is non-empty and at most `size` long, and every chunk but the last has exactly `size` elements |
| Chunking.ChunkCount | scripts/popup.js:501-507 | there are ⌈n/size⌉ chunks |
| Chunking.ChunkAt | scripts/popup.js:503-504 | chunk i is the slice of the array that starts at i·size |
| Chunking.ChunksBefore | scripts/popup.js:503-505 | the chunks before chunk k hold exactly k·size elements |
| Chunking.ChunkArray | scripts/report.js:325-331 | the index loop pushes exactly the chunks of `Chunks` (the same loop as scripts/popup.js:501-507) |
| StableSort.SortPermutes | scripts/report.js:163 | the sorted copy is a permutation of the input |
| StableSort.SortSorted | scripts/report.js:163 | under a consistent comparator, every element is "not after" every later one |
| StableSort.SortStable | scripts/report.js:163 | elements that compare equal keep their input order |
| StableSort.SortIsUnique | scripts/report.js:163 | any sorted, stable arrangement of the input is the modelled result, so the model is the only possible outcome of a stable sort |
| StableSort.SortAllEqual | scripts/report.js:163 | when every pair compares equal, the order is unchanged |
| JsValues.IndexOf | scripts/popup.js:478 | None exactly when the character is absent; otherwise the first position of it |
| Fields.Split | scripts/popup.js:481 | there is at least one part and no part contains the separator; there are at least two parts exactly when the separator occurs |
| Fields.SplitJoin | scripts/popup.js:481 | joining the parts with the separator gives the string back |
| Fields.ParseFieldKey | scripts/popup.js:477-486 | no ':' gives None; a parsed key has two non-empty, colon-free parts |
| Fields.ParseBuild | scripts/popup.js:473-486 | parsing `buildFieldKey(s, f)` gives back `{s, f}` for non-empty, colon-free names |
| Fields.ParseFails | scripts/popup.js:478-484 | parsing fails exactly when there is no ':', or the first ':' is the first or the last character, or it is followed by another ':' |
| Fields.ParseIsPrefix | scripts/popup.js:481-485 | a parsed key is the whole value, or the value cut just after a second ':' (the rest is ignored) |
| JsValues.FindIndex | scripts/popup.js:488-491 | None exactly when no element passes the test; otherwise the first position whose element does (`find` returns the element there) |
| Fields.FindField | scripts/popup.js:488-491 | None exactly when no cached field has the name; otherwise the first one that has it |
| Fields.SObjectLabel | scripts/popup.js:468-471 | "label (name)" of the first SObject with that name, or the API name when there is none |
| Fields.NotFilterableIff | scripts/popup.js:493-499 | a field is unfilterable exactly when it has a type whose lower-case form is "textarea" or "address"; missing metadata or type is filterable |
| Fields.FilterableIgnoresCase | scripts/popup.js:497-498 | filterability does not depend on the case of the type's letters |
| QueryPlan.ParsePlan | scripts/popup.js:556-574 | throws exactly when the first plan is `null`. A plan is produced only from a non-empty `plans` array whose first element has numeric cardinalities. The ratio is 0 when the SObject count is 0; otherwise ratio × count equals the non-null count. |
| QueryPlan.PercentageInUnit | scripts/popup.js:572 | the ratio lies in [0, 1] when 0 ≤ cardinality ≤ sobjectCardinality |
| QueryPlan.ExtractCompositeError | scripts/popup.js:576-587 | "Unknown error." for a falsy body; throws exactly when the body is a non-empty array headed by `null` |
| QueryPlan.MessageOr | scripts/popup.js:581 | `message` when it is truthy, otherwise `JSON.stringify` of the value |
| JsNumbers.DigitsValue | scripts/popup.js:536 | a digit string has a value exactly when it is non-empty and every character is a digit of the radix |
| JsNumbers.DecimalTextValue | scripts/popup.js:536 | the decimal digits of n read back as n |
| JsNumbers.TrimPadded | scripts/popup.js:536 | `trim` removes exactly the whitespace around a text that neither starts nor ends with whitespace |
| JsNumbers.TrimKeeps | scripts/popup.js:536 | a character other than whitespace survives `trim` |
| JsNumbers.DecimalStringValue | scripts/popup.js:536 | a string of decimal digits, with any whitespace around it, converts to its value |
| JsNumbers.CommaIsNaN | scripts/popup.js:536 | a string holding a comma converts to NaN |
| JsNumbers.ArrayToNumber | scripts/popup.js:536 | an array throws exactly when one of its items' conversion throws (an object with its own `toString`, or an array holding one). Otherwise an empty array converts to 0, a one-item array as the text of its item, and an array of two or more items to NaN. |
| JsNumbers.ObjectToNumber | scripts/popup.js:536 | an object without its own `toString` prints as "[object Object]" and converts to NaN |
| QueryPlan.StatusText | scripts/popup.js:536 | a decimal status string, padded or not, and a one-item array holding one pass the 2xx test exactly when their value is in [200, 300) |
| QueryPlan.StatusValues | scripts/popup.js:536 | a numeric status passes exactly when it is in [200, 300); a missing status, `null`, a boolean and a plain object never pass. An array throws exactly when one of its items' conversion throws; otherwise, with two or more items, it never passes. An object with its own `toString` throws. |
| QueryPlan.SubOutcomeCases | scripts/popup.js:536-545 | a `null` sub-response throws, and so does a status whose conversion throws. A 2xx status gives the parsed plan, or the missing-cardinality error when parsing yields nothing, and throws when parsing throws. Any other status gives the extracted error, or its throw. |
| QueryPlan.DemuxSucceeds | scripts/popup.js:532-546 | the demux succeeds exactly when the response is no longer than the batch and every sub-response is readable; the map then has exactly the keys of the answered members |
| QueryPlan.LongerResponseThrows | scripts/popup.js:534-535 | a response with more entries than the batch throws reading `key` of `undefined` |
| QueryPlan.DemuxEntries | scripts/popup.js:533-546 | with distinct keys, the entry of member i is the outcome of sub-response i |
| QueryPlan.DemuxFailurePersists | scripts/popup.js:533-546 | once a sub-response throws, the whole demux ends with that error |
| QueryPlan.Demux | scripts/popup.js:532-548 | the `forEach` loop computes the demux specification |
| QueryPlan.FetchSpec | scripts/popup.js:509-548 | an empty batch gives an empty map; a thrown call gives its error; the map only has keys of batch members |
| QueryPlan.FetchQueryPlansBatch | scripts/popup.js:509-512 | the composite endpoint is called exactly when the batch is non-empty, and the result is `FetchSpec` |
| Processing.MakeDetail | scripts/popup.js:703-714 | a detail keeps its pair and is keyed by `buildFieldKey`. Its metadata is the cached field of that name and its SObject label is the catalog's label. Its field label is the metadata's label when that is non-empty, otherwise the field name, so it is non-empty when the field name is. |
| Processing.RequestableDetails | scripts/popup.js:744-746 | every kept detail has metadata and is filterable |
| Processing.Partition | scripts/popup.js:718-746 | the skipped rows and the requestable details together account for every detail |
| Processing.SkippedRows | scripts/popup.js:718-742 | every skipped row has null counts and one of the two skip statuses |
| Processing.ErrorText | scripts/popup.js:767 | the text printed after "Error: " is never empty |
| Processing.ChunkResults | scripts/popup.js:748-814 | one row list per batch, as long as the batch |
| Processing.SkipPass | scripts/popup.js:718-742 | the first pass pushes exactly the skipped rows, in detail order |
| Processing.PushBatchRows | scripts/popup.js:754-813 | the rows of one batch are appended; the counter rises by the batch size; the shown progress is 1..completed when there are requests |
| Processing.Run | scripts/popup.js:715-814 | the rows are the skipped rows followed by the batches' rows. The counter ends at the number of requestable details. The number of calls is ⌈requestable/5⌉. Progress reads 1, 2, …, completed. |
| Processing.RunLength | scripts/popup.js:718-814 | exactly one row per selection detail |
| Processing.SkippedFirst | scripts/popup.js:718-742 | the rows start with the skipped rows, in detail order |
| Processing.RowOfMember | scripts/popup.js:748-814 | member j of batch c is requestable detail 5c+j, and its row sits right after the skipped rows at offset 5c+j |
| Processing.FailedBatchRows | scripts/popup.js:750-770 | when a batch's call throws, each of its members gets "Error: …" with null counts |
| Processing.FailureStaysInBatch | scripts/popup.js:748-771 | changing the answer to one batch changes no row of any other batch |
| Processing.EntryConsistent | scripts/popup.js:773-813 | a batch row says "Success" exactly when it has a percentage |
| Processing.SkippedConsistent | scripts/popup.js:718-742 | no skipped row says "Success" or has a percentage |
| Processing.RunRowsConsistent | scripts/popup.js:718-814 | every row of a run says "Success" exactly when it has a percentage |
| Processing.UnansweredMember | scripts/popup.js:776-788 | a member without a sub-response gets "Error: Missing response from composite batch." |
| Selection.Dedup | scripts/popup.js:425 | `Array.from(new Set(list))` has no duplicates and the same members |
| Selection.DedupNoDup | scripts/popup.js:425 | a duplicate-free list is its own `Set` |
| Selection.Without | scripts/popup.js:451-457 | deleting a field keeps exactly the other members, adds no duplicate, and changes nothing when the field is absent |
| Selection.WithoutAppend | scripts/popup.js:451-457 | deleting distributes over concatenation, so the other members keep their order |
| Selection.WithoutCons | scripts/popup.js:451-457 | deleting drops an element exactly when it is the deleted field |
| Selection.AddKeeps | scripts/popup.js:421-431 | adding never drops a selected field |
| Selection.AddNoChange | scripts/popup.js:421-431 | when no field is added, the map is unchanged |
| Selection.AddFieldsEffect | scripts/popup.js:415-438 | after adding, every parsed field is selected for its SObject; "changed" holds exactly when one of them was not selected before |
| Selection.AddFieldsFrame | scripts/popup.js:421-431 | SObjects named by no parsed value keep their list |
| Selection.AddFieldsValid | scripts/popup.js:425-429 | lists stay non-empty and duplicate-free |
| Selection.RemoveKeepsOut | scripts/popup.js:446-462 | removing never re-adds a field |
| Selection.RemoveNoChange | scripts/popup.js:446-462 | when nothing is removed, the map is unchanged |
| Selection.RemoveFieldsEffect | scripts/popup.js:440-466 | after removing, no parsed field is selected; "changed" holds exactly when one of them was selected before |
| Selection.RemoveFieldsKeeps | scripts/popup.js:440-466 | a selected field that no removed value names stays selected |
| Selection.RemoveFieldsFrame | scripts/popup.js:446-462 | SObjects named by no parsed value keep their list |
| Selection.RemoveFieldsValid | scripts/popup.js:451-458 | an emptied list removes its SObject, so lists stay non-empty and duplicate-free |
| Selection.AddThenRemove | scripts/popup.js:415-466 | removing a field that was just added restores the selection |
| Selection.WithoutLast | scripts/popup.js:451-457 | deleting the field appended last gives the list back |
| Selection.PairsOf | scripts/popup.js:838-840 | one pair per field of the SObject, in order |
| Selection.PairsMembership | scripts/popup.js:830-843 | a pair is produced exactly when its SObject is a target and its field is one of that SObject's fields (the cached ones when none are selected) |
| Selection.Normalize | scripts/popup.js:207-213 | only entries with a name remain; labels are non-empty; keys read "label (name)" |
| Selection.NormalizeAppend | scripts/popup.js:207-213 | normalizing works entry by entry: a list of two parts normalizes to the two parts' results, and one raw entry gives its entry when it has a non-empty name and nothing otherwise |
| Selection.NormalizeMembers | scripts/popup.js:207-213 | an entry is in the result exactly when some raw entry has its non-empty name, and its label is that entry's non-empty label or else the name, and its key is "label (name)" |
| Selection.LabelOrderConsistent | scripts/popup.js:214 | a consistent `localeCompare` makes the label comparator consistent |
| Selection.CatalogSorted | scripts/popup.js:207-214 | the catalog is a permutation of the named entries, ordered by label |
| Selection.KeepNamed | scripts/popup.js:216 | the kept selections are exactly those that the new catalog names |
| Selection.FilterMatch | scripts/popup.js:656-663 | None exactly when no SObject's name or label equals the filter text, ignoring case; otherwise the first SObject in catalog order whose name or label does |
| Selection.ResolveTargets | scripts/popup.js:656-670 | the selected SObjects when there are any. Otherwise nothing for an empty trimmed filter; for a non-empty one, the name of the SObject `FilterMatch` finds for it, or nothing when it finds none. |
| Selection.DetailsOf | scripts/popup.js:703-714 | one detail per pair |
| Selection.TotalIsRequestable | scripts/popup.js:691-746 | the announced total equals the number of requestable details |
| Selection.PopupState.constructor | scripts/popup.js:21-30 | the state starts empty |
| Selection.PopupState.AddFields | scripts/popup.js:415-438 | the loop computes the add specification and keeps lists non-empty and duplicate-free |
| Selection.PopupState.RemoveFields | scripts/popup.js:440-466 | the loop computes the remove specification and keeps lists non-empty and duplicate-free |
| Selection.PopupState.SetSObjects | scripts/popup.js:206-224 | installs the sorted catalog and keeps only the selections that it names |
| Selection.PopupState.BuildSelectionPairs | scripts/popup.js:830-843 | the nested loops produce the pair specification |
| Selection.LoadedCacheEffect | scripts/popup.js:335-361 | loading keeps every cached entry; it adds exactly the targets whose describe succeeds, each with its describe result |
| Selection.LoadFailureIff | scripts/popup.js:353-361 | loading fails exactly when some uncached target's describe fails; the error is the failure of the first such target |
| Selection.PopupState.EnsureFieldsLoaded | scripts/popup.js:353-361 | the new cache and the error are `LoadedCache` and `LoadFailure` of the old cache, which the two lemmas above characterise. Without an error every target is cached, and the other fields are unchanged. |
| Selection.ProcessRejections | scripts/popup.js:653-687 | no target gives "Select at least one SObject before processing.". A failed describe of an uncached target gives "Unable to load fields: " and the first such failure. Loaded targets without pairs give "No fields available to process.". |
| Selection.ProcessedRun | scripts/popup.js:653-828 | loaded targets with pairs are processed: the rows are the batch run's, one per pair; the counter ends at the announced total; progress reads 1..total when calls are expected. "No results to display." is never the outcome. |
| Selection.PopupState.ProcessSelections | scripts/popup.js:653-828 | the outcome is `ProcessSpec` of the starting state, which the two lemmas above split into its cases; the new cache is `LoadedCache` of the targets; the catalog and the selections are unchanged |
| ReportSort.SortValueOf | scripts/report.js:182-199 | label and status columns give strings, count columns give numbers or null, and an unknown key gives null |
| ReportSort.Multiplier | scripts/report.js:162 | -1 exactly for "desc", otherwise 1 |
| ReportSort.SortResults | scripts/report.js:158-180 | a permutation of the rows; the rows unchanged when no key is set |
| ReportSort.ValueFlip | scripts/report.js:166-179 | swapping two values flips the comparator's sign |
| ReportSort.DescNegatesAsc | scripts/report.js:162-179 | the descending comparison is exactly the negated ascending one |
| ReportSort.AscTrans | scripts/report.js:166-179 | ascending "not after" is transitive within a column |
| ReportSort.ValueTrans | scripts/report.js:166-179 | "not after" is transitive within a column in both directions |
| ReportSort.ComparatorConsistent | scripts/report.js:163-179 | with a consistent collation, the comparator of every column and direction is consistent |
| ReportSort.SortedTable | scripts/report.js:158-180 | ascending puts nulls last, numbers rising and texts in collation order; descending puts nulls first, numbers falling and texts in reverse collation order |
| ReportSort.UnknownKeyKeepsOrder | scripts/report.js:196-198 | an unknown key leaves the rows in their order |
| ReportSort.DescIsReversedAsc | scripts/report.js:162-179 | when different rows never tie on the column, the descending table is the ascending table reversed |
| ReportSort.NonNullOfSorted | scripts/report.js:162-179 | when rows with a value never tie, the rows with a value in the sorted table are exactly those rows sorted on their own |
| ReportSort.NonNullDescIsReversedAsc | scripts/report.js:162-179 | when different rows with a value never tie on the column, descending lists the rows with a value in the reverse of their ascending order, however many null rows there are |
| ReportSort.NextSortToggles | scripts/report.js:137-143 | the same header flips the direction and a second click restores it; a new header sorts ascending |
| ReportSort.ReportView.constructor | scripts/report.js:12-16 | the page starts unsorted and ascending |
| ReportSort.ReportView.HandleSort | scripts/report.js:131-146 | a header without a key changes nothing. Otherwise the sort state moves as `NextSort` says and the rows are shown sorted by it. |
| ReportSort.SecondClickReverses | scripts/report.js:131-146 | clicking a new header twice shows a table and then its reverse, when different rows never tie |
| BarChart.ChartLabel | scripts/report.js:207 | the field label, else the field name, else "Field"; never empty |
| BarChart.ChartDataAsWritten | scripts/report.js:205-212 | as written: one bar per row |
| BarChart.NullPercentagePlotted | scripts/report.js:208-212 | as written: a row with a null percentage is drawn as a 0% bar |
| BarChart.SkippedOnlyReportShowsChart | scripts/report.js:205-218 | as written: a report of one skipped field shows a chart with one 0% bar; corrected, it shows no chart |
| BarChart.ChartDataPlotsPercentages | scripts/report.js:205-212 | the corrected chart plots exactly the rows with a percentage, in order, at their percentage; it agrees with the code where every row has one |
| BarChart.ChartShownAsWritten | scripts/report.js:205-218 | as written: the chart is hidden only when the report has no rows, so a loaded report always shows it |
| BarChart.ChartShown | scripts/report.js:214-218 | corrected: the chart is shown exactly when some row has a percentage |
| BarChart.CaptionsWhenMoreThanFifty | scripts/report.js:223-231 | groups get captions exactly when there are more than fifty bars |
| BarChart.CaptionsTile | scripts/report.js:228-231 | the captions number the bars 1..n without gaps or overlaps, each covering its own group |
| BarChart.MaxValue | scripts/report.js:247 | at least 0 and every value, and equal to 0 or to one of the values |
| BarChart.BarHeightScales | scripts/report.js:266 | a value in [0, max] gets a height in [0, 180]; heights grow with values; the maximum gets the full height |
| BarChart.BarsFit | scripts/report.js:243-266 | with non-negative values every bar fits the plot and bars keep the order of their values; the tallest reaches the top unless all values are 0 |
| ReportStore.StoreEffect | scripts/background.js:80-87 | a payload without a truthy `reportId` is answered "Invalid report payload." and changes nothing. A valid payload is filed under its id, overwriting any earlier entry, and nothing else changes. `success` holds exactly when there is no error. |
| ReportStore.StoreKeepsValid | scripts/background.js:85 | every entry stays filed under its own truthy id |
| ReportStore.GetEffect | scripts/background.js:89-99 | a falsy id is answered "Missing report id." and changes nothing. Otherwise `success` holds exactly when the id was stored, and `error` is null exactly then. A found report is returned and deleted, and nothing else changes. |
| ReportStore.GetKeepsValid | scripts/background.js:94-97 | every entry stays filed under its own truthy id |
| ReportStore.TakeOnce | scripts/background.js:85-98 | a stored report is returned by the first get and answered "Report not found." by the second |
| ReportStore.LaterStoreWins | scripts/background.js:85 | of two reports stored under one id, the later is returned |
| ReportStore.DispatchRouting | scripts/background.js:9-26 | the listener throws exactly for a `null` message or a `message` member whose conversion throws (an object with its own `toString`, or an array holding one), with the property-read and the primitive-conversion TypeError respectively. Otherwise it returns true exactly for the host-session request and the two report types, and only the report handlers change the store. |
| ReportStore.StoreThenFetchThroughListener | scripts/background.js:15-23 | a report stored through the listener comes back on the first get message and not on the second |
| ReportStore.Store.constructor | scripts/background.js:6 | the store starts empty |
| ReportStore.Store.StoreReport | scripts/background.js:80-87 | the handler computes the store specification and keeps the store well formed |
| ReportStore.Store.GetReport | scripts/background.js:89-99 | the handler computes the get specification and keeps the store well formed |
| ReportStore.Store.Dispatch | scripts/background.js:9-26 | the listener computes the dispatch specification |

## Left out

- `getHostAndSession` (scripts/background.js:29-78), which reads cookies and caches sessions per tab. It is browser I/O; the dispatch only routes to it (`HostSession`).
- `chrome.runtime` and `chrome.tabs` messaging, `getSessionFromBackground`, `queryActiveTab`, `sendMessageToTab`, the popup's `storeReportData` / `openResultsTab` and the report page's `requestReportData`. These are transport; the store model takes the messages as values.
- `fetch` / `authenticatedFetch` and the explain URL built by `buildExplainUrl`. These are network I/O; the composite and describe calls are parameters (`call`, `describe`).
- All DOM work: option lists, placeholders, button states, `renderTable`, `applySortState`, status texts and SVG element creation and positioning. This is presentation; the status and progress texts are given as values (`ProcessOutcome`, `progress`).
- `formatNumber`, `formatPercentage` and the `toFixed` labels. This is locale number formatting.
- `generateReportId`, because it depends on the clock and randomness.
- `handleFilter`, `handleAddSObjects`, `handleRemoveSObjects` and `syncFieldSelectors`. They are list editing and rendering outside the processing pipeline.
- scripts/content.js is not part of this model.
- `getFieldsForSObject`'s mapping and label sort of a describe result. They belong to the describe parameter, which is taken to return the cached list.
- Selection.PopupState.EnsureFieldsLoaded: runs the describes one after another, in target order, and reports the first failure in that order. `Promise.all` runs them concurrently and reports whichever fails first in time.
- Floating point: numbers are reals, so there is no rounding; a status string such as "299.99999999999999999" reads as a value below 300, where a double rounds it to 300. NaN and the infinities appear only in the status conversion (`JsNumbers.Number`). `Number(value)` of a non-numeric percentage is not modelled; rows carry a number or `null`.
- JsValues.Text: an object prints as "[object Object]". One with a `toString` member of its own makes JavaScript's conversion throw, which `Text` does not capture. The status conversion and the listener test `ConversionThrows` first and model the throw.
- Processing.EntryFor: a composite error whose `message` is an object with its own `toString` (or an array holding one) makes the template literal `Error: ${entry.error}` (scripts/popup.js:799) throw outside the batch's `try`, ending the run. The model prints `Text` of it instead.
- Processing.ErrorText: prints "Error" for an empty message, where JavaScript prints the error's name. Every error the batch path throws carries a non-empty message: the fetch failure, the "Salesforce API error (…)" and "Composite API did not return the expected response." errors, and the TypeErrors of property reads.
- `toLowerCase` is modelled for ASCII letters only.
- `localeCompare` and `JSON.stringify` are parameters. `localeCompare` is assumed consistent (`ConsistentCollation`) where sorting is proved ordered.
- Selection.RawSObject: a catalog entry's `name` and `label` are strings or absent. Non-string values from the describe-global response are not modelled.
- Map keys: the report store keys entries by JSON value, so object identity as a `Map` key is not modelled.
- Loose equality (`==`) appears in two places. The dispatch's `message.message == "getHostSession"` is modelled for strings, arrays and objects against that non-numeric string; numbers, booleans, `null` and `undefined` never equal it. The sort comparator's `aValue == null` and `bValue == null` tests hold for both `null` and `undefined`, so `ReportSort.SortValue.NullValue` stands for both.
- ReportSort.DescIsReversedAsc: proved only for rows where different rows never tie on the column. This also excludes two null rows. `ReportSort.NonNullDescIsReversedAsc` covers the rows with a value whatever the nulls are. With ties, a stable sort keeps the tied rows in input order in both directions.

## Findings

| source | as written | input that shows it | evidently intended | confidence | as-written member | corrected member |
|---|---|---|---|---|---|---|
| scripts/report.js:205-212 | the chart data maps each row's percentage through `Number(...)`, and `Number(null)` is 0, so the filter keeps every row | a report whose only row is a skipped field (`nonNullPercentage: null`, shown as "—" in the table) | rows without a percentage are left out of the chart (the filter tests for a number), and a report without any percentage hides the chart | medium, not executed | BarChart.SkippedOnlyReportShowsChart | BarChart.ChartDataPlotsPercentages |
