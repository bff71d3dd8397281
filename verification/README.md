# Oil well map: buffer search and well counts, in Dafny

The oil well map lets a user search for an address, draws a geodesic buffer
around the result, and reports how many oil wells inside the buffer are Active,
Idle or Plugged. A slider changes the buffer radius, and a close button takes the
buffer and the results panel away. Almost all of `script.js` configures the
ArcGIS SDK. This project models the part that is the script's own logic:

- `wellstats.dfy` (module `WellStats`) models the fold in `queryWells`. It turns
  the grouped statistics rows `(WellStatus, wellCount)` into a status-to-count
  object with a running `Total`. It also models `displayWellCounts` and
  `returnCount`, which derive the four numbers shown on the panel: missing
  statuses read as 0, and New wells are counted as Active. The fold exists twice:
  once as the loop `QueryWellStats` and once as the reference function `Tally`.
  Both are related to independent sums over the rows.
- `controller.dfy` (module `Controller`) models the page as an immutable state
  record, with one transition per event:
  - `search-complete`;
  - `thumb-drag`;
  - the close button;
  - the two asynchronous query answers that `queryWells` waits for.
  The geometry engine stays uninterpreted: a buffer is the term
  `GeodesicBuffer(center, radius)`. A handler that throws is modelled as `Threw`.
  `Threw` keeps the changes the handler made before the throw, and later events
  are still handled, as in a browser.
- `slider.dfy` (module `Slider`) holds the slider configuration: range 0.1 to
  10 miles, one decimal place, default 1 mile. Values are kept as whole tenths
  of a mile. The module also holds the radius label, which is singular only at
  exactly 1 mile.
- `text.dfy` (module `Text`) holds `address.split(',')[0]` and the
  number-to-text conversion used in the label. Each comes with a parser that reads
  the text back.
- `wrappers.dfy` holds `Option`, whose `None` stands for JavaScript's `undefined`.

The model follows the script; these cases may surprise a reader:

- A slider drag before any search is not a no-op. It buffers an undefined point
  and throws.
- A drag after a close finds no graphic and throws.
- A close before the first highlight answer throws.
- A new search draws a one-mile buffer but leaves the slider and the radius
  label as they were (`Controller.SearchKeepsRadiusLabel`).
- Close keeps the search point.
- Two searches in quick succession can leave a highlight that close never removes.
  The second search finds no handle yet. The second answer then overwrites the
  first handle without removing it (`Controller.OverwrittenHighlightLeaks`).
- Query answers are applied in the order they arrive. Nothing discards a stale
  answer.

## Model

| member | source | states |
|---|---|---|
| WellStats.QueryWellStats | script.js:255-259 | The `forEach` loop computes exactly the reference fold `Tally`. When no row is labelled `Total`, it leaves `Total` equal to the sum of every row's `wellCount`. |
| WellStats.Tally | script.js:255-259 | The stats object has exactly one key per status seen in the rows, plus `Total`. |
| WellStats.TallyTotalIsSum | script.js:255-259 | When no row is labelled `Total`, `Total` is the sum of `wellCount` over all rows. |
| WellStats.SumPermutation | script.js:256-258 | The sum of the counts depends only on the multiset of rows, not on their order. |
| WellStats.TotalOrderIndependent | script.js:255-259 | Two orderings of the same rows give the same `Total`, and that total equals the sum of the counts. |
| WellStats.TallyEntryIsLatest | script.js:256-257 | A status has an entry exactly when some row has that status. The entry holds the count of the last such row. |
| WellStats.LatestIsLastRow | script.js:257 | The last count of a status comes from a row with that status, and no later row has the status. When no row has the status, there is no count. |
| WellStats.DuplicateStatusKeepsLast | script.js:257-258 | For rows `[Active 2, Active 3]`, the Active entry is 3 while `Total` is 5, so the entries do not sum to the total. |
| WellStats.TotalRowCollides | script.js:255-258 | A row labelled `Total` overwrites the running total before its own count is added: `[Active 5, Total 4]` gives 8. |
| WellStats.ReturnCountOfTally | script.js:274-276 | A status that no row has is displayed as 0, not as an error. A status that some row has is displayed as the count of its last row. |
| WellStats.LatestWithinSumWhere | script.js:257-258 | The count kept for a status is at most the sum of that status's rows. It equals that sum when each status occurs once. |
| WellStats.DisplayOfGroupedRows | script.js:277-281 | When each status occurs once and none is `Total`, these are the values shown: total = sum of all rows, active = Active + New, idle = Idle, plugged = Plugged. Wells of any other status add to the total only. |
| WellStats.DisplayCategoriesWithinTotal | script.js:277-281 | For rows with no status named `Total`, the active, idle and plugged counts shown never add up to more than the total shown. |
| WellStats.DisplayFacts | script.js:274-281 | Combines the display properties as conditions on the rows. With no status named `Total`, the total is the sum and bounds the categories. When statuses are also distinct, each category is its rows' sum. |
| WellStats.DuplicateRowsUnbalanceDisplay | script.js:279 | Repeated Active rows make the panel show total 5 and active 3. |
| Text.Split | script.js:298 | `split` gives one more piece than there are separators, and no piece contains the separator. |
| Text.JoinSplit | script.js:298 | Joining the pieces with the separator gives back the original address. |
| Text.FirstFieldIsPrefixBeforeComma | script.js:298 | The location shown is the longest comma-free prefix of the address. It is either the whole address or is followed by a comma. |
| Text.NatTextRoundTrip | script.js:331 | The integer is printed as JavaScript prints it: a non-empty digit string with no leading zero (it starts with `0` only for zero), whose value is the number. |
| Text.TenthsTextRoundTrip | script.js:331 | The slider value is printed in JavaScript's form: a whole number has no `.`, and a fraction is one non-zero digit. Read back by a parser that accepts only that form, it gives the same number of tenths. |
| Slider.RadiusLabelSingularIffOneMile | script.js:331 | The label is `1 mile` if and only if the value is exactly 1 mile. |
| Slider.RadiusLabelPlural | script.js:331 | Every other value's label ends in ` miles`. |
| Slider.RadiusLabelRoundTrip | script.js:331 | The label's numeral is in the form JavaScript prints (forms like `02` or `2.0` are rejected), and parsing the label gives back the slider value. |
| Slider.RadiusLabelInjective | script.js:331 | Two different slider values never produce the same label. |
| Controller.OnSearchComplete | script.js:292-324 | Search always empties the buffer layer first. Without a hit, it throws and changes nothing else. With a hit but no point, it throws after showing the address and forgetting the old point. Otherwise the layer holds exactly one new graphic, with the 1-mile buffer around the point, whatever the layer held before. The point is recorded, the location is the address up to its first comma, and one query for that buffer is appended after the earlier ones. Only the current highlight handle is taken down. The counts, results panel, legend and radius label are never touched. |
| Controller.OnThumbDrag | script.js:329-344 | The label is always written. The drag succeeds exactly when a search point and a graphic exist; on failure nothing but the label changes. On success only graphic 0 changes: it keeps its identity but gets `Buffer(point, v)`, and the graphic count is unchanged. When the drag state is `stop`, the new buffer's query is appended after every earlier query and the current highlight handle is taken down. Otherwise the queries and highlights stay as they were. Every other field is unchanged. |
| Controller.OnClose | script.js:348-359 | The buffer layer is always emptied. Close succeeds exactly when the `highlight` variable holds a handle. It then removes that handle only, hides the results and shows the legend. Otherwise it throws and changes nothing else. The search point, queries, counts and labels are always kept. |
| Controller.QueryWells | script.js:223-264 | `queryWells` appends one statistics query for the polygon after all earlier ones. `highlightWells` takes down only the current highlight handle. Nothing else changes. |
| Controller.OnHighlightArrived | script.js:230-232 | The highlight answer appends one new shown handle for its features and keeps every older handle as it was, even one still shown. Nothing else changes. |
| Controller.OnStatsArrived | script.js:253-282 | For rows with no status named `Total`, the query callback shows the sum of the rows as the total, with the categories within it. When each status also occurs once, active = Active + New, idle = Idle and plugged = Plugged. The results become visible and a view narrower than 750 hides the legend. Nothing else changes. |
| Controller.Step | script.js:292-359 | Every event, handled or thrown, keeps the buffer layer coherent: at most one graphic, centred on the current search point. It never drops a highlight handle or changes what one highlights. |
| Controller.RunPreservesCoherent | script.js:292-359 | Any sequence of events keeps the layer coherent. |
| Controller.ReachableIsCoherent | script.js:292-359 | Every state reachable from page load is coherent. |
| Controller.HandlesPersist | script.js:223-232 | Highlight handles are never dropped, and each keeps the wells it highlights, under every later event. |
| Controller.CloseSucceedsOnceHighlighted | script.js:355 | After the first highlight answer, closing never throws, whatever happens in between. |
| Controller.DragBeforeSearchThrows | script.js:333 | A drag on the freshly loaded page writes the label, then throws on the undefined search point. |
| Controller.CloseBeforeHighlightThrows | script.js:355 | Closing before any highlight answer throws at `highlight.remove()`. This holds right after the first search too, and leaves only the emptied layer changed. |
| Controller.DragAfterCloseThrows | script.js:335 | After a close, a drag finds the search point but no graphic, and throws at `getItemAt(0)`. |
| Controller.OverwrittenHighlightLeaks | script.js:224-231 | Consider two searches, then both highlight answers, then close. The first handle stays shown and only the second is removed. |
| Controller.SearchKeepsRadiusLabel | script.js:294-331 | After a drag to any radius other than 1 mile, a new search draws a 1-mile buffer while the label still shows the dragged radius. |

## Left out

- `returnScale`: floating-point arithmetic on the screen size. It only feeds the view's initial scale.
- Map, view, renderer, popup, legend, Expand, search-source and UI-position configuration: declarative SDK setup with no logic of the script's own.
- `view.goTo` with `extent.expand(2.5).offset(...)` in the search and drag handlers, and the `goToOverride` assignment: viewport animation done by the SDK. The model has no viewport.
- `geometryEngine.geodesicBuffer`: kept as the uninterpreted term `GeodesicBuffer(center, radius)`. Buffering an undefined point is assumed to throw.
- `queryFeatures` and `highlight`: a statistics answer is modelled as a sequence of rows. A highlight answer is modelled as the buffer whose wells it highlights. A rejected query has no handler in the script and changes nothing, so it is not an event.
- Promise ordering: answers are events applied in whatever order they arrive. There is no request identity, because the script has none.
- `oilWellsViewLayer` not yet ready when `highlightWells` runs: this depends on SDK load timing.
- The `esri-legend` element lookup in `displayWellCounts` and in the close handler is assumed to succeed. On small screens the legend sits inside an Expand widget.
- `toLocaleString` and `innerHTML`: the model keeps the values written, not their formatting.
- The initial text of `location` and `bufferRadius` and the initial visibility of the results panel come from the page's HTML, which is not part of this model. The text fields start as `None`, and the panel starts hidden.
- Slider values are taken as exact tenths of a mile, printed the way JavaScript prints the nearest double. Floating-point representation is not modelled.
- WellStats.Tally: the `wellStats` object is modelled as a map from strings. This is exact for the statuses the layer's definition expression admits (script.js:127). A status named after an `Object.prototype` property such as `__proto__` would behave differently in JavaScript.
- WellStats.ReturnCountOfTally: `returnCount` uses the `in` operator, which also finds inherited properties such as `toString`. The map model agrees with JavaScript for the four statuses the script asks about, but not for such inherited names.
- Well counts are unbounded naturals. JavaScript's 2^53 integer limit is not modelled.
