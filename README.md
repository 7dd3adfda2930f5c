# Pizza rating table: verified model of the rating state machine

This project models the rating logic in `scripts/scripts.js` of the clotton-pizza
site. Each row of the pizza table is one pizza. Each row has score cells for seven
categories: sauce, cheese, toppings, crust, value, delivery and box design. The model
covers four parts:

- **The click rule.** A click reads the cell's `data-score` attribute with `parseInt`
  and computes the next score: 5 becomes 0, and anything else becomes
  `(current % 5) + 1`. It writes the new score back into the attribute.
- **The redraw.** `updateCellDisplay` clears the cell and appends one pizza-slice
  element per point of the score.
- **The snapshot.** `sendScoresToGoogleSheet` builds a `rows` payload with one record
  per table-body row, in table order. Each record has the pizza's label and seven
  positional scores.
- **The debouncer.** `debounceSubmit` cancels the pending timer and schedules a new
  one 1000 ms later.

Modules:

- `Scoring` (`scoring.dfy`) holds JavaScript numbers as the rule sees them
  (`JsInt = NaN | Int`), the attribute (`Attr`), `parseInt`, the truncating `%`, the
  rule itself, and lemmas about repeated clicks.
- `Cells` (`cells.dfy`) holds the `Cell` class. Its `score` field is the attribute and
  its `children` field is the cell's content. The redraw is a method with a loop.
- `Snapshots` (`snapshot.dfy`) holds the record types, the specification function
  `Snapshot`, and `BuildRows`, the loop that builds the payload.
- `Debounce` (`debounce.dfy`) holds a pure semantics of calls and clock ticks over an
  explicit clock, the `Debouncer` class that implements it, and the coalescing lemmas.
- `Page` (`page.dfy`) holds the click listener. It composes the four parts.

The table's cells are the same `Cell` objects that the click listener updates. So the
attribute is the only store of a score, and the snapshot is always built from it.

Some of the code's behaviour is easy to misread; the model follows the code:

- A missing or empty `data-score` is not treated as 0 by the click rule.
  `parseInt` yields NaN, the rule keeps NaN, and the cell gets the text "NaN". Every
  later click writes "NaN" again, so the cell can never be rated and it shows no
  slices (`ClicksFromUnrated`). The snapshot's `|| 0` maps a missing or empty
  attribute to 0. It does not map "NaN" to 0, because "NaN" is a non-empty string,
  so the `rows` value holds NaN for that score, and `JSON.stringify` (line 179)
  writes it into the request body as `null`. This is why the record's fields are
  `JsInt` rather than plain integers.
- The click listener posts the snapshot immediately on every click (line 27), before
  it calls `debounceSubmit`. The debounced callback calls `submitScores`, which this
  file does not define. So the debouncer limits nothing that is actually posted. Its
  firing is modelled as an abstract event that is only counted.
- A row with fewer than seven score cells makes `cells[k].dataset` throw. The model
  keeps this error path: `Snapshot` is `None`. The exception leaves the listener
  after the redraw, so `debounceSubmit` is not called (`RatingPage.Click`).
- The record has no `dayAfter` field. Loading saved ratings from a read endpoint does
  not occur in this file.

## Model

| member | source | states |
|---|---|---|
| `Scoring.TruncRem` | scripts/scripts.js:23 | The `%` of the rule truncates toward zero: the result is the dividend minus a multiple of the divisor, has the dividend's sign, and is smaller in magnitude than the divisor |
| `Scoring.ParseInt` | scripts/scripts.js:18 | Reading the attribute gives an integer exactly when it holds decimal text; a missing or empty attribute, or "NaN", gives NaN |
| `Scoring.Render` | scripts/scripts.js:25 | Writing a score and reading it back with `parseInt` gives the same score; the written attribute is never missing or empty |
| `Scoring.NextScore` | scripts/scripts.js:19-24 | NaN in gives NaN out and an integer in gives an integer out; a non-negative score maps into [0, 5]; a negative score maps into [-3, 1] |
| `Scoring.Clicked` | scripts/scripts.js:18-25 | The attribute after a click reads back as the rule applied to the attribute before it |
| `Scoring.NextScoreOnRating` | scripts/scripts.js:20-24 | A rating of 5 becomes 0, and a rating r in 0..4 becomes r + 1 |
| `Scoring.ClicksFromRating` | scripts/scripts.js:18-25 | From a rating r in [0, 5], n clicks leave the rating (r + n) mod 6, so the rule never leaves [0, 5] |
| `Scoring.ClicksPeriodSix` | scripts/scripts.js:20-24 | Six clicks bring a rating back to itself, and no fewer do (period exactly 6) |
| `Scoring.ClicksFromUnrated` | scripts/scripts.js:18-25 | After one or more clicks, a cell whose attribute was missing, empty or "NaN" holds "NaN" |
| `Cells.SliceCount` | scripts/scripts.js:34 | The slice loop runs `score` times for a non-negative score and never for NaN or a non-positive score |
| `Cells.Cell.UpdateDisplay` | scripts/scripts.js:32-39 | Afterwards the cell holds exactly `SliceCount(s)` pizza slices and none of its earlier children; its attribute is unchanged |
| `Cells.DisplayMatchesAttribute` | scripts/scripts.js:25-26 | The slice count of the written attribute equals the slice count of the score passed to the redraw; a score of 0 leaves the cell empty |
| `Snapshots.Column` | scripts/scripts.js:163-169 | Every category is read from one of the first seven cells |
| `Snapshots.ColumnsOneToOne` | scripts/scripts.js:163-169 | Categories and cells 0..6 correspond one to one, in the order sauce, cheese, toppings, crust, value, delivery, boxDesign |
| `Snapshots.Label` | scripts/scripts.js:158 | The label is the image's alt text when present and non-empty, otherwise "Unknown"; it is never empty |
| `Snapshots.CellScore` | scripts/scripts.js:163-169 | A missing or empty attribute gives 0 in the `rows` value; any other attribute gives what the click handler reads (NaN included, which the request body carries as `null`) |
| `Snapshots.RecordOf` | scripts/scripts.js:158-171 | A row's record carries the row's label, and for each category the score of that category's cell |
| `Snapshots.Snapshot` | scripts/scripts.js:156-172 | The reference definition of the `rows` value: when it exists it has one record per row, and a last row with fewer than seven cells makes it throw |
| `Snapshots.SnapshotShape` | scripts/scripts.js:156-172 | The payload exists exactly when every row has at least seven score cells; it then has one record per row, in table order, each the record of its row |
| `Snapshots.SnapshotPositional` | scripts/scripts.js:158-169 | Record i of the payload takes its label from row i and its category c from cell `Column(c)` of row i |
| `Snapshots.ExtraCellsIgnored` | scripts/scripts.js:163-169 | Cells after the seventh do not affect a record |
| `Snapshots.SnapshotScoresInRange` | scripts/scripts.js:163-169 | When each of the first seven cells of every row is missing, empty or a rating in [0, 5], every score in the `rows` value is an integer in [0, 5] |
| `Snapshots.SnapshotFailsFrom` | scripts/scripts.js:157-172 | A row that throws makes the whole payload fail, whatever rows follow it |
| `Snapshots.BuildRows` | scripts/scripts.js:155-172 | The loop over the rows returns exactly the snapshot of the table; it has no modifies clause, so no cell changes |
| `Debounce.Step` | scripts/scripts.js:185-190 | A call sets the one pending deadline to 1000 ms later and fires nothing; a tick fires exactly when a deadline is pending and reached, fires at most once, and clears the deadline when it fires |
| `Debounce.FiresAtMostCalls` | scripts/scripts.js:185-190 | Across any sequence of calls and ticks, the firings never exceed the number of calls plus the one timer pending at the start |
| `Debounce.BurstCoalesces` | scripts/scripts.js:185-190 | Calls spaced less than 1000 ms apart fire nothing; afterwards exactly one timer is pending, due 1000 ms after the last call |
| `Debounce.TicksFireOnce` | scripts/scripts.js:187-189 | From a pending deadline, clock ticks fire exactly once if some tick reaches the deadline, and otherwise leave the timer pending |
| `Debounce.IdleTicks` | scripts/scripts.js:153 | With no timer pending, the passing of time fires nothing |
| `Debounce.BurstFiresOnce` | scripts/scripts.js:185-190 | A burst of calls under 1000 ms apart, followed by clock ticks, fires once if the clock reaches 1000 ms after the last call, and never otherwise |
| `Debounce.FourClicksExample` | scripts/scripts.js:185-190 | Calls at 0, 100, 200 and 300 ms fire nothing by 1299 ms and fire exactly once at 1300 ms |
| `Debounce.Debouncer.constructor` | scripts/scripts.js:153 | The module-level handle starts with no timer pending and no firings |
| `Debounce.Debouncer.Notify` | scripts/scripts.js:185-190 | A call replaces any pending deadline with `now + 1000` and fires nothing |
| `Debounce.Debouncer.Tick` | scripts/scripts.js:187-189 | The timer fires exactly when a deadline is pending and the clock has reached it; firing clears the deadline and counts once |
| `Page.RatingPage.Click` | scripts/scripts.js:17-29 | The attribute becomes the next score. The cell shows that score's slices. The posted payload is the snapshot after the update, and the new score appears in every record field read from this cell. The timer restarts only if the payload was built. Nothing but the cell and the timer changes |

## Left out

- Page decoration and loading are not modelled: `buildHeroBlock`, `loadFonts`, `buildAutoBlocks`, `decorateMain`, `loadEager`, `loadLazy`, `loadDelayed` and `loadPage` (lines 46-151 and 192). They are wrappers over `./aem.js`, and `./aem.js` is not part of this model.
- The `DOMContentLoaded` and `addEventListener` wiring and `querySelectorAll` (lines 15-17, 157 and 159) are not modelled. The table is given as a sequence of rows, and each row holds its image's alt text and its score cells in document order.
- The `fetch` POST, `JSON.stringify` and the console logging of the result (lines 174-182) are network I/O. The model stops at the `rows` payload, which `RatingPage.Click` returns.
- `setTimeout` and `clearTimeout` are replaced by an explicit clock. Time advances only through `Debouncer.Tick`. The callback's target `submitScores` is not defined in this file, so a firing is only counted.
- `parseInt` on arbitrary text is not modelled. An attribute is missing, empty, the decimal text of an integer, or "NaN". "NaN" is the only other text the code itself writes.
- `Scoring.ParseInt`: reads decimal text as an exact, unbounded integer. JavaScript numbers are doubles, so the model agrees with `parseInt` only for |n| <= 2^53 - 1. For example, "9007199254740993" parses to 2^53 in JavaScript.
- `Scoring.Render`: its round trip holds only for |n| <= 2^53 - 1. In JavaScript, `String(1e21)` is "1e+21", and that text parses back as 1.
- `Scoring.NextScore`: computed on exact integers, so it agrees with JavaScript only for scores within the safe-integer range |n| <= 2^53 - 1.
- `Scoring.TruncRem`: only the divisor 5 is ever used, so a divisor of 0 (which gives NaN in JavaScript) is excluded by its requires.
- The element's markup other than pizza slices is modelled only as opaque `Markup` children. The `pizza-slice` class list is the `PizzaSlice` node.
