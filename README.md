# lg-pdp-dashboard data pipeline in Dafny

The dashboard reads a Google Sheet that has been exported as CSV text. The sheet is
"wide": one row per model, with one column per WBS process step. The dashboard turns it
into a tree of the form category → country → model → steps. From that tree it derives the
figures on its summary cards. This project models that pipeline, which is all in
`src/App.js`, and proves what it does:

- `parseCSV` (csv.dfy). It splits on `\r?\n`, drops empty lines, splits each line on `,`,
  trims every field, then builds one entry object per data line, keyed by header or
  `column_<i>`.
- `transformSheetData` (sheet.dfy).
  - It decides which columns are steps.
  - It reads country, category and model name from header positions 0, 1 and 2.
  - It reads `TotalModels` and `WBS Level` by name.
  - It groups the rows in first-occurrence order.
- `calculateProgress` and the `useMemo` aggregation (dashboard.dfy). These give overall
  progress, completed and total tasks, the sum of distinct categories' `totalModels`, and
  the number of distinct countries.
- the successful path of `fetchData`, from response text to `projectData` and the summary
  (pipeline.dfy).
- the JavaScript built-ins these rely on (js_text.dfy, seqs.dfy): `undefined`, `||`,
  `trim`, `split`, `includes`, `String(n)`, `parseInt(s, 10)`, `filter`, `flatMap` and
  `Set`.

The loops of the source are modelled as methods. Each method ends in a specification
function:

| Method | Source loop | Ends in |
|---|---|---|
| `Csv.ParseCsv` | the line `for` loop | `Csv.ParseResult` |
| `Csv.BuildEntry` | `headers.forEach` | `Csv.RowOf` |
| `Sheet.TransformSheetData` and `Sheet.AddRow` | `data.forEach` | `Sheet.TransformResult` |
| `Dashboard.UniqueTotals` | the `uniqueModels` loop | `Dashboard.TotalsOf` |
| `Dashboard.Aggregate` | the `useMemo` body | `Dashboard.SummaryOf` |

The properties the dashboard relies on are proved as lemmas about those functions. Two
things are proved against independent definitions:

- The in-place grouping is proved equal to `Sheet.Reference`. That definition states the
  tree directly: distinct categories in order of first row, and in each category its
  distinct countries and their models in row order.
- The summary figures are related directly to the sheet's rows.

JavaScript objects used as dictionaries (`groupedData`, `countries`, `uniqueModels`) are
modelled as association lists in insertion order. A row object is a
`map<string, Option<string>>`: a short line still has the key, with the value `undefined`
(`None`). `totalModels` is an `Option<int>`, where `None` is NaN.

The model follows the code as written, including where it behaves differently from what
its comments or defaults suggest:

- A `TotalModels` cell that does not parse gives NaN rather than the default 200
  (src/App.js:47). The default 200 applies only when no header is exactly `TotalModels`.
  A single NaN makes the whole `totalModels` sum NaN (`Dashboard.SumTotalsNaN`).
- Columns 0 to 2 are not kept out of the steps by their position. The checks
  `h !== 'column_0'` and so on compare raw header text (src/App.js:34). An empty header
  is already dropped by `h &&`. So the country, category and model-name columns are
  steps unless their header contains an information fragment such as `TR`, `제품군` or
  `제품명` (`Sheet.ProcessStepsByRole`).
- `split(/\r?\n/)` removes a `\r` only where it comes before a `\n`. A line of blanks is
  not empty, so it survives the filter and becomes a data row.

One departure goes the other way: `Math.round` is applied to the exact rational
`100·c/n` rather than to a floating-point quotient. The `Dashboard.Progress` line under
"## Left out" says where the two can differ.

## Model

| member | source | states |
|---|---|---|
| JsText.OrDefault | src/App.js:41-43 | `v \|\| d` on a cell: a non-empty string is kept; undefined or "" gives the default |
| JsText.TrimUnique | src/App.js:10 | `trim` removes any white space around a trimmed string, and nothing else |
| JsText.TrimSplit | src/App.js:13 | every string is white space + `trim(s)` + white space (the converse of TrimUnique) |
| JsText.TrimIdempotent | src/App.js:13 | trimming a trimmed field changes nothing |
| JsText.JoinSplit | src/App.js:10 | joining the pieces of `split(sep)` with `sep` gives back the line |
| JsText.SplitJoin | src/App.js:13 | splitting a join of separator-free pieces gives back the pieces |
| JsText.IncludesIff | src/App.js:33 | `h.includes(t)` holds exactly when `t` occurs at some position of `h` |
| JsText.ParseIntOfDecimal | src/App.js:47 | `parseInt(String(n), 10) === n` for every natural number |
| JsText.ParseIntOfNegative | src/App.js:47 | `parseInt("-" + String(n), 10) === -n` |
| JsText.ParseIntStopsAtNonDigit | src/App.js:47 | `parseInt` reads the leading digit run and ignores the rest of the cell |
| JsText.ParseIntOfMinus | src/App.js:47 | a leading minus sign negates the digit run that follows |
| JsText.ParseIntWithoutDigits | src/App.js:47 | after leading white space, a first character that is not a sign or a digit gives NaN |
| JsText.ParseIntAfterWhite | src/App.js:47 | leading white space does not change what `parseInt` reads |
| JsText.ParseIntSigned | src/App.js:47 | after a `-` or `+`, the digit run is read, negated only after `-`; a sign with no digit after it gives NaN |
| JsText.ParseIntCases | src/App.js:47 | `parseInt` on any string, split into white space, optional sign, digit run and rest: NaN exactly when the run is empty, otherwise the run's value, negated only after `-` |
| Csv.ColumnKey | src/App.js:17 | the key is never empty, and it is the header itself whenever the header is non-empty |
| Csv.EmptyKeysDistinct | src/App.js:17 | empty headers at different positions get different `column_<i>` keys |
| Csv.EmptyHeaderField | src/App.js:15-19 | an empty-header column's field is stored under its own `column_<i>` key unless a later header is spelled exactly like that key |
| Csv.RowsOf | src/App.js:12-21 | one entry per data line, in order, each built from that line's trimmed fields |
| Csv.BuildEntry | src/App.js:14-19 | the `headers.forEach` loop builds exactly the entry `RowOf(headers, values)` |
| Csv.ParseCsv | src/App.js:7-23 | the line loop computes `ParseResult(text)`, which is `[]` exactly when there are fewer than two lines; otherwise the headers are the first line's fields and row i is built from line i + 1 |
| Csv.ParseResultShape | src/App.js:8-22 | the same shape facts stated about `ParseResult` |
| Csv.SplitLinesPieces | src/App.js:8 | one line per `\n`-separated piece; a piece before a `\n` loses its final `\r` exactly when it ends in one, and otherwise nothing; the last piece loses nothing; no line contains `\n` |
| Csv.LinesAreNonEmptyPieces | src/App.js:8 | the lines are the non-empty pieces in order: none is empty, and every non-empty piece is kept as often as it occurs |
| Csv.FieldsShape | src/App.js:10 | a line has one more field than it has commas; every field is trimmed and free of commas |
| Csv.RowKeys | src/App.js:15-19 | an entry has the key of every header and no other key, so extra fields are dropped |
| Csv.NoEmptyKey | src/App.js:17 | no entry has the key "", so reading an empty header's cell gives undefined |
| Csv.RowLastWins | src/App.js:15-19 | the value under a key is the field of the last column with that key, or undefined past the end of the line |
| Csv.CellOfLine | src/App.js:14-19 | reading a key of a parsed line: "" and a key no column has give undefined; otherwise the key gives the field of the last column that has it, and such a last column exists whenever some column has the key |
| Sheet.ProcessStepsByRole | src/App.js:31-34 | `processSteps` is the order-preserving subsequence of the headers that are non-empty, contain no information fragment and are not literally `column_0`, `column_1` or `column_2` |
| Sheet.PositionalFieldOfLine | src/App.js:41-43 | `row[headers[p]] \|\| d` on a parsed line is the default when header p is empty or absent; otherwise it is the field of the last column with that key, or the default when that field is "" or missing; so column p is read unless a later column repeats its header |
| Sheet.TotalModelsOfLine | src/App.js:46-47 | `totalModels` is 200 without a `TotalModels` header; otherwise a last `TotalModels` column exists and the value is `parseInt` of its field, NaN when the line ends before that column |
| Sheet.WbsLevelOfLine | src/App.js:57-58 | `wbsLevel` is "미진행" without a `WBS Level` header; otherwise a last `WBS Level` column exists and the value is its field as it is, undefined or "" included |
| Sheet.ModelSteps | src/App.js:60-63 | a model has one step per step column, named after it in order; each status is the cell's own value, or "미진행" when the cell is undefined or ""; a status is never empty, and it is "미진행" exactly when the cell is undefined, "" or "미진행" |
| Sheet.AddRow | src/App.js:39-70 | one pass of `data.forEach` over the nested dictionaries computes `AddEntry`: a first-occurrence category or country is created at the end, with the row's `totalModels` |
| Sheet.TransformSheetData | src/App.js:26-78 | the `forEach` loop computes `TransformResult(parsed)` |
| Sheet.GroupIsReference | src/App.js:37-75 | the in-place grouping equals the reference tree: distinct categories in order of first row, and in each its distinct countries in order of first row, each with its models in row order |
| Sheet.ReferenceStep | src/App.js:49-69 | the reference tree of the rows plus one more row is the one-pass update of the tree of the rows |
| Sheet.CatsInIff | src/App.js:42 | a category occurs among the entries exactly when some entry carries it |
| Sheet.CountriesInIff | src/App.js:53-55 | a country occurs under a category exactly when some entry carries both |
| Sheet.ModelsInIff | src/App.js:65-69 | a model is under a category and country exactly when some entry carries all three |
| Sheet.FirstTotalIsFirst | src/App.js:49-51 | a category's total is that of its first entry |
| Sheet.TransformIsReference | src/App.js:26-78 | `processSteps` comes from the headers alone; `projectData` is the reference tree of the rows, and empty when there are no rows |
| Sheet.CategoriesOfRows | src/App.js:42 | the categories of the entries are the category values of the rows |
| Sheet.CountriesOfRows | src/App.js:41-42 | the countries of a category's entries are the country values of that category's rows |
| Sheet.TransformedCategories | src/App.js:49-51 | category names are unique, and a name is present exactly when some row has that category (`CategoryOf`: the field read through header 1, or "Uncategorized") |
| Sheet.TransformedCategoryOrder | src/App.js:72-75 | categories come in the order of their first rows |
| Sheet.ProjectCategory | src/App.js:72-75 | the i-th category is the reference category of the i-th distinct category value |
| Sheet.TransformedCountries | src/App.js:53-55 | within a category, country names are unique, and a name is present exactly when some row of that category has that country |
| Sheet.TransformedTotal | src/App.js:46-51 | a category's `totalModels` is `TotalModelsOf` its first row |
| Sheet.TransformedModels | src/App.js:60-69 | under each country, the models of exactly that category's and country's rows, in row order |
| Dashboard.CountCompleted | src/App.js:85 | the count of "완료" is at most the number of steps; it equals it exactly when all are "완료" and is 0 exactly when none is |
| Dashboard.Progress | src/App.js:83-87 | 0 for no steps; otherwise the integer nearest to 100·c/n, halves up; always within 0..100 |
| Dashboard.ProgressAllCompleted | src/App.js:83-87 | all steps "완료" gives 100 |
| Dashboard.ProgressNoneCompleted | src/App.js:83-87 | no step "완료" gives 0 |
| Dashboard.ProgressMonotone | src/App.js:83-87 | marking one step "완료" never lowers the progress |
| Dashboard.UniqueTotals | src/App.js:216-221 | the `uniqueModels` loop computes `TotalsOf(projectData)` |
| Dashboard.TotalsKeys | src/App.js:216-221 | `uniqueModels` has each category name exactly once as a key, and no other key |
| Dashboard.TotalsOfDistinct | src/App.js:216-221 | with distinct category names, `uniqueModels` records every category's own name and total, in order |
| Dashboard.ValuesOfDistinct | src/App.js:222 | `Object.values(uniqueModels)` are then the categories' totals, in order |
| Dashboard.SumTotalsNaN | src/App.js:222 | the sum is NaN exactly when some total is NaN |
| Dashboard.SumTotalsConcat | src/App.js:222 | summing a concatenation adds the two sums |
| Dashboard.SumTotalsPermutation | src/App.js:222 | the sum does not depend on the order of the values |
| Dashboard.SummaryOf | src/App.js:210-231 | completed ≤ total tasks; progress within 0..100, 0 without tasks, otherwise the rounded `100·completed/total` |
| Dashboard.Aggregate | src/App.js:210-231 | the `useMemo` body computes `SummaryOf(projectData)` |
| Dashboard.GroupModels | src/App.js:211 | `allModels` holds every row's model exactly once (as multisets) |
| Dashboard.AddEntryModels | src/App.js:65-69 | one pass adds the row's model to `allModels` and nothing else |
| Dashboard.GroupCountries | src/App.js:214 | the set of country names is exactly the set of the rows' countries |
| Dashboard.AddEntryCountries | src/App.js:53-55 | one pass adds the row's country to the set of country names |
| Pipeline.PipelineModels | src/App.js:211 | `allModels` is the rows' models, each once, so there are as many models as data rows |
| Pipeline.PipelineTasks | src/App.js:227 | `totalTasks` = number of data rows × number of step columns |
| Pipeline.PipelineCountries | src/App.js:229 | `countryCount` is the number of distinct country values of the rows |
| Pipeline.PipelineTotals | src/App.js:216-228 | `totalModels` is the sum of the categories' own `totalModels`, each category counted once |
| Pipeline.EmptyPipeline | src/App.js:28 | fewer than two non-empty lines yields no categories and no steps, and every figure is 0 |
| Pipeline.LoadDashboard | src/App.js:192-197 | response text → `parseCSV` → `transformSheetData` → summary. It gives the grouped tree and summary figures, the empty dashboard for fewer than two lines, and `totalTasks` = (lines − 1) × steps |

## Left out

- The React components and their rendering are UI only, with no data contract: `StatusIndicator`, `StatusCell`,
  `CountryProgressGrid`, `CategoryAccordion`, `SummaryCard` and the JSX of `App`
  (src/App.js:89-170, 234-277). This includes `CategoryAccordion`'s per-category progress.
- The summary-card percentages against the fixed totals 5, 32 and 440 (src/App.js:81,
  264-266) are display arithmetic.
- `fetch` through the CORS proxy, `response.ok`, the error and loading state, and the
  React state setters (src/App.js:178-208) are network I/O and asynchronous.
  `Pipeline.LoadDashboard` starts from the response text.
- Dashboard.Progress: `Math.round` of a floating-point quotient is modelled on exact
  rationals. A case that sits at exactly one half in exact arithmetic can round the other
  way in binary floating point (for example 29 of 200).
- JsText.ParseInt: it is modelled on unbounded integers. Precision loss of very long digit
  runs, and floating-point sums of large totals, are not modelled.
- Integer-like object keys are not reordered. JavaScript lists such keys (a category named
  "2024", say) first and in numeric order in `Object.values`; the model lists all keys in
  insertion order. For the `totalModels` sum the order does not matter
  (`Dashboard.SumTotalsPermutation`).
- Object keys inherited from `Object.prototype` (such as `constructor` or `__proto__`)
  are not modelled. Every key is treated as an own property. In the source, a category
  named `constructor` finds the inherited function in `groupedData`, so reading
  `groupedData[category].countries[country]` throws a TypeError and the dashboard shows
  its error screen; the model groups such a row like any other.
- `!items` in `calculateProgress`: the dashboard always passes an array, so the model takes
  a sequence.
- Regular-expression matching in general is not modelled. Only the one pattern `\r?\n` is
  modelled, by its effect.
- Pipeline.LoadDashboard: the failing path (no response, or a status that is not OK)
  leaves the previous state. It is not modelled, because it involves no data processing.
