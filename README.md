# Clarence: agent productivity analysis, modelled in Dafny

Clarence is a small React application for an insurance network. Its home page
takes an `.xlsx` workbook, keeps the rows of the first sheet that name an
agent (`AGENTE`), and puts them into a shared store. Its analysis page then
turns every stored agent into a table row and computes the agent's mean
productivity. The mean is the total of the monthly policy counts (`polFisData`)
divided by the number of months whose status flag (`tipoData`) is numeric and
not 0, 3, 12 or 17, rounded to hundredths, or "N/A". The table can be searched
by name or code. Three "systematic" agent types are hidden unless "show all" is
on, and there are exact filters on type and inspector, whose option lists are
drawn from the searched rows. The table sorts stably on a clicked column and
shows 15 rows per page. Opening an agent shows a bar chart of its included
months, with colours for negative, highest and below-median bars, and caches
the median of those months on the agent.

The Dafny project models that pipeline:

- `wrappers.dfy` (`Wrappers`): `Option`.
- `js_text.dfy` (`JsText`): the JavaScript string operations the page relies on:
  - `trim` and its white-space set;
  - `toLowerCase` and `toUpperCase`;
  - `includes`;
  - the string `<` the comparator uses.
- `js_number.dfy` (`JsNumber`): the number operations the page relies on:
  - `parseFloat` (leading white space, sign, digits, fraction);
  - `Math.round`;
  - the `toString` of a value in hundredths.
- `seqs.dfy` (`Seqs`): `filter`, `map` and the first-occurrence de-duplication of `[...new Set(..)]`.
- `agents.dfy` (`Agents`): the stored agent, the table row, `calculateMediaProductiva` and the normalising effect.
- `filtering.dfy` (`Filtering`): `filteredRows`, the excluded types and `getFilterOptions`.
- `sorting.dfy` (`Sorting`):
  - `descendingComparator` and `getComparator`;
  - `stableSort`, an insertion sort of the original positions in an array;
  - `handleRequestSort`.
- `paging.dfy` (`Paging`): `slice((page - 1) * 15, page * 15)` and the page count.
- `statistics.dfy` (`Statistics`): the included months of `chartData`, the median, the highest value and the bar series.
- `analysis_page.dfy` (`AnalysisView`): the analysis page as a class. Its fields are the page's state, and it has one method per handler and effect.
- `upload.dfy` (`Upload`): the extension test, the projection of sheet rows, and the home page as a class with `handleFileUpload`, the read completion and the snackbar.
- `colour.dfy` (`Colour`): `lightenColor`, used for the hovered bar.

## Model

| member | source | states |
|---|---|---|
| Agents.MeanProductivity | src/pages/AnalysisPage.js:247-255 | "N/A" exactly when `tipoData` or `polFisData` is missing or no flag is an active month; otherwise the result in hundredths is within half a unit of 100 × total / active months |
| Agents.IsExcludedFlag | src/pages/AnalysisPage.js:250 | no own contract: `OneMonth` states that exactly the codes 0, 3, 12 and 17 keep a numeric flag from being an active month |
| Agents.IsActiveFlag | src/pages/AnalysisPage.js:250 | no own contract: `OneMonth` states that a month is active exactly when its flag parses to a number other than 0, 3, 12 and 17, and `NonNumericIgnored` that a flag that does not parse is never active |
| Agents.ActiveMonths | src/pages/AnalysisPage.js:249-251 | never more active months than months; with `ActiveMonthsAppend` the count adds up month by month, one for each flag that parses to a number other than 0, 3, 12 and 17 |
| Agents.TotalPolicies | src/pages/AnalysisPage.js:252-254 | no own contract: `TotalPoliciesAppend` and `NonNumericIgnored` state that the total adds up month by month and skips values that do not parse |
| Agents.ActiveMonthsAppend | src/pages/AnalysisPage.js:249-251 | the active-month count of two month lists together is the sum of their counts |
| Agents.TotalPoliciesAppend | src/pages/AnalysisPage.js:252-254 | the policy total of two month lists together is the sum of their totals |
| Agents.NonNumericIgnored | src/pages/AnalysisPage.js:250-253 | a month whose value does not parse as a number adds nothing to the total and is not an active month |
| Agents.OneMonth | src/pages/AnalysisPage.js:249-254 | a single month counts as active exactly when its flag parses to a number other than 0, 3, 12 and 17, and adds its parsed policy count to the total, or nothing when the count does not parse |
| Agents.MissingPoliciesDiffersFromEmpty | src/pages/AnalysisPage.js:248-255 | with active months, a missing `polFisData` gives "N/A" but an empty one gives a mean of 0 |
| Agents.MediaText | src/pages/AnalysisPage.js:255 | the stored text is "N/A" exactly for the unavailable mean; otherwise `parseFloat` reads it back as the rounded mean |
| Agents.IsTruthy | src/pages/AnalysisPage.js:260-263 | no own contract: `Normalize` states that exactly the missing or empty fields take their defaults |
| Agents.Normalize | src/pages/AnalysisPage.js:260-268 | each falsy `cod`, `agentName`, `tipo`, `inspector` becomes "N/A", "Sin nombre", "Desconocido", "Desconocido" and the others are kept; missing month objects become empty; the mean text is that of the agent; no median is cached yet |
| Agents.NormalizeAll | src/pages/AnalysisPage.js:260-269 | one row per stored agent, in the same order, each the normalised agent |
| JsNumber.Round | src/pages/AnalysisPage.js:255 | `Math.round` gives the integer k with k - 0.5 <= x < k + 0.5 (halves round up) |
| JsNumber.ParseUnsigned | src/pages/AnalysisPage.js:250-253 | no own contract: `HundredthsRoundTrip` and `NaturalRoundTrip` state that it reads back the digits the page writes |
| JsNumber.NatToString | src/pages/AnalysisPage.js:255 | digits only, no leading zero except for 0 itself, and their decimal value is the number |
| JsNumber.ParseFloat | src/pages/AnalysisPage.js:250-253 | no own contract: `HundredthsRoundTrip` and `NaturalRoundTrip` state that it reads back the texts the page writes, `ParseSigned` that a leading `-` negates the value, `ParseFloatOfDigitStart` that text starting with a digit is read as an unsigned numeral |
| JsNumber.HundredthsToString | src/pages/AnalysisPage.js:255 | the canonical text that is sorted as the mean: a minus sign exactly for a negative value, the integer part without leading zeros, then nothing for a whole value or a point and one or two digits whose last is not 0; `HundredthsRoundTrip` states that `parseFloat` reads it back as k / 100 |
| JsNumber.FractionText | src/pages/AnalysisPage.js:255 | empty exactly for no hundredths, otherwise a point and one or two digits without a trailing 0 |
| JsNumber.HundredthsRoundTrip | src/pages/AnalysisPage.js:255 | `parseFloat` of the text of k / 100 gives back k / 100, for every integer k |
| JsNumber.NaturalRoundTrip | src/pages/AnalysisPage.js:250 | `parseFloat` of the decimal text of a natural number gives that number |
| JsText.TrimStart | src/pages/AnalysisPage.js:279 | removes exactly a leading run of white space, so the result is a suffix that starts with no white space |
| JsText.TrimEnd | src/pages/AnalysisPage.js:279 | removes exactly a trailing run of white space, so the result is a prefix that ends with no white space |
| JsText.IsWhitespace | src/pages/AnalysisPage.js:279 | no own contract: `TrimStart` and `TrimEnd` state that exactly the runs of these characters at either end are removed |
| JsText.Trim | src/pages/AnalysisPage.js:279 | the result neither starts nor ends with white space; `TrimRemovesPadding` states that it is the padded text itself |
| JsText.ToLower | src/pages/AnalysisPage.js:277-278 | one character per input character; no capital is left, every character that is not a capital is kept, and each capital becomes the small letter whose capital it is |
| JsText.ToLowerIdempotent | src/pages/AnalysisPage.js:473 | lower-casing the typed query again, as the name and code are, changes nothing |
| JsText.ToUpper | src/pages/AnalysisPage.js:279 | one character per input character; no small letter is left, every character that is not a small letter is kept, and each small letter other than `µ` becomes the capital whose small letter it is |
| JsText.ToUpperIdempotent | src/pages/AnalysisPage.js:279 | upper-casing twice is upper-casing once |
| JsText.LowerChar | src/pages/AnalysisPage.js:277-278 | no own contract: `ToLower` states that it leaves no capital and keeps every other character, and `LowerOfUpper` that it undoes `UpperChar` for every character but `µ` |
| JsText.UpperChar | src/pages/AnalysisPage.js:279 | no own contract: `ToUpper` states that it leaves no small letter and keeps every other character, and `UpperOfLower` that it undoes `LowerChar` |
| JsText.LowerOfUpper | src/pages/AnalysisPage.js:277-279 | lower-casing after upper-casing is lower-casing alone, for text without `µ` (whose capital lower-cases to Greek `μ`) |
| JsText.UpperOfLower | src/pages/AnalysisPage.js:277-279 | upper-casing after lower-casing is upper-casing alone |
| JsText.TrimRemovesPadding | src/pages/AnalysisPage.js:279 | `trim` of text padded with white space on both sides is the text itself |
| JsText.Includes | src/pages/AnalysisPage.js:277-278 | no own contract: `IncludesAt` states that it holds exactly when the text occurs at some position, `EmptyIncluded` that the empty text is always included |
| JsText.IncludesAt | src/pages/AnalysisPage.js:277-278 | `includes` holds exactly when the searched text occurs at some position |
| JsText.EmptyIncluded | src/pages/AnalysisPage.js:277-278 | the empty search text is included in every name and code |
| JsText.IncludesIgnoresCase | src/pages/AnalysisPage.js:277-278 | text that occurs in a string still occurs in it once both are lower-cased |
| JsText.LessIrreflexive | src/pages/AnalysisPage.js:341-344 | no string is `<` itself |
| JsText.LessAsymmetric | src/pages/AnalysisPage.js:341-344 | `a < b` excludes `b < a` |
| JsText.LessTransitive | src/pages/AnalysisPage.js:341-344 | string `<` is transitive |
| JsText.LessTrichotomous | src/pages/AnalysisPage.js:341-344 | two strings are equal or one is `<` the other |
| JsText.Less | src/pages/AnalysisPage.js:341-344 | no own contract: `LessIrreflexive`, `LessAsymmetric`, `LessTransitive` and `LessTrichotomous` state that it is a strict total order on strings |
| Seqs.Filter | src/pages/AnalysisPage.js:275 | the kept elements are the elements that satisfy the test, in their original order |
| Seqs.FilterMap | src/HomePage.js:48-51 | filtering after a projection is the same as projecting the elements whose projection passes the test |
| Seqs.FilterCount | src/HomePage.js:48-51 | the length of a filtered list is the number of elements that pass the test |
| Seqs.Dedup | src/pages/AnalysisPage.js:289-301 | no duplicates, the same values as the input, in the order of their first occurrence |
| Filtering.FilteredRows | src/pages/AnalysisPage.js:274-285 | an order-preserving subsequence of the rows that holds exactly the rows passing the search, the exclusion, the type filter and the inspector filter, as many as there are such rows |
| Filtering.QueryMatch | src/pages/AnalysisPage.js:276-278 | no own contract: `SearchIgnoresCase` and `SearchFindsAna` state that a search in any capitalisation finds a name or code containing it, and `NoConstraintKeepsAll` that an empty search finds every row |
| Filtering.SearchIgnoresCase | src/pages/AnalysisPage.js:276-278 | typed text that lower-cases to the lower case of something occurring in the name or the code matches the row once the handler lower-cases it |
| Filtering.SearchFindsAna | src/pages/AnalysisPage.js:276-278 | after the handler lower-cases it (:473), typing "AN" finds the agent "Ana" |
| Filtering.SistematicaMatch | src/pages/AnalysisPage.js:279-280 | no own contract: `ExclusionIgnoresCaseAndBlanks` states that an excluded type is hidden whatever its blanks and case, unless "show all" is on |
| Filtering.TipoMatch | src/pages/AnalysisPage.js:281 | no own contract: `FilteredRows` states that with a type chosen only rows of that type are kept, and `NoConstraintKeepsAll` that "Todos" keeps every row |
| Filtering.InspectorMatch | src/pages/AnalysisPage.js:282 | no own contract: `FilteredRows` states that with an inspector chosen only that inspector's rows are kept, and `NoConstraintKeepsAll` that "Todos" keeps every row |
| Filtering.IsVisible | src/pages/AnalysisPage.js:283 | no own contract: `FilteredRows` states that exactly the rows passing all four tests are shown |
| Filtering.NoConstraintKeepsAll | src/pages/AnalysisPage.js:274-285 | an empty search with "show all" on and no filters keeps every row |
| Filtering.ExclusionIgnoresCaseAndBlanks | src/pages/AnalysisPage.js:77-81 | a type " Agente de Seguros " is hidden unless "show all" is on, because it is trimmed and upper-cased before the test |
| Filtering.Candidates | src/pages/AnalysisPage.js:290-298 | an order-preserving subsequence of the rows holding exactly the rows that pass the search and the exclusion, as many as there are such rows |
| Filtering.IsCandidate | src/pages/AnalysisPage.js:290-297 | no own contract: `Candidates` states that exactly the rows passing the search and the exclusion feed the option lists |
| Filtering.Field | src/pages/AnalysisPage.js:298 | no own contract: `FilterOptions` states that the options are exactly the distinct non-empty values of this field among the candidates |
| Filtering.FilterOptions | src/pages/AnalysisPage.js:288-301 | no duplicates and no empty value; every option is the field of a candidate row, and every non-empty field of a candidate row is an option |
| Filtering.OptionsKeepFirstAppearance | src/pages/AnalysisPage.js:288-301 | the options appear in the order of their first appearance among the candidate rows |
| Filtering.VisibleRowsOffered | src/pages/AnalysisPage.js:304-305 | the non-empty type and inspector of every row in the table are among the options, whatever the type and inspector filters |
| Sorting.DescendingComparator | src/pages/AnalysisPage.js:340-348 | -1 exactly when b's key is `<` a's, 1 exactly when a's is `<` b's, 0 exactly when they are equal |
| Sorting.Compare | src/pages/AnalysisPage.js:350-354 | negative exactly when a's key comes first in the chosen direction, zero exactly when the keys are equal |
| Sorting.SortKey | src/pages/AnalysisPage.js:341-344 | no own contract: `DescendingComparator` and `Compare` state that rows are compared by this field as text |
| Sorting.KeyBefore | src/pages/AnalysisPage.js:350-354 | no own contract: `Compare` states that a row comes first exactly when its key comes first in this direction |
| Sorting.Precedes | src/pages/AnalysisPage.js:358-362 | no own contract: `PrecedesIrreflexive`, `PrecedesAsymmetric`, `PrecedesTransitive` and `PrecedesTotal` state that it is a strict total order on positions |
| Sorting.RequestSort | src/pages/AnalysisPage.js:367-371 | always sorts on the clicked column; descending exactly when that column was already sorted ascending |
| Sorting.RepeatedClicksAlternate | src/pages/AnalysisPage.js:367-371 | after a click on a column, a second click on it flips the direction and a third restores the first result |
| Sorting.PrecedesIrreflexive | src/pages/AnalysisPage.js:358-362 | no position comes before itself under the index-stabilised comparator |
| Sorting.PrecedesAsymmetric | src/pages/AnalysisPage.js:358-362 | two positions are never each before the other |
| Sorting.PrecedesTransitive | src/pages/AnalysisPage.js:358-362 | the index-stabilised order is transitive |
| Sorting.PrecedesTotal | src/pages/AnalysisPage.js:358-362 | of two distinct positions one always comes first, so the sort has a single answer |
| Sorting.FlipDirection | src/pages/AnalysisPage.js:350-362 | switching direction reverses rows with different keys and keeps the original order of rows with equal keys |
| Sorting.StableSort | src/pages/AnalysisPage.js:356-364 | returns the rows at a permutation of their positions that is ordered by the comparator, with ties in original order |
| Sorting.IsPermutation | src/pages/AnalysisPage.js:357-363 | no own contract: `PermutationFacts` states that each position of the table appears exactly once |
| Sorting.StableOrder | src/pages/AnalysisPage.js:358-362 | no own contract: `StableOrderUnique` states that only one permutation is in this order, and `StableOrderMeaning` what the order says about equal and different keys |
| Sorting.StableOrderUnique | src/pages/AnalysisPage.js:356-364 | only one permutation is ordered that way, so the stabilised result does not depend on the sort algorithm |
| Sorting.StableOrderMeaning | src/pages/AnalysisPage.js:356-364 | in the result, rows with equal keys keep their original order and rows with different keys are in key order |
| Sorting.NineAndTenTexts | src/pages/AnalysisPage.js:255 | a mean of 9 is stored as the text "9" and a mean of 10 as "10" |
| Sorting.MediaSortsAsText | src/pages/AnalysisPage.js:255 | the mean is sorted as text: an ascending sort puts the row whose mean is 10 before the row whose mean is 9 |
| Paging.Slice | src/pages/AnalysisPage.js:560 | `slice(start, end)` clamps the end to the length and is empty when the start is past either |
| Paging.PageRows | src/pages/AnalysisPage.js:560 | no own contract: `PageContents`, `RowOnItsPage` and `PagesPastCountEmpty` state which rows each page shows |
| Paging.PageCount | src/pages/AnalysisPage.js:619 | the smallest count of 15-row pages that holds n rows (`Math.ceil(n / 15)`) |
| Paging.PageContents | src/pages/AnalysisPage.js:559-560 | page p shows rows (p - 1) × 15 onwards, at most 15 of them |
| Paging.RowOnItsPage | src/pages/AnalysisPage.js:559-560 | every row is shown on page k / 15 + 1, within the page count, at position k mod 15 |
| Paging.PagesPastCountEmpty | src/pages/AnalysisPage.js:559-560 | a page past the page count shows nothing |
| Paging.ThirtyTwoRows | src/pages/AnalysisPage.js:559-560 | 32 rows make 3 pages, the last holding rows 30 and 31 |
| Statistics.Lookup | src/pages/AnalysisPage.js:313 | `tipoData[key]` is found exactly when some month has that key, and gives that month's value |
| Statistics.IsIncluded | src/pages/AnalysisPage.js:311-317 | no own contract: `IncludedEntries` states that the kept months are exactly those whose flag does not parse to 0, 3, 12 or 17 and whose policy count parses |
| Statistics.IncludedEntries | src/pages/AnalysisPage.js:311-317 | an order-preserving subsequence of the policy months holding exactly the months with a numeric policy value and no flag that parses to 0, 3, 12 or 17, as many as there are such months (a missing flag does not exclude a month) |
| Statistics.IncludedValues | src/pages/AnalysisPage.js:318 | no own contract: `MedianIgnoresOrder` states that the median depends on these values only up to their order, and `ChartSeries` that each gives one bar |
| Statistics.Insert | src/pages/AnalysisPage.js:320 | inserting into a sorted list gives a sorted list with one more element, and the same values plus the new one |
| Statistics.SortAsc | src/pages/AnalysisPage.js:320 | `sort((a, b) => a - b)` gives an ascending permutation of the values |
| Statistics.SortedUnique | src/pages/AnalysisPage.js:320 | two ascending lists with the same values are equal |
| Statistics.SortAscIs | src/pages/AnalysisPage.js:320 | any ascending permutation of the values is the sorted list |
| Statistics.Median | src/pages/AnalysisPage.js:321-322 | at least the lower half of the sorted values and at most the upper half |
| Statistics.MedianOfThree | src/pages/AnalysisPage.js:320-322 | the median of 30, 10 and 20 is 20 |
| Statistics.MedianOfTwo | src/pages/AnalysisPage.js:320-322 | the median of 20 and 10 is 15 |
| Statistics.MedianOf | src/pages/AnalysisPage.js:318-322 | an agent has no median exactly when no month is included; otherwise it is the median of the sorted included values |
| Statistics.MedianIgnoresOrder | src/pages/AnalysisPage.js:320-322 | agents whose included values are the same up to order have the same median |
| Statistics.ReadsOnlyMonths | src/pages/AnalysisPage.js:310 | the median and the series depend only on the two month objects |
| Statistics.MaxOf | src/pages/AnalysisPage.js:331 | `Math.max` is one of the values and at least every value |
| Statistics.MonthLabel | src/pages/AnalysisPage.js:326 | `split('-')[1]` is present exactly when the key holds a dash, and is the dash-free text right after the first dash |
| Statistics.Bars | src/pages/AnalysisPage.js:325-336 | one bar per month, in order, with its label, its value and the colour for that value |
| Statistics.FillColor | src/pages/AnalysisPage.js:328-335 | no own contract: `Bars` states that every bar is coloured by this rule (negative first, then the highest value, then below the median), and `HighestBarMarked` that when the highest value is not negative some bar is drawn in the highest-value colour |
| Statistics.ChartSeries | src/pages/AnalysisPage.js:309-336 | one bar per included month, coloured against the highest value and the median of the included values |
| Statistics.ChartEmptyIffNoMedian | src/pages/AnalysisPage.js:319 | the series is empty exactly when there is no median to cache |
| Statistics.HighestBarMarked | src/pages/AnalysisPage.js:329-332 | when the highest value is not negative, some bar gets the highest-value colour |
| AnalysisView.Arrange | src/pages/AnalysisPage.js:559 | the filtered rows placed in the order of a permutation of their positions |
| AnalysisView.NormalizeAllBuilt | src/pages/AnalysisPage.js:259-271 | every loaded row is the normalised form of its stored agent |
| AnalysisView.CacheMedian | src/pages/AnalysisPage.js:323 | writing the median changes no other field; an agent with no included month is left alone |
| AnalysisView.CacheKeepsBuilt | src/pages/AnalysisPage.js:323 | a row with its cached median is still the normalised form of its agent, and the cache holds that row's median |
| AnalysisView.CacheKeepsAllBuilt | src/pages/AnalysisPage.js:323 | caching the median of one row keeps every row the normalised form of its agent |
| AnalysisView.AnalysisPage.constructor | src/pages/AnalysisPage.js:225-237 | the first render: loading, no rows, nothing selected, empty search, page 1, no filters, "show all" off, ascending order on no column |
| AnalysisView.AnalysisPage.LoadRows | src/pages/AnalysisPage.js:259-271 | the rows become the normalised agents and loading ends; nothing else changes |
| AnalysisView.AnalysisPage.SetSearchQuery | src/pages/AnalysisPage.js:473 | the search becomes the lower-cased text and the page returns to 1 |
| AnalysisView.AnalysisPage.SetTipoFilter | src/pages/AnalysisPage.js:487 | the type filter is set, the inspector filter is kept and the page returns to 1 |
| AnalysisView.AnalysisPage.SetInspectorFilter | src/pages/AnalysisPage.js:506 | the inspector filter is set, the type filter is kept and the page returns to 1 |
| AnalysisView.AnalysisPage.SetShowAll | src/pages/AnalysisPage.js:596 | "show all" is set, both filters are cleared and the page returns to 1 |
| AnalysisView.AnalysisPage.SetPage | src/pages/AnalysisPage.js:621 | the page becomes the chosen one; nothing else changes |
| AnalysisView.AnalysisPage.HandleRequestSort | src/pages/AnalysisPage.js:367-371 | the order and column become those of the header-click rule; nothing else changes |
| AnalysisView.AnalysisPage.SelectAgent | src/pages/AnalysisPage.js:562 | the clicked row is selected and the detail view opens |
| AnalysisView.AnalysisPage.CloseModal | src/pages/AnalysisPage.js:632 | the detail view closes and the selection is cleared |
| AnalysisView.AnalysisPage.ChartData | src/pages/AnalysisPage.js:308-337 | no selection gives no bars; otherwise the bars are the selected row's series and only that row changes, by caching its median |
| AnalysisView.AnalysisPage.VisibleRows | src/pages/AnalysisPage.js:559-561 | the shown rows are the current page of the filtered rows, placed in the stable order of the chosen column and direction |
| AnalysisView.AnalysisPage.PagesOffered | src/pages/AnalysisPage.js:619 | the pager offers the fewest 15-row pages that hold every filtered row: enough for all of them, and one fewer would not be |
| Upload.LastDot | src/HomePage.js:25 | the position of the last dot, or none when the name has no dot |
| Upload.Extension | src/HomePage.js:25 | `split('.').pop()`: the dot-free end of the name that follows its last dot, or the whole name |
| Upload.IsXlsx | src/HomePage.js:25-26 | no own contract: `IsXlsxMeaning` states that a name passes exactly when it is "xlsx" or ends in ".xlsx" |
| Upload.IsXlsxMeaning | src/HomePage.js:25-26 | a name is accepted exactly when it is "xlsx" or ends in ".xlsx" |
| Upload.AcceptedHasSuffix | src/HomePage.js:25-26 | every accepted name ends in ".xlsx" or is "xlsx" |
| Upload.SuffixAccepted | src/HomePage.js:25-26 | every name ending in ".xlsx" is accepted |
| Upload.AcceptedName | src/HomePage.js:25-26 | a name made of any stem, a dot and "xlsx" is accepted |
| Upload.AcceptedNames | src/HomePage.js:25-26 | "agentes.xlsx", "xlsx" and "informe.2024.xlsx" are accepted |
| Upload.RejectedNames | src/HomePage.js:25-26 | "agentes.XLSX", "agentes.xlsx.csv" and "agentes" are rejected: the test is case-sensitive and looks only after the last dot |
| Upload.ProjectAgents | src/HomePage.js:48-51 | every stored record has a truthy agent name |
| Upload.ToRecord | src/HomePage.js:47-50 | no own contract: `ProjectionKeepsNamedRows` states that the stored records are the projections of the rows with a truthy `AGENTE` |
| Upload.HasAgent | src/HomePage.js:47-51 | no own contract: `ProjectionKeepsNamedRows` states that exactly the rows passing it are stored, in order |
| Upload.ProjectionKeepsNamedRows | src/HomePage.js:48-51 | the records are the projections of the rows with a truthy `AGENTE`, in row order, as many as there are such rows |
| Upload.FirstSheetAgents | src/HomePage.js:39-51 | a result exactly when the workbook decodes; it is the projection of the first sheet alone, or no records when the workbook has no sheet, because the rows of an undefined sheet are none |
| Upload.HomePage.constructor | src/HomePage.js:16-20 | no file name, not loading, snackbar closed with no message, success severity, empty store |
| Upload.HomePage.HandleFileUpload | src/HomePage.js:22-35 | no file changes nothing; a name whose extension is not "xlsx" shows the type error and sets neither the name nor loading; an accepted name is recorded, loading starts and the read begins; the store is not touched |
| Upload.HomePage.OnLoad | src/HomePage.js:37-64 | completion always ends loading and opens the snackbar; a decoded first sheet replaces the store, shows success and navigates; a failure keeps the store and shows the error |
| Upload.HomePage.CloseSnackbar | src/HomePage.js:71-73 | the snackbar closes; nothing else changes |
| Colour.RemoveFirstHash | src/pages/AnalysisPage.js:85 | `replace('#', '')` removes the first `#` and keeps everything before and after it, and changes nothing when there is no `#` |
| Colour.ColourNumber | src/pages/AnalysisPage.js:85 | no own contract: `HexColourNumber` and `ChannelsOfHexColour` state that for `#rrggbb` it is r × 0x10000 + g × 0x100 + b |
| Colour.ToInt32 | src/pages/AnalysisPage.js:85-89 | the shifts see a 32-bit integer, equal to the parsed value when that is a non-negative 31-bit number |
| Colour.Clamp | src/pages/AnalysisPage.js:94-96 | a channel is kept inside 0..255, raised to 0 below it and cut to 255 above it |
| Colour.Hex2 | src/pages/AnalysisPage.js:92-99 | two hex digits whose value is the channel |
| Colour.HexColour | src/pages/AnalysisPage.js:90-100 | `#` and six hex digits, two per channel |
| Colour.Amount | src/pages/AnalysisPage.js:86 | a non-negative percentage gives a non-negative amount |
| Colour.Channels | src/pages/AnalysisPage.js:85-96 | every lightened channel lies in 0..255 |
| Colour.Shifted | src/pages/AnalysisPage.js:87-96 | every channel lies in 0..255; `ChannelsOfBytes` states that the shifts and masks recover the three bytes of a 24-bit value, each raised by the amount and clamped |
| Colour.ParseHex | src/pages/AnalysisPage.js:85 | no own contract: `ParseAllHex` and `ParseHexColour` state that `parseInt(.., 16)` reads a run of hex digits, and so the six digits of `rrggbb`, as their value |
| Colour.ParseAllHex | src/pages/AnalysisPage.js:85 | `parseInt(.., 16)` of two or more hex digits is their hexadecimal value |
| Colour.HexStringOfChannels | src/pages/AnalysisPage.js:92-98 | `(0x1000000 + r * 0x10000 + g * 0x100 + b).toString(16)` is "1" followed by the two digits of each channel |
| Colour.HexString | src/pages/AnalysisPage.js:98 | never empty; `HexStringOfChannels` states that for `0x1000000 + r × 0x10000 + g × 0x100 + b` it is "1" and two lower-case digits per channel |
| Colour.ChannelTextDigits | src/pages/AnalysisPage.js:90-100 | after `slice(1)` the text is `#` and the two digits of each clamped channel |
| Colour.ChannelText | src/pages/AnalysisPage.js:90-100 | no own contract: `ChannelTextDigits` states that for channels in 0..255 it is `#` and the two lower-case hex digits of each channel |
| Colour.LightenColorShape | src/pages/AnalysisPage.js:84-101 | `lightenColor` always returns `#` and six lower-case hex digits, those of its clamped channels |
| Colour.LightenColor | src/pages/AnalysisPage.js:84-101 | no own contract: `LightenColorShape`, `ChannelsOfHexColour`, `LightenNeverDarkens` and `ZeroPercentKeepsColour` state that the result is `#` and the hex digits of the channels raised by the amount and clamped, never darker, and unchanged at 0 % |
| Colour.ParseHexColour | src/pages/AnalysisPage.js:85 | a colour written as `#rrggbb` is read by `parseInt(.., 16)` as its six-digit value |
| Colour.HexColourNumber | src/pages/AnalysisPage.js:85 | that value is r × 0x10000 + g × 0x100 + b |
| Colour.ChannelsOfBytes | src/pages/AnalysisPage.js:85-89 | the shifts and masks recover the three bytes of the value, and each is raised by the amount and clamped |
| Colour.ChannelsOfHexColour | src/pages/AnalysisPage.js:84-96 | lightening `#rrggbb` raises every channel by `Math.round(2.55 × percent)`, clamped |
| Colour.LightenNeverDarkens | src/pages/AnalysisPage.js:84-96 | a non-negative percentage never lowers a channel |
| Colour.LightenOfChannels | src/pages/AnalysisPage.js:90-100 | the result is fixed by the three channels alone |
| Colour.ZeroPercentKeepsColour | src/pages/AnalysisPage.js:84-101 | lightening a lower-case `#rrggbb` colour by 0 % returns it unchanged |
| Colour.HoveredHighestBar | src/pages/AnalysisPage.js:211 | the hovered highest bar, `#2ecc71` lightened by 20 %, is drawn `#61ffa4` |

## Left out

- Floating point: every number is an exact `real`. IEEE-754 rounding (of `2.55 * percent`, of `total / active * 100`, of the median's mean) is not modelled. `Math.round` is floor(x + 0.5) on the exact value.
- JsNumber.ParseFloat: reads white space, a sign, digits and a fraction. Exponents ("1e3") and "Infinity" are not modelled. A failed parse (NaN) is `None`.
- JsNumber.HundredthsToString: writes k / 100 in plain decimal. JavaScript's exponent notation for magnitudes of 1e21 and above is not modelled.
- JsText.ToLower and JsText.ToUpper: map ASCII and Latin-1 letters, `Ÿ` and `ÿ` both ways, and `µ` to its capital `Μ`. Other Unicode case mappings, including the ones that change length such as `ß` to "SS", are not modelled.
- JsText.Less: compares characters as code points. JavaScript compares UTF-16 code units, which differ only for characters outside the Basic Multilingual Plane.
- Month objects are lists of key/text pairs in insertion order. A month value that arrives as a number is taken as its text, which `parseFloat` reads the same way.
- The stored agent's `cod`, `agentName`, `tipo` and `inspector` are text in the model. In the source, a `cod`, `agentName` or `tipo` that arrives as a number makes `toLowerCase()` or `trim()` throw while the table is filtered (src/pages/AnalysisPage.js:277-279). The model does not capture that error.
- Statistics.ChartSeries: a bar's value and its highest-value test use `parseFloat` of the policy count. The source uses `Number(value)` there, which differs for text with trailing characters such as "12abc".
- AnalysisView.AnalysisPage.ChartData: caches the median as a number, not as its `toString` text.
- The selected agent is held as its position in `rows`, not as the row object itself. The median written onto that object is written onto that row.
- AnalysisView.AnalysisPage.VisibleRows: before any header click, `orderBy` is `''` and every key is `undefined`. The comparator is then inconsistent and the order is left to the JavaScript engine. The model keeps the filtered order in that case.
- AnalysisView.AnalysisPage.LoadRows: requires the loading state. The agents in the store are fixed for the life of the page, so a later change of the store re-running the effect is not modelled.
- Upload.HomePage.HandleFileUpload: requires that no read is in progress, because the upload control is disabled while loading (src/HomePage.js:194). Only the file's name is modelled.
- `FileReader`, `XLSX.read` and `sheet_to_json` are library and I/O calls. Their outcome is a parameter of `OnLoad`: a decoded workbook of sheets of rows, or a failure that stands for an error thrown inside the `onload` handler. `navigate('/analysis')` is a flag.
- Upload.HomePage.OnLoad: models only the `onload` event. The page installs no `onerror` or `onabort` handler (src/HomePage.js:37-67), so a read that fails or is aborted never completes: `loading` stays true and the upload control stays disabled (src/HomePage.js:194). The model has no such event.
- The snackbar message is a datatype whose `Text` gives the three source texts.
- The store: src/DataContext.js and src/context/DataContext.js are not part of this model. The home page's store and the analysis page's agents are separate fields. In the source, src/App.js mounts no data provider, its import `./pages/HomePage` names a file other than src/HomePage.js, and src/DataContext.js offers `setAgentNames` where src/HomePage.js:15 asks for `setAgentData`.
- Presentation is not modelled:
  - theming and dark mode;
  - styled components and the modal animation;
  - the red mark on a mean below 3 (src/pages/AnalysisPage.js:567);
  - the month-name tick formatter (src/pages/AnalysisPage.js:202);
  - the hovered-bar index (the hovered colour itself is in `Colour`).
- The detail view's month and policy counts (src/pages/AnalysisPage.js:173-183) repeat `Agents.ActiveMonths` and `Agents.TotalPolicies` and are not modelled separately.
- PDF export (src/pages/AnalysisPage.js:374-412) is DOM, canvas and timer I/O.
- Routing, layout and the placeholder pages (src/App.js, src/index.js, src/layouts/, src/pages/AgentesProductivos.js, src/AnalysisPage.js) are not part of this model.
