# GDP and life expectancy dashboard: the data pipeline, in Dafny

The dashboard of `script.js` loads two spreadsheets, one with GDP per capita and population by country and one with life expectancy by country. It merges them into one record per country and draws a bubble chart and a bar chart. The charts can be filtered by a life-expectancy range and cut to the N countries with the highest GDP.

This project models the pipeline between the raw spreadsheet rows and what the charts draw. It then proves what that pipeline guarantees.

- **Values** (`values.dfy`) holds the JavaScript values the pipeline handles:
  - a number, `NaN` or an exact real;
  - a cell value: undefined, null, boolean, number or string;
  - an outcome that is either a value or the `TypeError` a call throws;
  - truthiness.
- **JsStrings** (`js_strings.dfy`) holds the string built-ins:
  - `trim`, with the ECMAScript white-space set;
  - `toLowerCase`;
  - the global removal of one character, `replace(/c/g, '')`;
  - `startsWith`, `slice(1)` and `substr`.
- **JsNumbers** (`js_numbers.dfy`) holds `parseInt` and `parseFloat`, as in sections 19.2.5 and 19.2.4 of ECMA-262:
  - both skip leading white space and one optional sign, then read the longest numeric prefix;
  - `parseInt` takes a radix and skips a `0x` prefix;
  - values are exact.
- **CellParsers** (`cell_parsers.dfy`) holds three parsers:
  - `parseNumber`, for GDP per capita: strips every `$` and `,`, trims, then runs `parseFloat`;
  - `parsePopulation`: strips every `,`, trims, then runs `parseInt`;
  - `parseFloat` applied to any cell value.
- **Merge** (`merge.dfy`) holds `mergeDatasets`:
  - a loop fills the life-expectancy index under the key `Country.trim().toLowerCase()`; rows with a falsy `Country` are skipped and the last row with a key wins;
  - each GDP row is then mapped to a record or a null, and the nulls are dropped.
- **Validity** (`validity.dfy`) holds the gate that `init` applies before storing `allData`. `CountryRecord` is the type of records that passed it.
- **Sorting** (`sorting.dfy`) holds the sort by GDP per capita, descending.
  - The spec is a stable insertion sort on sequences.
  - The implementation is an in-place insertion sort on an array, and it is proved to give the same result.
- **ViewFilter** (`view_filter.dfy`) holds `applyFilters` as a function of `allData`, the two slider values and the top-N choice: an inclusive range filter, the sort, then the top-N cut.
- **Dashboard** (`dashboard.dfy`) holds the page state as the class `Dashboard.Page`:
  - the state is `allData`, `filteredData`, the two sliders, their labels and the top-N select;
  - the methods are `applyFilters`, `updateCharts`, `init` after loading, and the three control listeners;
  - after either slider listener, `lifeMin <= lifeMax`.
- **Contrast** (`contrast.dfy`) holds `getContrastYIQ`:
  - it reads the components of an `rgb(...)` string or a `#RRGGBB` string;
  - it returns black exactly when `299 r + 587 g + 114 b >= 128000`.

The loading of the spreadsheets is external. Its result is passed in as two sequences of rows, each row a map from column name to cell value.

Some behaviours of the code are easy to miss; the model follows the code:

- A GDP row whose `Country` is not a string makes `d.Country.trim()` throw (script.js:66). The whole merge then fails; the row is not skipped. This is modelled as the `TypeError` outcome of `Merge.Merged`.
- A life row is skipped when its `Country` is falsy (script.js:60), not only when it is absent.
  - A truthy `Country` that is not a string, such as a number, throws.
  - A `Country` made only of spaces is truthy, so it is indexed under the empty key.
- The key is `trim` then `toLowerCase`. `JsStrings.TrimToLower` proves that the order does not matter.
- GDP rows are not de-duplicated. Two GDP rows with the same key give two records.
- The gate tests only `isNaN` (script.js:401-405), not finiteness. Infinite values are outside this model (see below).

## Model

| member | source | states |
|---|---|---|
| JsStrings.TrimShape | script.js:30 | `trim` removes white space and nothing else: the input is white space, then the result, then white space |
| JsStrings.Trim | script.js:30 | no contract of its own; `TrimShape`, `TrimUnpadded` and `TrimPadded` characterise it: it removes the white space at both ends and nothing else |
| JsStrings.TrimUnpadded | script.js:30 | the result of `trim` starts and ends with a character that is not white space |
| JsStrings.TrimPadded | script.js:66 | `trim` of white space, an unpadded string and white space gives back exactly that string |
| JsStrings.TrimToLower | script.js:61 | trimming and lower-casing commute |
| JsStrings.ToLower | script.js:61 | lower-casing keeps the length and maps each character by itself |
| JsStrings.ToLowerIdempotent | script.js:61 | lower-casing twice is lower-casing once |
| JsStrings.RemoveAll | script.js:30 | after `replace(/c/g, '')` no c is left |
| JsStrings.RemoveAllKeeps | script.js:30 | every other character occurs in the result as often as in the input |
| JsStrings.RemoveAllFrom | script.js:30 | every character left by the removal comes from the input |
| JsStrings.RemoveAllAppend | script.js:30 | removal distributes over concatenation |
| JsStrings.RemoveAllIdempotent | script.js:30 | removing c twice is removing it once |
| JsStrings.Substr | script.js:13-15 | `substr(start, 2)` is at most 2 characters long, and is exactly that slice when it fits |
| JsStrings.SliceFrom1 | script.js:12 | `slice(1)` is the string without its first character |
| JsStrings.StartsWith | script.js:6 | no contract of its own; `s.startsWith(p)` is the definition: p fits in s and is its first characters; `Contrast.RgbContrast` and `Contrast.HexContrast` use it for both prefix tests (lines 6 and 11) |
| JsNumbers.ParseInt | script.js:40 | whatever `parseInt` reads is a whole number |
| JsNumbers.ParseIntNaN | script.js:40 | with no radix, NaN exactly when, after white space and a sign, neither a decimal digit nor `0x` and a hexadecimal digit follows |
| JsNumbers.ParseIntReadsDigits | script.js:40 | with no radix, a signed run of decimal digits followed by a non-digit (other than `x` or `X` after a lone `0`, which would select hexadecimal) reads as the signed value of the digits |
| JsNumbers.ParseIntDecimalRun | script.js:8-10 | `parseInt` of a bare run of decimal digits is its value |
| JsNumbers.ParseIntHexPair | script.js:13-15 | `parseInt(dd, 16)` of two hexadecimal digits is their value |
| JsNumbers.ParseFloat | script.js:30 | no contract of its own; `ParseFloatNaN` gives exactly when it is NaN, `ParseFloatOfLiteral` gives its value otherwise as the longest decimal prefix, and these lemmas cover the common shapes: leading white space (`ParseFloatSkipsSpace`), a sign (`ParseFloatPlus`, `ParseFloatNegative`), digits (`ParseFloatReadsInteger`), digits with a point (`ParseFloatReadsFraction`), and an exponent part with either letter and an optional sign after digits (`ParseFloatReadsExponent`) or after a point (`ParseFloatReadsScientific`, covering `1.5e3` and `.5E-2`) |
| JsNumbers.ParseFloatNaN | script.js:30 | `parseFloat` is NaN exactly when, after white space and a sign, neither a digit nor a point and a digit follows |
| JsNumbers.ParseFloatReadsInteger | script.js:30 | a signed run of digits followed by anything but a digit, point or exponent reads as its signed value |
| JsNumbers.ParseFloatReadsFraction | script.js:30 | digits, a point and digits read as whole part plus fraction over a power of ten, with the sign applied |
| JsNumbers.ParseFloatReadsExponent | script.js:30 | white space, an optional sign, digits, `e` or `E`, an optional sign and digits, then anything but a digit, read as the mantissa times 10 to the signed exponent, with the sign applied |
| JsNumbers.ParseFloatReadsScientific | script.js:30 | the same with a point in the mantissa and digits on at least one side of it: whole part plus fraction, times 10 to the signed exponent |
| JsNumbers.ParseFloatOfLiteral | script.js:30 | after white space and an optional sign, a string that begins a decimal literal has a decimal prefix, and `parseFloat` is its signed value |
| JsNumbers.ParseFloatSkipsSpace | script.js:30 | white space in front of a string does not change what `parseFloat` reads, as for the life-expectancy cell, which reaches it untrimmed |
| JsNumbers.ParseFloatPlus | script.js:30 | a leading plus sign does not change what `parseFloat` reads |
| JsNumbers.ExponentOf | script.js:30 | an exponent part (`e` or `E`, an optional sign, digits, then a non-digit) denotes the signed value of its digits |
| JsNumbers.UnsignedPrefixPoint | script.js:30 | digits, a point and digits, not both runs empty, give whole part plus fraction, and what follows is read as the exponent part |
| JsNumbers.UnsignedPrefixNoPoint | script.js:30 | digits that no point follows are the whole mantissa, and what follows is read as the exponent part |
| JsNumbers.ParseFloatNegative | script.js:30 | a leading minus negates what the rest reads as, and NaN stays NaN |
| JsNumbers.DecimalStringValue | script.js:73 | the decimal form of a natural number is all digits and denotes that number |
| CellParsers.ParseNumber | script.js:26-33 | null, undefined and booleans give NaN; a number is returned unchanged |
| CellParsers.ParsePopulation | script.js:36-43 | null, undefined and booleans give NaN; a number is returned unchanged; a string gives a whole number or NaN |
| CellParsers.ParseFloatOf | script.js:73 | `parseFloat` of a number is that number; of undefined, null or a boolean it is NaN |
| CellParsers.ParseFloatOfWholeNumber | script.js:73 | reading the decimal form of a whole number agrees with the number case of `ParseFloatOf` |
| CellParsers.ParseNumberIgnoresSymbol | script.js:30 | a `$` or `,` anywhere in a GDP string does not change the result |
| CellParsers.ParseNumberOfDecimal | script.js:30 | a signed decimal `d.f` reads as its exact value with the sign applied |
| CellParsers.ParseNumberOfInteger | script.js:30 | a signed run of digits reads as its signed value |
| CellParsers.ParseNumberOfExponent | script.js:25-30 | a GDP cell holding a signed mantissa with an exponent part, such as `12e-3`, reads as the mantissa times 10 to the signed exponent |
| CellParsers.ParseNumberGrouped | script.js:30 | a string of digits, `,` and `$` with some digit, such as `$65,000`, reads as the value of its digits |
| CellParsers.ParseNumberGroupedDecimal | script.js:30 | such a string followed by a point and fraction digits, such as `$12,345.67`, reads as its digits, the point and the fraction |
| CellParsers.ParseNumberBlank | script.js:29-30 | an empty or blank GDP string gives NaN |
| CellParsers.ParseNumberNaN | script.js:29-30 | a GDP string gives NaN exactly when, after stripping and trimming, no decimal literal begins |
| CellParsers.ParsePopulationIgnoresComma | script.js:40 | a `,` anywhere in a population string does not change the result |
| CellParsers.ParsePopulationKeepsDollar | script.js:40 | `$` is not stripped: a population string starting with `$` gives NaN |
| CellParsers.ParsePopulationTruncates | script.js:40 | a signed `d.f` gives the signed whole part only |
| CellParsers.ParsePopulationOfInteger | script.js:40 | a signed run of digits reads as its signed value |
| CellParsers.ParsePopulationGrouped | script.js:40 | a string of digits and `,` with some digit, such as `1,234,567`, reads as the value of its digits |
| CellParsers.ParsePopulationBlank | script.js:39-40 | an empty or blank population string gives NaN |
| CellParsers.ParsePopulationNaN | script.js:39-40 | a population string gives NaN exactly when, after removing commas and trimming, no integer prefix begins |
| Merge.BuildLifeIndex | script.js:58-63 | the `forEach` loop yields the index of the spec function, or stops with the throw |
| Merge.LifeIndex | script.js:58-63 | no contract of its own; `BuildLifeIndex`, `LifeIndexThrows`, `LifeIndexLookup`, `LifeIndexStaysThrown` and `IndexSkipsFalsy` characterise it |
| Merge.LifeIndexStaysThrown | script.js:59-63 | once a life row has thrown, the whole index build throws |
| Merge.LifeIndexThrows | script.js:60-61 | the index build throws exactly when some life row has a truthy `Country` that is not a string |
| Merge.LastMatch | script.js:59-63 | the last life row with a key: it has the key, and no later row does |
| Merge.LifeIndexLookup | script.js:59-63 | key k is in the index exactly when some stored life row has that key, and it maps to the last such row |
| Merge.IndexSkipsFalsy | script.js:60 | a life row with a falsy `Country` leaves the index unchanged |
| Merge.IndexStep | script.js:59-62 | no contract of its own; one `forEach` step: `IndexSkipsFalsy` gives the falsy case, `LifeIndexThrows` the throwing case and `LifeIndexLookup` the stored key |
| Values.Truthy | script.js:60 | no contract of its own; JavaScript truthiness of a cell value: undefined, null, false, zero and the empty string are falsy; `Merge.IndexSkipsFalsy` and `Merge.LifeIndexThrows` state what the test does in the index |
| Merge.MatchGdp | script.js:65-76 | the callback throws exactly on a non-string `Country`, and a record keeps the GDP row's own `Country` |
| Merge.MergeRecord | script.js:69-74 | no contract of its own; `MergedJoin` characterises it: the GDP row's `Country`, `parseNumber` of its GDP, `parsePopulation` of its population and `parseFloat` of the life row's life expectancy |
| Merge.MapGdp | script.js:65-77 | when the map does not throw it has one entry per GDP row |
| Merge.MapGdpThrows | script.js:65-77 | the map throws exactly when some GDP row has a non-string `Country` |
| Merge.MapGdpEntries | script.js:65-77 | when the map does not throw, the callback succeeds on every row and entry i is its result for row i |
| Merge.DropNulls | script.js:77 | the filter never lengthens the sequence |
| Merge.Positions | script.js:77 | the positions of the non-null entries are increasing and in range |
| Merge.DropNullsPicks | script.js:77 | entry j of the filtered sequence is the non-null entry at position j |
| Merge.PositionsComplete | script.js:77 | every non-null entry is kept |
| Merge.MergeDatasets | script.js:57-78 | the method computes the spec function `Merged` |
| Merge.Merged | script.js:57-78 | no contract of its own; `MergedThrows` and `MergedJoin` characterise it, and `MergeDatasets` computes it |
| Merge.MergedThrows | script.js:57-78 | the merge throws exactly when a life row or a GDP row has an unusable `Country` |
| Merge.MergedJoin | script.js:65-77 | every GDP `Country` is a string, and the output is an inner join in GDP order: one record per GDP row whose key some stored life row has, and no others; it keeps the GDP `Country`, takes GDP and population from the GDP row and life expectancy from the last matching life row |
| Merge.KeyIgnoresPadding | script.js:61-66 | white space around a name does not change its key |
| Merge.KeyIgnoresCase | script.js:61-66 | lower-casing a name does not change its key |
| Merge.KeyMatchesVariant | script.js:61-66 | a name matches the same name lower-cased and padded with white space |
| Merge.Key | script.js:61-66 | no contract of its own; `KeyIgnoresPadding`, `KeyIgnoresCase`, `KeyMatchesVariant` and `JsStrings.TrimToLower` characterise it |
| Validity.ValidOnly | script.js:401-405 | the gate never lengthens the sequence, and every record it keeps has a positive GDP and non-NaN life expectancy and population |
| Validity.Kept | script.js:401-405 | the positions the gate keeps are increasing and in range |
| Validity.ValidOnlyPicks | script.js:401-405 | the gate's output is the input restricted to those positions, in order |
| Validity.KeptComplete | script.js:401-405 | every record that passes the gate is kept |
| Validity.ValidOnlyCounts | script.js:401-405 | a valid record occurs in the output as often as in the input |
| Validity.IsValid | script.js:401-405 | no contract of its own; `ValidOnly`, `ValidOnlyPicks`, `KeptComplete` and `ValidOnlyCounts` characterise the gate built on it |
| Sorting.InsertPermutes | script.js:110 | inserting adds exactly one element |
| Sorting.SortDescPermutes | script.js:110 | the sort is a permutation |
| Sorting.SortDescSorted | script.js:110 | the sort's output is non-increasing in GDP per capita |
| Sorting.SortDescStable | script.js:110 | records with equal GDP keep their relative order |
| Sorting.SortDescOfSorted | script.js:110 | a sequence already in order is left unchanged |
| Sorting.SortDesc | script.js:110 | keeps the length; `SortDescPermutes`, `SortDescSorted`, `SortDescStable` and `SortDescOfSorted` characterise it |
| Sorting.InsertAt | script.js:110 | a record is inserted just before the first record with lower GDP, when every record before that point has GDP at least its own |
| Sorting.InsertSorted | script.js:110 | inserting into a sorted sequence keeps it sorted |
| Sorting.FirstBelow | script.js:110 | the split point: records before it have GDP at least x's, records from it on have less |
| Sorting.InsertStable | script.js:110 | an inserted record comes after every record with its GDP |
| Sorting.SortByGdpDescending | script.js:110 | the in-place array sort leaves the array equal to the spec sort of its old contents |
| Sorting.InsertNext | script.js:110 | one pass moves a[i] into the sorted run a[..i] and leaves the rest of the array alone |
| Sorting.MakeRoom | script.js:110 | the inner loop shifts the records below x one place right and stops at the first record whose GDP is at least x's |
| ViewFilter.RangeFilter | script.js:107 | every kept record has `lifeMin <= LifeExpectancy <= lifeMax`, and the filter never lengthens the sequence; `RangeFilterCounts` gives exactly what is kept and `RangeFilterAppend` that the order of `allData` is kept |
| ViewFilter.RangeFilterAppend | script.js:107 | filtering a concatenation is filtering each part in turn, so kept records keep their relative order |
| ViewFilter.WithGdpRangeFilter | script.js:107 | selecting the records of one GDP value commutes with the range filter |
| ViewFilter.ViewTiesInOrder | script.js:107-110 | after sorting, the in-range records of any one GDP value appear in their `allData` order |
| ViewFilter.ViewTiesPrefix | script.js:107-113 | the records of one GDP value that the view shows are a prefix of the in-range records of that value, in `allData` order |
| ViewFilter.RangeFilterCounts | script.js:107 | an in-range record is kept as often as it occurs; an out-of-range record never |
| ViewFilter.RangeFilterComplete | script.js:107 | the filter is empty exactly when no record is in range |
| ViewFilter.Take | script.js:111-113 | the cut is a prefix of length min(N, count), or everything for "all" |
| ViewFilter.ViewInRange | script.js:107-114 | every record shown is in the selected range |
| ViewFilter.ViewSorted | script.js:107-114 | the records shown are in descending GDP order |
| ViewFilter.ViewIsSortedPrefix | script.js:107-114 | the view is a prefix of the sorted in-range set, which is a permutation of that set, of length min(N, count in range), or count in range for "all" |
| ViewFilter.ViewDominates | script.js:107-114 | no in-range record left out of the view has a higher GDP than a record shown |
| ViewFilter.ViewEmpty | script.js:107-114 | the view is empty exactly when nothing is in range or a count of zero is selected |
| ViewFilter.ViewIdempotent | script.js:107-114 | filtering the view again with the same controls gives the same view |
| ViewFilter.View | script.js:101-115 | no contract of its own; `ViewInRange`, `ViewSorted`, `ViewIsSortedPrefix`, `ViewDominates`, `ViewEmpty` and `ViewIdempotent` characterise it, and `ViewTiesInOrder` and `ViewTiesPrefix` give the order of records with equal GDP |
| Dashboard.Page.constructor | script.js:84-85 | the page starts with no data, nothing shown, and the controls at their initial values |
| Dashboard.Page.ApplyFilters | script.js:101-115 | copying into an array, sorting it in place and cutting it gives `View` of the current state; `allData` is not changed |
| Dashboard.Page.UpdateCharts | script.js:117-128 | `filteredData` becomes the view; the no-data branch is taken exactly when nothing is in range or a count of zero is selected |
| Dashboard.Page.OnTopNChange | script.js:373 | the new top-N value is stored and the view recomputed |
| Dashboard.Page.OnLifeMinInput | script.js:374-381 | lifeMin and its label take the new value; lifeMax and its label are raised to it when passed; afterwards lifeMin <= lifeMax and the view is recomputed |
| Dashboard.Page.OnLifeMaxInput | script.js:382-389 | lifeMax and its label take the new value; lifeMin and its label are lowered to it when passed; afterwards lifeMin <= lifeMax and the view is recomputed |
| Dashboard.Page.Init | script.js:394-408 | a successful merge sets `allData` to the gated merge output and shows its view; a throwing merge changes nothing |
| Contrast.DigitRuns | script.js:7 | every run of `match(/\d+/g)` is a non-empty string of decimal digits |
| Contrast.DigitRunsCoverDigits | script.js:7 | the runs, joined, are exactly the digits of the colour string in order |
| Contrast.DigitRunsSplit | script.js:7 | the runs are maximal: a run of digits with a non-digit or nothing on either side comes out whole, between the runs before it and the runs after it |
| Contrast.DigitRunsAppend | script.js:7 | after a non-digit a new run starts: the runs of `p + r` are those of p, then those of r |
| Contrast.RgbRuns | script.js:6-10 | the runs of `rgb(R, G, B)` are exactly R, G and B |
| Contrast.ThresholdOfIntegers | script.js:17-18 | for whole components, `yiq >= 128` exactly when `299 r + 587 g + 114 b >= 128000` |
| Contrast.HexContrast | script.js:11-18 | `#RRGGBB` gives black exactly when `299 r + 587 g + 114 b >= 128000` for the hexadecimal pairs |
| Contrast.RgbContrast | script.js:6-18 | an `rgb` colour throws when it has no digit run, gives white with fewer than three runs, and otherwise applies the threshold to the first three runs |
| Contrast.OtherContrast | script.js:4-19 | a colour with neither prefix gives white, because the luminance is NaN |
| Contrast.RgbLiteralContrast | script.js:6-18 | `rgb(R, G, B)` gives black exactly when `299 R + 587 G + 114 B >= 128000` |
| Contrast.Channel | script.js:8-10 | no contract of its own; `parseInt` of run i, or of `undefined` (NaN) when there are fewer runs; `Contrast.RgbContrast` states what this gives |
| Contrast.Yiq | script.js:17 | no contract of its own; the weighted sum over 1000, NaN when any component is NaN; `ThresholdOfIntegers` states it on whole components |
| Contrast.Threshold | script.js:18 | no contract of its own; black when the value is at least 128, white otherwise and for NaN; `ThresholdOfIntegers` and `OtherContrast` state both cases |
| Contrast.ContrastYIQ | script.js:4-19 | no contract of its own; `RgbContrast`, `RgbLiteralContrast`, `HexContrast` and `OtherContrast` characterise it |

## Left out

- `loadExcel` (script.js:46-54), that is `fetch`, the array buffer and the XLSX library: foreign I/O. `Dashboard.Page.Init` takes the two loaded row sequences as arguments.
- The `Promise.all` in `init`: concurrency and I/O. Only the merge-then-gate composition after both loads is modelled.
- `drawBubbleChart`, `drawBarChart`, the chart-toggle listeners, tooltips and the details box: presentation code. The no-data branch of `updateCharts` is the `noData` result.
- The DOM reads in `applyFilters`. They are the fields `lifeMin`, `lifeMax` and `topN` of `Dashboard.Page`. The slider values are reals, because `+this.value` of a range input is always a number. The initial values of the controls are constructor arguments.
- Floating point. Numbers are exact reals, and `parseFloat` and `parseInt` return the exact value of the prefix they read, without rounding to a double. Overflows such as `1e400` are not modelled.
- JsNumbers.ParseFloat: the `Infinity` literal is not recognised, so the model gives NaN where JavaScript gives plus or minus Infinity. With it, infinite values and the gate's acceptance of them are out of the model.
- CellParsers.ParseFloatOf: the number case returns the number itself. This rests on the string form of a number reading back as the same number, which the model shows only for whole numbers (`CellParsers.ParseFloatOfWholeNumber`).
- JsStrings.LowerChar: `toLowerCase` maps only the Basic Latin and Latin-1 upper-case letters. Other scripts keep their case in the key.
- Values.JsValue: `-0`, objects and arrays as cell values are not modelled. Spreadsheet rows hold strings, numbers and booleans.
- JsStrings.Substr: only the non-negative arguments of `substr` that `getContrastYIQ` uses are modelled.
- ViewFilter.TopN: a top-N count is a natural number. Negative or non-numeric select values, for which `slice` behaves differently, are not modelled.
- Sorting.SortByGdpDescending: `Array.prototype.sort` does not fix its algorithm. The model uses insertion sort. Any stable sort under this comparator gives the same order: a permutation (`SortDescPermutes`), non-increasing (`SortDescSorted`) and order-preserving on ties (`SortDescStable`). The model does not prove that these three properties determine the result.
- Contrast.ContrastYIQ: the colour is a string. A non-string colour, on which `startsWith` throws, is not modelled.
- JsStrings: strings are sequences of Unicode scalar values, while JavaScript strings are sequences of UTF-16 code units. `slice(1)` and `substr` (script.js:12-15) therefore count an astral character as one position where JavaScript counts two, and a lone surrogate cannot be represented. The two agree on every string without characters outside the Basic Multilingual Plane; only the `#RRGGBB` branch depends on positions, and trimming, lower-casing and the number parsers do not.
