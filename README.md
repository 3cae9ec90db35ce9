# World-indicator explorer: data pipeline and guided tour

The explorer is a browser page that loads `project_data.csv`: one row per country and
year, with a `Region`, a `Country Name`, a `Year` and one column per development
indicator. The user checks regions, then countries. The page then draws one line chart
per indicator, with one line per checked country. It comes in two variants:

- `script.js` is the guided tour. Once a country is checked, a start button appears.
  The tour charts the eleven indicators one after another. When the last line of a chart
  finishes drawing, the tour moves on to the next chart. After the last chart, a details
  button is revealed. Each line is sorted by year before it is drawn.
- `functional.js` has one button per indicator. A click draws that chart with the lines
  unsorted and adds a legend in the right margin.

The model is organised by module:

- `Seqs` (`seqs.dfy`) holds the sequence operations both scripts rely on:
  `Array.prototype.filter`, the insertion-ordered `Array.from(new Set(...))`, and
  order-preserving subsequences.
- `JsText` (`js_text.dfy`) holds the JavaScript string behaviour the code depends on:
  - the regular-expression class `\s` and `replace(/\s+/g, '-')`;
  - the loose comparison `cell != 0`, which runs `Number(cell)`: trim whitespace, then
    read an empty string as 0 and a non-numeral as NaN;
  - the decimal text of a year;
  - `<br>` line breaks.
- `Dataset` (`dataset.dfy`) holds a row, a cell, the checkbox selection and the list of
  indicators.
- `Pipeline` (`pipeline.dfy`) holds the code the two files share line for line:
  - the region panel (`script.js:14`, `functional.js:15`);
  - the country panel (`script.js:36-40`, `functional.js:37-41`);
  - `filterData` (`script.js:117-131`, `functional.js:89-103`);
  - the dropping of missing values (`script.js:151`, `functional.js:123`);
  - `d3.groups` (`script.js:192`, `functional.js:164`);
  - the data-point class (`script.js:230,234`, `functional.js:194,198`);
  - the tooltip (`script.js:241`, `functional.js:205`);
  - the margins (`script.js:136-146`, `functional.js:108-118`).

  The table below cites the `script.js` lines.
- `Script` (`script.dfy`) holds what only the guided variant does:
  - the in-place sort of every line by year, as an insertion sort on an `array`;
  - the start button;
  - the tour, as a class `Tour` whose methods are the callbacks of `startExploring`;
  - the driver `RunTour`, which plays the tour through.
- `Functional` (`functional.dfy`) holds what only the button variant does: the buttons,
  the unsorted chart and the legend.

Modelling choices:

- A row is `Row(region, country, year, cells)`. Its `year` is an integer, and its text in
  the file is that integer's decimal numeral. Comparing `new Date(a.Year)` values is
  modelled as comparing these integers.
- A column that is missing from a row (`cells` has no such key) is JavaScript's `undefined`.
- The checked boxes are a `Selection` value: region values and country values, in
  document order. Each call takes it as a parameter, because no DOM is modelled.
- The engine's `Array.prototype.sort` is stable. It is modelled by an insertion sort, which
  is stable too.
- The page's timers and transitions become explicit calls:
  - `Tour.OnPathEnd(g, ...)` is the `end` event of line `g`.
  - `Tour.FinishChart` delivers these events for all lines of a chart.

One would expect the guided tour to walk through every indicator once at least one
country is checked, and to end with the details button. The code does not always do so.
The tour moves on only from the `end` event of a drawn line (`script.js:223-226`). A
chart with no line therefore stops the tour for good, and the details button never
appears. This happens when no selected row has a non-zero value for that indicator, even
with countries checked. `TourStallsWithCountrySelected` gives such an input, and
`StallPoint` / `RunTour` state where the tour stops in general. The model follows the code.

A second behaviour of the code: the start button's visibility is recomputed only when a
country box changes. When a region change rebuilds the country panel, every country box
is unchecked (`FreshPanelIsUnchecked`), but a button that was shown stays shown.

## Model

| member | source | states |
|---|---|---|
| Pipeline.RegionList | script.js:14 | one region box per distinct region of the file: nothing listed twice, a region is listed exactly when some row has it, listed in order of first occurrence |
| Pipeline.CountryList | script.js:36-38 | one country box per distinct country among the rows of a checked region: nothing twice, exactly those countries, in first-seen order; none when no region is checked |
| Pipeline.Panel | script.js:42-53 | a rebuilt panel has one box per value, in order, all unchecked |
| Pipeline.CheckedValues | script.js:36 | the values read from the checked boxes are exactly the values of the checked boxes, no more values than boxes |
| Pipeline.FreshPanelIsUnchecked | script.js:40-53 | right after the country panel is rebuilt, no country is read as checked |
| Pipeline.FilterData | script.js:117-124 | the kept rows are an order-preserving part of the data, and every row occurs as often as in the data if its region and its country are both checked, otherwise not at all |
| Pipeline.DropMissing | script.js:151 | the kept rows keep their order, and a row is kept (as often as before) exactly when its cell is present and does not loosely equal 0 |
| Pipeline.SurvivingRows | script.js:121-151 | a drawn row is a selected row with a value, in file order, as often as in the file; nothing is drawn exactly when every row is unselected or missing its value |
| Pipeline.SurvivingMembers | script.js:121-151 | a row is drawn exactly when it is a row of the file that is selected and has a value |
| Pipeline.NothingSurvivesWithoutCountries | script.js:119-124 | with no country checked, no row is drawn |
| Pipeline.AddToGroups | script.js:192 | filing one more row keeps the keys if its country already has a group and adds the country at the end otherwise |
| Pipeline.AddToGroupsAt | script.js:192 | the row joins exactly the first group with its country, and every other group is unchanged |
| Pipeline.AddToGroupsNew | script.js:192 | the row of a new country opens a new last group holding only that row |
| Pipeline.AddToGroupsFlatten | script.js:192 | filing a row adds exactly that row to the rows held by the groups |
| Pipeline.GroupsByCountry | script.js:192 | the keys of `d3.groups` are the distinct countries in first-seen order, and each group holds exactly its country's rows, in order |
| Pipeline.GroupsHoldEveryRow | script.js:192 | the groups together hold every row exactly once |
| Pipeline.GroupKeys | script.js:192 | no country has two groups, the groups come in first-seen order, and a country has a group exactly when it occurs in the rows |
| Pipeline.GroupsPartition | script.js:192 | the groups partition the rows: distinct keys in first-seen order, each group non-empty, order-preserving, all of one country, and all rows accounted for |
| Pipeline.NoGroupsIffNoRows | script.js:192 | there is no group exactly when there is no row |
| Pipeline.OfCountryOfAbsent | script.js:192 | a country without rows has no rows to group |
| Pipeline.DataPointClass | script.js:230-234 | the class starts with `data-point-`, contains no whitespace, and is `data-point-` plus the name when the name has none |
| Pipeline.TooltipLines | script.js:241 | the tooltip shows exactly three lines: the country, the year and the indicator with the cell's text (`undefined` for a missing cell) |
| Pipeline.Layout | script.js:136-146 | the plot area is the container less the margins (220 across, 80 down), the view box is the container again, and the plot group sits at (80, 20) |
| JsText.SlugHasNoSpace | script.js:230 | `replace(/\s+/g, '-')` leaves no whitespace |
| JsText.SlugOfSpaceFree | script.js:230 | a name without whitespace is left unchanged |
| JsText.SlugOfRun | script.js:230 | each maximal run of whitespace becomes exactly one '-', independently of the rest of the name |
| JsText.SlugConcat | script.js:230 | replacing runs commutes with cutting the name where no run is split |
| JsText.TrimIgnoresPadding | script.js:151 | whitespace around a cell does not change what `Number` trims it to |
| JsText.LooselyEqualsZeroIgnoresPadding | script.js:151 | whitespace around a cell does not change whether it counts as 0 |
| JsText.DigitsZeroNumeral | script.js:151 | a plain numeral counts as 0 exactly when all its digits are 0 |
| JsText.NegativeZeroNumeral | script.js:151 | a negative plain numeral counts as 0 exactly when all its digits are 0 |
| JsText.IntTextLooselyZero | script.js:151 | the decimal text of an integer counts as 0 exactly when the integer is 0 |
| JsText.NatTextRoundTrip | script.js:241 | reading the printed year back gives the year |
| JsText.ThreeLines | script.js:241 | three lines joined with `<br>` split back into those three lines |
| JsText.SplitLinesOfJoin | script.js:241 | a line joined to the rest with `<br>` is split off again |
| Script.InsertByYearPermutes | script.js:204 | inserting a row adds exactly that row |
| Script.InsertByYearSorted | script.js:204 | inserting a row into a year-sorted line keeps it sorted |
| Script.InsertByYearOfYear | script.js:204 | inserting a row puts it after the rows of its own year already there |
| Script.YearSortedSortsAndPermutes | script.js:204 | `values.sort` by year yields a year-sorted permutation of the rows |
| Script.YearSortedIsStable | script.js:204 | rows of one year keep their relative order |
| Script.YearSortedOfSorted | script.js:204 | a line that is already sorted is left as it is |
| Script.YearSortedIdempotent | script.js:204 | sorting twice is sorting once |
| Script.YearSortedExample | script.js:204 | a row of 2000 followed by a row of 1999 comes out as 1999, 2000 |
| Script.InsertByYearAt | script.js:204 | inserting a row places it right after the last row whose year is not later |
| Script.PlaceRow | script.js:204 | one step of the in-place sort leaves the prefix up to `i` as the earlier sorted prefix with row `i` inserted, and the rest of the array unchanged |
| Script.SortByYear | script.js:204 | the array ends up as the year-sorted arrangement of its old contents |
| Script.SortEachGroup | script.js:198-204 | every group's rows are sorted by year, the groups keep their keys and their order |
| Script.GuidedChartLines | script.js:151-204 | each selected country with a value has exactly one line, in first-seen order, and its line holds exactly its drawn rows, sorted by year, rows of one year in file order |
| Script.GuidedChartEmpty | script.js:192-198 | a guided chart has no line exactly when no row survives |
| Script.StartButtonVisible | script.js:62-69 | the start button is shown exactly when some country box is checked |
| Script.Tour.Start | script.js:85-113 | the tour starts at the first indicator and draws its chart at once |
| Script.Tour.AnimateNext | script.js:102-111 | within the list, the current indicator is charted and logged; past its end, the details button is revealed |
| Script.Tour.Advance | script.js:104-106 | the chart's callback moves the tour on by exactly one indicator |
| Script.Tour.OnPathEnd | script.js:223-227 | only the end of the last line calls back, moving the tour on by one (with the next chart drawn, or the last chart left on the page when the details button appears); the end of any other line changes nothing |
| Script.Tour.FinishChart | script.js:198-227 | once every line of a non-empty chart has ended, the tour has moved on by exactly one: the next chart is drawn, or after the last indicator the last chart stays on the page |
| Script.StallPoint | script.js:102-227 | the tour stops at the first indicator with nothing to draw, or at the end of the list |
| Script.StallPointUnique | script.js:102-227 | that stopping position is the only one with nothing empty before it and an empty chart (or the end) at it |
| Script.RunTour | script.js:85-114 | with the boxes left alone, the tour stops at `StallPoint`, has charted the indicators up to and including that one, and shows the details button exactly when it walked the whole list |
| Script.TourCompletes | script.js:102-111 | the tour reaches the end exactly when every indicator has a row to draw |
| Script.TourStallsWithoutCountries | script.js:119-124 | with no country checked, the tour stops on the first chart |
| Script.TourStallsWithCountrySelected | script.js:151-227 | a checked country whose row has no value for the first indicator stops the tour there |
| Functional.IndicatorsDistinct | functional.js:65-77 | no indicator is listed twice |
| Functional.OneButtonPerIndicator | functional.js:79-85 | every indicator has exactly one button, the one at its position in the list, showing its name, and clicking that button draws the indicator's chart |
| Functional.ChartCountries | functional.js:93-164 | a country has a line exactly when one of its rows is selected and has a value; no country has two lines; lines come in first-seen order |
| Functional.ChartPaths | functional.js:164-180 | each line holds exactly its country's drawn rows, at least one, in file order (nothing sorts them) |
| Functional.Legend | functional.js:223-240 | one legend entry per line, in line order, stacked 20 units apart with no overlap, the 18-unit swatch at `width + 5` and the label at `width + 25`, both in the right margin |
| Functional.LegendOfChart | functional.js:223-240 | the legend names every line of the chart once, in line order |

## Left out

- Loading the CSV (`d3.csv`), re-fetching it on the start button, and the `catch` logging: this is I/O. The rows are a parameter.
- The DOM and d3 rendering: the SVG elements, the axes, the title and axis-label positions, the colour scale, the tooltip position and opacity, and the `preserveAspectRatio` attribute. Only the values these are computed from are modelled.
- The time and linear scales and `new Date(...)` parsing. A year is an integer. Dates that fail to parse (the comparator's NaN) are not modelled.
- The transitions' durations, the `setTimeout` delay of 1000 ms, and the order in which transitions end. `FinishChart` delivers the `end` events in drawing order. The source's test `index === length - 1` does not depend on that order.
- Navigation to `inde.html` by the details button: this is a browser action.
- Checkbox changes while a tour is running. `RunTour` keeps one selection throughout. `Tour.AnimateNext` takes the selection at each step, like the code.
- Two tours started at once (a second click on the start button): that is concurrency on the page.
- `Number(...)` on numerals whose value underflows to 0, such as `1e-400`: the decimal zero test is exact on digits, and floating point is not modelled.
- The interpretation of the tooltip text as HTML.
- ``svg.selectAll(`.data-point-${...}`)`` (`script.js:230`, `functional.js:194`) throws when the class is not a valid CSS selector, as for a name with a comma, a dot or an apostrophe ("Egypt, Arab Rep.", "Cote d'Ivoire"). The `forEach` over the lines then stops. The model does not capture this abort: the selector and the exception are browser behaviour the model leaves out.
- Script.RunTour: its result holds only when every drawn country's class is a valid selector. If the line that throws is not the last one, the last line's `end` handler is never attached, and the tour stalls on a chart that has rows.
- Script.StallPoint: a position before which every chart has a row to draw; the tour can stop earlier when a drawn country's class is not a valid selector (see above).
- Functional.ChartCountries: states which lines the chart is built from; on the page, the lines after a country whose class is not a valid selector are not drawn.
- Functional.Legend: the legend is drawn only when no line's class selector throws; otherwise `createPlot` ends before the legend.
- Pipeline.TooltipLines: requires that no name or cell contains '<'. With a '<' in a name or cell, the HTML would show different lines.
