# Combined scatter-and-line chart: data-to-geometry model

This project models what a small React/d3 chart does with its data, from the parsed CSV rows to
the coordinates it draws. The chart plots two uploads:

- The **scattered** upload is a set of fund observations, drawn as rhombus markers.
- The **line** upload holds two price series, *composite* and *derived*, drawn as lines over time.

The model covers these pieces:

- **Record normalisation** (`Records`): `processData` parses every row's `date`. The
  `compositeData` and `derivedData` filters then keep, in order, the rows that have a date and the
  respective price.
- **Calendar arithmetic** (`Calendar`): the X domain starts six months before the earliest date
  (`Date.setMonth(getMonth() - 6)`). Time values are split into year, month and offset on the
  proleptic Gregorian calendar. Month subtraction borrows from the year, and an offset past the end
  of the shorter month rolls over as `Date` does.
- **Scales** (`Scales`): `d3.scaleLinear` and `d3.scaleTime` are exact maps over the reals. This
  includes d3's midpoint rule for a one-value domain, which neither chart domain can be: the date
  domain starts six months before its earliest date, so strictly before its end, and the price
  domain reaches at least 150.
- **Domains and accessors** (`ScatterPlot`):
  - the date domain, padded by six months;
  - the price domain, `[0, max(maxComposite, maxDerived, 150)]`;
  - the y-accessors of the two lines, where a `null` price goes to `yScale(0)`;
  - the x position of the dashed line at the first data point;
  - the composite line cut into runs, next to the whole derived line.
- **Segmenter** (`Segmenter`): `segmentData` cuts a point sequence wherever the step to the next
  point exceeds `3*30*24*60*60*1000` ms (7,776,000,000). It is written as the source's loop. It is
  proved to return the unique cut of its input into non-empty, gap-free runs separated by gaps.
- **Hover lookup** (`Hover`): `d3.bisector(d => d.date).left(d, x, 1)` is a binary search, and
  `d[index - 1]` picks the tooltip point.
- **Upload handling** (`App`):
  - the in-place cleaning loop that blanks `"?"` and `"N/A"` cells in the second upload;
  - the component state, with its two upload arrays;
  - the render gate, which shows the chart only when both uploads are non-empty.
- **Geometry kit** (`Utils`): the margins, the inner width (910) and height (320), and the
  rhombus marker's vertices.

Dates are `int` milliseconds, and prices and pixels are `real`. A row is a map from column name to
a cell `Value`. A column the row does not have reads as `Undefined`, as in JavaScript.
`d3.timeParse("%d/%m/%Y")` is a parameter, `parse: Value -> Option<int>`.

Some behaviour follows the code, and is easy to misread:

- **Hover fallback.** With `lo = 1` the bisector never returns 0. So a query no later than every
  date after the first shows the first point, as the fallback comment at ScatterPlot.js:245 says;
  no tooltip is suppressed. Only an empty curve shows nothing.
- **Missing price column.** The series filters compare with `!== null`. A row that lacks the price
  column entirely (its price reads as `undefined`) is therefore kept in the series.
- **Baseline branch unreachable.** The filters already remove rows with a `null` price, so the
  y-accessors' `yScale(0)` branch is never reached by a drawn line. The accessor itself still sends
  a `null` price to the baseline.
- **Unsorted input.** `segmentData` does not sort. A step back in time is never a gap. The
  segmentation property holds for any input order.
- **Derived line not segmented.** Only the composite series is segmented. The derived series is
  drawn as one path.

## Model

| member | source | states |
|---|---|---|
| Records.ProcessRow | ScatterPlot.js:18-21 | the row keeps every other column and gains `date`; the date is a time exactly when the parser accepts the old cell, with the parsed value, and `null` otherwise |
| Records.ProcessData | ScatterPlot.js:17-22 | one normalised row per input row, in the same order |
| Records.ProcessedDates | ScatterPlot.js:17-22 | after normalisation every date cell is a time or `null` |
| Records.Filter | ScatterPlot.js:24-29 | the kept elements are exactly the inputs that satisfy the test, and no more than the input |
| Records.FilterAppend | ScatterPlot.js:24-29 | filtering distributes over concatenation, so the kept rows keep their relative order |
| Records.FilterCounts | ScatterPlot.js:24-29 | each kept row occurs as often as in the input, and each dropped row not at all |
| Records.FilterKeepsAll | ScatterPlot.js:53 | filtering rows that all pass returns them unchanged |
| Records.CompositeData | ScatterPlot.js:24-26 | a row is in the composite series iff it is an input row with a non-`null` composite price and a non-`null` date |
| Records.DerivedData | ScatterPlot.js:27-29 | a row is in the derived series iff it is an input row with a non-`null` derived price and a non-`null` date |
| Records.MissingColumnKept | ScatterPlot.js:27-29 | a dated row without a `derived_price` column passes the `!== null` filter |
| Records.SeriesRowsAreDated | ScatterPlot.js:17-29 | every row of either normalised series carries a parsed time |
| Calendar.MonthIndexInjective | ScatterPlot.js:46 | two valid (year, month) pairs with the same month count are equal |
| Calendar.NextMonth | ScatterPlot.js:46 | the month after a valid month is valid and one month later |
| Calendar.DaysInMonth | ScatterPlot.js:46 | every month has 28 to 31 days |
| Calendar.MonthLength | ScatterPlot.js:46 | consecutive month starts are as many days apart as the first month has days |
| Calendar.MonthStartIncreasing | ScatterPlot.js:46 | an earlier month starts strictly earlier |
| Calendar.MonthOf | ScatterPlot.js:45-46 | every time value lies in a valid month |
| Calendar.InMonthUnique | ScatterPlot.js:45-46 | a time value lies in only one month |
| Calendar.FromMs | ScatterPlot.js:45-46 | `new Date(t)` splits into a valid year, month and in-month offset that give back `t` |
| Calendar.FromMsUnique | ScatterPlot.js:45-46 | that split is the only valid one |
| Calendar.SubtractMonths | ScatterPlot.js:46 | `setMonth(getMonth() - n)` gives a valid month exactly `n` months earlier, borrowing from the year, with the day and time kept |
| Calendar.SixMonthsBefore | ScatterPlot.js:44-46 | six calendar months before a time value is strictly earlier |
| Calendar.SixMonthsBeforeExample | ScatterPlot.js:44-46 | 15 January 2020 padded by six months is 15 July 2019 |
| Calendar.SixMonthsBeforeRule | ScatterPlot.js:44-46 | for every valid calendar time, six months before it is the same offset into the month six months earlier; when that offset fits the earlier month, the result is exactly that day and time |
| Calendar.SixMonthsBeforeBorrowExample | ScatterPlot.js:44-46 | 15 March 2021 padded by six months is 15 September 2020, borrowing from the year |
| Scales.Normalize | ScatterPlot.js:63-67 | defines d3's normalisation: the position of a value across the domain, 0 at its start and 1 at its end, and 0.5 on a one-value domain (its properties are the lemmas below) |
| Scales.Apply | ScatterPlot.js:71-74 | defines `scale(v)`: the normalised position interpolated between the ends of the range, as the accessors at lines 71-74 and the reference line at line 195 call it |
| Scales.Endpoints | ScatterPlot.js:63-67 | a scale maps its domain's ends to its range's ends |
| Scales.Affine | ScatterPlot.js:63-67 | the distance between two images is the distance between the values times the slope |
| Scales.WithinRange | ScatterPlot.js:63-67 | a value inside the domain maps inside the range, for a rising or a falling range |
| Scales.Monotone | ScatterPlot.js:63-67 | larger values map strictly further towards the range's second end |
| ScatterPlot.Extent | ScatterPlot.js:42 | the extent is nothing iff there are no dates; otherwise both ends are dates and bound every date |
| ScatterPlot.Combined | ScatterPlot.js:39 | the combined points are exactly those of either series, with the lengths added |
| ScatterPlot.XDomain | ScatterPlot.js:39-49 | the date domain exists iff either series has points; it starts six months before the date of an earliest point and ends at the date of a latest point, so it holds every date after its start |
| ScatterPlot.XDomainIsPaddedExtent | ScatterPlot.js:39-49 | for any earliest and latest point of the two series, the domain is exactly six months before the first's date to the last's date |
| ScatterPlot.XDomainStart | ScatterPlot.js:42-46 | the domain starts six months before the date of any earliest point |
| ScatterPlot.XDomainEnd | ScatterPlot.js:42-49 | the domain ends at the date of any latest point |
| ScatterPlot.XScale | ScatterPlot.js:63 | defines `d3.scaleTime().domain(xDomain).range([0, width])`; its ends are stated by `ScatterPlot.XScaleEnds` |
| ScatterPlot.XScaleEnds | ScatterPlot.js:49-63 | any non-empty data gives a date domain; its padded start maps to pixel 0 and the latest date to the full width |
| ScatterPlot.ReferenceX | ScatterPlot.js:194-195 | the reference line exists iff there are points; it is drawn at `xScale` of the date of an earliest point, strictly right of pixel 0 and within the width |
| ScatterPlot.ReferenceXAtEarliest | ScatterPlot.js:194-195 | for any earliest point of the two series, the reference line is drawn at `xScale` of its date |
| ScatterPlot.MaxPrice | ScatterPlot.js:52-60 | the maximum is nothing iff no row has a numeric price; otherwise it is some row's price and bounds every numeric price |
| ScatterPlot.YUpper | ScatterPlot.js:66 | the domain top exists iff both maxima do; it is at least 150 and both maxima, and equals one of the three |
| ScatterPlot.YDomainUpper | ScatterPlot.js:52-66 | defines the top of the price domain: `YUpper` of the maxima of the two series, each taken after the `!== null` filter; its bounds are stated by `ScatterPlot.YDomainUpperBounds` |
| ScatterPlot.YDomainUpperBounds | ScatterPlot.js:52-66 | on the series the inner filters change nothing, and the domain top is at least 150 and bounds every numeric price of either series |
| ScatterPlot.YUpperFloorExample | ScatterPlot.js:66 | maxima 80 and 40 give 150; 80 and 240 give 240; a missing maximum gives no domain |
| ScatterPlot.YScale | ScatterPlot.js:64-67 | defines `d3.scaleLinear().domain([0, upper]).range([height, 0])`; its ends are stated by `ScatterPlot.YScaleEnds` |
| ScatterPlot.YScaleEnds | ScatterPlot.js:64-67 | price 0 maps to the bottom edge (`height`) and the domain top to the top edge |
| ScatterPlot.LineY | ScatterPlot.js:72-78 | a row without a price or a truthy date is placed at `yScale(0)`; otherwise at `yScale(price)`, or nowhere for a non-numeric price |
| ScatterPlot.NullPriceOnBaseline | ScatterPlot.js:84-88 | a `null` price is drawn at `height` |
| ScatterPlot.CompositePointsInsideChart | ScatterPlot.js:64-78 | a composite point with a non-negative price is drawn between the top edge and the baseline |
| ScatterPlot.PricedPointInsideChart | ScatterPlot.js:64-78 | a dated row whose price lies between 0 and the domain top is drawn between the top edge and the baseline |
| ScatterPlot.SeriesPointsUsePrice | ScatterPlot.js:24-78 | a row of the composite series is always placed by its own price, never by the `null` branch |
| ScatterPlot.DerivedPointsUsePrice | ScatterPlot.js:24-78 | a row of the derived series is always placed by its own price, never by the `null` branch |
| ScatterPlot.JanuaryToMayExample | ScatterPlot.js:116-133 | 1 January and 1 May 2021 are 120 days apart and are cut into two runs of one point each |
| ScatterPlot.LinePaths | ScatterPlot.js:136-163 | the composite line is the segmentation of the composite series, each run's points are dated, and the derived line is the whole derived series |
| Segmenter.FlattenAppend | ScatterPlot.js:123-131 | pushing a run appends its points to the runs laid end to end |
| Segmenter.RunInFlatten | ScatterPlot.js:112-135 | every point of a run is a point of the runs laid end to end |
| Segmenter.ExtendRun | ScatterPlot.js:117-127 | a point that follows the open run without a gap extends it and keeps the segmentation property |
| Segmenter.StartRun | ScatterPlot.js:117-127 | a point that follows the open run by a gap closes it, starts a new run, and keeps the segmentation property |
| Segmenter.FirstRun | ScatterPlot.js:116-127 | the first point alone is one run |
| Segmenter.SegmentData | ScatterPlot.js:112-135 | the runs concatenate to the input, are non-empty, have no gap inside and a gap between neighbours; no runs iff no points |
| Segmenter.SegmentationTail | ScatterPlot.js:112-135 | the runs after the first segment the rest of the input, which starts with the second run's first point |
| Segmenter.EmptySegmentation | ScatterPlot.js:130-133 | a segmentation has no runs iff the input is empty |
| Segmenter.SegmentationUnique | ScatterPlot.js:112-135 | two segmentations of the same points are equal, so `segmentData`'s result is determined by its input |
| Segmenter.FirstRunBound | ScatterPlot.js:117-126 | a first run cannot reach past the gap that ends another segmentation's first run |
| Segmenter.GaplessRunEndsBeforeGap | ScatterPlot.js:117-126 | a gap-free prefix of the input does not contain a gap |
| Segmenter.GaplessIsOneRun | ScatterPlot.js:116-133 | points without a gap form one single run |
| Segmenter.TwoRunsExample | ScatterPlot.js:117-127 | a 90-day step stays in the run, a 120-day step starts a new one, and that is the only cut |
| Hover.BisectLeft | ScatterPlot.js:243-244 | the result lies in `[lo, length]`; the point before it is earlier than `x` and the point at it is not; on a sorted curve every point before it is earlier and every point from it on is not; `lo` is returned when the range is empty |
| Hover.LastBefore | ScatterPlot.js:243-245 | the reference index is in range; if it is not the first point it is dated before the query; every later point is not |
| Hover.LastBeforeUnique | ScatterPlot.js:243-245 | any index with those properties is the reference index |
| Hover.HoverPoint | ScatterPlot.js:243-248 | there is no point iff the curve is empty; the point is at some index `k` that is 0 or dated before the query, with the next point, if any, not before the query; on a sorted curve it is the last point dated before the query, or the first point |
| Hover.QueryAfterLast | ScatterPlot.js:243-245 | a query after the last date shows the last point |
| Hover.QueryBeforeAll | ScatterPlot.js:243-245 | a query no later than every date after the first shows the first point |
| Hover.ExactMatchShowsPrevious | ScatterPlot.js:243-245 | on a strictly sorted curve, a query exactly at point `k >= 1` shows point `k - 1` |
| Hover.ThreePointExample | ScatterPlot.js:243-245 | on three sorted points, a query between the second and third shows the second, and a query before the first shows the first |
| App.CleanCell | App.js:49-51 | a placeholder cell becomes `null`, any other cell is kept, and no placeholder is left |
| App.CleanRow | App.js:48-52 | the same columns, no placeholder left, placeholders replaced by `null`, every other cell unchanged |
| App.CleanedRows | App.js:47-54 | one cleaned row per row, in the same order |
| App.NoPlaceholderLeft | App.js:47-54 | no cell of any cleaned row is `"?"` or `"N/A"` |
| App.CleanRowKeepsCleanRow | App.js:48-52 | a row without placeholders is left as it is |
| App.CleaningIdempotent | App.js:47-54 | cleaning already cleaned rows changes nothing |
| App.CleanData | App.js:47-54 | the array's rows are cleaned in place and returned, in order |
| App.Render | App.js:85-89 | the chart is shown iff both uploads are non-empty, given both uploads; otherwise the placeholder message |
| App.UploadsShowChart | App.js:56-89 | two non-empty uploads show the chart after the second is cleaned |
| App.Application.constructor | App.js:23-24 | both uploads start empty, so the placeholder message is shown |
| App.Application.ChangeHandler1 | App.js:32-35 | the first upload is stored exactly as parsed and the second is untouched |
| App.Application.ChangeHandler2 | App.js:44-57 | the second upload is stored cleaned, the parsed rows are cleaned in place too, and the first upload is untouched; the chart is then shown iff the first upload and the parsed rows are both non-empty |
| App.Application.Shown | App.js:85-89 | the component shows the chart over its two uploads iff both hold rows, and the placeholder message otherwise |
| Utils.LayoutConstants | utils.js:11-13 | margins `{20, 30, 60, 60}` leave an inner area of 910 by 320 that adds back up to 1000 by 400 |
| Utils.RhombusPath | utils.js:1-8 | `createRhombusPath`: the four corners of the closed path, in drawing order; their positions are stated by `Utils.RhombusExtent` and `Utils.RhombusOrder` |
| Utils.RhombusExtent | utils.js:1-8 | top and bottom are `height` apart on the vertical through the centre, left and right `width` apart on the horizontal, each pair mirrored about the centre |
| Utils.RhombusOrder | utils.js:1-8 | for a positive size the corners run top, right, bottom, left, and stay in the `height` by `width` box around the centre |
| Utils.MarkerCorners | ScatterPlot.js:100-102 | the 10 by 10 markers have their corners 5 pixels from the centre |

## Left out

- The SVG and DOM construction is not modelled: marker and path appends, axes, tick cadence and
  formats, styling, colours (`d3.scaleOrdinal`, `d3.rgb`) and the date label text. These are side
  effects on a d3-managed document. The marker path at ScatterPlot.js:100-102 is covered only by
  its vertex geometry.
- React hooks, state updates, re-render behaviour and `useEffect` dependencies are not modelled.
  `Application` holds the two upload arrays as plain fields.
- Tooltip HTML, page offsets, and opacity and transition timing are not modelled.
- `xScale.invert` and `getBoundingClientRect` are not modelled. The hover query is a time value
  given as a parameter.
- `Papa.parse`, the file inputs and `console.log` are I/O and a foreign library. Parsed rows
  are given as input. With `dynamicTyping: true` Papa can also produce boolean cells, and
  `Records.Value` has no case for them. A boolean is never one of the placeholders the cleaning
  removes. In a price or date column, where the data holds numbers and dates, a boolean would be
  coerced by JavaScript to 0 or 1, and that coercion is not modelled.
- `d3.timeParse("%d/%m/%Y")` is library behaviour, so it is the abstract `parse` parameter.
- JavaScript doubles are not modelled. Prices and pixels are exact reals, and dates are unbounded
  integers. The `Date` range limit of ±8.64e15 ms is not modelled.
- `Calendar.FromMs`: the split is in UTC. `Date`'s local-time getters and setters also depend on
  the host's time zone and daylight-saving rules, which are not modelled.
- `ScatterPlot.MaxPrice`: only numeric cells count. `d3.max` would also compare text cells, which
  are left out.
- `ScatterPlot.LineY`: a text price gives no position. JavaScript would coerce a numeric string
  to a number.
- `Records.TimeOf`: a non-time date counts as 0, which is what `null` becomes in date arithmetic.
  Every row that reaches the segmenter or the bisector has a time (`Records.SeriesRowsAreDated`).
- `Hover.HoverPoint`: on an unsorted curve the contract gives only the local property of the
  shown index (it is 0 or dated before the query, and the next point is not). Which such index the
  bisector lands on depends on its probing order, and is not characterised.
- `ScatterPlot.XDomain`: an empty pair of series gives no domain here. d3 would build an
  invalid-date domain.
- `ScatterPlot.YUpper`: a missing maximum gives no domain here. d3 would use a `NaN` domain, which
  is not modelled.
- The marker tooltip handlers (`handleMouseOver`, `handleMouseOut`) only show or hide HTML, and
  are not modelled.
