/**
 * The data-to-geometry rules of the scatter plot: the date domain padded by six months, the price
 * domain with its floor of 150, the y-accessors of the two lines, the runs of the composite line,
 * and the horizontal position of the dashed reference line at the first data point.
 */
module ScatterPlot {
  import opened Wrappers
  import opened Records
  import opened Calendar
  import opened Scales
  import Utils
  import Segmenter

  /** A closed range of time values, `[lo, hi]`. */
  datatype Interval = Interval(lo: int, hi: int)

  /**
   * `d3.extent`: the least and greatest of the values, or nothing for no values (d3 then gives
   * `[undefined, undefined]`, which makes an invalid date domain).
   */
  function Extent(ts: seq<int>): (r: Option<Interval>)
    ensures r.None? <==> ts == []
    ensures r.Some? ==> r.value.lo in ts && r.value.hi in ts
    ensures r.Some? ==> forall t :: t in ts ==> r.value.lo <= t <= r.value.hi
  {
    if ts == [] then None
    else
      assert ts == [ts[0]] + ts[1..];
      match Extent(ts[1..])
      case None => Some(Interval(ts[0], ts[0]))
      case Some(iv) =>
        Some(Interval(if ts[0] < iv.lo then ts[0] else iv.lo, if ts[0] > iv.hi then ts[0] else iv.hi))
  }

  /** The time values of the rows, in order (`combinedData.map(d => d.date)`). */
  function DatesOf(rows: seq<Row>): (r: seq<int>)
    ensures |r| == |rows|
    ensures forall i :: 0 <= i < |rows| ==> r[i] == TimeOf(rows[i])
  {
    seq(|rows|, i requires 0 <= i < |rows| => TimeOf(rows[i]))
  }

  /** `[...compositeData, ...derivedData]`: the points of both series, composite first. */
  function Combined(composite: seq<Row>, derived: seq<Row>): (r: seq<Row>)
    ensures |r| == |composite| + |derived|
    ensures forall x :: x in r <==> x in composite || x in derived
  {
    composite + derived
  }

  /** `x` is a point of `rows` dated no later than any other. */
  predicate EarliestIn(x: Row, rows: seq<Row>) {
    x in rows && forall y :: y in rows ==> TimeOf(x) <= TimeOf(y)
  }

  /** `x` is a point of `rows` dated no earlier than any other. */
  predicate LatestIn(x: Row, rows: seq<Row>) {
    x in rows && forall y :: y in rows ==> TimeOf(y) <= TimeOf(x)
  }

  /**
   * The date domain: from six calendar months before the earliest date of either series to the
   * latest date of either series; nothing when both series are empty.
   */
  function XDomain(composite: seq<Row>, derived: seq<Row>): (r: Option<Interval>)
    ensures r.None? <==> composite == [] && derived == []
    ensures r.Some? ==> r.value.lo < r.value.hi
    ensures r.Some? ==> exists x :: EarliestIn(x, Combined(composite, derived)) && r.value.lo == SixMonthsBefore(TimeOf(x))
    ensures r.Some? ==> exists x :: LatestIn(x, Combined(composite, derived)) && r.value.hi == TimeOf(x)
    ensures r.Some? ==> forall x :: x in Combined(composite, derived) ==> r.value.lo < TimeOf(x) <= r.value.hi
  {
    var ts := DatesOf(Combined(composite, derived));
    match Extent(ts)
    case None => None
    case Some(iv) =>
      assert forall x :: x in Combined(composite, derived) ==> TimeOf(x) in ts;
      var i :| 0 <= i < |ts| && ts[i] == iv.lo;
      var j :| 0 <= j < |ts| && ts[j] == iv.hi;
      assert Combined(composite, derived)[i] in Combined(composite, derived);
      assert Combined(composite, derived)[j] in Combined(composite, derived);
      Some(Interval(SixMonthsBefore(iv.lo), iv.hi))
  }

  /**
   * Given the earliest point `first` and the latest point `last` of the two series, the date
   * domain is exactly `[SixMonthsBefore(first's date), last's date]`.
   */
  lemma XDomainIsPaddedExtent(composite: seq<Row>, derived: seq<Row>, first: Row, last: Row)
    requires EarliestIn(first, Combined(composite, derived)) && LatestIn(last, Combined(composite, derived))
    ensures XDomain(composite, derived) == Some(Interval(SixMonthsBefore(TimeOf(first)), TimeOf(last)))
  {
    XDomainStart(composite, derived, first);
    XDomainEnd(composite, derived, last);
  }

  /** The domain starts six months before the date of the earliest point. */
  lemma XDomainStart(composite: seq<Row>, derived: seq<Row>, first: Row)
    requires EarliestIn(first, Combined(composite, derived))
    ensures XDomain(composite, derived).Some? && XDomain(composite, derived).value.lo == SixMonthsBefore(TimeOf(first))
  {
    EarliestDate(Combined(composite, derived), XDomain(composite, derived).value.lo, first);
  }

  /** The domain ends at the date of the latest point. */
  lemma XDomainEnd(composite: seq<Row>, derived: seq<Row>, last: Row)
    requires LatestIn(last, Combined(composite, derived))
    ensures XDomain(composite, derived).Some? && XDomain(composite, derived).value.hi == TimeOf(last)
  {
    LatestDate(Combined(composite, derived), XDomain(composite, derived).value.hi, last);
  }

  /** A value computed from some earliest point is the value computed from any earliest point. */
  lemma EarliestDate(rows: seq<Row>, lo: int, first: Row)
    requires EarliestIn(first, rows)
    requires exists x :: EarliestIn(x, rows) && lo == SixMonthsBefore(TimeOf(x))
    ensures lo == SixMonthsBefore(TimeOf(first))
  {
    var x :| EarliestIn(x, rows) && lo == SixMonthsBefore(TimeOf(x));
    SameTime(x, first, rows);
  }

  /** The date of some latest point is the date of any latest point. */
  lemma LatestDate(rows: seq<Row>, hi: int, last: Row)
    requires LatestIn(last, rows)
    requires exists x :: LatestIn(x, rows) && hi == TimeOf(x)
    ensures hi == TimeOf(last)
  {
    var z :| LatestIn(z, rows) && hi == TimeOf(z);
    SameTime(z, last, rows);
  }

  /** Two earliest points, or two latest ones, share their date. */
  lemma SameTime(x: Row, y: Row, rows: seq<Row>)
    requires (EarliestIn(x, rows) && EarliestIn(y, rows)) || (LatestIn(x, rows) && LatestIn(y, rows))
    ensures TimeOf(x) == TimeOf(y)
  {
  }

  /** `d3.scaleTime().domain(xDomain).range([0, width])`. */
  function XScale(dom: Interval): LinearScale {
    LinearScale(dom.lo as real, dom.hi as real, 0.0, Utils.width as real)
  }

  /** The padded start of the date domain is drawn at pixel 0 and the latest date at the full width. */
  lemma XScaleEnds(composite: seq<Row>, derived: seq<Row>)
    requires composite != [] || derived != []
    ensures XDomain(composite, derived).Some?
    ensures var dom := XDomain(composite, derived).value;
      Apply(XScale(dom), dom.lo as real) == 0.0 && Apply(XScale(dom), dom.hi as real) == Utils.width as real
  {
    Endpoints(XScale(XDomain(composite, derived).value));
  }

  /**
   * `xScale(d3.min(combinedData, d => d.date))`: where the dashed reference line is drawn. It lies
   * strictly right of pixel 0, because the domain starts six months before the first date, and no
   * further right than the full width.
   */
  function ReferenceX(composite: seq<Row>, derived: seq<Row>): (r: Option<real>)
    ensures r.None? <==> composite == [] && derived == []
    ensures r.Some? ==>
      exists x :: EarliestIn(x, Combined(composite, derived)) && r.value == Apply(XScale(XDomain(composite, derived).value), TimeOf(x) as real)
    ensures r.Some? ==> 0.0 < r.value <= Utils.width as real
  {
    var ts := DatesOf(Combined(composite, derived));
    match Extent(ts)
    case None => None
    case Some(iv) =>
      assert forall x :: x in Combined(composite, derived) ==> TimeOf(x) in ts;
      var i :| 0 <= i < |ts| && ts[i] == iv.lo;
      assert Combined(composite, derived)[i] in Combined(composite, derived);
      var dom := XDomain(composite, derived).value;
      var s := XScale(dom);
      var first := iv.lo as real;
      Endpoints(s);
      Monotone(s, dom.lo as real, first);
      WithinRange(s, first);
      Some(Apply(s, first))
  }

  /** The reference line is drawn at the x position of the earliest point of the two series. */
  lemma ReferenceXAtEarliest(composite: seq<Row>, derived: seq<Row>, first: Row)
    requires EarliestIn(first, Combined(composite, derived))
    ensures ReferenceX(composite, derived) == Some(Apply(XScale(XDomain(composite, derived).value), TimeOf(first) as real))
  {
    var r := ReferenceX(composite, derived);
    var x :| EarliestIn(x, Combined(composite, derived)) && r.value == Apply(XScale(XDomain(composite, derived).value), TimeOf(x) as real);
    SameTime(x, first, Combined(composite, derived));
  }

  /** The value of a price cell when it is a number; any other cell has no numeric value. */
  function PriceOf(row: Row, key: string): Option<real> {
    match Get(row, key)
    case Number(n) => Some(n)
    case _ => None
  }

  /**
   * `d3.max(rows, d => d[key])`: the greatest numeric price of the rows, or nothing when no row
   * has one (d3 skips `null` and `undefined` and yields `undefined` for no values).
   */
  function MaxPrice(rows: seq<Row>, key: string): (r: Option<real>)
    ensures r.None? <==> forall x :: x in rows ==> PriceOf(x, key).None?
    ensures r.Some? ==> exists x :: x in rows && PriceOf(x, key) == r
    ensures r.Some? ==> forall x :: x in rows && PriceOf(x, key).Some? ==> PriceOf(x, key).value <= r.value
  {
    if rows == [] then None
    else
      assert rows == [rows[0]] + rows[1..];
      var rest := MaxPrice(rows[1..], key);
      match PriceOf(rows[0], key)
      case None => rest
      case Some(p) =>
        if rest.Some? && rest.value >= p then rest else Some(p)
  }

  /** The least upper bound the price axis starts from. */
  const MinUpper: real := 150.0

  /**
   * `Math.max(yMaxComposite, yMaxDerived, 150)`: the top of the price domain. A series without a
   * numeric price makes its maximum `undefined` and the whole expression `NaN`, shown as nothing.
   */
  function YUpper(maxComposite: Option<real>, maxDerived: Option<real>): (r: Option<real>)
    ensures r.Some? <==> maxComposite.Some? && maxDerived.Some?
    ensures r.Some? ==> r.value >= MinUpper && r.value >= maxComposite.value && r.value >= maxDerived.value
    ensures r.Some? ==> r.value == MinUpper || r.value == maxComposite.value || r.value == maxDerived.value
  {
    match (maxComposite, maxDerived)
    case (Some(c), Some(d)) =>
      var m := if c >= d then c else d;
      Some(if m >= MinUpper then m else MinUpper)
    case _ => None
  }

  /** A row that carries a composite price: the extra filter applied before taking the maximum. */
  predicate HasCompositePrice(row: Row) {
    Get(row, CompositeKey) != Null
  }

  /** A row that carries a derived price. */
  predicate HasDerivedPrice(row: Row) {
    Get(row, DerivedKey) != Null
  }

  /** The top of the price domain computed from the two series. */
  function YDomainUpper(composite: seq<Row>, derived: seq<Row>): Option<real> {
    YUpper(MaxPrice(Filter(composite, HasCompositePrice), CompositeKey),
           MaxPrice(Filter(derived, HasDerivedPrice), DerivedKey))
  }

  /**
   * The extra `!== null` filters before the maxima change nothing on the series, which already
   * exclude rows without the price; and the domain top bounds every numeric price of either series.
   */
  lemma YDomainUpperBounds(composite: seq<Row>, derived: seq<Row>)
    requires forall x :: x in composite ==> HasCompositePrice(x)
    requires forall x :: x in derived ==> HasDerivedPrice(x)
    requires YDomainUpper(composite, derived).Some?
    ensures Filter(composite, HasCompositePrice) == composite
    ensures Filter(derived, HasDerivedPrice) == derived
    ensures YDomainUpper(composite, derived).value >= MinUpper
    ensures forall x :: x in composite && PriceOf(x, CompositeKey).Some? ==>
              PriceOf(x, CompositeKey).value <= YDomainUpper(composite, derived).value
    ensures forall x :: x in derived && PriceOf(x, DerivedKey).Some? ==>
              PriceOf(x, DerivedKey).value <= YDomainUpper(composite, derived).value
  {
    FilterKeepsAll(composite, HasCompositePrice);
    FilterKeepsAll(derived, HasDerivedPrice);
  }

  /** The domain top of two series whose greatest prices are 80 and 40 is the floor, 150. */
  lemma YUpperFloorExample()
    ensures YUpper(Some(80.0), Some(40.0)) == Some(150.0)
    ensures YUpper(Some(80.0), Some(240.0)) == Some(240.0)
    ensures YUpper(None, Some(240.0)) == None
  {
  }

  /** `d3.scaleLinear().domain([0, upper]).range([height, 0])`: the price axis grows upwards. */
  function YScale(upper: real): LinearScale {
    LinearScale(0.0, upper, Utils.height as real, 0.0)
  }

  /** A price of 0 sits on the bottom edge of the plotting area and the domain top on its top edge. */
  lemma YScaleEnds(upper: real)
    requires upper >= MinUpper
    ensures Apply(YScale(upper), 0.0) == Utils.height as real
    ensures Apply(YScale(upper), upper) == 0.0
  {
    Endpoints(YScale(upper));
  }

  /** The JavaScript truthiness of a cell, as `&& d.date` tests it. */
  predicate Truthy(v: Value) {
    match v
    case Null => false
    case Undefined => false
    case Text(s) => s != ""
    case Number(n) => n != 0.0
    case Time(_) => true
  }

  /**
   * The y-accessor of a line for the price column `key`: a row with a price and a date is placed at
   * `yScale(price)`, any other row at `yScale(0)`. A price that is not a number gives `NaN`,
   * shown as nothing.
   */
  function LineY(row: Row, key: string, upper: real): (r: Option<real>)
    ensures Get(row, key) == Null || !Truthy(Get(row, DateKey)) ==> r == Some(Apply(YScale(upper), 0.0))
    ensures Get(row, key) != Null && Truthy(Get(row, DateKey)) ==>
              r == (if PriceOf(row, key).Some? then Some(Apply(YScale(upper), PriceOf(row, key).value)) else None)
  {
    if Get(row, key) != Null && Truthy(Get(row, DateKey)) then
      match Get(row, key)
      case Number(n) => Some(Apply(YScale(upper), n))
      case _ => None
    else Some(Apply(YScale(upper), 0.0))
  }

  /** A row whose price is `null` is drawn on the baseline, at `height`. */
  lemma NullPriceOnBaseline(row: Row, key: string, upper: real)
    requires upper >= MinUpper && Get(row, key) == Null
    ensures LineY(row, key, upper) == Some(Utils.height as real)
  {
    YScaleEnds(upper);
  }

  /**
   * Every point of the composite line with a non-negative price lies within the plotting area,
   * between the top edge and the baseline.
   */
  lemma CompositePointsInsideChart(composite: seq<Row>, derived: seq<Row>, row: Row)
    requires forall x :: x in composite ==> HasCompositePrice(x)
    requires forall x :: x in derived ==> HasDerivedPrice(x)
    requires YDomainUpper(composite, derived).Some?
    requires row in composite && Get(row, DateKey).Time?
    requires PriceOf(row, CompositeKey).Some? && PriceOf(row, CompositeKey).value >= 0.0
    ensures var y := LineY(row, CompositeKey, YDomainUpper(composite, derived).value);
      y.Some? && 0.0 <= y.value <= Utils.height as real
  {
    YDomainUpperBounds(composite, derived);
    PricedPointInsideChart(row, CompositeKey, YDomainUpper(composite, derived).value);
  }

  /** A dated row whose price lies in `[0, upper]` is drawn between the top edge and the baseline. */
  lemma PricedPointInsideChart(row: Row, key: string, upper: real)
    requires upper >= MinUpper && Get(row, DateKey).Time?
    requires PriceOf(row, key).Some? && 0.0 <= PriceOf(row, key).value <= upper
    ensures var y := LineY(row, key, upper); y.Some? && 0.0 <= y.value <= Utils.height as real
  {
    var price := PriceOf(row, key).value;
    assert LineY(row, key, upper) == Some(Apply(YScale(upper), price));
    WithinRange(YScale(upper), price);
  }

  /**
   * The rows of either drawn series carry a price and a time, so the accessor never takes its
   * `yScale(0)` branch for them: a `null` price never reaches a drawn line.
   */
  lemma SeriesPointsUsePrice(lineData: seq<Row>, parse: Value -> Option<int>, upper: real, x: Row)
    requires x in CompositeData(ProcessData(lineData, parse))
    ensures LineY(x, CompositeKey, upper) ==
      if PriceOf(x, CompositeKey).Some? then Some(Apply(YScale(upper), PriceOf(x, CompositeKey).value)) else None
  {
    SeriesRowsAreDated(lineData, parse);
  }

  /** The same for the derived line: its rows are always placed by their own price. */
  lemma DerivedPointsUsePrice(lineData: seq<Row>, parse: Value -> Option<int>, upper: real, x: Row)
    requires x in DerivedData(ProcessData(lineData, parse))
    ensures LineY(x, DerivedKey, upper) ==
      if PriceOf(x, DerivedKey).Some? then Some(Apply(YScale(upper), PriceOf(x, DerivedKey).value)) else None
  {
    SeriesRowsAreDated(lineData, parse);
  }

  /**
   * 1 January 2021 and 1 May 2021 are 120 days apart, more than the 90-day threshold, so a
   * composite series of just these two points is drawn as two runs of one point each.
   */
  lemma JanuaryToMayExample(ss: seq<seq<Row>>)
    requires var jan, may := Segmenter.PointAt(ToMs(CalendarTime(2021, 0, 0))), Segmenter.PointAt(ToMs(CalendarTime(2021, 4, 0)));
      Segmenter.IsSegmentation([jan, may], ss)
    ensures |ss| == 2 && |ss[0]| == 1 && |ss[1]| == 1
  {
    var jan, may := Segmenter.PointAt(ToMs(CalendarTime(2021, 0, 0))), Segmenter.PointAt(ToMs(CalendarTime(2021, 4, 0)));
    MonthLength(YearMonth(2021, 0));
    MonthLength(YearMonth(2021, 1));
    MonthLength(YearMonth(2021, 2));
    MonthLength(YearMonth(2021, 3));
    assert ToMs(CalendarTime(2021, 4, 0)) - ToMs(CalendarTime(2021, 0, 0)) == 120 * DayMs;
    assert TimeOf(jan) == ToMs(CalendarTime(2021, 0, 0)) && TimeOf(may) == ToMs(CalendarTime(2021, 4, 0));
    var expected := [[jan], [may]];
    assert expected[1..] == [[may]] && [[may]][1..] == [];
    assert Segmenter.Flatten([[may]]) == [may];
    assert Segmenter.Flatten(expected) == [jan] + [may];
    assert Segmenter.SeparatedAt(expected, 1);
    assert Segmenter.IsSegmentation([jan, may], expected);
    Segmenter.SegmentationUnique([jan, may], ss, expected);
  }

  /** The lines of the chart: the composite series cut into runs at its gaps, and the whole derived series. */
  method LinePaths(lineData: seq<Row>, parse: Value -> Option<int>) returns (compositeRuns: seq<seq<Row>>, derivedCurve: seq<Row>)
    ensures Segmenter.IsSegmentation(CompositeData(ProcessData(lineData, parse)), compositeRuns)
    ensures derivedCurve == DerivedData(ProcessData(lineData, parse))
    ensures forall j, x :: 0 <= j < |compositeRuns| && x in compositeRuns[j] ==> Get(x, DateKey).Time?
  {
    var rows := ProcessData(lineData, parse);
    SeriesRowsAreDated(lineData, parse);
    compositeRuns := Segmenter.SegmentData(CompositeData(rows));
    derivedCurve := DerivedData(rows);
    forall j, x | 0 <= j < |compositeRuns| && x in compositeRuns[j]
      ensures Get(x, DateKey).Time?
    {
      Segmenter.RunInFlatten(compositeRuns, j, x);
    }
  }
}
