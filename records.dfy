/**
 * Rows as the chart receives them (one map from column name to cell value per CSV line) and the
 * Record Normalizer of the scatter plot: date parsing (`processData`) and the two series filters
 * (`compositeData`, `derivedData`).
 */
module Records {
  import opened Wrappers

  /**
   * A cell value. `Null` is JavaScript's `null`; `Undefined` is what reading a column the row does
   * not have yields; `Time` is a parsed `Date`, kept as its millisecond time value.
   */
  datatype Value = Null | Undefined | Text(text: string) | Number(number: real) | Time(ms: int)

  type Row = map<string, Value>

  /** `row[key]` in JavaScript: a missing column reads as `undefined`. */
  function Get(row: Row, key: string): Value {
    if key in row then row[key] else Undefined
  }

  const DateKey: string := "date"
  const CompositeKey: string := "composite_price"
  const DerivedKey: string := "derived_price"

  /**
   * `{...d, date: parse(d.date)}`: the row with its date cell replaced by the parsed time, or by
   * `null` when the `%d/%m/%Y` parser rejects it. `parse` stands for `d3.timeParse("%d/%m/%Y")`.
   */
  function ProcessRow(row: Row, parse: Value -> Option<int>): (r: Row)
    ensures r.Keys == row.Keys + {DateKey}
    ensures forall k :: k in row && k != DateKey ==> r[k] == row[k]
    ensures r[DateKey].Time? <==> parse(Get(row, DateKey)).Some?
    ensures r[DateKey].Time? ==> r[DateKey].ms == parse(Get(row, DateKey)).value
    ensures !r[DateKey].Time? ==> r[DateKey] == Null
  {
    row[DateKey := match parse(Get(row, DateKey)) case Some(t) => Time(t) case None => Null]
  }

  /** `processData`: every row normalised, one output row per input row, in the same order. */
  function ProcessData(data: seq<Row>, parse: Value -> Option<int>): (r: seq<Row>)
    ensures |r| == |data|
    ensures forall i :: 0 <= i < |r| ==> r[i] == ProcessRow(data[i], parse)
  {
    seq(|data|, i requires 0 <= i < |data| => ProcessRow(data[i], parse))
  }

  /** After normalisation every date cell is a time or `null`. */
  lemma ProcessedDates(data: seq<Row>, parse: Value -> Option<int>)
    ensures forall row :: row in ProcessData(data, parse) ==>
              Get(row, DateKey).Time? || Get(row, DateKey) == Null
  {
  }

  /** The elements of `s` that satisfy `keep`, in their original order (`Array.prototype.filter`). */
  function Filter<T(!new)>(s: seq<T>, keep: T -> bool): (r: seq<T>)
    ensures |r| <= |s|
    ensures forall x :: x in r <==> x in s && keep(x)
  {
    if s == [] then []
    else
      assert s == [s[0]] + s[1..];
      (if keep(s[0]) then [s[0]] else []) + Filter(s[1..], keep)
  }

  /** Filtering distributes over concatenation, so the kept rows stay in their original order. */
  lemma {:induction false} FilterAppend<T(!new)>(s: seq<T>, t: seq<T>, keep: T -> bool)
    ensures Filter(s + t, keep) == Filter(s, keep) + Filter(t, keep)
  {
    if s != [] {
      var head := if keep(s[0]) then [s[0]] else [];
      assert (s + t)[0] == s[0] && (s + t)[1..] == s[1..] + t;
      assert Filter(s + t, keep) == head + Filter(s[1..] + t, keep);
      FilterAppend(s[1..], t, keep);
      assert Filter(s, keep) == head + Filter(s[1..], keep);
      assert head + (Filter(s[1..], keep) + Filter(t, keep)) == (head + Filter(s[1..], keep)) + Filter(t, keep);
    } else {
      assert s + t == t;
    }
  }

  /** Each kept element occurs as often as in the input; every other element not at all. */
  lemma {:induction false} FilterCounts<T(!new)>(s: seq<T>, keep: T -> bool, x: T)
    ensures multiset(Filter(s, keep))[x] == if keep(x) then multiset(s)[x] else 0
  {
    if s != [] {
      assert s == [s[0]] + s[1..];
      FilterCounts(s[1..], keep, x);
    }
  }

  /** A sequence whose every element is kept is returned unchanged. */
  lemma {:induction false} FilterKeepsAll<T(!new)>(s: seq<T>, keep: T -> bool)
    requires forall x :: x in s ==> keep(x)
    ensures Filter(s, keep) == s
  {
    if s != [] {
      FilterKeepsAll(s[1..], keep);
    }
  }

  /** A row of the composite series: `d.composite_price !== null && d.date !== null`. */
  predicate IsCompositePoint(row: Row) {
    Get(row, CompositeKey) != Null && Get(row, DateKey) != Null
  }

  /** A row of the derived series: `d.derived_price !== null && d.date !== null`. */
  predicate IsDerivedPoint(row: Row) {
    Get(row, DerivedKey) != Null && Get(row, DateKey) != Null
  }

  /** `compositeData`: the normalised rows with a date and a composite price, in order. */
  function CompositeData(rows: seq<Row>): (r: seq<Row>)
    ensures forall x :: x in r <==> x in rows && Get(x, CompositeKey) != Null && Get(x, DateKey) != Null
  {
    Filter(rows, IsCompositePoint)
  }

  /** `derivedData`: the normalised rows with a date and a derived price, in order. */
  function DerivedData(rows: seq<Row>): (r: seq<Row>)
    ensures forall x :: x in r <==> x in rows && Get(x, DerivedKey) != Null && Get(x, DateKey) != Null
  {
    Filter(rows, IsDerivedPoint)
  }

  /**
   * The filters compare with `!== null`, so a row that lacks the price column altogether (its
   * price reads as `undefined`) is kept in the series.
   */
  lemma MissingColumnKept(row: Row)
    requires DerivedKey !in row && Get(row, DateKey).Time?
    ensures DerivedData([row]) == [row]
  {
    assert [row][1..] == [];
  }

  /** Every row of either series, once normalised, carries a parsed time. */
  lemma SeriesRowsAreDated(data: seq<Row>, parse: Value -> Option<int>)
    ensures forall x :: x in CompositeData(ProcessData(data, parse)) ==> Get(x, DateKey).Time?
    ensures forall x :: x in DerivedData(ProcessData(data, parse)) ==> Get(x, DateKey).Time?
  {
    ProcessedDates(data, parse);
  }

  /**
   * The time value of a row's date as JavaScript arithmetic sees it (`d.date - other.date`, the
   * bisector's comparisons): a `Date` is its millisecond value and `null` converts to 0.
   */
  function TimeOf(row: Row): int {
    match Get(row, DateKey)
    case Time(t) => t
    case _ => 0
  }
}
