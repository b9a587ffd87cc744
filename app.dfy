/**
 * The upload side of the application: the cleaning of the second upload, which blanks the
 * placeholder cells `"?"` and `"N/A"` in place, the two state arrays the uploads fill, and the
 * gate that shows the chart only once both uploads hold rows.
 */
module App {
  import opened Records

  /** A cell holding one of the placeholders the cleaning removes. */
  predicate IsMissingToken(v: Value) {
    v == Text("?") || v == Text("N/A")
  }

  /** What the cleaning leaves in a cell: `null` for a placeholder, the cell itself otherwise. */
  function CleanCell(v: Value): (r: Value)
    ensures !IsMissingToken(r)
    ensures IsMissingToken(v) ==> r == Null
    ensures !IsMissingToken(v) ==> r == v
  {
    if IsMissingToken(v) then Null else v
  }

  /** A row after cleaning: the same columns, every placeholder replaced by `null`. */
  function CleanRow(row: Row): (r: Row)
    ensures r.Keys == row.Keys
    ensures forall k :: k in r ==> !IsMissingToken(r[k])
    ensures forall k :: k in row && !IsMissingToken(row[k]) ==> r[k] == row[k]
    ensures forall k :: k in row && IsMissingToken(row[k]) ==> r[k] == Null
  {
    map k | k in row :: CleanCell(row[k])
  }

  /** The rows after cleaning, one per input row, in the same order. */
  function CleanedRows(rows: seq<Row>): (r: seq<Row>)
    ensures |r| == |rows|
    ensures forall i :: 0 <= i < |r| ==> r[i] == CleanRow(rows[i])
  {
    seq(|rows|, i requires 0 <= i < |rows| => CleanRow(rows[i]))
  }

  /** No placeholder survives the cleaning, in any row. */
  lemma NoPlaceholderLeft(rows: seq<Row>)
    ensures forall i, k :: 0 <= i < |rows| && k in CleanedRows(rows)[i] ==> !IsMissingToken(CleanedRows(rows)[i][k])
  {
  }

  /** A row without placeholders is left as it is. */
  lemma CleanRowKeepsCleanRow(row: Row)
    requires forall k :: k in row ==> !IsMissingToken(row[k])
    ensures CleanRow(row) == row
  {
    assert CleanRow(row).Keys == row.Keys;
  }

  /** Cleaning already cleaned rows changes nothing. */
  lemma CleaningIdempotent(rows: seq<Row>)
    ensures CleanedRows(CleanedRows(rows)) == CleanedRows(rows)
  {
    forall i | 0 <= i < |rows|
      ensures CleanRow(CleanRow(rows[i])) == CleanRow(rows[i])
    {
      CleanRowKeepsCleanRow(CleanRow(rows[i]));
    }
  }

  /**
   * The cleaning of `changeHandler2`: for every row, and every column of it, a cell equal to `"?"`
   * or `"N/A"` is overwritten with `null` in the row itself; the rows are returned in order.
   */
  method CleanData(data: array<Row>) returns (cleaned: seq<Row>)
    modifies data
    ensures data[..] == CleanedRows(old(data[..]))
    ensures cleaned == data[..]
  {
    for i := 0 to data.Length
      invariant forall j :: 0 <= j < i ==> data[j] == CleanRow(old(data[j]))
      invariant forall j :: i <= j < data.Length ==> data[j] == old(data[j])
    {
      var pending := data[i].Keys;
      while pending != {}
        invariant data[i].Keys == old(data[i]).Keys
        invariant pending <= data[i].Keys
        invariant forall k :: k in data[i] && k !in pending ==> data[i][k] == CleanCell(old(data[i])[k])
        invariant forall k :: k in pending ==> data[i][k] == old(data[i])[k]
        invariant forall j :: 0 <= j < i ==> data[j] == CleanRow(old(data[j]))
        invariant forall j :: i < j < data.Length ==> data[j] == old(data[j])
        decreases pending
      {
        var key :| key in pending;
        if data[i][key] == Text("?") || data[i][key] == Text("N/A") {
          data[i] := data[i][key := Null];
        }
        pending := pending - {key};
      }
      assert data[i] == CleanRow(old(data[i]));
    }
    cleaned := data[..];
  }

  /** What the application shows below the upload buttons. */
  datatype View = Placeholder(message: string) | Chart(scatteredData: seq<Row>, lineData: seq<Row>)

  const PlaceholderMessage: string := "Please upload data to see chart 1"

  /**
   * The render gate: the chart, given both uploads, once each of them holds at least one row;
   * until then the placeholder message.
   */
  function Render(dataArray1: seq<Row>, dataArray2: seq<Row>): (v: View)
    ensures v.Chart? <==> |dataArray1| > 0 && |dataArray2| > 0
    ensures v.Chart? ==> v.scatteredData == dataArray1 && v.lineData == dataArray2
    ensures v.Placeholder? ==> v.message == PlaceholderMessage
  {
    if |dataArray1| > 0 && |dataArray2| > 0 then Chart(dataArray1, dataArray2)
    else Placeholder(PlaceholderMessage)
  }

  /** Cleaning never empties an upload, so two non-empty uploads always show the chart. */
  lemma UploadsShowChart(scattered: seq<Row>, line: seq<Row>)
    requires |scattered| > 0 && |line| > 0
    ensures Render(scattered, CleanedRows(line)) == Chart(scattered, CleanedRows(line))
  {
  }

  /** The state of the application component: the rows of the two uploads. */
  class Application {
    var dataArray1: seq<Row>
    var dataArray2: seq<Row>

    /** Both uploads start empty. */
    constructor()
      ensures dataArray1 == [] && dataArray2 == []
      ensures Shown() == Placeholder(PlaceholderMessage)
    {
      dataArray1 := [];
      dataArray2 := [];
    }

    /** `changeHandler1`'s completion: the first upload is stored exactly as parsed. */
    method ChangeHandler1(results: seq<Row>)
      modifies this
      ensures dataArray1 == results
      ensures dataArray2 == old(dataArray2)
    {
      dataArray1 := results;
    }

    /**
     * `changeHandler2`'s completion: the parsed rows are cleaned in place and the cleaned rows
     * stored as the second upload.
     */
    method ChangeHandler2(results: array<Row>)
      modifies this, results
      ensures dataArray2 == CleanedRows(old(results[..]))
      ensures results[..] == dataArray2
      ensures dataArray1 == old(dataArray1)
      ensures Shown().Chart? <==> dataArray1 != [] && results.Length > 0
    {
      var cleaned := CleanData(results);
      dataArray2 := cleaned;
    }

    /**
     * What the component renders from its current state: the chart over the two uploads once both
     * hold rows, the placeholder message before that.
     */
    function Shown(): (v: View)
      reads this
      ensures v.Chart? <==> dataArray1 != [] && dataArray2 != []
      ensures v.Chart? ==> v.scatteredData == dataArray1 && v.lineData == dataArray2
      ensures v.Placeholder? ==> v.message == PlaceholderMessage
    {
      Render(dataArray1, dataArray2)
    }
  }
}
