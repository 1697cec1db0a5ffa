/** One series per (direction, axis): the loop over the requested years in
    `get_import_qty`, `get_export_qty`, `get_import_value_USD` and
    `get_export_value_USD`, with the browser replaced by the pages it
    rendered, one per year. */
module Series {
  import opened Results
  import opened Text
  import opened Extract

  /** Import pages come from `icomq.asp`, export pages from `ecomq.asp`. */
  datatype Direction = Import | Export

  datatype Metric = Metric(direction: Direction, axis: Axis)

  /** The name of the one value column each scraping method gives its data
      frame. */
  function ColumnName(m: Metric): string {
    match m
    case Metric(Import, Quantity) => "Import_Qty_thousand_units"
    case Metric(Export, Quantity) => "Export_Qty_thousand_units"
    case Metric(Import, Value) => "Import_$_millions"
    case Metric(Export, Value) => "Export_$_millions"
  }

  /** The four scraping methods name four different columns, so no two
      series clash when they are joined. */
  lemma {:induction false} ColumnNamesDistinct(m: Metric, n: Metric)
    requires m != n
    ensures ColumnName(m) != ColumnName(n)
  {
    assert ColumnName(m)[0] == (if m.direction == Import then 'I' else 'E');
    assert ColumnName(n)[0] == (if n.direction == Import then 'I' else 'E');
    assert ColumnName(m)[7] == (if m.axis == Quantity then 'Q' else '$');
    assert ColumnName(n)[7] == (if n.axis == Quantity then 'Q' else '$');
  }

  /** A data frame with the columns `Year`, `HS_Code` and `column`, one row
      per entry of `rows`, in order. */
  datatype SeriesTable = SeriesTable(column: string, rows: seq<Row>)

  /** The rows of one series: one row per requested year, in request order,
      or the exception of the first year whose page could not be read (the
      loop stops there, and so does the whole scrape). */
  function CollectRows(axis: Axis, code: string, years: seq<string>, pages: seq<Page>): (r: Result<seq<Row>, ExtractError>)
    requires |pages| == |years|
    ensures r.Success? <==>
      forall i {:trigger ExtractRow(axis, years[i], code, pages[i])} :: 0 <= i < |years| ==> ExtractRow(axis, years[i], code, pages[i]).Success?
    ensures r.Success? ==> |r.value| == |years|
    ensures r.Success? ==> forall i {:trigger r.value[i]} {:trigger ExtractRow(axis, years[i], code, pages[i])} :: 0 <= i < |years| ==>
      r.value[i] == ExtractRow(axis, years[i], code, pages[i]).value
    ensures r.Success? ==> forall i :: 0 <= i < |years| ==> r.value[i].code == code
    ensures r.Failure? ==>
      exists i {:trigger ExtractRow(axis, years[i], code, pages[i])} :: 0 <= i < |years| && ExtractRow(axis, years[i], code, pages[i]) == Failure(r.error)
        && forall j {:trigger ExtractRow(axis, years[j], code, pages[j])} :: 0 <= j < i ==> ExtractRow(axis, years[j], code, pages[j]).Success?
  {
    var steps := seq(|years|, i requires 0 <= i < |years| => ExtractRow(axis, years[i], code, pages[i]));
    assert forall i {:trigger steps[i]} {:trigger ExtractRow(axis, years[i], code, pages[i])} :: 0 <= i < |years| ==> steps[i] == ExtractRow(axis, years[i], code, pages[i]);
    AllOk(steps)
  }

  /** The data frame one scraping method returns. */
  function CollectSeries(m: Metric, code: string, years: seq<string>, pages: seq<Page>): (r: Result<SeriesTable, ExtractError>)
    requires |pages| == |years|
    ensures r.Success? <==> CollectRows(m.axis, code, years, pages).Success?
    ensures r.Success? ==> r.value.column == ColumnName(m)
    ensures r.Success? ==> r.value.rows == CollectRows(m.axis, code, years, pages).value
    ensures r.Failure? ==> r.error == CollectRows(m.axis, code, years, pages).error
  {
    match CollectRows(m.axis, code, years, pages)
    case Failure(e) => Failure(e)
    case Success(rows) => Success(SeriesTable(ColumnName(m), rows))
  }

  /** The year list the front end builds, `[str(i) for i in range(from_year,
      to_year + 1)]`: consecutive numerals, one per year, ascending. */
  function YearRange(fromYear: nat, toYear: int): (r: seq<string>)
    ensures |r| == if toYear < fromYear then 0 else toYear - fromYear + 1
    ensures forall i :: 0 <= i < |r| ==> Canonical(r[i]) && DigitsValue(r[i]) == fromYear + i
    decreases toYear - fromYear
  {
    if toYear < fromYear then []
    else
      var rest := YearRange(fromYear + 1, toYear);
      [NatToString(fromYear)] + rest
  }

  /** With the front end's bounds (1997 to 2024) every requested year is a
      four-digit numeral, which is what the year drop-down expects. */
  lemma {:induction false} YearRangeFourDigits(fromYear: nat, toYear: int)
    requires 1000 <= fromYear && toYear <= 9999
    ensures forall i :: 0 <= i < |YearRange(fromYear, toYear)| ==> |YearRange(fromYear, toYear)[i]| == 4
    decreases toYear - fromYear
  {
    if fromYear <= toYear {
      FourDigitNumeral(fromYear);
      YearRangeFourDigits(fromYear + 1, toYear);
    }
  }

  /** On pages without headers, rows for different years get different
      labels, so a series over distinct years has distinct keys. */
  lemma {:induction false} HeaderlessLabelsDistinct(axis: Axis, code: string, years: seq<string>, pages: seq<Page>, a: nat, b: nat)
    requires |pages| == |years|
    requires a < |years| && b < |years| && years[a] != years[b]
    requires pages[a].headers == [] && pages[b].headers == []
    ensures CollectRows(axis, code, years, pages).Success? ==>
      CollectRows(axis, code, years, pages).value[a].year != CollectRows(axis, code, years, pages).value[b].year
  {
    if CollectRows(axis, code, years, pages).Success? {
      assert ExtractRow(axis, years[a], code, pages[a]).Success?;
      assert ExtractRow(axis, years[b], code, pages[b]).Success?;
      FallbackLabelRecoversYear(years[a]);
      FallbackLabelRecoversYear(years[b]);
    }
  }

  /** The front end's years are distinct, so on headerless pages every row
      of a series over a `YearRange` gets its own label. */
  lemma {:induction false} HeaderlessYearRangeLabels(axis: Axis, code: string, fromYear: nat, toYear: int, pages: seq<Page>, a: nat, b: nat)
    requires |pages| == |YearRange(fromYear, toYear)|
    requires a < |pages| && b < |pages| && a != b
    requires pages[a].headers == [] && pages[b].headers == []
    ensures var years := YearRange(fromYear, toYear);
      CollectRows(axis, code, years, pages).Success? ==>
        CollectRows(axis, code, years, pages).value[a].year != CollectRows(axis, code, years, pages).value[b].year
  {
    var years := YearRange(fromYear, toYear);
    assert DigitsValue(years[a]) != DigitsValue(years[b]);
    HeaderlessLabelsDistinct(axis, code, years, pages, a, b);
  }
}
