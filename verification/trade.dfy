/** `TradeDataScraper.get_trade_data`: choose the series from the length of
    the code, collect each one, and merge them on `(Year, HS_Code)` with
    missing cells filled with zero. */
module Trade {
  import opened Results
  import opened Extract
  import opened Series
  import opened Merge

  const ImportQty := Metric(Import, Quantity)
  const ExportQty := Metric(Export, Quantity)
  const ImportValue := Metric(Import, Value)
  const ExportValue := Metric(Export, Value)

  /** Whether `get_trade_data` scrapes metric `m` for `code`: the value
      series always, the quantity series only for codes longer than four
      characters. */
  predicate Chosen(code: string, m: Metric) {
    m.axis == Value || |code| > 4
  }

  /** The series scraped for a code, in the order they are scraped and
      joined: codes longer than four characters get all four, shorter ones
      only the two value series. */
  function MetricsFor(code: string): (ms: seq<Metric>)
    ensures forall m :: m in ms <==> Chosen(code, m)
    ensures forall i, j :: 0 <= i < j < |ms| ==> ms[i] != ms[j]
  {
    var ms := if |code| > 4 then [ImportQty, ExportQty, ImportValue, ExportValue]
              else [ImportValue, ExportValue];
    EveryMetric();
    ms
  }

  /** The four metrics are all there are. */
  lemma {:induction false} EveryMetric()
    ensures forall m: Metric :: m.axis == Quantity ==> m == ImportQty || m == ExportQty
    ensures forall m: Metric :: m.axis == Value ==> m == ImportValue || m == ExportValue
  {
    forall m: Metric
      ensures m.axis == Quantity ==> m == ImportQty || m == ExportQty
      ensures m.axis == Value ==> m == ImportValue || m == ExportValue
    {
      match m
      case Metric(Import, Quantity) =>
      case Metric(Export, Quantity) =>
      case Metric(Import, Value) =>
      case Metric(Export, Value) =>
    }
  }

  /** Every page the browser would render, per metric, in request order. */
  datatype Pages = Pages(importQty: seq<Page>, exportQty: seq<Page>, importValue: seq<Page>, exportValue: seq<Page>)

  /** The pages one scraping method reads. */
  function PagesFor(pages: Pages, m: Metric): (ps: seq<Page>)
    ensures ps == pages.importQty || ps == pages.exportQty || ps == pages.importValue || ps == pages.exportValue
  {
    match m
    case Metric(Import, Quantity) => pages.importQty
    case Metric(Export, Quantity) => pages.exportQty
    case Metric(Import, Value) => pages.importValue
    case Metric(Export, Value) => pages.exportValue
  }

  /** One page per requested year for every metric. */
  predicate OnePagePerYear(pages: Pages, years: seq<string>) {
    && |pages.importQty| == |years| && |pages.exportQty| == |years|
    && |pages.importValue| == |years| && |pages.exportValue| == |years|
  }

  /** The series of `ms`, scraped one after another; the first exception
      ends the whole scrape. */
  function CollectAll(ms: seq<Metric>, code: string, years: seq<string>, pages: Pages): (r: Result<seq<SeriesTable>, ExtractError>)
    requires OnePagePerYear(pages, years)
    ensures r.Success? <==>
      forall i {:trigger CollectSeries(ms[i], code, years, PagesFor(pages, ms[i]))} :: 0 <= i < |ms| ==> CollectSeries(ms[i], code, years, PagesFor(pages, ms[i])).Success?
    ensures r.Success? ==> |r.value| == |ms|
    ensures r.Success? ==> forall i {:trigger r.value[i]} {:trigger CollectSeries(ms[i], code, years, PagesFor(pages, ms[i]))} :: 0 <= i < |ms| ==>
      r.value[i] == CollectSeries(ms[i], code, years, PagesFor(pages, ms[i])).value
    ensures r.Failure? ==>
      exists i {:trigger CollectSeries(ms[i], code, years, PagesFor(pages, ms[i]))} :: 0 <= i < |ms| && CollectSeries(ms[i], code, years, PagesFor(pages, ms[i])) == Failure(r.error)
        && forall j {:trigger CollectSeries(ms[j], code, years, PagesFor(pages, ms[j]))} :: 0 <= j < i ==> CollectSeries(ms[j], code, years, PagesFor(pages, ms[j])).Success?
  {
    var steps := seq(|ms|, i requires 0 <= i < |ms| => CollectSeries(ms[i], code, years, PagesFor(pages, ms[i])));
    assert forall i {:trigger steps[i]} {:trigger CollectSeries(ms[i], code, years, PagesFor(pages, ms[i]))} :: 0 <= i < |ms| ==> steps[i] == CollectSeries(ms[i], code, years, PagesFor(pages, ms[i]));
    AllOk(steps)
  }

  /** The merged trade table for `code` over `years`, or the exception that
      ended the scrape. The series go through the chain of outer joins and
      `fillna(0)`, which `MergeChain` shows is the outer merge. */
  function GetTradeData(code: string, years: seq<string>, pages: Pages): (r: Result<TradeTable, ExtractError>)
    requires OnePagePerYear(pages, years)
    ensures r.Success? <==> CollectAll(MetricsFor(code), code, years, pages).Success?
    ensures r.Failure? ==> r.error == CollectAll(MetricsFor(code), code, years, pages).error
    ensures r.Success? ==> r.value == OuterMerge(CollectAll(MetricsFor(code), code, years, pages).value)
  {
    match CollectAll(MetricsFor(code), code, years, pages)
    case Failure(e) => Failure(e)
    case Success(ss) => Success(MergeChain(ss))
  }

  /** The merged table has one value column per chosen metric, named after
      it, in scraping order. */
  lemma {:induction false} TradeDataColumnNames(code: string, years: seq<string>, pages: Pages)
    requires OnePagePerYear(pages, years)
    requires CollectAll(MetricsFor(code), code, years, pages).Success?
    ensures |GetTradeData(code, years, pages).value.columns| == |MetricsFor(code)|
    ensures forall i :: 0 <= i < |MetricsFor(code)| ==>
      GetTradeData(code, years, pages).value.columns[i] == ColumnName(MetricsFor(code)[i])
  {
    var ms := MetricsFor(code);
    var ss := CollectAll(ms, code, years, pages).value;
    assert forall i :: 0 <= i < |ms| ==> ss[i].column == ColumnName(ms[i]);
  }

  /** The column names of the metrics chosen for a code: the two quantity
      columns come first and only for codes longer than four characters; the
      import and export value columns are always there. */
  lemma {:induction false} ColumnsForCode(code: string, columns: seq<string>)
    requires |columns| == |MetricsFor(code)|
    requires forall i :: 0 <= i < |MetricsFor(code)| ==> columns[i] == ColumnName(MetricsFor(code)[i])
    ensures |code| > 4 ==>
      columns == ["Import_Qty_thousand_units", "Export_Qty_thousand_units", "Import_$_millions", "Export_$_millions"]
    ensures |code| <= 4 ==>
      columns == ["Import_$_millions", "Export_$_millions"]
  {
  }

  /** The columns of the merged table, by the length of the code. */
  lemma {:induction false} TradeDataColumns(code: string, years: seq<string>, pages: Pages)
    requires OnePagePerYear(pages, years)
    requires CollectAll(MetricsFor(code), code, years, pages).Success?
    ensures |code| > 4 ==>
      GetTradeData(code, years, pages).value.columns ==
        ["Import_Qty_thousand_units", "Export_Qty_thousand_units", "Import_$_millions", "Export_$_millions"]
    ensures |code| <= 4 ==>
      GetTradeData(code, years, pages).value.columns == ["Import_$_millions", "Export_$_millions"]
  {
    TradeDataColumnNames(code, years, pages);
    ColumnsForCode(code, GetTradeData(code, years, pages).value.columns);
  }

  /** Row `j` of the `i`-th collected series is the row extracted from the
      `j`-th page of that metric. */
  lemma {:induction false} CollectedRow(code: string, years: seq<string>, pages: Pages, i: nat, j: nat)
    requires OnePagePerYear(pages, years)
    requires CollectAll(MetricsFor(code), code, years, pages).Success?
    requires i < |MetricsFor(code)|
    ensures |CollectAll(MetricsFor(code), code, years, pages).value[i].rows| == |years|
    ensures j < |years| ==>
      CollectAll(MetricsFor(code), code, years, pages).value[i].rows[j]
        == ExtractRow(MetricsFor(code)[i].axis, years[j], code, PagesFor(pages, MetricsFor(code)[i])[j]).value
  {
    var ms := MetricsFor(code);
    assert CollectAll(ms, code, years, pages).value[i] == CollectSeries(ms[i], code, years, PagesFor(pages, ms[i])).value;
  }

  /** The keys of the merged table are exactly the `(label, code)` pairs of
      the rows of the collected series. */
  lemma {:induction false} TradeDataKeys(code: string, years: seq<string>, pages: Pages, k: Key)
    requires OnePagePerYear(pages, years)
    requires CollectAll(MetricsFor(code), code, years, pages).Success?
    ensures
      var ss := CollectAll(MetricsFor(code), code, years, pages).value;
      k in GetTradeData(code, years, pages).value.rows <==>
        exists i :: 0 <= i < |ss| && HasKey(ss[i].rows, k)
  {
    MergedKeys(CollectAll(MetricsFor(code), code, years, pages).value, k);
  }

  /** Every row of every collected series carries the requested code. */
  lemma {:induction false} CollectedCode(code: string, years: seq<string>, pages: Pages, i: nat)
    requires OnePagePerYear(pages, years)
    requires CollectAll(MetricsFor(code), code, years, pages).Success?
    requires i < |MetricsFor(code)|
    ensures forall j :: 0 <= j < |CollectAll(MetricsFor(code), code, years, pages).value[i].rows| ==>
      CollectAll(MetricsFor(code), code, years, pages).value[i].rows[j].code == code
  {
    var ms := MetricsFor(code);
    assert CollectAll(ms, code, years, pages).value[i] == CollectSeries(ms[i], code, years, PagesFor(pages, ms[i])).value;
  }

  /** Every row of the merged table carries the requested code. */
  lemma {:induction false} TradeDataCode(code: string, years: seq<string>, pages: Pages)
    requires OnePagePerYear(pages, years)
    requires CollectAll(MetricsFor(code), code, years, pages).Success?
    ensures forall k :: k in GetTradeData(code, years, pages).value.rows ==> k.code == code
  {
    var ss := CollectAll(MetricsFor(code), code, years, pages).value;
    forall i | 0 <= i < |ss| ensures forall j :: 0 <= j < |ss[i].rows| ==> ss[i].rows[j].code == code {
      CollectedCode(code, years, pages, i);
    }
    MergedCodes(ss, code);
  }
}
