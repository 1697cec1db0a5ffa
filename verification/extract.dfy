/** Turning one rendered result page into one row `(year label, code,
    value)`, as the body of the per-year loop in each of the four scraping
    methods of `TradeDataScraper` does once the browser has been driven. */
module Extract {
  import opened Results
  import opened Text

  /** Quantity pages (radio button "radioqty") and value-in-dollars pages
      ("radiousd"). */
  datatype Axis = Quantity | Value

  /** What the scraper reads from a result page: the texts of every `th`
      element and of every `td` element, in document order. */
  datatype Page = Page(headers: seq<string>, cells: seq<string>)

  /** One row of a series. `value` is the text handed to Python's `float`:
      the cleaned cell, or "0" wherever the scraper falls back to zero. */
  datatype Row = Row(year: string, code: string, value: string)

  /** The exceptions that escape the row construction: `int(year)` raising
      `ValueError`, and the fixed-index reads of the header or data list
      raising `IndexError`. */
  datatype ExtractError =
    | YearNotInteger(year: string)
    | HeaderIndexError(index: nat)
    | CellIndexError(index: nat)

  /** The fixed position of the year label among the headers and of the
      figure among the data cells: 4 on quantity pages, 3 on value pages. */
  function FieldIndex(axis: Axis): (i: nat)
    ensures 3 <= i <= 4
  {
    match axis
    case Quantity => 4
    case Value => 3
  }

  /** A list the scraper can read at index `i`: it is only read when it is
      non-empty, and then it must be long enough. */
  predicate Readable(xs: seq<string>, i: nat) {
    xs == [] || i < |xs|
  }

  /** The default year label, `str(int(year) - 1) + '-' + year`. The text
      after the dash is the year string exactly as requested; the text
      before it is the numeral of the year before. */
  function FallbackLabel(year: string): (r: Result<string, ExtractError>)
    ensures r.Success? <==> IsIntegerText(year)
    ensures r.Failure? ==> r.error == YearNotInteger(year)
    ensures r.Success? ==>
      var n := |r.value| - |year| - 1;
      && n >= 1
      && r.value[n] == '-'
      && r.value[n + 1..] == year
      && (DigitsValue(year) >= 1 ==>
            Canonical(r.value[..n]) && DigitsValue(r.value[..n]) + 1 == DigitsValue(year))
      && (DigitsValue(year) == 0 ==> r.value[..n] == "-1")
  {
    if IsIntegerText(year) then
      var p := IntToString(DigitsValue(year) - 1);
      var text := p + "-" + year;
      assert text[..|p|] == p && text[|p| + 1..] == year;
      assert DigitsValue(year) == 0 ==> p == "-" + NatToString(1) == "-1";
      Success(text)
    else
      Failure(YearNotInteger(year))
  }

  /** The text after the last dash of a year label. */
  function AfterLastDash(text: string): (r: string)
    ensures '-' !in r
    decreases |text|
  {
    if text == [] || text[|text| - 1] == '-' then []
    else AfterLastDash(text[..|text| - 1]) + [text[|text| - 1]]
  }

  lemma {:induction false} AfterLastDashOf(p: string, y: string)
    requires '-' !in y
    ensures AfterLastDash(p + "-" + y) == y
    decreases |y|
  {
    var l := p + "-" + y;
    if y == [] {
      assert l[|l| - 1] == '-';
    } else {
      var y' := y[..|y| - 1];
      assert l[..|l| - 1] == p + "-" + y';
      assert y == y' + [y[|y| - 1]];
      AfterLastDashOf(p, y');
    }
  }

  /** The partner of `FallbackLabel`: the year string is read back from the
      fallback label as the text after its last dash, so different years
      never share a fallback label. */
  lemma {:induction false} FallbackLabelRecoversYear(year: string)
    requires IsIntegerText(year)
    ensures AfterLastDash(FallbackLabel(year).value) == year
  {
    assert '-' !in year by {
      assert forall k :: 0 <= k < |year| ==> year[k] != '-';
    }
    AfterLastDashOf(IntToString(DigitsValue(year) - 1), year);
  }

  /** The year label: the header at the fixed index when the page has any
      header at all, otherwise the fallback label. */
  function Label(headers: seq<string>, i: nat, fallback: string): string
    requires Readable(headers, i)
  {
    if headers == [] then fallback else headers[i]
  }

  /** The scraper's last clean-up: an empty or single-space text becomes "0". */
  function ZeroIfBlank(t: string): (r: string)
    ensures r != "" && r != " "
    ensures t == "" || t == " " ==> r == "0"
    ensures t != "" && t != " " ==> r == t
  {
    if t == "" || t == " " then "0" else t
  }

  /** The value of a quantity row: commas are deleted from the data cell but
      surrounding white space is kept; a cell that is exactly one space, a
      cell left empty by the comma removal and a page without data cells all
      give "0". */
  function QuantityText(cells: seq<string>): (r: string)
    requires Readable(cells, 4)
    ensures ',' !in r && r != "" && r != " "
    ensures cells == [] || cells[4] == " " ==> r == "0"
    ensures cells != [] && cells[4] != " " ==>
      var t := RemoveCommas(cells[4]);
      (t in {"", " "} && r == "0") || (t !in {"", " "} && r == t)
  {
    if cells == [] then "0"
    else if cells[4] == " " then "0"
    else ZeroIfBlank(RemoveCommas(cells[4]))
  }

  /** The value of a value row: commas are deleted from the data cell and
      the result is stripped of surrounding white space; a blank result or a
      page without data cells gives "0". */
  function ValueText(cells: seq<string>): (r: string)
    requires Readable(cells, 3)
    ensures ',' !in r && r != "" && Trimmed(r)
    ensures cells == [] ==> r == "0"
    ensures cells != [] ==>
      var t := Strip(RemoveCommas(cells[3]));
      (t == [] && r == "0") || (t != [] && r == t)
  {
    if cells == [] then "0"
    else
      var t := Strip(RemoveCommas(cells[3]));
      assert ',' !in t by {
        var i, j :| 0 <= i <= j <= |RemoveCommas(cells[3])| && t == RemoveCommas(cells[3])[i..j];
      }
      ZeroIfBlank(t)
  }

  /** The row built from one result page for `year` and `code`.

      The year is parsed first (`int(year) - 1`). Quantity pages then read
      the header list and afterwards the data list; value pages read the
      data list first. A non-empty list shorter than the fixed index raises
      `IndexError`. The label is the header at the fixed index when there is
      any header, else the fallback label; the code is the requested code. */
  function ExtractRow(axis: Axis, year: string, code: string, page: Page): (r: Result<Row, ExtractError>)
    ensures r.Success? <==>
      IsIntegerText(year) && Readable(page.headers, FieldIndex(axis)) && Readable(page.cells, FieldIndex(axis))
    ensures !IsIntegerText(year) ==> r == Failure(YearNotInteger(year))
    ensures IsIntegerText(year) && axis == Quantity && !Readable(page.headers, 4) ==>
      r == Failure(HeaderIndexError(4))
    ensures IsIntegerText(year) && axis == Quantity && Readable(page.headers, 4) && !Readable(page.cells, 4) ==>
      r == Failure(CellIndexError(4))
    ensures IsIntegerText(year) && axis == Value && !Readable(page.cells, 3) ==>
      r == Failure(CellIndexError(3))
    ensures IsIntegerText(year) && axis == Value && Readable(page.cells, 3) && !Readable(page.headers, 3) ==>
      r == Failure(HeaderIndexError(3))
    ensures r.Success? ==> r.value.code == code
    ensures r.Success? && page.headers == [] ==> r.value.year == FallbackLabel(year).value
    ensures r.Success? && page.headers != [] ==> r.value.year == page.headers[FieldIndex(axis)]
    ensures r.Success? ==> ',' !in r.value.value && r.value.value != "" && r.value.value != " "
    ensures r.Success? && page.cells == [] ==> r.value.value == "0"
    ensures r.Success? && axis == Quantity ==> r.value.value == QuantityText(page.cells)
    ensures r.Success? && axis == Value ==> r.value.value == ValueText(page.cells)
  {
    var i := FieldIndex(axis);
    match FallbackLabel(year)
    case Failure(e) => Failure(e)
    case Success(fallback) =>
      match axis
      case Quantity =>
        if !Readable(page.headers, i) then Failure(HeaderIndexError(i))
        else if !Readable(page.cells, i) then Failure(CellIndexError(i))
        else Success(Row(Label(page.headers, i, fallback), code, QuantityText(page.cells)))
      case Value =>
        if !Readable(page.cells, i) then Failure(CellIndexError(i))
        else if !Readable(page.headers, i) then Failure(HeaderIndexError(i))
        else Success(Row(Label(page.headers, i, fallback), code, ValueText(page.cells)))
  }

  /** Year "2023" with no header on the page is labelled "2022-2023": the
      whole year string follows the dash, not its last two digits. */
  lemma {:induction false} FallbackLabelExample()
    ensures FallbackLabel("2023") == Success("2022-2023")
  {
    var y := "2023";
    Year2023Value();
    assert NatToString(2022) == "2022";
    assert FallbackLabel(y).value == IntToString(2022) + "-" + y;
    assert "2022" + "-" + y == "2022-2023";
  }

  lemma {:induction false} Year2023Value()
    ensures IsIntegerText("2023") && DigitsValue("2023") == 2023
  {
    var y := "2023";
    assert y[..3] == "202" && y[..3][..2] == "20" && y[..3][..2][..1] == "2";
    assert "2"[..0] == "";
    assert DigitsValue("2") == 2;
    assert DigitsValue("20") == 20;
    assert DigitsValue("202") == 202;
  }

  /** Year "0" has the year before it printed as "-1". */
  lemma {:induction false} FallbackLabelZero()
    ensures FallbackLabel("0") == Success("-1-0")
  {
    var z := "0";
    assert IsIntegerText(z) && z[..0] == "" && DigitsValue(z) == 0;
    assert IntToString(-1) == "-1";
    assert FallbackLabel(z).value == IntToString(-1) + "-" + z;
    assert "-1" + "-" + z == "-1-0";
  }

  /** Text made of digits and thousands separators only. */
  predicate IsGroupedNumeral(t: string) {
    (exists k :: 0 <= k < |t| && IsDigit(t[k])) && forall k :: 0 <= k < |t| ==> IsDigit(t[k]) || t[k] == ','
  }

  /** Deleting the separators of a grouped numeral leaves a non-empty digit
      string. */
  lemma {:induction false} GroupedNumeralDigits(t: string)
    requires IsGroupedNumeral(t)
    ensures IsIntegerText(RemoveCommas(t))
  {
    var r := RemoveCommas(t);
    var k :| 0 <= k < |t| && IsDigit(t[k]);
    assert multiset(t)[t[k]] > 0;
    assert t[k] in r;
    forall i | 0 <= i < |r| ensures IsDigit(r[i]) {
      assert multiset(r)[r[i]] > 0;
      assert r[i] in t;
    }
  }

  /** A value cell holding a grouped numeral padded with white space yields
      exactly the digits: separators removed and padding stripped. */
  lemma {:induction false} ValueCellDigits(cells: seq<string>, a: string, t: string, b: string)
    requires |cells| > 3 && cells[3] == a + t + b
    requires AllSpace(a) && AllSpace(b) && IsGroupedNumeral(t)
    ensures ValueText(cells) == RemoveCommas(t)
    ensures IsIntegerText(ValueText(cells))
  {
    SpaceHasNoComma(a);
    SpaceHasNoComma(b);
    RemoveCommasAppend(a + t, b);
    RemoveCommasAppend(a, t);
    GroupedNumeralDigits(t);
    StripPadded(a, RemoveCommas(t), b);
  }

  /** A quantity cell keeps its white-space padding: only the separators are
      removed, so a padded numeral reaches `float` still padded. */
  lemma {:induction false} QuantityCellKeepsPadding(cells: seq<string>, a: string, t: string)
    requires |cells| > 4 && cells[4] == a + t
    requires AllSpace(a) && IsGroupedNumeral(t)
    ensures QuantityText(cells) == a + RemoveCommas(t)
  {
    SpaceHasNoComma(a);
    RemoveCommasAppend(a, t);
    GroupedNumeralDigits(t);
    var k :| 0 <= k < |t| && IsDigit(t[k]);
    assert IsDigit(cells[4][|a| + k]);
  }

  lemma {:induction false} SpaceHasNoComma(a: string)
    requires AllSpace(a)
    ensures RemoveCommas(a) == a
  {
    assert forall k :: 0 <= k < |a| ==> a[k] != ',';
    RemoveCommasNoComma(a);
  }
}
