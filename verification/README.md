# TradeLens scraper core in Dafny

TradeLens fetches Indian commodity import and export statistics from the
tradestat portal. `TradeDataScraper` in `import_export_scraper/scraper.py`
drives the portal's query form with Selenium, once per requested year. It
reads the result table and builds up to four series: import quantity,
export quantity, import value and export value. Then it outer-joins them on
`(Year, HS_Code)` and fills missing cells with zero.

This project models the logic of that class once the browser is replaced by
its output. For each metric, the input is the sequence of rendered pages,
one per requested year. A page is the list of `th` texts and the list of
`td` texts. Modules:

- `Results` (`results.dfy`): `Option`, `Result`, and `AllOk`, which runs
  steps in order until the first failure, the way an exception leaves a
  Python loop.
- `Text` (`text.dfy`): Python's `replace(',', '')`, `strip()`, `int()` on a
  digit string and `str()` of an integer.
- `Extract` (`extract.dfy`): one page becomes one row `(label, code,
  value)`. This covers the fallback label `str(int(year)-1)+'-'+year`, the
  header override at index 4 (quantity) or 3 (value), cell clean-up, the
  zero defaults, and the `IndexError`/`ValueError` cases.
- `Series` (`series.dfy`): one row per year, in order, under one named value
  column. It also has the year list the front end builds.
- `Merge` (`merge.dfy`): the chain of `pd.merge(..., how='outer')` followed
  by `fillna(0)`. The table is a map from key to one cell per value column.
  A direct definition of the outer merge serves as the reference, and the
  chain is proved equal to it.
- `Trade` (`trade.dfy`): `get_trade_data`. It picks the series from the
  code's length, collects them and merges them.

A row's value is the text the scraper hands to `float`: the cleaned cell,
or `"0"` wherever the source falls back to `0`/`'0'`. The zero that
`fillna` writes is the same `"0"`.

Three facts about the code that the model keeps:

- The fallback label is `str(int(year) - 1) + '-' + year`
  (`import_export_scraper/scraper.py:87-89`, `:220-222`). The whole year
  follows the dash, so year "2023" gives `"2022-2023"`. The front end's
  caption calls the same period "FY 2022 - 23" (`app.py:17`); the label
  does not use that short form.
- `get_trade_data` and the per-year loops have no `try`/`except`
  (`import_export_scraper/scraper.py:19-46`, `:57-106`). The first
  exception raised for a year ends the whole scrape.
- The front end only checks that the code is non-empty (`app.py:24`). The
  code's length chooses which series are scraped
  (`import_export_scraper/scraper.py:25`). Each scraping method also selects
  that length in the code-length drop-down (`:71`, `:134`, `:203`, `:268`).
  The model leaves that selection to the browser (see "## Left out").

## Model

| member | source | states |
|---|---|---|
| `Results.AllOk` | import_export_scraper/scraper.py:57-106 | Steps run in order. The result succeeds exactly when every step succeeds, and then holds each step's value in order. Otherwise it is the error of the first failing step, and all earlier steps succeeded. |
| `Text.RemoveCommas` | import_export_scraper/scraper.py:98 | `replace(',', '')`: no comma is left, and every other character keeps its count. |
| `Text.RemoveCommasAppend` | import_export_scraper/scraper.py:163 | Comma removal distributes over concatenation, so the order of the kept characters is preserved. |
| `Text.RemoveCommasNoComma` | import_export_scraper/scraper.py:226 | Text without commas is unchanged. |
| `Text.Strip` | import_export_scraper/scraper.py:291 | `strip()`: the result has no white space at either end. It is a slice of the input with only white space on both sides, and it is empty exactly when the input is all white space. |
| `Text.StripPadded` | import_export_scraper/scraper.py:226 | Stripping a trimmed text padded with white space gives the text back. |
| `Text.CanonicalUnique` | import_export_scraper/scraper.py:87-89 | Two numerals without leading zeros that have the same value are the same string. A value therefore has one spelling, the one `str()` prints. |
| `Text.NatToString` | import_export_scraper/scraper.py:87-89 | `str(n)` for `n >= 0` is a digit string with no leading zero (unless it is "0") that reads back as `n`. |
| `Text.IntToString` | import_export_scraper/scraper.py:151-153 | `str(n)` is the numeral of `n` without leading zeros, after a minus sign when `n` is negative. It reads back as `n`. |
| `Text.FourDigitNumeral` | app.py:12-13 | The years the front end allows print as four digits. |
| `Extract.FallbackLabel` | import_export_scraper/scraper.py:220-222 | The label succeeds exactly for a non-empty digit string; otherwise `int()` raises. A good label is the numeral of the year before, without leading zeros ("-1" for year 0), then a dash, then the full year string. |
| `Extract.FallbackLabelExample` | import_export_scraper/scraper.py:285-287 | Year "2023" gets the label "2022-2023". |
| `Extract.FallbackLabelZero` | import_export_scraper/scraper.py:87-89 | Year "0" gets the label "-1-0", since the year before is printed with its sign. |
| `Extract.FallbackLabelRecoversYear` | import_export_scraper/scraper.py:151-153 | The year string is exactly the text after the label's last dash, so different years never share a fallback label. |
| `Extract.ZeroIfBlank` | import_export_scraper/scraper.py:100-101 | An empty or single-space text becomes "0". Any other text is unchanged. |
| `Extract.QuantityText` | import_export_scraper/scraper.py:96-101 | Quantity value: no cells, or cell 4 exactly " ", gives "0". Otherwise commas are removed and white space is kept. A result of "" or " " becomes "0". |
| `Extract.ValueText` | import_export_scraper/scraper.py:225-232 | Value value: no cells gives "0". Otherwise cell 3 has its commas removed and is stripped. A blank result becomes "0". The result is never blank and has no white space at either end. |
| `Extract.GroupedNumeralDigits` | import_export_scraper/scraper.py:291 | Removing the separators from a grouped numeral such as "1,234" leaves a non-empty digit string. |
| `Extract.ValueCellDigits` | import_export_scraper/scraper.py:290-291 | A value cell holding a padded grouped numeral yields exactly its digits. |
| `Extract.QuantityCellKeepsPadding` | import_export_scraper/scraper.py:161-163 | A quantity cell holding a padded grouped numeral keeps its padding. Only the separators go. |
| `Extract.ExtractRow` | import_export_scraper/scraper.py:85-105 | Row construction succeeds exactly when the year is an integer text and each non-empty list (headers, data cells) reaches the fixed index: 4 for quantity, 3 for value. The error order follows the code: `int(year)` first; then headers before cells on quantity pages, cells before headers on value pages. On success, the code is the input code. The label is the fallback label when there are no headers, else the header at the fixed index. The value is the cleaned cell, never blank and comma-free, and "0" when there are no cells. |
| `Series.ColumnNamesDistinct` | import_export_scraper/scraper.py:112 | The four series name four different columns. |
| `Series.CollectRows` | import_export_scraper/scraper.py:57-106 | One row per requested year, in request order, each the row extracted from that year's page, all carrying the input code. Collection fails exactly when some year fails, and then with the first failing year's error. |
| `Series.CollectSeries` | import_export_scraper/scraper.py:184-242 | A series has exactly one value column, named after its metric, and holds the collected rows. It fails exactly when the rows fail. |
| `Series.YearRange` | app.py:33 | The front end's year list has `to - from + 1` entries (none when `to < from`). Entry `i` is the canonical numeral `str(from + i)`: digits, no leading zero, reading back as `from + i`. |
| `Series.YearRangeFourDigits` | app.py:12-13 | With four-digit bounds, every requested year string has four characters. |
| `Series.HeaderlessLabelsDistinct` | import_export_scraper/scraper.py:87-94 | On pages with no headers, rows for different years get different labels. |
| `Series.HeaderlessYearRangeLabels` | app.py:33 | Over the front end's year list, headerless pages give every row of a series its own label. |
| `Merge.IndexKeys` | import_export_scraper/scraper.py:34 | A series as a keyed table has exactly the `(Year, HS_Code)` keys of its rows. |
| `Merge.IndexLastWins` | import_export_scraper/scraper.py:34-36 | When two rows share a key, the later row's value is kept. |
| `Merge.IndexOfDistinctKeys` | import_export_scraper/scraper.py:34-36 | With distinct keys, every row's value is found under its key. |
| `Merge.Join` | import_export_scraper/scraper.py:34 | One outer join keeps the keys of both sides and the columns of both sides in order. Each cell is the side's value, or missing where that side lacks the key. |
| `Merge.JoinExtends` | import_export_scraper/scraper.py:35-36 | Joining one more series onto the join of some series gives the join of the longer list. |
| `Merge.JoinAll` | import_export_scraper/scraper.py:34-36 | The chain of joins has one column per series in order, the keys found in some series, and under each key each series' value or a missing cell. |
| `Merge.FillMissing` | import_export_scraper/scraper.py:37 | `fillna(0)` keeps the keys and columns and puts "0" in every missing cell. |
| `Merge.AllKeys` | import_export_scraper/scraper.py:34-36 | The keys of an outer merge are exactly the keys found in at least one series. |
| `Merge.OuterMerge` | import_export_scraper/scraper.py:34-37 | The reference definition of the merged table. It has exactly the keys found in some series and one column per series in order. Each cell is that series' value for the key, or "0" when the series lacks the key. |
| `Merge.FilledJoin` | import_export_scraper/scraper.py:37 | Filling the missing cells of any frame that is the outer join of the series gives the reference merged table. |
| `Merge.FilledCell` | import_export_scraper/scraper.py:37 | After `fillna(0)`, a cell of the joined frame is the series' value for the key, or "0" when the series lacks it. |
| `Merge.MergeChain` | import_export_scraper/scraper.py:34-37 | The chain of outer joins followed by `fillna(0)` equals the reference merged table. |
| `Merge.MergedKeys` | import_export_scraper/scraper.py:44 | A key is in the merged table exactly when some row of some series has it. No key is lost and none is invented. |
| `Merge.MergedCodes` | import_export_scraper/scraper.py:34-37 | When every row of every series carries one code, every key of the merged table has that code. |
| `Merge.MergedCellOfRow` | import_export_scraper/scraper.py:44-45 | In a series with distinct keys, each row appears in the merged table with its own value in its series' column. |
| `Merge.EmptySeriesZeros` | import_export_scraper/scraper.py:45 | A series with no rows gives a column of zeros. |
| `Trade.MetricsFor` | import_export_scraper/scraper.py:25-43 | The value metrics are always chosen. The quantity metrics are chosen exactly when the code is longer than four characters. No metric is chosen twice. |
| `Trade.CollectAll` | import_export_scraper/scraper.py:27-30 | The chosen series are collected in order. The scrape fails exactly when one fails, with the first failure's error. |
| `Trade.GetTradeData` | import_export_scraper/scraper.py:19-46 | The result succeeds exactly when every chosen series is collected. It is the outer merge of those series, or the first failure. |
| `Trade.TradeDataColumnNames` | import_export_scraper/scraper.py:25-46 | The merged table has one value column per chosen metric, named after it, in scraping order. |
| `Trade.ColumnsForCode` | import_export_scraper/scraper.py:25-30 | The column lists for the two code-length cases, written out. |
| `Trade.TradeDataColumns` | import_export_scraper/scraper.py:19-46 | Codes longer than four characters give Import_Qty, Export_Qty, Import_$, Export_$. Other codes give only Import_$ and Export_$, with no quantity columns. |
| `Trade.CollectedRow` | import_export_scraper/scraper.py:27-28 | Row `j` of the `i`-th collected series is the row extracted from that metric's `j`-th page, and every series has one row per year. |
| `Trade.TradeDataKeys` | import_export_scraper/scraper.py:34-37 | The merged table's keys are exactly the keys of the collected rows. |
| `Trade.CollectedCode` | import_export_scraper/scraper.py:234 | Every collected row carries the requested code. |
| `Trade.TradeDataCode` | import_export_scraper/scraper.py:299 | Every key of the merged table has the requested code. |

## Left out

- Selenium is not modelled: driver and Chrome setup, `driver.get` of the import and export URLs, `find_element`, the year and code-length drop-downs, the radio buttons, clicks, back navigation and `close`. These are foreign browser calls. The rendered page is an input instead, given per metric as one page per requested year.
- A year or code length missing from a drop-down is not modelled. Selenium raises for it, so it belongs to the browser.
- `time.sleep` is left out. It only affects timing.
- `float(...)` is left out: it is floating point and Python library behaviour. A row's value is the text handed to `float`, so a `ValueError` from a non-numeric cell is not modelled. Neither is a "nan" cell, which `float` turns into NaN and `fillna` then turns into 0.
- pandas' row order after `pd.merge` is not modelled; the table is a map keyed by `(Year, HS_Code)`.
- `Merge.IndexLastWins`: pandas repeats a key that occurs twice in one series (a cartesian product of the matching rows). The model keeps the later row instead. `Merge.MergedCellOfRow` is stated for series with distinct keys, which is where both agree.
- `Extract.FallbackLabel`: Python's `int()` also accepts surrounding white space, a sign, underscores and non-ASCII digits. The model accepts only non-empty ASCII digit strings and raises `YearNotInteger` on everything else. The front end only passes `str(i)` of integers.
- The Streamlit front end (`app.py`) is not modelled: sidebar inputs, spinner, warnings and table display. Only its year-list construction is modelled, as `Series.YearRange`.
