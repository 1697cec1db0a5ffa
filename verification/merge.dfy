/** The merge in `get_trade_data`: successive outer joins of the series on
    `(Year, HS_Code)` followed by `fillna(0)`. A data frame is modelled as a
    map from its key to the cells of its value columns; pandas' row order is
    not modelled. */
module Merge {
  import opened Results
  import opened Extract
  import opened Series

  /** The join key `(Year, HS_Code)`. */
  datatype Key = Key(year: string, code: string)

  function KeyOf(row: Row): Key {
    Key(row.year, row.code)
  }

  /** The value of the zero default `fillna(0)` writes, in the form of a
      cell text (`float("0") == 0.0`). */
  const Zero: string := "0"

  /** A series as a keyed table. When two rows share a key the later one
      wins (pandas would instead repeat the key; see README). */
  function Index(rows: seq<Row>): map<Key, string>
    decreases |rows|
  {
    if rows == [] then map[]
    else
      var n := |rows| - 1;
      Index(rows[..n])[KeyOf(rows[n]) := rows[n].value]
  }

  /** Whether some row of `rows` has key `k`. */
  predicate HasKey(rows: seq<Row>, k: Key) {
    exists i :: 0 <= i < |rows| && KeyOf(rows[i]) == k
  }

  /** The keyed table has exactly the keys of the rows. */
  lemma {:induction false} IndexKeys(rows: seq<Row>, k: Key)
    ensures k in Index(rows) <==> HasKey(rows, k)
    decreases |rows|
  {
    if rows != [] {
      var n := |rows| - 1;
      var prefix := rows[..n];
      IndexKeys(prefix, k);
      if HasKey(prefix, k) {
        var i :| 0 <= i < |prefix| && KeyOf(prefix[i]) == k;
        assert KeyOf(rows[i]) == k;
      }
      if HasKey(rows, k) && KeyOf(rows[n]) != k {
        var i :| 0 <= i < |rows| && KeyOf(rows[i]) == k;
        assert KeyOf(prefix[i]) == k;
      }
    }
  }

  /** Last row wins: the value under a key is that of the last row with the
      key. */
  lemma {:induction false} IndexLastWins(rows: seq<Row>, i: nat)
    requires i < |rows|
    requires forall j :: i < j < |rows| ==> KeyOf(rows[j]) != KeyOf(rows[i])
    ensures KeyOf(rows[i]) in Index(rows)
    ensures Index(rows)[KeyOf(rows[i])] == rows[i].value
    decreases |rows|
  {
    var n := |rows| - 1;
    if i < n {
      var prefix := rows[..n];
      assert prefix[i] == rows[i];
      forall j | i < j < |prefix| ensures KeyOf(prefix[j]) != KeyOf(prefix[i]) {
        assert prefix[j] == rows[j];
      }
      IndexLastWins(prefix, i);
    }
  }

  /** When no two rows share a key, every row's value is found under its key. */
  lemma {:induction false} IndexOfDistinctKeys(rows: seq<Row>, i: nat)
    requires forall a, b :: 0 <= a < b < |rows| ==> KeyOf(rows[a]) != KeyOf(rows[b])
    requires i < |rows|
    ensures KeyOf(rows[i]) in Index(rows)
    ensures Index(rows)[KeyOf(rows[i])] == rows[i].value
  {
    IndexLastWins(rows, i);
  }

  /** The cell a series contributes under `k`, if it has that key. */
  function Lookup(s: SeriesTable, k: Key): Option<string> {
    var m := Index(s.rows);
    if k in m then Some(m[k]) else None
  }

  /** Whether some series among `ss` has a row with key `k`. */
  ghost predicate InSome(ss: seq<SeriesTable>, k: Key) {
    exists i {:trigger Index(ss[i].rows)} :: 0 <= i < |ss| && k in Index(ss[i].rows)
  }

  /** A data frame before `fillna`: a missing cell is `None` (pandas' NaN). */
  datatype Frame = Frame(columns: seq<string>, cells: map<Key, seq<Option<string>>>)

  predicate WellFormed(f: Frame) {
    forall k :: k in f.cells ==> |f.cells[k]| == |f.columns|
  }

  /** `pd.merge(f, s, on=['Year', 'HS_Code'], how='outer')`: the keys of
      both sides, the columns of `f` followed by the column of `s`, and a
      missing cell wherever a side lacks the key. */
  function Join(f: Frame, s: SeriesTable): (g: Frame)
    requires WellFormed(f)
    ensures WellFormed(g)
    ensures g.columns == f.columns + [s.column]
    ensures g.cells.Keys == f.cells.Keys + Index(s.rows).Keys
    ensures forall k :: k in g.cells ==> g.cells[k][|f.columns|] == Lookup(s, k)
    ensures forall k, i :: k in g.cells && 0 <= i < |f.columns| ==>
      g.cells[k][i] == if k in f.cells then f.cells[k][i] else None
  {
    var m := Index(s.rows);
    var missing: seq<Option<string>> := seq(|f.columns|, _ => None);
    Frame(f.columns + [s.column],
          map k | k in f.cells.Keys + m.Keys ::
            (if k in f.cells then f.cells[k] else missing) + [Lookup(s, k)])
  }

  /** `f` is the outer join of `ss`: one value column per series in order,
      the keys found in some series, and under each key each series' cell,
      missing where that series lacks the key. */
  ghost predicate Represents(f: Frame, ss: seq<SeriesTable>) {
    && WellFormed(f)
    && |f.columns| == |ss|
    && (forall i :: 0 <= i < |ss| ==> f.columns[i] == ss[i].column)
    && (forall k :: k in f.cells <==> InSome(ss, k))
    && (forall k, i {:trigger f.cells[k][i]} :: k in f.cells && 0 <= i < |ss| ==> f.cells[k][i] == Lookup(ss[i], k))
  }

  /** Joining one more series onto the join of `ss` gives the join of `ss`
      followed by that series. */
  lemma {:induction false} JoinExtends(f: Frame, ss: seq<SeriesTable>, s: SeriesTable)
    requires Represents(f, ss)
    ensures Represents(Join(f, s), ss + [s])
  {
    var ss' := ss + [s];
    assert forall i :: 0 <= i < |ss| ==> ss'[i] == ss[i];
    JoinExtendsKeys(f, ss, s);
    JoinExtendsCells(f, ss, s);
  }

  /** The keys of one more join are those found in the longer list. */
  lemma {:induction false} JoinExtendsKeys(f: Frame, ss: seq<SeriesTable>, s: SeriesTable)
    requires Represents(f, ss)
    ensures forall k :: k in Join(f, s).cells <==> InSome(ss + [s], k)
  {
    var g := Join(f, s);
    var ss' := ss + [s];
    var n := |ss|;
    forall k ensures k in g.cells <==> InSome(ss', k) {
      if InSome(ss', k) {
        var i :| 0 <= i < |ss'| && k in Index(ss'[i].rows);
        if i < n {
          assert ss'[i] == ss[i];
          assert k in Index(ss[i].rows);
        }
      }
      if k in f.cells {
        var i :| 0 <= i < |ss| && k in Index(ss[i].rows);
        assert ss'[i] == ss[i];
        assert k in Index(ss'[i].rows);
      }
      if k in Index(s.rows) {
        assert ss'[n] == s;
        assert k in Index(ss'[n].rows);
      }
    }
  }

  /** The cells of one more join are those of the longer list. */
  lemma {:induction false} JoinExtendsCells(f: Frame, ss: seq<SeriesTable>, s: SeriesTable)
    requires Represents(f, ss)
    ensures forall k, i {:trigger Join(f, s).cells[k][i]} :: k in Join(f, s).cells && 0 <= i < |ss| + 1 ==>
      Join(f, s).cells[k][i] == Lookup((ss + [s])[i], k)
  {
    var g := Join(f, s);
    var ss' := ss + [s];
    var n := |ss|;
    forall k, i | k in g.cells && 0 <= i < |ss'| ensures g.cells[k][i] == Lookup(ss'[i], k) {
      if i < n {
        assert ss'[i] == ss[i];
        if k !in f.cells {
          assert !InSome(ss, k);
          assert k !in Index(ss[i].rows);
        }
      } else {
        assert ss'[i] == s;
      }
    }
  }

  lemma {:induction false} JoinExtendsLast(f: Frame, ss: seq<SeriesTable>)
    requires |ss| > 0 && Represents(f, ss[..|ss| - 1])
    ensures Represents(Join(f, ss[|ss| - 1]), ss)
  {
    var n := |ss| - 1;
    JoinExtends(f, ss[..n], ss[n]);
    assert ss[..n] + [ss[n]] == ss;
  }

  /** The chain of outer joins, one series after another, starting from the
      frame with no rows and no value columns (joining that with the first
      series gives the first series back). */
  function JoinAll(ss: seq<SeriesTable>): (f: Frame)
    ensures Represents(f, ss)
    decreases |ss|
  {
    if ss == [] then Frame([], map[])
    else
      var n := |ss| - 1;
      var f := JoinAll(ss[..n]);
      JoinExtendsLast(f, ss);
      Join(f, ss[n])
  }

  /** The merged table: the key columns, the value columns in join order,
      and a cell for every value column of every row. */
  datatype TradeTable = TradeTable(columns: seq<string>, rows: map<Key, seq<string>>)

  /** `fillna(0)`: every missing cell becomes the zero default. */
  function FillMissing(f: Frame): (t: TradeTable)
    requires WellFormed(f)
    ensures t.columns == f.columns
    ensures t.rows.Keys == f.cells.Keys
    ensures forall k :: k in t.rows ==> |t.rows[k]| == |f.columns|
    ensures forall k, i :: k in t.rows && 0 <= i < |f.columns| ==>
      t.rows[k][i] == f.cells[k][i].GetOr(Zero)
  {
    TradeTable(f.columns,
               map k | k in f.cells ::
                 seq(|f.cells[k]|, i requires 0 <= i < |f.cells[k]| => f.cells[k][i].GetOr(Zero)))
  }

  /** The value a merged table should hold for series `s` under `k`: the
      series' value when it has that key, else the zero default. */
  function CellOrZero(s: SeriesTable, k: Key): string {
    var m := Index(s.rows);
    if k in m then m[k] else Zero
  }

  /** The keys found in some series. */
  function AllKeys(ss: seq<SeriesTable>): (ks: set<Key>)
    ensures forall k :: k in ks <==> InSome(ss, k)
    decreases |ss|
  {
    if ss == [] then {}
    else
      var n := |ss| - 1;
      var ks := AllKeys(ss[..n]) + Index(ss[n].rows).Keys;
      assert forall i :: 0 <= i < n ==> ss[..n][i] == ss[i];
      ks
  }

  /** The outer merge of all series with missing cells filled with zero,
      defined directly: one row for exactly the keys found in some series,
      one column per series in order, each cell the series' value for that
      key or zero. `MergeChain` shows that the chain of joins in
      `get_trade_data` computes it. */
  function OuterMerge(ss: seq<SeriesTable>): (t: TradeTable)
    ensures |t.columns| == |ss|
    ensures forall i {:trigger t.columns[i]} :: 0 <= i < |ss| ==> t.columns[i] == ss[i].column
    ensures forall k :: k in t.rows <==> InSome(ss, k)
    ensures forall k :: k in t.rows ==> |t.rows[k]| == |ss|
    ensures forall k, i {:trigger t.rows[k][i]} :: k in t.rows && 0 <= i < |ss| ==> t.rows[k][i] == CellOrZero(ss[i], k)
  {
    TradeTable(seq(|ss|, i requires 0 <= i < |ss| => ss[i].column),
               map k | k in AllKeys(ss) :: seq(|ss|, i requires 0 <= i < |ss| => CellOrZero(ss[i], k)))
  }

  /** The chain of `pd.merge(..., how='outer')` calls followed by
      `fillna(0)` gives the outer merge. */
  function MergeChain(ss: seq<SeriesTable>): (t: TradeTable)
    ensures t == OuterMerge(ss)
  {
    var f := JoinAll(ss);
    FilledJoin(f, ss);
    FillMissing(f)
  }

  /** Filling the missing cells of the join of `ss` gives the outer merge of
      `ss`. */
  lemma {:induction false} FilledJoin(f: Frame, ss: seq<SeriesTable>)
    requires Represents(f, ss)
    ensures FillMissing(f) == OuterMerge(ss)
  {
    FilledRows(f, ss);
    assert FillMissing(f).columns == OuterMerge(ss).columns;
  }

  /** The filled join and the outer merge have the same rows. */
  lemma {:induction false} FilledRows(f: Frame, ss: seq<SeriesTable>)
    requires Represents(f, ss)
    ensures FillMissing(f).rows == OuterMerge(ss).rows
  {
    var t := FillMissing(f).rows;
    var u := OuterMerge(ss).rows;
    assert t.Keys == u.Keys;
    forall k | k in t ensures t[k] == u[k] {
      FilledRow(f, ss, k);
    }
    SameMaps(t, u);
  }

  /** Cell by cell, a row of the filled join is the outer merge's row. */
  lemma {:induction false} FilledRow(f: Frame, ss: seq<SeriesTable>, k: Key)
    requires Represents(f, ss)
    requires k in FillMissing(f).rows
    ensures k in OuterMerge(ss).rows && FillMissing(f).rows[k] == OuterMerge(ss).rows[k]
  {
    var a := FillMissing(f).rows[k];
    var b := OuterMerge(ss).rows[k];
    forall i | 0 <= i < |ss| ensures a[i] == b[i] {
      FilledCell(f, ss, k, i);
    }
  }

  /** A cell of the filled join is the series' value, or zero where the
      series lacks the key. */
  lemma {:induction false} FilledCell(f: Frame, ss: seq<SeriesTable>, k: Key, i: nat)
    requires Represents(f, ss)
    requires k in f.cells && i < |ss|
    ensures FillMissing(f).rows[k][i] == CellOrZero(ss[i], k)
  {
    assert f.cells[k][i] == Lookup(ss[i], k);
  }

  /** Maps with the same keys and the same value under each key are equal. */
  lemma {:induction false} SameMaps(a: map<Key, seq<string>>, b: map<Key, seq<string>>)
    requires a.Keys == b.Keys
    requires forall k :: k in a ==> a[k] == b[k]
    ensures a == b
  {
  }

  /** The merged table has a row for a key exactly when some row of some
      series has that key: no key is lost and none is invented. */
  lemma {:induction false} MergedKeys(ss: seq<SeriesTable>, k: Key)
    ensures k in OuterMerge(ss).rows <==> exists i :: 0 <= i < |ss| && HasKey(ss[i].rows, k)
  {
    if k in OuterMerge(ss).rows {
      var i :| 0 <= i < |ss| && k in Index(ss[i].rows);
      IndexKeys(ss[i].rows, k);
    }
    if exists i :: 0 <= i < |ss| && HasKey(ss[i].rows, k) {
      var i :| 0 <= i < |ss| && HasKey(ss[i].rows, k);
      IndexKeys(ss[i].rows, k);
      assert InSome(ss, k);
    }
  }

  /** When every row of every series carries `code`, so does every key of
      the merged table. */
  lemma {:induction false} MergedCodes(ss: seq<SeriesTable>, code: string)
    requires forall i, j :: 0 <= i < |ss| && 0 <= j < |ss[i].rows| ==> ss[i].rows[j].code == code
    ensures forall k :: k in OuterMerge(ss).rows ==> k.code == code
  {
    forall k | k in OuterMerge(ss).rows ensures k.code == code {
      MergedKeys(ss, k);
      var i :| 0 <= i < |ss| && HasKey(ss[i].rows, k);
      var j :| 0 <= j < |ss[i].rows| && KeyOf(ss[i].rows[j]) == k;
    }
  }

  /** A row of a series whose keys are distinct appears in the merged table
      under its key, with its value in that series' column. */
  lemma {:induction false} MergedCellOfRow(ss: seq<SeriesTable>, i: nat, j: nat)
    requires i < |ss| && j < |ss[i].rows|
    requires forall a, b :: 0 <= a < b < |ss[i].rows| ==> KeyOf(ss[i].rows[a]) != KeyOf(ss[i].rows[b])
    ensures KeyOf(ss[i].rows[j]) in OuterMerge(ss).rows
    ensures OuterMerge(ss).rows[KeyOf(ss[i].rows[j])][i] == ss[i].rows[j].value
  {
    IndexOfDistinctKeys(ss[i].rows, j);
    assert InSome(ss, KeyOf(ss[i].rows[j]));
  }

  /** A series with no rows contributes a column of zeros to every row of
      the merged table. */
  lemma {:induction false} EmptySeriesZeros(ss: seq<SeriesTable>, i: nat, k: Key)
    requires i < |ss| && ss[i].rows == []
    requires k in OuterMerge(ss).rows
    ensures OuterMerge(ss).rows[k][i] == Zero
  {
    assert Index(ss[i].rows) == map[];
  }
}
