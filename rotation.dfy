/**
 * The rotation-grid parser of the on-call application (`parseOncallAOA`):
 * it finds the Start and End rows, builds the list of weekly columns, makes
 * the weeks contiguous by rewriting their ends in place, and classifies the
 * market rows, including the second (New Jersey) row of the merged
 * "New York/New Jersey" market.
 */
module Rotation {
  import opened Wrappers
  import opened Strings
  import opened Cells
  import opened Markets

  // ---------------------------------------------------------------------
  // findRowIndexContains

  /** A text cell whose lower-cased text contains `n` */
  predicate CellContains(v: Cell, n: string)
  {
    v.Text? && Contains(Lower(v.s), n)
  }

  predicate RowContains(row: Row, n: string)
  {
    exists c | 0 <= c < |row| :: CellContains(row[c], n)
  }

  /** The first row, from `from` on, that has a cell containing `n`; -1 when there is none */
  function FirstRowFrom(g: Grid, n: string, from: nat): (r: int)
    ensures r == -1 || from <= r < |g|
    decreases |g| - from
  {
    if from >= |g| then -1
    else if RowContains(g[from], n) then from
    else FirstRowFrom(g, n, from + 1)
  }

  lemma {:induction false} FirstRowFromSpec(g: Grid, n: string, from: nat)
    ensures var r := FirstRowFrom(g, n, from);
      (r == -1 || from <= r < |g|)
      && (r >= 0 ==> RowContains(g[r], n))
      && (forall k :: from <= k < |g| && (r == -1 || k < r) ==> !RowContains(g[k], n))
    decreases |g| - from
  {
    if from < |g| && !RowContains(g[from], n) {
      FirstRowFromSpec(g, n, from + 1);
    }
  }

  /** `findRowIndexContains(aoa, needle)`: the index of the first row holding a matching text cell */
  method FindRowIndexContains(g: Grid, needle: string) returns (r: int)
    ensures r == FirstRowFrom(g, Lower(needle), 0)
  {
    var n := Lower(needle);
    var i := 0;
    while i < |g|
      invariant 0 <= i <= |g|
      invariant FirstRowFrom(g, n, i) == FirstRowFrom(g, n, 0)
    {
      var row := g[i];
      var c := 0;
      while c < |row|
        invariant 0 <= c <= |row|
        invariant forall k :: 0 <= k < c ==> !CellContains(row[k], n)
      {
        if row[c].Text? && Contains(Lower(row[c].s), n) {
          return i;
        }
        c := c + 1;
      }
      i := i + 1;
    }
    return -1;
  }

  /** The least row containing the needle, or -1 exactly when no row contains it */
  lemma FindRowSpec(g: Grid, n: string)
    ensures var r := FirstRowFrom(g, n, 0);
      -1 <= r < |g|
      && (r == -1 <==> forall k :: 0 <= k < |g| ==> !RowContains(g[k], n))
      && (r >= 0 ==> RowContains(g[r], n) && forall k :: 0 <= k < r ==> !RowContains(g[k], n))
  {
    FirstRowFromSpec(g, n, 0);
  }

  // ---------------------------------------------------------------------
  // Weeks

  /** `parseExcelDate` as the parser of the Start and End cells */
  function DateParser(generic: string -> Option<int>): Cell -> Option<int>
  {
    v => ParseExcelDate(v, generic)
  }

  /** A weekly column: its index and its first and last day */
  datatype Week = Week(col: nat, start: int, end: int)

  /** The first column, from `c` on, whose Start cell parses as a date */
  function FirstDateCol(row: Row, c: nat, parse: Cell -> Option<int>): Option<nat>
    decreases |row| - c
  {
    if c >= |row| then None
    else if parse(row[c]).Some? then Some(c)
    else FirstDateCol(row, c + 1, parse)
  }

  lemma {:induction false} FirstDateColSpec(row: Row, c: nat, parse: Cell -> Option<int>)
    ensures var f := FirstDateCol(row, c, parse);
      (f.None? <==> forall k :: c <= k < |row| ==> parse(row[k]).None?)
      && (f.Some? ==> c <= f.value < |row| && parse(row[f.value]).Some?
                      && forall k :: c <= k < f.value ==> parse(row[k]).None?)
    decreases |row| - c
  {
    if c < |row| && parse(row[c]).None? {
      FirstDateColSpec(row, c + 1, parse);
    }
  }

  /** The columns from `c` on whose Start and End cells both parse, as weeks */
  function RawWeeks(startRow: Row, endRow: Row, c: nat, parse: Cell -> Option<int>): seq<Week>
    decreases |startRow| - c
  {
    if c >= |startRow| then []
    else
      var s := parse(startRow[c]);
      var e := parse(Get(endRow, c));
      (if s.Some? && e.Some? then [Week(c, s.value, e.value)] else []) + RawWeeks(startRow, endRow, c + 1, parse)
  }

  /** A week read from column `w.col` of the Start and End rows */
  predicate WeekOfColumn(startRow: Row, endRow: Row, w: Week, parse: Cell -> Option<int>)
  {
    w.col < |startRow|
    && parse(startRow[w.col]) == Some(w.start)
    && parse(Get(endRow, w.col)) == Some(w.end)
  }

  /** One step of `RawWeeks` */
  lemma RawWeeksStep(startRow: Row, endRow: Row, c: nat, parse: Cell -> Option<int>)
    requires c < |startRow|
    ensures var s, e := parse(startRow[c]), parse(Get(endRow, c));
      RawWeeks(startRow, endRow, c, parse)
      == (if s.Some? && e.Some? then [Week(c, s.value, e.value)] else []) + RawWeeks(startRow, endRow, c + 1, parse)
  {
  }

  lemma {:induction false} RawWeeksCols(startRow: Row, endRow: Row, c: nat, parse: Cell -> Option<int>)
    ensures var ws := RawWeeks(startRow, endRow, c, parse);
      forall i :: 0 <= i < |ws| ==> c <= ws[i].col && WeekOfColumn(startRow, endRow, ws[i], parse)
    decreases |startRow| - c
  {
    if c < |startRow| {
      RawWeeksStep(startRow, endRow, c, parse);
      RawWeeksCols(startRow, endRow, c + 1, parse);
      var ws := RawWeeks(startRow, endRow, c, parse);
      var rest := RawWeeks(startRow, endRow, c + 1, parse);
      if |ws| != |rest| {
        assert ws[1..] == rest;
      }
    }
  }

  lemma {:induction false} RawWeeksOrder(startRow: Row, endRow: Row, c: nat, parse: Cell -> Option<int>)
    ensures var ws := RawWeeks(startRow, endRow, c, parse);
      (forall i :: 0 <= i < |ws| ==> c <= ws[i].col)
      && (forall i, j :: 0 <= i < j < |ws| ==> ws[i].col < ws[j].col)
    decreases |startRow| - c
  {
    if c < |startRow| {
      RawWeeksStep(startRow, endRow, c, parse);
      RawWeeksOrder(startRow, endRow, c + 1, parse);
      var ws := RawWeeks(startRow, endRow, c, parse);
      var rest := RawWeeks(startRow, endRow, c + 1, parse);
      if |ws| != |rest| {
        assert ws[1..] == rest;
      }
    }
  }

  lemma {:induction false} RawWeeksComplete(startRow: Row, endRow: Row, c: nat, parse: Cell -> Option<int>)
    ensures var ws := RawWeeks(startRow, endRow, c, parse);
      forall k :: c <= k < |startRow| && parse(startRow[k]).Some? && parse(Get(endRow, k)).Some? ==>
        exists i :: 0 <= i < |ws| && ws[i].col == k
    decreases |startRow| - c
  {
    if c < |startRow| {
      RawWeeksStep(startRow, endRow, c, parse);
      RawWeeksComplete(startRow, endRow, c + 1, parse);
      var ws := RawWeeks(startRow, endRow, c, parse);
      var rest := RawWeeks(startRow, endRow, c + 1, parse);
      forall k | c <= k < |startRow| && parse(startRow[k]).Some? && parse(Get(endRow, k)).Some?
        ensures exists i :: 0 <= i < |ws| && ws[i].col == k
      {
        if k == c {
          assert ws[0].col == k;
        } else {
          var i :| 0 <= i < |rest| && rest[i].col == k;
          if |ws| == |rest| {
            assert ws[i].col == k;
          } else {
            assert ws[1..] == rest;
            assert ws[i + 1].col == k;
          }
        }
      }
    }
  }

  /** Columns before the first date column never give a week */
  lemma {:induction false} RawWeeksSkip(startRow: Row, endRow: Row, c: nat, parse: Cell -> Option<int>)
    requires FirstDateCol(startRow, c, parse).Some?
    ensures RawWeeks(startRow, endRow, c, parse)
         == RawWeeks(startRow, endRow, FirstDateCol(startRow, c, parse).value, parse)
    decreases |startRow| - c
  {
    if parse(startRow[c]).None? {
      RawWeeksSkip(startRow, endRow, c + 1, parse);
    }
  }

  /** Every week but the last ends the day before the next one starts */
  function Contiguous(ws: seq<Week>): seq<Week>
  {
    seq(|ws|, i requires 0 <= i < |ws| => if i + 1 < |ws| then ws[i].(end := ws[i + 1].start - 1) else ws[i])
  }

  /** `Contiguous` keeps every week's column and start, and changes only the ends */
  lemma ContiguousShape(ws: seq<Week>)
    ensures var cs := Contiguous(ws);
      |cs| == |ws|
      && (forall i :: 0 <= i < |ws| ==> cs[i].col == ws[i].col && cs[i].start == ws[i].start)
      && (forall i :: 0 <= i < |ws| - 1 ==> cs[i].end == cs[i + 1].start - 1)
      && (|ws| > 0 ==> cs[|ws| - 1] == ws[|ws| - 1])
  {
  }

  // ---------------------------------------------------------------------
  // Market rows

  /** `normalizeZip(row[0]) || normalizeZip(row[1])` */
  function RowZip(row: Row): (z: Option<string>)
    ensures z.Some? ==> |z.value| == 5 && AllDigits(z.value)
  {
    var a := NormalizeZip(Get(row, 0));
    if a.Some? then a else NormalizeZip(Get(row, 1))
  }

  /** The row's first-week cell is neither '' nor null */
  predicate HasSample(row: Row, col: nat)
  {
    var v := Get(row, col);
    !(v == Empty || v == Text(""))
  }

  /**
   * What the market loop reads from one row: its ZIP, whether its first-week
   * cell is filled, and for a ZIP row the display name, whether that name is
   * the merged New York/New Jersey market, and the market info.
   */
  datatype RowFacts = RowFacts(zip: Option<string>, sample: bool, name: string, merged: bool, info: string)

  /** The facts of one row */
  function RowFactsOf(row: Row, col0: nat, firstCol: nat, info: (Row, string, nat) -> string): RowFacts
  {
    var z := RowZip(row);
    var name := if z.Some? then DisplayName(z.value) else "";
    RowFacts(z, HasSample(row, col0), name, z.Some? && IsNyNj(name),
             if z.Some? then info(row, z.value, firstCol) else "")
  }

  /** The facts of every row; `info` stands for `extractMarketInfoFromRow` */
  function FactsOf(g: Grid, col0: nat, firstCol: nat, info: (Row, string, nat) -> string): (fs: seq<RowFacts>)
    ensures |fs| == |g|
  {
    if g == [] then [] else FactsOf(g[..|g| - 1], col0, firstCol, info) + [RowFactsOf(g[|g| - 1], col0, firstCol, info)]
  }

  lemma {:induction false} FactsOfAt(g: Grid, col0: nat, firstCol: nat, info: (Row, string, nat) -> string, r: nat)
    requires r < |g|
    ensures FactsOf(g, col0, firstCol, info)[r] == RowFactsOf(g[r], col0, firstCol, info)
  {
    if r < |g| - 1 {
      FactsOfAt(g[..|g| - 1], col0, firstCol, info, r);
    } else if |g| > 1 {
      FactsOfAt(g[..|g| - 1], col0, firstCol, info, 0);
    }
  }

  /** The market of a ZIP row with a first-week cell */
  function ZipRowMarket(r: nat, f: RowFacts): Market
    requires f.zip.Some?
  {
    if f.merged then Market(r, f.zip.value, f.name, f.info, Some("NY"), Some(0))
    else Market(r, f.zip.value, f.name, f.info, None, None)
  }

  /** The New Jersey row that follows the merged market `p` */
  function NjRowMarket(r: nat, p: Market): Market
  {
    Market(r, p.centerZip, p.displayName, p.info, Some("NJ"), Some(1))
  }

  /** The markets of rows `r..` given the previous market row `last` */
  function MarketsFrom(fs: seq<RowFacts>, r: nat, last: Option<Market>): seq<Market>
    decreases |fs| - r
  {
    if r >= |fs| then []
    else if fs[r].zip.Some? then
      if !fs[r].sample then MarketsFrom(fs, r + 1, None)
      else var m := ZipRowMarket(r, fs[r]); [m] + MarketsFrom(fs, r + 1, Some(m))
    else if last.Some? && r == last.value.row + 1 && fs[r].sample && last.value.subIndex == Some(0) then
      [NjRowMarket(r, last.value)] + MarketsFrom(fs, r + 1, last)
    else MarketsFrom(fs, r + 1, last)
  }

  /** A market read from its own row: a ZIP in column 0 or 1 and a first-week cell */
  predicate ZipMarket(fs: seq<RowFacts>, m: Market)
  {
    m.row < |fs| && fs[m.row].zip.Some? && fs[m.row].sample && m == ZipRowMarket(m.row, fs[m.row])
  }

  /** The New Jersey half of the merged market: a ZIP-less row with a first-week cell */
  predicate NjMarket(fs: seq<RowFacts>, m: Market)
  {
    m.row < |fs| && fs[m.row].zip.None? && fs[m.row].sample && m.stateHint == Some("NJ") && m.subIndex == Some(1)
  }

  /** What `last` may be: a market read from an earlier row */
  predicate LastOk(fs: seq<RowFacts>, r: nat, last: Option<Market>)
  {
    last.Some? ==> last.value.row < r && ZipMarket(fs, last.value)
  }

  /** The condition under which row `r` is the New Jersey row of the market `last` */
  predicate NjFollows(fs: seq<RowFacts>, r: nat, last: Option<Market>)
    requires r < |fs|
  {
    fs[r].zip.None? && last.Some? && r == last.value.row + 1 && fs[r].sample && last.value.subIndex == Some(0)
  }

  /** One step of `MarketsFrom`: what row `r` adds and which `last` the next row sees */
  lemma MarketsFromStep(fs: seq<RowFacts>, r: nat, last: Option<Market>)
    requires r < |fs|
    ensures fs[r].zip.Some? && !fs[r].sample ==> MarketsFrom(fs, r, last) == MarketsFrom(fs, r + 1, None)
    ensures fs[r].zip.Some? && fs[r].sample ==>
      MarketsFrom(fs, r, last) == [ZipRowMarket(r, fs[r])] + MarketsFrom(fs, r + 1, Some(ZipRowMarket(r, fs[r])))
    ensures NjFollows(fs, r, last) ==>
      MarketsFrom(fs, r, last) == [NjRowMarket(r, last.value)] + MarketsFrom(fs, r + 1, last)
    ensures fs[r].zip.None? && !NjFollows(fs, r, last) ==> MarketsFrom(fs, r, last) == MarketsFrom(fs, r + 1, last)
  {
  }

  lemma {:induction false} MarketsFromKinds(fs: seq<RowFacts>, r: nat, last: Option<Market>)
    requires LastOk(fs, r, last)
    ensures var ms := MarketsFrom(fs, r, last);
      forall j :: 0 <= j < |ms| ==> r <= ms[j].row && (ZipMarket(fs, ms[j]) || NjMarket(fs, ms[j]))
    decreases |fs| - r
  {
    if r < |fs| {
      MarketsFromStep(fs, r, last);
      var next := if fs[r].zip.Some? then (if fs[r].sample then Some(ZipRowMarket(r, fs[r])) else None) else last;
      MarketsFromKinds(fs, r + 1, next);
      var ms := MarketsFrom(fs, r, last);
      if |ms| != |MarketsFrom(fs, r + 1, next)| {
        assert ms[1..] == MarketsFrom(fs, r + 1, next);
        assert ZipMarket(fs, ms[0]) || NjMarket(fs, ms[0]);
      }
    }
  }

  lemma {:induction false} MarketsFromOrder(fs: seq<RowFacts>, r: nat, last: Option<Market>)
    ensures var ms := MarketsFrom(fs, r, last);
      (forall j :: 0 <= j < |ms| ==> r <= ms[j].row)
      && (forall i, j :: 0 <= i < j < |ms| ==> ms[i].row < ms[j].row)
    decreases |fs| - r
  {
    if r < |fs| {
      MarketsFromStep(fs, r, last);
      var next := if fs[r].zip.Some? then (if fs[r].sample then Some(ZipRowMarket(r, fs[r])) else None) else last;
      MarketsFromOrder(fs, r + 1, next);
      var ms := MarketsFrom(fs, r, last);
      if |ms| != |MarketsFrom(fs, r + 1, next)| {
        assert ms[1..] == MarketsFrom(fs, r + 1, next);
      }
    }
  }

  /** `m` is the New Jersey row right after the New York/New Jersey market `p` */
  predicate Paired(p: Market, m: Market)
  {
    p.row + 1 == m.row && p.centerZip == m.centerZip && p.displayName == m.displayName
    && p.stateHint == Some("NY") && p.subIndex == Some(0)
  }

  lemma {:induction false} MarketsFromNj(fs: seq<RowFacts>, r: nat, last: Option<Market>)
    requires LastOk(fs, r, last)
    ensures var ms := MarketsFrom(fs, r, last);
      (forall j :: 0 < j < |ms| && ms[j].subIndex == Some(1) ==> Paired(ms[j - 1], ms[j]))
      && (|ms| > 0 && ms[0].subIndex == Some(1) ==> last.Some? && Paired(last.value, ms[0]))
    decreases |fs| - r
  {
    if r < |fs| {
      MarketsFromStep(fs, r, last);
      var ms := MarketsFrom(fs, r, last);
      if fs[r].zip.Some? && fs[r].sample {
        var m := ZipRowMarket(r, fs[r]);
        MarketsFromNj(fs, r + 1, Some(m));
        var rest := MarketsFrom(fs, r + 1, Some(m));
        assert ms == [m] + rest;
        forall j | 0 < j < |ms| && ms[j].subIndex == Some(1) ensures Paired(ms[j - 1], ms[j]) {
          assert ms[j] == rest[j - 1];
          if j > 1 {
            assert ms[j - 1] == rest[j - 2];
          }
        }
      } else if fs[r].zip.Some? {
        MarketsFromNj(fs, r + 1, None);
      } else if NjFollows(fs, r, last) {
        var p := last.value;
        MarketsFromNj(fs, r + 1, last);
        MarketsFromOrder(fs, r + 1, last);
        var rest := MarketsFrom(fs, r + 1, last);
        assert ms == [NjRowMarket(r, p)] + rest;
        assert Paired(p, ms[0]);
        forall j | 0 < j < |ms| && ms[j].subIndex == Some(1) ensures Paired(ms[j - 1], ms[j]) {
          assert ms[j] == rest[j - 1];
          assert j > 1;
          assert ms[j - 1] == rest[j - 2];
        }
      } else {
        MarketsFromNj(fs, r + 1, last);
      }
    }
  }

  lemma {:induction false} MarketsFromComplete(fs: seq<RowFacts>, r: nat, last: Option<Market>)
    ensures var ms := MarketsFrom(fs, r, last);
      forall k :: r <= k < |fs| && fs[k].zip.Some? && fs[k].sample ==>
        exists j :: 0 <= j < |ms| && ms[j].row == k
    decreases |fs| - r
  {
    if r < |fs| {
      MarketsFromStep(fs, r, last);
      var next := if fs[r].zip.Some? then (if fs[r].sample then Some(ZipRowMarket(r, fs[r])) else None) else last;
      MarketsFromComplete(fs, r + 1, next);
      var rest := MarketsFrom(fs, r + 1, next);
      var ms := MarketsFrom(fs, r, last);
      forall k | r <= k < |fs| && fs[k].zip.Some? && fs[k].sample
        ensures exists j :: 0 <= j < |ms| && ms[j].row == k
      {
        if k == r {
          assert ms[0].row == k;
        } else {
          var j :| 0 <= j < |rest| && rest[j].row == k;
          if |ms| == |rest| {
            assert ms[j].row == k;
          } else {
            assert ms[1..] == rest;
            assert ms[j + 1].row == k;
          }
        }
      }
    }
  }

  /** Row `k` has no ZIP and a first-week cell, and row `k - 1` is a merged-market ZIP row with one */
  predicate NjAfterMerged(fs: seq<RowFacts>, k: nat)
    requires 0 < k < |fs|
  {
    fs[k].zip.None? && fs[k].sample && fs[k - 1].zip.Some? && fs[k - 1].sample && fs[k - 1].merged
  }

  /** Every ZIP-less row with a first-week cell right after a New York/New Jersey market row is a market */
  lemma {:induction false} MarketsFromCompleteNj(fs: seq<RowFacts>, r: nat, last: Option<Market>)
    ensures var ms := MarketsFrom(fs, r, last);
      forall k :: r < k < |fs| && NjAfterMerged(fs, k) ==>
        exists j :: 0 <= j < |ms| && ms[j].row == k && ms[j].subIndex == Some(1)
    decreases |fs| - r
  {
    if r < |fs| {
      MarketsFromStep(fs, r, last);
      var next := if fs[r].zip.Some? then (if fs[r].sample then Some(ZipRowMarket(r, fs[r])) else None) else last;
      MarketsFromCompleteNj(fs, r + 1, next);
      var rest := MarketsFrom(fs, r + 1, next);
      var ms := MarketsFrom(fs, r, last);
      forall k | r < k < |fs| && NjAfterMerged(fs, k)
        ensures exists j :: 0 <= j < |ms| && ms[j].row == k && ms[j].subIndex == Some(1)
      {
        if k == r + 1 {
          var m := ZipRowMarket(r, fs[r]);
          assert NjFollows(fs, k, Some(m));
          MarketsFromStep(fs, k, Some(m));
          assert ms == [m] + rest;
          assert ms[1] == NjRowMarket(k, m);
        } else {
          var j :| 0 <= j < |rest| && rest[j].row == k && rest[j].subIndex == Some(1);
          if |ms| == |rest| {
            assert ms[j] == rest[j];
          } else {
            assert ms[1..] == rest;
            assert ms[j + 1] == rest[j];
          }
        }
      }
    }
  }

  // ---------------------------------------------------------------------
  // parseOncallAOA

  datatype Meta = Meta(weeks: seq<Week>, markets: seq<Market>)

  /** The errors `parseOncallAOA` throws */
  datatype OncallError = NoStartEnd | NoDateColumns | NoWeeks | NoMarkets

  /** The rows whose cells mention "Start" and "End" (in any case), when both exist */
  function StartEndRows(g: Grid): Option<(nat, nat)>
  {
    var sr := FirstRowFrom(g, Lower("Start"), 0);
    var er := FirstRowFrom(g, Lower("End"), 0);
    if sr < 0 || er < 0 then None else Some((sr, er))
  }

  /**
   * The first half of `parseOncallAOA`: the first date column of the Start
   * row and the weeks read from there on, before their ends are made
   * contiguous, or the error thrown on the way.
   */
  function WeeksOf(g: Grid, parse: Cell -> Option<int>): Result<(nat, seq<Week>), OncallError>
  {
    var rows := StartEndRows(g);
    if rows.None? then Err(NoStartEnd)
    else
      var startRow, endRow := g[rows.value.0], g[rows.value.1];
      var fc := FirstDateCol(startRow, 0, parse);
      if fc.None? then Err(NoDateColumns)
      else
        var raw := RawWeeks(startRow, endRow, fc.value, parse);
        if raw == [] then Err(NoWeeks) else Ok((fc.value, raw))
  }

  /**
   * What `parseOncallAOA` returns or throws for a cleaned grid; `parse` is
   * `parseExcelDate` (`DateParser(generic)`) and `info` stands for
   * `extractMarketInfoFromRow`.
   */
  function OncallOf(g: Grid, parse: Cell -> Option<int>, info: (Row, string, nat) -> string): Result<Meta, OncallError>
  {
    var w := WeeksOf(g, parse);
    if w.Err? then Err(w.error)
    else
      var (fc, raw) := w.value;
      var ms := MarketsFrom(FactsOf(g, raw[0].col, fc, info), 0, None);
      if ms == [] then Err(NoMarkets) else Ok(Meta(Contiguous(raw), ms))
  }

  /** The first column of the Start row that parses as a date, or -1 */
  method FindFirstDateCol(startRow: Row, parse: Cell -> Option<int>) returns (fc: int)
    ensures fc >= -1
    ensures fc == -1 <==> FirstDateCol(startRow, 0, parse).None?
    ensures fc >= 0 ==> FirstDateCol(startRow, 0, parse) == Some(fc)
  {
    var c := 0;
    while c < |startRow|
      invariant 0 <= c <= |startRow|
      invariant FirstDateCol(startRow, c, parse) == FirstDateCol(startRow, 0, parse)
    {
      if parse(startRow[c]).Some? {
        return c;
      }
      c := c + 1;
    }
    return -1;
  }

  /** The weeks of the columns from `fc` on, in column order */
  method CollectWeeks(startRow: Row, endRow: Row, fc: nat, parse: Cell -> Option<int>) returns (weeks: seq<Week>)
    ensures weeks == RawWeeks(startRow, endRow, fc, parse)
  {
    weeks := [];
    var c := fc;
    while c < |startRow|
      invariant fc <= c
      invariant weeks + RawWeeks(startRow, endRow, c, parse) == RawWeeks(startRow, endRow, fc, parse)
      decreases |startRow| - c
    {
      var s := parse(startRow[c]);
      var e := parse(Get(endRow, c));
      ghost var rest := RawWeeks(startRow, endRow, c + 1, parse);
      if s.Some? && e.Some? {
        assert RawWeeks(startRow, endRow, c, parse) == [Week(c, s.value, e.value)] + rest;
        assert weeks + ([Week(c, s.value, e.value)] + rest) == (weeks + [Week(c, s.value, e.value)]) + rest;
        weeks := weeks + [Week(c, s.value, e.value)];
      } else {
        assert RawWeeks(startRow, endRow, c, parse) == rest;
      }
      c := c + 1;
    }
  }

  /** Sets each week's end, but the last one's, to the day before the next week starts */
  method MakeContiguous(a: array<Week>)
    modifies a
    ensures a[..] == Contiguous(old(a[..]))
  {
    var i := 0;
    while i < a.Length - 1
      invariant 0 <= i <= a.Length
      invariant a.Length > 0 ==> i <= a.Length - 1
      invariant forall k :: 0 <= k < i ==> a[k] == old(a[k]).(end := old(a[k + 1]).start - 1)
      invariant forall k :: i <= k < a.Length ==> a[k] == old(a[k])
    {
      a[i] := a[i].(end := a[i + 1].start - 1);
      i := i + 1;
    }
  }

  /** A ZIP row's facts say it is merged exactly when its display name is the New York/New Jersey one */
  predicate MergedByName(f: RowFacts)
  {
    f.zip.Some? ==> (f.merged <==> IsNyNj(f.name))
  }

  /** What the market loop reads from row `r` */
  method ReadRow(g: Grid, r: nat, col0: nat, fc: nat, info: (Row, string, nat) -> string) returns (f: RowFacts)
    requires r < |g|
    ensures f == FactsOf(g, col0, fc, info)[r] && MergedByName(f)
  {
    FactsOfAt(g, col0, fc, info, r);
    var row := g[r];
    var z := RowZip(row);
    var has := HasSample(row, col0);
    if z.Some? {
      var name := DisplayName(z.value);
      f := RowFacts(z, has, name, IsNyNj(name), info(row, z.value, fc));
    } else {
      f := RowFacts(None, has, "", false, "");
    }
  }

  /** A remembered market is flagged New York exactly when its name is the merged one */
  predicate FlaggedByName(last: Option<Market>)
  {
    last.Some? ==> (last.value.subIndex == Some(0) <==> IsNyNj(last.value.displayName))
  }

  /** One turn of the market loop: the market row `r` adds, if any, and the market remembered after it */
  method MarketOfRow(ghost fs: seq<RowFacts>, r: nat, f: RowFacts, last: Option<Market>)
    returns (added: Option<Market>, next: Option<Market>)
    requires r < |fs| && f == fs[r] && MergedByName(f) && FlaggedByName(last)
    ensures FlaggedByName(next)
    ensures MarketsFrom(fs, r, last) == (if added.Some? then [added.value] else []) + MarketsFrom(fs, r + 1, next)
  {
    MarketsFromStep(fs, r, last);
    added, next := None, last;
    if f.zip.Some? {
      if !f.sample {
        next := None;
      } else {
        var m := Market(r, f.zip.value, f.name, f.info, None, None);
        if f.merged {
          m := m.(stateHint := Some("NY"), subIndex := Some(0));
        }
        assert m == ZipRowMarket(r, f);
        added, next := Some(m), Some(m);
      }
    } else if last.Some? && r == last.value.row + 1 && f.sample {
      var p := last.value;
      if IsNyNj(p.displayName) {
        assert NjFollows(fs, r, last);
        added := Some(NjRowMarket(r, p));
      }
    }
  }

  /** The market loop of `parseOncallAOA`, which remembers the last market row */
  method CollectMarkets(g: Grid, col0: nat, fc: nat, info: (Row, string, nat) -> string) returns (markets: seq<Market>)
    ensures markets == MarketsFrom(FactsOf(g, col0, fc, info), 0, None)
  {
    ghost var fs := FactsOf(g, col0, fc, info);
    markets := [];
    var last: Option<Market> := None;
    var r := 0;
    while r < |g|
      invariant 0 <= r <= |g|
      invariant markets + MarketsFrom(fs, r, last) == MarketsFrom(fs, 0, None)
      invariant FlaggedByName(last)
    {
      var f := ReadRow(g, r, col0, fc, info);
      var added, next := MarketOfRow(fs, r, f, last);
      ghost var rest := MarketsFrom(fs, r + 1, next);
      if added.Some? {
        assert MarketsFrom(fs, r, last) == [added.value] + rest;
        assert markets + ([added.value] + rest) == (markets + [added.value]) + rest;
        markets := markets + [added.value];
      } else {
        assert [] + rest == rest;
      }
      last := next;
      r := r + 1;
    }
  }

  /** `parseOncallAOA(aoa)` on a cleaned grid, with `parse` for `parseExcelDate` */
  method ParseOncall(g: Grid, parse: Cell -> Option<int>, info: (Row, string, nat) -> string)
    returns (res: Result<Meta, OncallError>)
    ensures res == OncallOf(g, parse, info)
  {
    var sr := FindRowIndexContains(g, "Start");
    var er := FindRowIndexContains(g, "End");
    if sr < 0 || er < 0 {
      return Err(NoStartEnd);
    }
    assert StartEndRows(g) == Some((sr, er));
    var startRow, endRow := g[sr], g[er];
    var firstDateCol := FindFirstDateCol(startRow, parse);
    if firstDateCol < 0 {
      return Err(NoDateColumns);
    }
    var weeks := CollectWeeks(startRow, endRow, firstDateCol, parse);
    if weeks == [] {
      return Err(NoWeeks);
    }
    var a := new Week[|weeks|](i requires 0 <= i < |weeks| => weeks[i]);
    assert a[..] == weeks;
    MakeContiguous(a);
    var markets := CollectMarkets(g, weeks[0].col, firstDateCol, info);
    if markets == [] {
      return Err(NoMarkets);
    }
    res := Ok(Meta(a[..], markets));
  }

  // ---------------------------------------------------------------------
  // Properties

  /** The Start and End rows are the first rows that mention them, and are missing exactly when no row does */
  lemma StartEndRowsSpec(g: Grid)
    ensures StartEndRows(g).None? <==>
      (forall k :: 0 <= k < |g| ==> !RowContains(g[k], Lower("Start")))
      || (forall k :: 0 <= k < |g| ==> !RowContains(g[k], Lower("End")))
    ensures StartEndRows(g).Some? ==>
      var (sr, er) := StartEndRows(g).value;
      sr < |g| && er < |g| && RowContains(g[sr], Lower("Start")) && RowContains(g[er], Lower("End"))
      && (forall k :: 0 <= k < sr ==> !RowContains(g[k], Lower("Start")))
      && (forall k :: 0 <= k < er ==> !RowContains(g[k], Lower("End")))
  {
    FindRowSpec(g, Lower("Start"));
    FindRowSpec(g, Lower("End"));
  }

  /** What `WeeksOf` finds when it succeeds: the weeks of the Start and End rows, scanned from column 0 */
  lemma WeeksOfOk(g: Grid, parse: Cell -> Option<int>)
    requires WeeksOf(g, parse).Ok?
    ensures StartEndRows(g).Some?
    ensures var startRow, endRow := g[StartEndRows(g).value.0], g[StartEndRows(g).value.1];
      FirstDateCol(startRow, 0, parse) == Some(WeeksOf(g, parse).value.0)
      && WeeksOf(g, parse).value.1 == RawWeeks(startRow, endRow, 0, parse) != []
  {
    var rows := StartEndRows(g);
    var startRow, endRow := g[rows.value.0], g[rows.value.1];
    RawWeeksSkip(startRow, endRow, 0, parse);
  }

  /** The date-column and week failures, each exactly when its condition holds */
  lemma OncallErrors(g: Grid, parse: Cell -> Option<int>, info: (Row, string, nat) -> string)
    ensures OncallOf(g, parse, info) == Err(NoStartEnd) <==> StartEndRows(g).None?
    ensures StartEndRows(g).Some? ==>
      var startRow, endRow := g[StartEndRows(g).value.0], g[StartEndRows(g).value.1];
      (OncallOf(g, parse, info) == Err(NoDateColumns) <==>
         forall k :: 0 <= k < |startRow| ==> parse(startRow[k]).None?)
      && (OncallOf(g, parse, info) == Err(NoWeeks) <==>
         (exists k :: 0 <= k < |startRow| && parse(startRow[k]).Some?)
         && forall k :: 0 <= k < |startRow| ==> parse(startRow[k]).None? || parse(Get(endRow, k)).None?)
    ensures OncallOf(g, parse, info) == Err(NoMarkets) <==>
      WeeksOf(g, parse).Ok? && !SampledZipRow(g, FirstWeekCol(WeeksOf(g, parse).value.1))
  {
    OncallErrOfWeeks(g, parse, info);
    var rows := StartEndRows(g);
    if rows.Some? {
      RowErrors(g[rows.value.0], g[rows.value.1], parse);
    }
    OncallNoMarkets(g, parse, info);
  }

  /** The column of the first week, where the market loop looks for a sample */
  function FirstWeekCol(raw: seq<Week>): nat
  {
    if raw == [] then 0 else raw[0].col
  }

  /** Some row has a ZIP and a first-week cell */
  predicate SampledZipRow(g: Grid, col0: nat)
  {
    exists k :: 0 <= k < |g| && RowZip(g[k]).Some? && HasSample(g[k], col0)
  }

  /** `No markets found.` is thrown exactly when the weeks parse but no ZIP row has a first-week cell */
  lemma OncallNoMarkets(g: Grid, parse: Cell -> Option<int>, info: (Row, string, nat) -> string)
    ensures OncallOf(g, parse, info) == Err(NoMarkets) <==>
      WeeksOf(g, parse).Ok? && !SampledZipRow(g, FirstWeekCol(WeeksOf(g, parse).value.1))
  {
    var w := WeeksOf(g, parse);
    if w.Ok? {
      var fc, raw := w.value.0, w.value.1;
      var col0 := raw[0].col;
      var ms := MarketsFrom(FactsOf(g, col0, fc, info), 0, None);
      MarketsOfRows(g, col0, fc, info, ms);
      if ms != [] {
        assert MarketOfZipRow(g, ms[0], col0);
      }
    }
  }

  /** The errors before the markets are those of `WeeksOf` */
  lemma OncallErrOfWeeks(g: Grid, parse: Cell -> Option<int>, info: (Row, string, nat) -> string)
    ensures forall e :: e != NoMarkets ==> (OncallOf(g, parse, info) == Err(e) <==> WeeksOf(g, parse) == Err(e))
    ensures WeeksOf(g, parse) == Err(NoStartEnd) <==> StartEndRows(g).None?
    ensures StartEndRows(g).Some? ==>
      var startRow, endRow := g[StartEndRows(g).value.0], g[StartEndRows(g).value.1];
      var fc := FirstDateCol(startRow, 0, parse);
      (WeeksOf(g, parse) == Err(NoDateColumns) <==> fc.None?)
      && (WeeksOf(g, parse) == Err(NoWeeks) <==> fc.Some? && RawWeeks(startRow, endRow, fc.value, parse) == [])
  {
  }

  /** The date-column and week failures of one Start and End row pair */
  lemma RowErrors(startRow: Row, endRow: Row, parse: Cell -> Option<int>)
    ensures var fc := FirstDateCol(startRow, 0, parse);
      (fc.None? <==> forall k :: 0 <= k < |startRow| ==> parse(startRow[k]).None?)
      && (fc.Some? && RawWeeks(startRow, endRow, fc.value, parse) == [] <==>
         (exists k :: 0 <= k < |startRow| && parse(startRow[k]).Some?)
         && forall k :: 0 <= k < |startRow| ==> parse(startRow[k]).None? || parse(Get(endRow, k)).None?)
  {
    FirstDateColSpec(startRow, 0, parse);
    var fc := FirstDateCol(startRow, 0, parse);
    if fc.Some? {
      RawWeeksSkip(startRow, endRow, 0, parse);
      RawWeeksCols(startRow, endRow, 0, parse);
      RawWeeksComplete(startRow, endRow, 0, parse);
      var raw := RawWeeks(startRow, endRow, 0, parse);
      if raw != [] {
        assert WeekOfColumn(startRow, endRow, raw[0], parse);
      }
    }
  }

  /**
   * The weeks of a Start and End row pair: each comes from a column where
   * both cells parse, every such column is a week, the columns are in order,
   * and every week but the last ends the day before the next one starts; the
   * last keeps its parsed End date.
   */
  lemma ContiguousWeeks(startRow: Row, endRow: Row, parse: Cell -> Option<int>)
    requires RawWeeks(startRow, endRow, 0, parse) != []
    ensures var ws := Contiguous(RawWeeks(startRow, endRow, 0, parse));
      |ws| > 0
      && (forall i :: 0 <= i < |ws| ==> ws[i].col < |startRow| && parse(startRow[ws[i].col]) == Some(ws[i].start))
      && (forall i, j :: 0 <= i < j < |ws| ==> ws[i].col < ws[j].col)
      && (forall k :: 0 <= k < |startRow| && parse(startRow[k]).Some? && parse(Get(endRow, k)).Some? ==>
            exists i :: 0 <= i < |ws| && ws[i].col == k)
      && (forall i :: 0 <= i < |ws| - 1 ==> ws[i].end == ws[i + 1].start - 1)
      && parse(Get(endRow, ws[|ws| - 1].col)) == Some(ws[|ws| - 1].end)
  {
    RawWeeksCols(startRow, endRow, 0, parse);
    RawWeeksOrder(startRow, endRow, 0, parse);
    RawWeeksComplete(startRow, endRow, 0, parse);
    ContiguousOfRaw(startRow, endRow, parse, RawWeeks(startRow, endRow, 0, parse));
  }

  /** `ContiguousWeeks` for any weeks read from the columns of the rows */
  lemma ContiguousOfRaw(startRow: Row, endRow: Row, parse: Cell -> Option<int>, raw: seq<Week>)
    requires raw != []
    requires forall i :: 0 <= i < |raw| ==> WeekOfColumn(startRow, endRow, raw[i], parse)
    requires forall i, j :: 0 <= i < j < |raw| ==> raw[i].col < raw[j].col
    requires forall k :: 0 <= k < |startRow| && parse(startRow[k]).Some? && parse(Get(endRow, k)).Some? ==>
      exists i :: 0 <= i < |raw| && raw[i].col == k
    ensures var ws := Contiguous(raw);
      |ws| > 0
      && (forall i :: 0 <= i < |ws| ==> ws[i].col < |startRow| && parse(startRow[ws[i].col]) == Some(ws[i].start))
      && (forall i, j :: 0 <= i < j < |ws| ==> ws[i].col < ws[j].col)
      && (forall k :: 0 <= k < |startRow| && parse(startRow[k]).Some? && parse(Get(endRow, k)).Some? ==>
            exists i :: 0 <= i < |ws| && ws[i].col == k)
      && (forall i :: 0 <= i < |ws| - 1 ==> ws[i].end == ws[i + 1].start - 1)
      && parse(Get(endRow, ws[|ws| - 1].col)) == Some(ws[|ws| - 1].end)
  {
    ContiguousShape(raw);
    var ws := Contiguous(raw);
    assert WeekOfColumn(startRow, endRow, raw[|raw| - 1], parse);
    forall i | 0 <= i < |ws|
      ensures ws[i].col < |startRow| && parse(startRow[ws[i].col]) == Some(ws[i].start)
    {
      assert WeekOfColumn(startRow, endRow, raw[i], parse);
    }
    forall k | 0 <= k < |startRow| && parse(startRow[k]).Some? && parse(Get(endRow, k)).Some?
      ensures exists i :: 0 <= i < |ws| && ws[i].col == k
    {
      var i :| 0 <= i < |raw| && raw[i].col == k;
      assert ws[i].col == k;
    }
  }

  /** The weeks of a parsed grid are those of its Start and End rows, made contiguous */
  lemma OncallWeeks(g: Grid, parse: Cell -> Option<int>, info: (Row, string, nat) -> string)
    requires OncallOf(g, parse, info).Ok?
    ensures StartEndRows(g).Some?
    ensures var startRow, endRow := g[StartEndRows(g).value.0], g[StartEndRows(g).value.1];
      RawWeeks(startRow, endRow, 0, parse) != []
      && OncallOf(g, parse, info).value.weeks == Contiguous(RawWeeks(startRow, endRow, 0, parse))
  {
    WeeksOfOk(g, parse);
  }

  /** A market read from its own row: a ZIP in column 0 or 1 and a first-week cell */
  predicate MarketOfZipRow(g: Grid, m: Market, col0: nat)
  {
    m.row < |g| && RowZip(g[m.row]) == Some(m.centerZip) && HasSample(g[m.row], col0)
    && m.displayName == DisplayName(m.centerZip)
    && (if IsNyNj(m.displayName) then m.stateHint == Some("NY") && m.subIndex == Some(0)
        else m.stateHint.None? && m.subIndex.None?)
  }

  /** The New Jersey half of the merged market: a ZIP-less row with a first-week cell */
  predicate MarketOfNjRow(g: Grid, m: Market, col0: nat)
  {
    m.row < |g| && RowZip(g[m.row]).None? && HasSample(g[m.row], col0)
    && m.stateHint == Some("NJ") && m.subIndex == Some(1)
  }

  /**
   * The markets of a parsed grid: each is a ZIP row with a first-week cell or
   * the New Jersey row right after a New York/New Jersey row, in row order;
   * every ZIP row with a first-week cell is a market, and so is every such
   * New Jersey row.
   */
  lemma OncallMarkets(g: Grid, parse: Cell -> Option<int>, info: (Row, string, nat) -> string)
    requires OncallOf(g, parse, info).Ok?
    ensures var meta := OncallOf(g, parse, info).value;
      var ms := meta.markets;
      var col0 := meta.weeks[0].col;
      |ms| > 0
      && (forall j :: 0 <= j < |ms| ==> MarketOfZipRow(g, ms[j], col0) || MarketOfNjRow(g, ms[j], col0))
      && (forall i, j :: 0 <= i < j < |ms| ==> ms[i].row < ms[j].row)
      && (forall j :: 0 <= j < |ms| && ms[j].subIndex == Some(1) ==> j > 0 && Paired(ms[j - 1], ms[j]))
      && (forall k :: 0 <= k < |g| && RowZip(g[k]).Some? && HasSample(g[k], col0) ==>
            exists j :: 0 <= j < |ms| && ms[j].row == k)
      && (forall k :: 0 < k < |g| && NjRowAfterNyNj(g, k, col0) ==>
            exists j :: 0 <= j < |ms| && ms[j].row == k && ms[j].subIndex == Some(1))
  {
    var (fc, raw) := WeeksOf(g, parse).value;
    var meta := OncallOf(g, parse, info).value;
    assert meta == Meta(Contiguous(raw), MarketsFrom(FactsOf(g, raw[0].col, fc, info), 0, None));
    assert Contiguous(raw)[0].col == raw[0].col;
    MarketsOfRows(g, meta.weeks[0].col, fc, info, meta.markets);
    MarketsOfNjRows(g, meta.weeks[0].col, fc, info, meta.markets);
  }

  /** Row `k` has no ZIP and a first-week cell, and row `k - 1` is a New York/New Jersey ZIP row with one */
  predicate NjRowAfterNyNj(g: Grid, k: nat, col0: nat)
    requires 0 < k < |g|
  {
    RowZip(g[k]).None? && HasSample(g[k], col0) && RowZip(g[k - 1]).Some? && HasSample(g[k - 1], col0)
    && IsNyNj(DisplayName(RowZip(g[k - 1]).value))
  }

  /** The converse for New Jersey rows: each one after a New York/New Jersey row is the second half of a market */
  lemma MarketsOfNjRows(g: Grid, col0: nat, fc: nat, info: (Row, string, nat) -> string, ms: seq<Market>)
    requires ms == MarketsFrom(FactsOf(g, col0, fc, info), 0, None)
    ensures forall k :: 0 < k < |g| && NjRowAfterNyNj(g, k, col0) ==>
      exists j :: 0 <= j < |ms| && ms[j].row == k && ms[j].subIndex == Some(1)
  {
    var fs := FactsOf(g, col0, fc, info);
    MarketsFromCompleteNj(fs, 0, None);
    forall k | 0 < k < |g| && NjRowAfterNyNj(g, k, col0)
      ensures exists j :: 0 <= j < |ms| && ms[j].row == k && ms[j].subIndex == Some(1)
    {
      FactsOfNj(g, col0, fc, info, k);
    }
  }

  lemma FactsOfNj(g: Grid, col0: nat, fc: nat, info: (Row, string, nat) -> string, k: nat)
    requires 0 < k < |g| && NjRowAfterNyNj(g, k, col0)
    ensures NjAfterMerged(FactsOf(g, col0, fc, info), k)
  {
    var fs := FactsOf(g, col0, fc, info);
    FactsOfAt(g, col0, fc, info, k);
    FactsOfAt(g, col0, fc, info, k - 1);
    var z := RowZip(g[k - 1]);
    assert fs[k - 1].zip == z && fs[k - 1].name == DisplayName(z.value);
    assert fs[k - 1].merged;
  }

  /** The same four properties of the market loop's result, for any first-week column */
  lemma MarketsOfRows(g: Grid, col0: nat, fc: nat, info: (Row, string, nat) -> string, ms: seq<Market>)
    requires ms == MarketsFrom(FactsOf(g, col0, fc, info), 0, None)
    ensures (forall j :: 0 <= j < |ms| ==> MarketOfZipRow(g, ms[j], col0) || MarketOfNjRow(g, ms[j], col0))
      && (forall i, j :: 0 <= i < j < |ms| ==> ms[i].row < ms[j].row)
      && (forall j :: 0 <= j < |ms| && ms[j].subIndex == Some(1) ==> j > 0 && Paired(ms[j - 1], ms[j]))
      && (forall k :: 0 <= k < |g| && RowZip(g[k]).Some? && HasSample(g[k], col0) ==>
            exists j :: 0 <= j < |ms| && ms[j].row == k)
  {
    var fs := FactsOf(g, col0, fc, info);
    MarketsFromKinds(fs, 0, None);
    MarketsFromOrder(fs, 0, None);
    MarketsFromNj(fs, 0, None);
    MarketsFromComplete(fs, 0, None);
    forall j | 0 <= j < |ms| ensures MarketOfZipRow(g, ms[j], col0) || MarketOfNjRow(g, ms[j], col0) {
      FactsOfAt(g, col0, fc, info, ms[j].row);
      if ZipMarket(fs, ms[j]) {
        assert MarketOfZipRow(g, ms[j], col0);
      }
    }
    forall k | 0 <= k < |g| && RowZip(g[k]).Some? && HasSample(g[k], col0)
      ensures exists j :: 0 <= j < |ms| && ms[j].row == k
    {
      FactsOfAt(g, col0, fc, info, k);
    }
  }
}
