/**
 * `parseDailyAvailabilityAOA`: the simpler, month-by-month layout of the
 * availability sheet. A row whose first cell reads like "December 2024"
 * opens a month and lists its day columns (the odd columns holding a date
 * cell); every other row files, for each day column, the name in the column
 * after it together with the state code in the day column.
 */
module MonthSheet {
  import opened Wrappers
  import opened Strings
  import opened Calendar
  import opened Cells
  import opened Availability

  // ---------------------------------------------------------------------
  // Month names

  const MonthNames: seq<string> :=
    ["january", "february", "march", "april", "may", "june",
     "july", "august", "september", "october", "november", "december"]

  /** The position of `n` in `MonthNames` */
  function MonthIndexOf(n: string, i: nat): (r: Option<nat>)
    requires i <= 12
    ensures r.Some? ==> i <= r.value < 12 && MonthNames[r.value] == n
    ensures r.None? ==> forall k :: i <= k < 12 ==> MonthNames[k] != n
    decreases 12 - i
  {
    if i == 12 then None else if MonthNames[i] == n then Some(i) else MonthIndexOf(n, i + 1)
  }

  /**
   * `monthNameToIndex(name)`, as intended: the month number 0..11 of an
   * English month name in any case with white space around it, else null
   */
  function MonthNameToIndex(name: string): (r: Option<nat>)
    ensures r.Some? ==> r.value < 12 && MonthNames[r.value] == Lower(Trim(name))
    ensures r.None? ==> Lower(Trim(name)) !in MonthNames
  {
    MonthIndexOf(Lower(Trim(name)), 0)
  }

  lemma MonthNamesDistinct()
    ensures forall i, j :: 0 <= i < j < 12 ==> MonthNames[i] != MonthNames[j]
  {
    forall i, j | 0 <= i < j < 12
      ensures MonthNames[i] != MonthNames[j]
    {
      assert MonthNames[i][..2] != MonthNames[j][..2] || MonthNames[i][2..] != MonthNames[j][2..];
    }
  }

  /** Every month name, written as it is listed, reads back as its own number */
  lemma MonthNameRoundTrip(i: nat)
    requires i < 12
    ensures MonthNameToIndex(MonthNames[i]) == Some(i)
  {
    var n := MonthNames[i];
    assert forall k :: 0 <= k < |n| ==> IsLower(n[k]);
    TrimOfNoSpace(n);
    LowerOfLower(n);
    MonthNamesDistinct();
  }

  lemma {:induction false} LowerOfLower(s: string)
    requires forall k :: 0 <= k < |s| ==> IsLower(s[k])
    ensures Lower(s) == s
  {
    if s != [] {
      LowerOfLower(s[1..]);
    }
  }

  /** What `map[n]` gives back in the source when `n in map` holds */
  datatype MonthValue = MonthIndex(index: nat) | Inherited(key: string) | NotAMonth

  /**
   * `monthNameToIndex(name)` as written: `n in map` also holds for the keys
   * every object inherits, and of those only `constructor` and `__proto__`
   * are in lower case, so those two names give back an object, not null
   */
  function MonthNameToIndexAsWritten(name: string): (r: MonthValue)
    ensures r.MonthIndex? <==> MonthNameToIndex(name).Some?
    ensures r.MonthIndex? ==> MonthNameToIndex(name) == Some(r.index)
  {
    var n := Lower(Trim(name));
    var i := MonthIndexOf(n, 0);
    if i.Some? then MonthIndex(i.value)
    else if n == "constructor" || n == "__proto__" then Inherited(n)
    else NotAMonth
  }

  /** The word `constructor` is no month, yet the lookup as written finds something under it */
  lemma ConstructorIsNoMonth()
    ensures MonthNameToIndexAsWritten("constructor") == Inherited("constructor")
    ensures MonthNameToIndex("constructor") == None
  {
    var n := "constructor";
    assert forall k :: 0 <= k < |n| ==> IsLower(n[k]);
    TrimOfNoSpace(n);
    LowerOfLower(n);
    assert Lower(Trim(n)) == n;
    assert forall i :: 0 <= i < 12 ==> |MonthNames[i]| < |n|;
  }

  // ---------------------------------------------------------------------
  // The month header `^([A-Za-z]+)\s+(\d{4})`

  /** The end of the run of characters satisfying `p` from `i` on */
  function RunEnd(s: string, i: nat, p: char -> bool): (r: nat)
    requires i <= |s|
    ensures i <= r <= |s|
    ensures forall k :: i <= k < r ==> p(s[k])
    ensures r == |s| || !p(s[r])
    decreases |s| - i
  {
    if i < |s| && p(s[i]) then RunEnd(s, i + 1, p) else i
  }

  /**
   * The month word and the four year digits of a header text, read after
   * trimming: letters, then white space, then four digits
   */
  function HeaderText(s: string): (r: Option<(string, string)>)
    ensures r.Some? ==> r.value.0 != [] && forall k :: 0 <= k < |r.value.0| ==> IsLetter(r.value.0[k])
    ensures r.Some? ==> |r.value.1| == 4 && AllDigits(r.value.1)
  {
    var t := Trim(s);
    var a := RunEnd(t, 0, IsLetter);
    var b := RunEnd(t, a, IsSpace);
    if 0 < a < b && b + 4 <= |t| && AllDigits(t[b..b + 4]) then Some((t[..a], t[b..b + 4])) else None
  }

  lemma {:induction false} RunEndOf(s: string, i: nat, j: nat, p: char -> bool)
    requires i <= j <= |s|
    requires forall k :: i <= k < j ==> p(s[k])
    requires j == |s| || !p(s[j])
    ensures RunEnd(s, i, p) == j
    decreases j - i
  {
    if i < j {
      RunEndOf(s, i + 1, j, p);
    }
  }

  lemma LetterIsNoSpace(c: char)
    requires IsLetter(c) || IsDigit(c)
    ensures !IsSpace(c)
  {
  }

  /** A text that trims to a word, white space, four digits and anything else is a header of that word and year */
  lemma HeaderTextOf(s: string, word: string, gap: string, year: string, rest: string)
    requires Trim(s) == word + gap + year + rest
    requires word != [] && forall k :: 0 <= k < |word| ==> IsLetter(word[k])
    requires gap != [] && forall k :: 0 <= k < |gap| ==> IsSpace(gap[k])
    requires |year| == 4 && AllDigits(year)
    ensures HeaderText(s) == Some((word, year))
  {
    var t := Trim(s);
    var a := |word|;
    var b := |word| + |gap|;
    assert t[a] == gap[0];
    forall k | 0 <= k < a
      ensures IsLetter(t[k])
    {
      assert t[k] == word[k];
    }
    RunEndOf(t, 0, a, IsLetter);
    forall k | a <= k < b
      ensures IsSpace(t[k])
    {
      assert t[k] == gap[k - a];
    }
    assert t[b] == year[0];
    LetterIsNoSpace(year[0]);
    RunEndOf(t, a, b, IsSpace);
    assert t[..a] == word;
    assert t[b..b + 4] == year;
  }

  /** The header a row opens with: its first cell is a text reading as a month header */
  function HeaderOf(row: Row): Option<(string, string)>
  {
    match Get(row, 0)
    case Text(s) => HeaderText(s)
    case _ => None
  }

  // ---------------------------------------------------------------------
  // Day columns

  /** The date of a day column, its state column and its name column */
  datatype DayCol = DayCol(date: string, stateCol: nat, nameCol: nat)

  /**
   * The day column at state column `2j+1` of a header of month `month` and
   * year `year`: a date cell whose day of the month, in that month and
   * year, gives the column's date
   */
  function DayColAt(row: Row, month: Option<nat>, year: nat, generic: string -> Option<int>, j: nat): (r: Option<DayCol>)
    ensures r.Some? ==> month.Some? && year != 0 && r.value.stateCol == 2 * j + 1 && r.value.nameCol == 2 * j + 2
    ensures r.Some? ==> ParseExcelDateRaw(Get(row, 2 * j + 1), generic).Some?
  {
    var v := Get(row, 2 * j + 1);
    if v == Empty || v == Text("") then None
    else
      var d0 := ParseExcelDateRaw(v, generic);
      if d0.None? then None
      else
        var day := Civil(d0.value).day;
        if month.None? || year == 0 then None
        else Some(DayCol(ColumnDate(year, month.value, day), 2 * j + 1, 2 * j + 2))
  }

  /** `ymd(new Date(Date.UTC(year, month, day, 12, 0, 0)))`, the month counted from 0 */
  function ColumnDate(year: nat, month: nat, day: int): string
  {
    Ymd(DayNumber(FullYear(year), month + 1, day))
  }

  /** The day columns among state columns `1, 3, .., 2k-1` */
  function HeaderCols(row: Row, month: Option<nat>, year: nat, generic: string -> Option<int>, k: nat): seq<DayCol>
  {
    if k == 0 then []
    else
      var c := DayColAt(row, month, year, generic, k - 1);
      HeaderCols(row, month, year, generic, k - 1) + (if c.Some? then [c.value] else [])
  }

  /** The day columns a header row lists: every odd column of the row */
  function ColsOf(row: Row, generic: string -> Option<int>): seq<DayCol>
    requires HeaderOf(row).Some?
  {
    var h := HeaderOf(row).value;
    HeaderCols(row, MonthNameToIndex(h.0), DigitsValue(h.1), generic, |row| / 2)
  }

  /**
   * The day column's date names the day of the month its cell shows, in the
   * header's month and year, when that day exists in that month
   */
  lemma DayColDate(row: Row, month: nat, year: nat, generic: string -> Option<int>, j: nat, day: int)
    requires DayColAt(row, Some(month), year, generic, j).Some?
    requires day == Civil(ParseExcelDateRaw(Get(row, 2 * j + 1), generic).value).day
    requires month < 12 && 1 <= day <= MonthLength(FullYear(year), month + 1)
    ensures DayColAt(row, Some(month), year, generic, j).value.date == DateText(Date(FullYear(year), month + 1, day))
  {
    assert DayColAt(row, Some(month), year, generic, j).value.date == ColumnDate(year, month, day);
    ColumnDateText(year, month, day);
  }

  lemma ColumnDateText(year: nat, month: nat, day: int)
    requires month < 12 && 1 <= day <= MonthLength(FullYear(year), month + 1)
    ensures ColumnDate(year, month, day) == DateText(Date(FullYear(year), month + 1, day))
  {
    YmdOfDate(Date(FullYear(year), month + 1, day));
  }

  lemma YmdOfDate(c: Date)
    requires ValidDate(c)
    ensures Ymd(DayNumber(c.year, c.month, c.day)) == DateText(c)
  {
    CivilOfDayNumber(c);
  }

  /**
   * The day column as written: the month is whatever the lookup as written
   * gave back, and an inherited object as the month makes `Date.UTC` give an
   * invalid date, whose `ymd` text is `NaN-NaN-NaN`
   */
  function DayColAtAsWritten(row: Row, month: MonthValue, year: nat, generic: string -> Option<int>, j: nat): Option<DayCol>
  {
    match month
    case MonthIndex(i) => DayColAt(row, Some(i), year, generic, j)
    case NotAMonth => DayColAt(row, None, year, generic, j)
    case Inherited(_) =>
      var v := Get(row, 2 * j + 1);
      if v == Empty || v == Text("") || ParseExcelDateRaw(v, generic).None? || year == 0 then None
      else Some(DayCol("NaN-NaN-NaN", 2 * j + 1, 2 * j + 2))
  }

  /**
   * Under a header "Constructor 2024" the parser as written files every date
   * cell's column under `NaN-NaN-NaN`, where the intended lookup lists no day
   * columns at all
   */
  lemma ConstructorHeaderAsWritten(row: Row, year: nat, generic: string -> Option<int>, j: nat)
    requires year != 0
    requires Get(row, 2 * j + 1) != Empty && ParseExcelDateRaw(Get(row, 2 * j + 1), generic).Some?
    ensures DayColAtAsWritten(row, MonthNameToIndexAsWritten("constructor"), year, generic, j) ==
      Some(DayCol("NaN-NaN-NaN", 2 * j + 1, 2 * j + 2))
    ensures DayColAt(row, MonthNameToIndex("constructor"), year, generic, j) == None
  {
    ConstructorIsNoMonth();
  }

  /** On every name but the inherited keys the two lookups give the same day columns */
  lemma DayColAsWrittenAgrees(row: Row, name: string, year: nat, generic: string -> Option<int>, j: nat)
    requires !MonthNameToIndexAsWritten(name).Inherited?
    ensures DayColAtAsWritten(row, MonthNameToIndexAsWritten(name), year, generic, j) ==
      DayColAt(row, MonthNameToIndex(name), year, generic, j)
  {
  }

  // ---------------------------------------------------------------------
  // Records

  /** The record a row gives for a day column: none when the name is missing or blank */
  function RecordAt(row: Row, col: DayCol): (r: Option<Entry>)
    ensures r.Some? ==> r.value.name != [] && Trim(r.value.name) == r.value.name && Trim(r.value.state) == r.value.state
  {
    var nm := Get(row, col.nameCol);
    if nm == Empty || Trim(CellString(nm)) == "" then None
    else
      var st := Get(row, col.stateCol);
      TrimIdempotent(CellString(nm));
      TrimIdempotent(CellString(st));
      Some(Entry(if st == Empty then "" else Trim(CellString(st)), Trim(CellString(nm))))
  }

  /** The row's records, each appended to its column's date */
  function FileCols(m: map<string, seq<Entry>>, row: Row, cols: seq<DayCol>): map<string, seq<Entry>>
  {
    if cols == [] then m
    else
      var prev := FileCols(m, row, cols[..|cols| - 1]);
      var c := cols[|cols| - 1];
      var e := RecordAt(row, c);
      if e.None? then prev else prev[c.date := Lookup(prev, c.date) + [e.value]]
  }

  // ---------------------------------------------------------------------
  // The sheet

  /** The day columns a header row opens, and none for any other row */
  function HeaderCells(row: Row, generic: string -> Option<int>): Option<seq<DayCol>>
  {
    if HeaderOf(row).Some? then Some(ColsOf(row, generic)) else None
  }

  /** How the rows are told apart: a header row and its day columns, or a data row */
  type HeaderReader = Row -> Option<seq<DayCol>>

  function Reader(generic: string -> Option<int>): HeaderReader
  {
    row => HeaderCells(row, generic)
  }

  /** The day columns of the current month and the dates filled so far */
  datatype SheetState = SheetState(cols: seq<DayCol>, out: map<string, seq<Entry>>)

  /** One row: a header replaces the day columns; any other row files its records */
  function StepRow(st: SheetState, row: Row, header: Option<seq<DayCol>>): SheetState
  {
    if header.Some? then SheetState(header.value, st.out)
    else if |st.cols| > 0 then SheetState(st.cols, FileCols(st.out, row, st.cols))
    else st
  }

  /** The state after the first `n` rows */
  function SheetAfter(g: Grid, n: nat, read: HeaderReader): SheetState
    requires n <= |g|
  {
    if n == 0 then SheetState([], map[]) else StepRow(SheetAfter(g, n - 1, read), g[n - 1], read(g[n - 1]))
  }

  /** What `parseDailyAvailabilityAOA` returns for the sheet `g` */
  function MonthAvailability(g: Grid, generic: string -> Option<int>): map<string, seq<Entry>>
  {
    SheetAfter(g, |g|, Reader(generic)).out
  }

  /** `parseDailyAvailabilityAOA(aoa)` */
  method ParseDailyAvailabilityAoa(g: Grid, generic: string -> Option<int>) returns (out: map<string, seq<Entry>>)
    ensures out == MonthAvailability(g, generic)
  {
    out := map[];
    var dayCols: seq<DayCol> := [];
    for r := 0 to |g|
      invariant SheetAfter(g, r, Reader(generic)) == SheetState(dayCols, out)
    {
      SheetStep(g, r, Reader(generic));
      dayCols, out := SheetRow(dayCols, out, g[r], generic);
    }
  }

  /** The body of the loop over the rows */
  method SheetRow(dayCols: seq<DayCol>, out: map<string, seq<Entry>>, row: Row, generic: string -> Option<int>)
    returns (dayCols': seq<DayCol>, out': map<string, seq<Entry>>)
    ensures SheetState(dayCols', out') == StepRow(SheetState(dayCols, out), row, Reader(generic)(row))
  {
    ReaderIsHeader(generic, row);
    dayCols', out' := dayCols, out;
    var h := HeaderOf(row);
    if h.Some? {
      dayCols' := ReadHeader(row, MonthNameToIndex(h.value.0), DigitsValue(h.value.1), generic);
      return;
    }
    if |dayCols| > 0 {
      out' := FileRecords(out, row, dayCols);
    }
  }

  lemma SheetStep(g: Grid, r: nat, read: HeaderReader)
    requires r < |g|
    ensures SheetAfter(g, r + 1, read) == StepRow(SheetAfter(g, r, read), g[r], read(g[r]))
  {
  }

  /** The loop over the odd columns of a header row */
  method ReadHeader(row: Row, month: Option<nat>, year: nat, generic: string -> Option<int>) returns (cols: seq<DayCol>)
    ensures cols == HeaderCols(row, month, year, generic, |row| / 2)
  {
    cols := [];
    for j := 0 to |row| / 2
      invariant cols == HeaderCols(row, month, year, generic, j)
    {
      // state column 2j+1, name column 2j+2
      var col := DayColAt(row, month, year, generic, j);
      HeaderColsSnoc(row, month, year, generic, j, col);
      if col.Some? {
        cols := cols + [col.value];
      }
    }
  }

  lemma HeaderColsSnoc(row: Row, month: Option<nat>, year: nat, generic: string -> Option<int>, k: nat, col: Option<DayCol>)
    requires col == DayColAt(row, month, year, generic, k)
    ensures HeaderCols(row, month, year, generic, k + 1) ==
      HeaderCols(row, month, year, generic, k) + (if col.Some? then [col.value] else [])
  {
  }

  /** The loop over the day columns of a data row */
  method FileRecords(m: map<string, seq<Entry>>, row: Row, cols: seq<DayCol>) returns (out: map<string, seq<Entry>>)
    ensures out == FileCols(m, row, cols)
  {
    out := m;
    for k := 0 to |cols|
      invariant out == FileCols(m, row, cols[..k])
    {
      assert cols[..k + 1][..k] == cols[..k];
      var e := RecordAt(row, cols[k]);
      if e.Some? {
        out := out[cols[k].date := Lookup(out, cols[k].date) + [e.value]];
      }
    }
    assert cols[..|cols|] == cols;
  }

  // ---------------------------------------------------------------------
  // What the parsed availability holds

  /** Every filed name is non-empty, and names and states carry no outer white space */
  predicate CleanEntries(m: map<string, seq<Entry>>)
  {
    forall d, e :: d in m && e in m[d] ==> e.name != [] && Trim(e.name) == e.name && Trim(e.state) == e.state
  }

  /** Every list of `a` survives in `b`, perhaps extended */
  predicate Grows(a: map<string, seq<Entry>>, b: map<string, seq<Entry>>)
  {
    forall d :: d in a ==> d in b && a[d] <= b[d]
  }

  lemma {:induction false} FileColsClean(m: map<string, seq<Entry>>, row: Row, cols: seq<DayCol>)
    requires CleanEntries(m)
    ensures CleanEntries(FileCols(m, row, cols))
    decreases |cols|
  {
    if cols != [] {
      var init := cols[..|cols| - 1];
      var c := cols[|cols| - 1];
      FileColsClean(m, row, init);
      var e := RecordAt(row, c);
      if e.Some? {
        CleanAdd(FileCols(m, row, init), c.date, e.value);
      }
    }
  }

  lemma CleanAdd(m: map<string, seq<Entry>>, d: string, e: Entry)
    requires CleanEntries(m)
    requires e.name != [] && Trim(e.name) == e.name && Trim(e.state) == e.state
    ensures CleanEntries(m[d := Lookup(m, d) + [e]])
  {
  }

  lemma {:induction false} FileColsGrows(m: map<string, seq<Entry>>, row: Row, cols: seq<DayCol>)
    ensures Grows(m, FileCols(m, row, cols))
    decreases |cols|
  {
    if cols != [] {
      FileColsGrows(m, row, cols[..|cols| - 1]);
    }
  }

  /** The record of every day column of the row is filed under the column's date */
  lemma {:induction false} FileColsHas(m: map<string, seq<Entry>>, row: Row, cols: seq<DayCol>, k: nat)
    requires k < |cols| && RecordAt(row, cols[k]).Some?
    ensures cols[k].date in FileCols(m, row, cols)
    ensures RecordAt(row, cols[k]).value in FileCols(m, row, cols)[cols[k].date]
    decreases |cols|
  {
    var init := cols[..|cols| - 1];
    if k < |cols| - 1 {
      FileColsHas(m, row, init, k);
      assert init[k] == cols[k];
      var prev := FileCols(m, row, init);
      var c := cols[|cols| - 1];
      if RecordAt(row, c).Some? && c.date == cols[k].date {
        assert Lookup(prev, c.date) == prev[c.date];
      }
    }
  }

  /** Whatever the row files comes from one of its day columns */
  lemma {:induction false} FileColsOrigin(m: map<string, seq<Entry>>, row: Row, cols: seq<DayCol>, d: string, e: Entry)
    requires d in FileCols(m, row, cols) && e in FileCols(m, row, cols)[d]
    ensures (d in m && e in m[d]) || exists col :: col in cols && col.date == d && RecordAt(row, col) == Some(e)
    decreases |cols|
  {
    if cols != [] {
      var init := cols[..|cols| - 1];
      var c := cols[|cols| - 1];
      var prev := FileCols(m, row, init);
      if d in prev && e in prev[d] {
        FileColsOrigin(m, row, init, d, e);
        if !(d in m && e in m[d]) {
          var col :| col in init && col.date == d && RecordAt(row, col) == Some(e);
          assert col in cols;
        }
      } else {
        assert c in cols;
      }
    }
  }

  /** Rows `h+1 .. n-1` hold no header, and row `h` does */
  predicate LastHeader(g: Grid, n: nat, read: HeaderReader, h: nat)
    requires n <= |g|
  {
    h < n && read(g[h]).Some? && forall k :: h < k < n ==> read(g[k]).None?
  }

  /** The day columns in force are those of the last header above */
  lemma {:induction false} ColsAfter(g: Grid, n: nat, read: HeaderReader, h: nat)
    requires n <= |g| && LastHeader(g, n, read, h)
    ensures SheetAfter(g, n, read).cols == read(g[h]).value
  {
    if n - 1 != h {
      ColsAfter(g, n - 1, read, h);
    }
  }

  /** Before the first header nothing is filed */
  lemma {:induction false} NoHeaderYet(g: Grid, n: nat, read: HeaderReader)
    requires n <= |g| && forall k :: 0 <= k < n ==> read(g[k]).None?
    ensures SheetAfter(g, n, read) == SheetState([], map[])
  {
    if n > 0 {
      NoHeaderYet(g, n - 1, read);
    }
  }

  lemma GrowsTrans(a: map<string, seq<Entry>>, b: map<string, seq<Entry>>, c: map<string, seq<Entry>>)
    requires Grows(a, b) && Grows(b, c)
    ensures Grows(a, c)
  {
    forall d | d in a
      ensures d in c && a[d] <= c[d]
    {
      assert a[d] <= b[d] <= c[d];
    }
  }

  /** A header row replaces the day columns, a data row only adds records */
  lemma StepGrows(st: SheetState, row: Row, header: Option<seq<DayCol>>)
    ensures Grows(st.out, StepRow(st, row, header).out)
  {
    if header.None? && |st.cols| > 0 {
      FileColsGrows(st.out, row, st.cols);
    }
  }

  lemma {:induction false} SheetGrows(g: Grid, i: nat, n: nat, read: HeaderReader)
    requires i <= n <= |g|
    ensures Grows(SheetAfter(g, i, read).out, SheetAfter(g, n, read).out)
    decreases n - i
  {
    if i < n {
      SheetGrows(g, i + 1, n, read);
      var st := SheetAfter(g, i, read);
      StepGrows(st, g[i], read(g[i]));
      GrowsTrans(st.out, SheetAfter(g, i + 1, read).out, SheetAfter(g, n, read).out);
    }
  }

  /** A record filed after row `i` is still there after row `n` */
  lemma StaysFiled(g: Grid, i: nat, n: nat, read: HeaderReader, d: string, e: Entry)
    requires i <= n <= |g| && d in SheetAfter(g, i, read).out && e in SheetAfter(g, i, read).out[d]
    ensures d in SheetAfter(g, n, read).out && e in SheetAfter(g, n, read).out[d]
  {
    SheetGrows(g, i, n, read);
    var m := SheetAfter(g, i, read).out;
    var fin := SheetAfter(g, n, read).out;
    assert m[d] <= fin[d];
    InPrefix(m[d], fin[d], e);
  }

  /** Every record the parsed availability holds is clean */
  lemma {:induction false} SheetClean(g: Grid, n: nat, read: HeaderReader)
    requires n <= |g|
    ensures CleanEntries(SheetAfter(g, n, read).out)
  {
    if n > 0 {
      SheetClean(g, n - 1, read);
      var st := SheetAfter(g, n - 1, read);
      if read(g[n - 1]).None? && |st.cols| > 0 {
        FileColsClean(st.out, g[n - 1], st.cols);
      }
    }
  }

  /** A data row below header `h` files the record of each of the header's day columns */
  lemma SheetComplete(g: Grid, read: HeaderReader, r: nat, h: nat, col: DayCol, e: Entry)
    requires r < |g| && read(g[r]).None? && LastHeader(g, r, read, h)
    requires col in read(g[h]).value && RecordAt(g[r], col) == Some(e)
    ensures col.date in SheetAfter(g, |g|, read).out && e in SheetAfter(g, |g|, read).out[col.date]
  {
    ColsAfter(g, r, read, h);
    SheetCompleteRow(g, read, r, col, e);
  }

  /** A data row files the record of each day column in force there, for good */
  lemma SheetCompleteRow(g: Grid, read: HeaderReader, r: nat, col: DayCol, e: Entry)
    requires r < |g| && read(g[r]).None? && col in SheetAfter(g, r, read).cols && RecordAt(g[r], col) == Some(e)
    ensures col.date in SheetAfter(g, |g|, read).out && e in SheetAfter(g, |g|, read).out[col.date]
  {
    var cols := SheetAfter(g, r, read).cols;
    var k :| 0 <= k < |cols| && cols[k] == col;
    DataRowFiles(g, r, read, k, col, e);
    StaysFiled(g, r + 1, |g|, read, col.date, e);
  }

  lemma DataRowFiles(g: Grid, r: nat, read: HeaderReader, k: nat, col: DayCol, e: Entry)
    requires r < |g| && read(g[r]).None?
    requires k < |SheetAfter(g, r, read).cols| && SheetAfter(g, r, read).cols[k] == col
    requires RecordAt(g[r], col) == Some(e)
    ensures col.date in SheetAfter(g, r + 1, read).out && e in SheetAfter(g, r + 1, read).out[col.date]
  {
    var st := SheetAfter(g, r, read);
    SheetStep(g, r, read);
    FileColsHas(st.out, g[r], st.cols, k);
  }

  /**
   * Every record of a row below a header, in a day column of that header
   * whose name cell is not blank, is filed under the column's date
   */
  lemma MonthAvailabilityComplete(g: Grid, generic: string -> Option<int>, r: nat, h: nat, col: DayCol, e: Entry)
    requires r < |g| && HeaderOf(g[r]).None? && h < r && HeaderOf(g[h]).Some?
    requires forall i :: h < i < r ==> HeaderOf(g[i]).None?
    requires col in ColsOf(g[h], generic) && RecordAt(g[r], col) == Some(e)
    ensures col.date in MonthAvailability(g, generic) && e in MonthAvailability(g, generic)[col.date]
  {
    var read := Reader(generic);
    assert read(g[h]) == Some(ColsOf(g[h], generic));
    assert LastHeader(g, r, read, h) by {
      forall i | h < i < r
        ensures read(g[i]).None?
      {
        assert HeaderOf(g[i]).None?;
      }
    }
    SheetComplete(g, read, r, h, col, e);
  }

  lemma InPrefix<T>(a: seq<T>, b: seq<T>, x: T)
    requires a <= b && x in a
    ensures x in b
  {
    var i :| 0 <= i < |a| && a[i] == x;
    assert b[i] == x;
  }

  /** The record was filed from a data row, in a day column in force there, under the column's date */
  predicate FiledFrom(g: Grid, n: nat, read: HeaderReader, d: string, e: Entry)
    requires n <= |g|
  {
    exists r, col :: 0 <= r < n && read(g[r]).None? && col in SheetAfter(g, r, read).cols &&
      col.date == d && RecordAt(g[r], col) == Some(e)
  }

  lemma {:induction false} SheetOrigin(g: Grid, n: nat, read: HeaderReader, d: string, e: Entry)
    requires n <= |g|
    requires d in SheetAfter(g, n, read).out && e in SheetAfter(g, n, read).out[d]
    ensures FiledFrom(g, n, read, d, e)
  {
    var st := SheetAfter(g, n - 1, read);
    if d in st.out && e in st.out[d] {
      SheetOrigin(g, n - 1, read, d, e);
      var r, col :| 0 <= r < n - 1 && read(g[r]).None? && col in SheetAfter(g, r, read).cols &&
        col.date == d && RecordAt(g[r], col) == Some(e);
    } else {
      FileColsOrigin(st.out, g[n - 1], st.cols, d, e);
      var col :| col in st.cols && col.date == d && RecordAt(g[n - 1], col) == Some(e);
      assert 0 <= n - 1 < n && read(g[n - 1]).None?;
    }
  }

  /**
   * The parsed availability: every record is clean, and each was read from a
   * row that is no month header, in one of the day columns in force there,
   * under its date
   */
  lemma MonthAvailabilitySound(g: Grid, generic: string -> Option<int>)
    ensures CleanEntries(MonthAvailability(g, generic))
    ensures forall d, e :: d in MonthAvailability(g, generic) && e in MonthAvailability(g, generic)[d] ==>
      FiledFrom(g, |g|, Reader(generic), d, e)
  {
    SheetClean(g, |g|, Reader(generic));
    forall d, e | d in MonthAvailability(g, generic) && e in MonthAvailability(g, generic)[d]
      ensures FiledFrom(g, |g|, Reader(generic), d, e)
    {
      SheetOrigin(g, |g|, Reader(generic), d, e);
    }
  }

  /** `Reader` tells a month header from any other row */
  lemma ReaderIsHeader(generic: string -> Option<int>, row: Row)
    ensures Reader(generic)(row).Some? <==> HeaderOf(row).Some?
    ensures HeaderOf(row).Some? ==> Reader(generic)(row).value == ColsOf(row, generic)
  {
  }
}
