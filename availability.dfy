/**
 * `parseDailyAvailabilityWorksheet`: the "Daily Tech Availability"
 * (non-availability) sheet. Weekly header rows carry day numbers in the
 * state columns 1, 3, ..., 13; the rows below a header carry a state code in
 * a state column and a technician name in the column after it. Every such
 * pair is filed under the date of its weekday, and each date's list is
 * deduplicated by state and name.
 */
module Availability {
  import opened Wrappers
  import opened Strings
  import opened Calendar
  import opened Cells

  /** One record of the sheet: a two-letter state code and a technician name */
  datatype Entry = Entry(state: string, name: string)

  /** The state column of weekday `i` (0 is Sunday); the name sits in the next column */
  function StateCol(i: nat): nat { 2 * i + 1 }
  function TechCol(i: nat): nat { 2 * i + 2 }

  /** The first decimal digit of `s` at or after `i` */
  function FirstDigit(s: string, i: nat): (r: Option<nat>)
    ensures r.Some? ==> i <= r.value < |s| && IsDigit(s[r.value])
    ensures r.Some? ==> forall k :: i <= k < r.value ==> !IsDigit(s[k])
    ensures r.None? ==> forall k :: i <= k < |s| ==> !IsDigit(s[k])
    decreases |s| - i
  {
    if i >= |s| then None else if IsDigit(s[i]) then Some(i) else FirstDigit(s, i + 1)
  }

  /** `s.match(/(\d{1,2})/)`: the leftmost run of one or two digits, as a number */
  function FirstNumber(s: string): (r: Option<nat>)
    ensures r.Some? ==> r.value < 100
  {
    var p := FirstDigit(s, 0);
    if p.None? then None
    else if p.value + 1 < |s| && IsDigit(s[p.value + 1]) then
      Some(DigitValue(s[p.value]) * 10 + DigitValue(s[p.value + 1]))
    else Some(DigitValue(s[p.value]))
  }

  /** `dayIndicator(v)`: the day of the month a header cell shows, if any */
  function DayIndicator(v: Cell, generic: string -> Option<int>): (r: Option<nat>)
    ensures r.Some? ==> 1 <= r.value <= 31
    ensures v == Empty || v == Text("") ==> r.None?
  {
    if v == Empty || v == Text("") then None
    else if v.Num? then (if 1 <= v.n <= 31 then Some(v.n) else None)
    else
      var d := ParseExcelDateRaw(v, generic);
      if d.Some? then
        var day := Civil(d.value).day;
        if 1 <= day <= 31 then Some(day) else None
      else if v.Text? then
        var n := FirstNumber(v.s);
        if n.Some? && 1 <= n.value <= 31 then n else None
      else None
  }

  /** `parseState(v)`: a text that normalises to two capital letters */
  function ParseState(v: Cell): (r: Option<string>)
    ensures r.Some? ==> |r.value| == 2 && IsUpper(r.value[0]) && IsUpper(r.value[1])
    ensures r.Some? ==> v.Text? && r.value == NormState(v.s)
  {
    match v
    case Text(s) =>
      var t := NormState(s);
      if |t| == 2 && IsUpper(t[0]) && IsUpper(t[1]) then Some(t) else None
    case _ => None
  }

  /** `replace(/\s+/g, ' ').trim()` */
  function CleanName(s: string): string
  {
    Trim(CollapseSpaces(s))
  }

  /** `parseTech(v)`: a text with something besides white space, its spaces collapsed */
  function ParseTech(v: Cell): (r: Option<string>)
    ensures r.Some? ==> v.Text? && r.value == CleanName(v.s) && r.value != []
    ensures v.Text? && CleanName(v.s) != [] ==> r.Some?
  {
    match v
    case Text(s) => var t := CleanName(s); if t == [] then None else Some(t)
    case _ => None
  }

  /** Among weekdays `0 .. n-1`: state cells showing a day, state cells holding a state code, name cells with text */
  function DayCount(row: Row, generic: string -> Option<int>, n: nat): (c: nat)
    requires n <= 7
    ensures c == |set k: nat | k < n && DayIndicator(Get(row, StateCol(k)), generic).Some?|
  {
    if n == 0 then 0
    else
      var last: set<nat> := if DayIndicator(Get(row, StateCol(n - 1)), generic).Some? then {n - 1} else {};
      assert (set k: nat | k < n && DayIndicator(Get(row, StateCol(k)), generic).Some?) ==
        (set k: nat | k < n - 1 && DayIndicator(Get(row, StateCol(k)), generic).Some?) + last;
      DayCount(row, generic, n - 1) + |last|
  }

  function StateCount(row: Row, n: nat): (c: nat)
    requires n <= 7
    ensures c == |set k: nat | k < n && ParseState(Get(row, StateCol(k))).Some?|
  {
    if n == 0 then 0
    else
      var last: set<nat> := if ParseState(Get(row, StateCol(n - 1))).Some? then {n - 1} else {};
      assert (set k: nat | k < n && ParseState(Get(row, StateCol(k))).Some?) ==
        (set k: nat | k < n - 1 && ParseState(Get(row, StateCol(k))).Some?) + last;
      StateCount(row, n - 1) + |last|
  }

  /** A name cell with text */
  predicate HasName(v: Cell)
  {
    v.Text? && Trim(v.s) != []
  }

  function TechCount(row: Row, n: nat): (c: nat)
    requires n <= 7
    ensures c == |set k: nat | k < n && HasName(Get(row, TechCol(k)))|
  {
    if n == 0 then 0
    else
      var last: set<nat> := if HasName(Get(row, TechCol(n - 1))) then {n - 1} else {};
      assert (set k: nat | k < n && HasName(Get(row, TechCol(k)))) ==
        (set k: nat | k < n - 1 && HasName(Get(row, TechCol(k)))) + last;
      TechCount(row, n - 1) + |last|
  }

  /**
   * `isHeaderRow(row, idx)`: not the top row, at least four day numbers, at
   * most one name and at most two state codes
   */
  predicate IsHeaderRow(row: Row, idx: nat, generic: string -> Option<int>)
  {
    idx != 0 && DayCount(row, generic, 7) >= 4 && TechCount(row, 7) <= 1 && StateCount(row, 7) <= 2
  }

  /** The header rows among the first `n` rows, in order */
  function HeaderRows(g: Grid, generic: string -> Option<int>, n: nat): seq<nat>
    requires n <= |g|
  {
    RowsWhere(g, HeaderTest(generic), n)
  }

  /** `isHeaderRow` as a test on a row and its index */
  function HeaderTest(generic: string -> Option<int>): (Row, nat) -> bool
  {
    (row: Row, idx: nat) => IsHeaderRow(row, idx, generic)
  }

  /** The indices among the first `n` rows that pass `test`, in order */
  function RowsWhere(g: Grid, test: (Row, nat) -> bool, n: nat): seq<nat>
    requires n <= |g|
  {
    if n == 0 then []
    else RowsWhere(g, test, n - 1) + (if test(g[n - 1], n - 1) then [n - 1] else [])
  }

  /** Strictly increasing row numbers below `n` */
  predicate RowsBelow(rs: seq<nat>, n: nat)
  {
    (forall k :: 0 <= k < |rs| ==> rs[k] < n) &&
    (forall k, l :: 0 <= k < l < |rs| ==> rs[k] < rs[l])
  }

  /** The rows that pass the test are exactly those in the list, in increasing order */
  lemma RowsWhereSpec(g: Grid, test: (Row, nat) -> bool, n: nat)
    requires n <= |g|
    ensures RowsBelow(RowsWhere(g, test, n), n)
    ensures forall r :: 0 <= r < n ==> (r in RowsWhere(g, test, n) <==> test(g[r], r))
  {
    RowsWhereBelow(g, test, n);
    RowsWhereMembers(g, test, n);
  }

  lemma {:induction false} RowsWhereBelow(g: Grid, test: (Row, nat) -> bool, n: nat)
    requires n <= |g|
    ensures RowsBelow(RowsWhere(g, test, n), n)
  {
    if n > 0 {
      RowsWhereBelow(g, test, n - 1);
      var prev := RowsWhere(g, test, n - 1);
      if test(g[n - 1], n - 1) {
        var rs := prev + [n - 1];
        assert RowsWhere(g, test, n) == rs;
        assert forall k :: 0 <= k < |prev| ==> rs[k] == prev[k] < n - 1;
      } else {
        assert RowsWhere(g, test, n) == prev + [];
        assert prev + [] == prev;
      }
    }
  }

  lemma {:induction false} RowsWhereMembers(g: Grid, test: (Row, nat) -> bool, n: nat)
    requires n <= |g|
    ensures forall r :: 0 <= r < n ==> (r in RowsWhere(g, test, n) <==> test(g[r], r))
  {
    if n > 0 {
      RowsWhereMembers(g, test, n - 1);
      RowsWhereBelow(g, test, n - 1);
      var prev := RowsWhere(g, test, n - 1);
      assert n - 1 !in prev;
      var last: seq<nat> := if test(g[n - 1], n - 1) then [n - 1] else [];
      assert RowsWhere(g, test, n) == prev + last;
      assert forall r :: r in prev + last <==> r in prev || r in last;
    }
  }

  /** The header rows are exactly the rows `isHeaderRow` accepts, in increasing order, and row 0 is never one */
  lemma HeaderRowsSpec(g: Grid, generic: string -> Option<int>, n: nat)
    requires n <= |g|
    ensures RowsBelow(HeaderRows(g, generic, n), n)
    ensures forall r :: 0 <= r < n ==> (r in HeaderRows(g, generic, n) <==> IsHeaderRow(g[r], r, generic))
    ensures 0 !in HeaderRows(g, generic, n)
  {
    RowsWhereSpec(g, HeaderTest(generic), n);
    forall r | 0 <= r < n
      ensures HeaderTest(generic)(g[r], r) == IsHeaderRow(g[r], r, generic)
    {
    }
    if n > 0 {
      assert !HeaderTest(generic)(g[0], 0);
    }
  }

  /** `headers`: the loop that collects the header rows */
  method FindHeaderRows(g: Grid, generic: string -> Option<int>) returns (headers: seq<nat>)
    ensures headers == HeaderRows(g, generic, |g|)
  {
    headers := [];
    var r := 0;
    while r < |g|
      invariant 0 <= r <= |g|
      invariant headers == HeaderRows(g, generic, r)
    {
      if IsHeaderRow(g[r], r, generic) {
        headers := headers + [r];
      }
      r := r + 1;
    }
  }

  // ---------------------------------------------------------------------
  // The Sunday of each week

  /** The number of weekday column pairs in a row */
  const DaysPerWeek: nat := 7

  /** `isRealDate(v)`: a cell that reads as a date in 2020 or later */
  predicate IsRealDate(v: Cell, generic: string -> Option<int>)
  {
    var d := ParseExcelDateRaw(v, generic);
    d.Some? && Civil(d.value).year >= 2020
  }

  /** The date a cell reads as, when it is a real date */
  function RealDate(v: Cell, generic: string -> Option<int>): (r: Option<int>)
    ensures r.Some? <==> IsRealDate(v, generic)
    ensures r.Some? ==> ParseExcelDateRaw(v, generic) == r
  {
    if IsRealDate(v, generic) then ParseExcelDateRaw(v, generic) else None
  }

  /**
   * The anchor of a header row: the first state column from weekday `i` on
   * holding a real date, as that date and the column's weekday
   */
  function Anchor(row: Row, generic: string -> Option<int>, i: nat): Option<(int, nat)>
  {
    FirstDated(ColumnDates(row, generic), i)
  }

  /** The real date in the state column of each weekday */
  function ColumnDates(row: Row, generic: string -> Option<int>): nat -> Option<int>
  {
    (k: nat) => RealDate(Get(row, StateCol(k)), generic)
  }

  /** The first weekday from `i` on with a date, as that date and the weekday */
  function FirstDated(dates: nat -> Option<int>, i: nat): Option<(int, nat)>
    decreases 7 - i
  {
    if i >= 7 then None
    else if dates(i).Some? then Some((dates(i).value, i))
    else FirstDated(dates, i + 1)
  }

  lemma {:induction false} FirstDatedSpec(dates: nat -> Option<int>, i: nat)
    ensures var r := FirstDated(dates, i);
      (r.Some? ==> i <= r.value.1 < 7 && dates(r.value.1) == Some(r.value.0))
      && (r.Some? ==> forall k: nat :: i <= k < r.value.1 ==> dates(k).None?)
      && (r.None? ==> forall k: nat :: i <= k < 7 ==> dates(k).None?)
    decreases 7 - i
  {
    if i < 7 && dates(i).None? {
      FirstDatedSpec(dates, i + 1);
    }
  }

  /** The anchor is the first real date from weekday `i` on, or there is none */
  lemma AnchorSpec(row: Row, generic: string -> Option<int>, i: nat)
    ensures var r := Anchor(row, generic, i);
      (r.Some? ==> i <= r.value.1 < 7 && RealDate(Get(row, StateCol(r.value.1)), generic) == Some(r.value.0))
      && (r.Some? ==> forall k :: i <= k < r.value.1 ==> RealDate(Get(row, StateCol(k)), generic).None?)
      && (r.None? ==> forall k :: i <= k < 7 ==> RealDate(Get(row, StateCol(k)), generic).None?)
  {
    var dates := ColumnDates(row, generic);
    FirstDatedSpec(dates, i);
    forall k: nat
      ensures dates(k) == RealDate(Get(row, StateCol(k)), generic)
    {
    }
  }

  /**
   * The Sunday of the week a header row opens: its anchor date less the
   * anchor's weekday, else the previous Sunday plus seven days; with
   * neither the header is skipped (None)
   */
  function SundayOf(row: Row, prev: Option<int>, generic: string -> Option<int>): Option<int>
  {
    WeekStart(Anchor(row, generic, 0), prev)
  }

  /** The Sunday from an anchor (date, weekday), else from the previous Sunday */
  function WeekStart(anchor: Option<(int, nat)>, prev: Option<int>): Option<int>
  {
    match anchor
    case Some((a, off)) => Some(a - off)
    case None => if prev.Some? then Some(prev.value + 7) else None
  }

  // ---------------------------------------------------------------------
  // Records

  /** A record found on day `day` */
  datatype Rec = Rec(day: int, entry: Entry)

  /** The entry weekday `i` of a data row holds: a state code and a name beside it */
  function CellEntry(row: Row, i: nat): Option<Entry>
  {
    var st := ParseState(Get(row, StateCol(i)));
    var nm := ParseTech(Get(row, TechCol(i)));
    if st.Some? && nm.Some? then Some(Entry(st.value, nm.value)) else None
  }

  /** The records of weekdays `0 .. n-1` of one data row */
  function RowRecs(row: Row, sunday: int, n: nat): seq<Rec>
    requires n <= 7
  {
    if n == 0 then []
    else
      var e := CellEntry(row, n - 1);
      RowRecs(row, sunday, n - 1) + (if e.Some? then [Rec(sunday + n - 1, e.value)] else [])
  }

  /** The records of the data rows `from .. to-1` of a week */
  function BlockRecs(g: Grid, from: nat, to: nat, sunday: int): seq<Rec>
    decreases to
  {
    if to <= from then [] else BlockRecs(g, from, to - 1, sunday) + RowRecs(GetRow(g, to - 1), sunday, DaysPerWeek)
  }

  /** How a header row and the Sunday carried to it give the header's own Sunday, if any */
  type SundayRule = (Row, Option<int>) -> Option<int>

  /** The rule the parser follows: `SundayOf` */
  function SundayRuleOf(generic: string -> Option<int>): SundayRule
  {
    (row: Row, prev: Option<int>) => SundayOf(row, prev, generic)
  }

  /** The records of the weeks of the first `n` headers, and the Sunday carried after them */
  function Scan(g: Grid, headers: seq<nat>, n: nat, rule: SundayRule): (seq<Rec>, Option<int>)
    requires n <= |headers|
  {
    if n == 0 then ([], None)
    else
      var (recs, prev) := Scan(g, headers, n - 1, rule);
      var hr := headers[n - 1];
      var s := rule(GetRow(g, hr), prev);
      if s.None? then (recs, prev)
      else
        var next := if n < |headers| then headers[n] else |g|;
        (recs + BlockRecs(g, hr + 1, next, s.value), s)
  }

  /** `out.get(dateStr) || []` */
  function Lookup(m: map<string, seq<Entry>>, k: string): seq<Entry>
  {
    if k in m then m[k] else []
  }

  /** `arr.push(...)` on the list of the record's date, written by `text` (`ymd`) */
  function Add(m: map<string, seq<Entry>>, rec: Rec, text: int -> string): map<string, seq<Entry>>
  {
    var k := text(rec.day);
    m[k := Lookup(m, k) + [rec.entry]]
  }

  function AddAll(m: map<string, seq<Entry>>, recs: seq<Rec>, text: int -> string): map<string, seq<Entry>>
  {
    if recs == [] then m else Add(AddAll(m, recs[..|recs| - 1], text), recs[|recs| - 1], text)
  }

  /** Every record of a data row is dated Sunday plus the weekday of the column it was read from */
  lemma {:induction false} RowRecsOrigin(row: Row, sunday: int, n: nat, rec: Rec)
    requires n <= 7 && rec in RowRecs(row, sunday, n)
    ensures exists i :: 0 <= i < n && rec.day == sunday + i && CellEntry(row, i) == Some(rec.entry)
  {
    var e := CellEntry(row, n - 1);
    if (rec !in RowRecs(row, sunday, n - 1)) {
      assert e.Some? && rec == Rec(sunday + n - 1, e.value);
    } else {
      RowRecsOrigin(row, sunday, n - 1, rec);
    }
  }

  /** Every state and name pair of a data row gives a record */
  lemma {:induction false} RowRecsComplete(row: Row, sunday: int, n: nat, i: nat)
    requires i < n <= 7 && CellEntry(row, i).Some?
    ensures Rec(sunday + i, CellEntry(row, i).value) in RowRecs(row, sunday, n)
  {
    if i < n - 1 {
      RowRecsComplete(row, sunday, n - 1, i);
    }
  }

  /** The record came from weekday `i` of a data row between `from` and `upto` */
  predicate FromWeek(g: Grid, from: nat, upto: nat, sunday: int, rec: Rec)
  {
    exists r, i :: from <= r < upto && 0 <= i < 7 && rec.day == sunday + i && CellEntry(GetRow(g, r), i) == Some(rec.entry)
  }

  lemma {:induction false} BlockRecsOrigin(g: Grid, from: nat, upto: nat, sunday: int, rec: Rec)
    requires rec in BlockRecs(g, from, upto, sunday)
    ensures FromWeek(g, from, upto, sunday, rec)
    decreases upto
  {
    if (rec in BlockRecs(g, from, upto - 1, sunday)) {
      BlockRecsOrigin(g, from, upto - 1, sunday, rec);
      var r, i :| from <= r < upto - 1 && 0 <= i < 7 && rec.day == sunday + i && CellEntry(GetRow(g, r), i) == Some(rec.entry);
      assert from <= r < upto;
    } else {
      RowRecsOrigin(GetRow(g, upto - 1), sunday, DaysPerWeek, rec);
      var i :| 0 <= i < 7 && rec.day == sunday + i && CellEntry(GetRow(g, upto - 1), i) == Some(rec.entry);
      assert from <= upto - 1 < upto;
    }
  }

  /** The Sunday given to header `k`, from the Sunday carried over the headers before it */
  function WeekSunday(g: Grid, headers: seq<nat>, k: nat, rule: SundayRule): Option<int>
    requires k < |headers|
  {
    rule(GetRow(g, headers[k]), Scan(g, headers, k, rule).1)
  }

  /** The row that ends the week of header `k`: the next header, or the end of the sheet */
  function NextHeader(g: Grid, headers: seq<nat>, k: nat): nat
    requires k < |headers|
  {
    if k + 1 < |headers| then headers[k + 1] else |g|
  }

  /** The record was read in the week of one of the first `n` headers, on its Sunday plus its column's weekday */
  predicate FromSomeWeek(g: Grid, headers: seq<nat>, n: nat, rule: SundayRule, rec: Rec)
    requires n <= |headers|
  {
    n > 0 &&
    (FromSomeWeek(g, headers, n - 1, rule, rec) ||
     (WeekSunday(g, headers, n - 1, rule).Some? &&
      FromWeek(g, headers[n - 1] + 1, NextHeader(g, headers, n - 1), WeekSunday(g, headers, n - 1, rule).value, rec)))
  }

  /** The records of the week of header `k`: none when it got no Sunday */
  function WeekRecs(g: Grid, headers: seq<nat>, k: nat, rule: SundayRule): seq<Rec>
    requires k < |headers|
  {
    var s := WeekSunday(g, headers, k, rule);
    if s.Some? then BlockRecs(g, headers[k] + 1, NextHeader(g, headers, k), s.value) else []
  }

  lemma ScanRecsStep(g: Grid, headers: seq<nat>, k: nat, rule: SundayRule)
    requires k < |headers|
    ensures Scan(g, headers, k + 1, rule).0 == Scan(g, headers, k, rule).0 + WeekRecs(g, headers, k, rule)
  {
    if WeekSunday(g, headers, k, rule).None? {
      assert Scan(g, headers, k, rule).0 + [] == Scan(g, headers, k, rule).0;
    }
  }

  /** Every record of the scan comes from the data rows of a week that got a Sunday */
  lemma {:induction false} ScanOrigin(g: Grid, headers: seq<nat>, n: nat, rule: SundayRule, rec: Rec)
    requires n <= |headers| && rec in Scan(g, headers, n, rule).0
    ensures FromSomeWeek(g, headers, n, rule, rec)
  {
    ScanRecsStep(g, headers, n - 1, rule);
    if (rec in Scan(g, headers, n - 1, rule).0) {
      ScanOrigin(g, headers, n - 1, rule, rec);
    } else {
      var s := WeekSunday(g, headers, n - 1, rule);
      BlockRecsOrigin(g, headers[n - 1] + 1, NextHeader(g, headers, n - 1), s.value, rec);
    }
  }

  /** Every state and name pair of a data row between `from` and `to` gives a record of the block */
  lemma {:induction false} BlockRecsComplete(g: Grid, from: nat, upto: nat, sunday: int, r: nat, i: nat)
    requires from <= r < upto && i < 7 && CellEntry(GetRow(g, r), i).Some?
    ensures Rec(sunday + i, CellEntry(GetRow(g, r), i).value) in BlockRecs(g, from, upto, sunday)
    decreases upto
  {
    if r < upto - 1 {
      BlockRecsComplete(g, from, upto - 1, sunday, r, i);
    } else {
      RowRecsComplete(GetRow(g, r), sunday, DaysPerWeek, i);
    }
  }

  /** Every state and name pair in a data row of a week that got a Sunday is a record of that week */
  lemma WeekRecsComplete(g: Grid, headers: seq<nat>, k: nat, rule: SundayRule, r: nat, i: nat, s: int, e: Entry)
    requires k < |headers| && WeekSunday(g, headers, k, rule) == Some(s)
    requires headers[k] < r < NextHeader(g, headers, k) && i < 7 && CellEntry(GetRow(g, r), i) == Some(e)
    ensures Rec(s + i, e) in WeekRecs(g, headers, k, rule)
  {
    BlockRecsComplete(g, headers[k] + 1, NextHeader(g, headers, k), s, r, i);
    WeekRecsOfBlock(g, headers, k, rule, s, Rec(s + i, e));
  }

  /** A week that got Sunday `s` holds the records of its data rows dated from `s` */
  lemma WeekRecsOfBlock(g: Grid, headers: seq<nat>, k: nat, rule: SundayRule, s: int, rec: Rec)
    requires k < |headers| && WeekSunday(g, headers, k, rule) == Some(s)
    requires rec in BlockRecs(g, headers[k] + 1, NextHeader(g, headers, k), s)
    ensures rec in WeekRecs(g, headers, k, rule)
  {
  }

  /**
   * Every state and name pair in a data row of a week that got a Sunday is a
   * record of the scan, dated that Sunday plus the column's weekday
   */
  lemma ScanComplete(g: Grid, headers: seq<nat>, n: nat, rule: SundayRule, k: nat, rec: Rec)
    requires k < n <= |headers| && rec in WeekRecs(g, headers, k, rule)
    ensures rec in Scan(g, headers, n, rule).0
  {
    WeekInScan(g, headers, k, rule, rec);
    ScanKeepsFrom(g, headers, k + 1, n, rule, rec);
  }

  /** A record of the first `m` weeks is a record of the first `n`, for `m <= n` */
  lemma ScanKeepsFrom(g: Grid, headers: seq<nat>, m: nat, n: nat, rule: SundayRule, rec: Rec)
    requires m <= n <= |headers| && rec in Scan(g, headers, m, rule).0
    ensures rec in Scan(g, headers, n, rule).0
  {
    var f := ScanPrefixes(g, headers, rule);
    forall j | m <= j < n && rec in f(j)
      ensures rec in f(j + 1)
    {
      ScanKeeps(g, headers, j, rule, rec);
    }
    KeptAlong(f, m, n, rec);
  }

  /** The records of the first `j` weeks, for every `j` up to the number of headers */
  function ScanPrefixes(g: Grid, headers: seq<nat>, rule: SundayRule): nat -> seq<Rec>
  {
    (j: nat) => if j <= |headers| then Scan(g, headers, j, rule).0 else []
  }

  /** A record of `f(m)` is a record of `f(n)` when every step from `m` to `n` keeps it */
  lemma {:induction false} KeptAlong(f: nat -> seq<Rec>, m: nat, n: nat, rec: Rec)
    requires m <= n && rec in f(m)
    requires forall j :: m <= j < n && rec in f(j) ==> rec in f(j + 1)
    ensures rec in f(n)
    decreases n
  {
    if m < n {
      KeptAlong(f, m, n - 1, rec);
    }
  }

  /** A record of week `m` is a record of the first `m + 1` weeks */
  lemma WeekInScan(g: Grid, headers: seq<nat>, m: nat, rule: SundayRule, rec: Rec)
    requires m < |headers| && rec in WeekRecs(g, headers, m, rule)
    ensures rec in Scan(g, headers, m + 1, rule).0
  {
    ScanRecsStep(g, headers, m, rule);
  }

  /** A record of the first `m` weeks is a record of the first `m + 1` */
  lemma ScanKeeps(g: Grid, headers: seq<nat>, m: nat, rule: SundayRule, rec: Rec)
    requires m < |headers| && rec in Scan(g, headers, m, rule).0
    ensures rec in Scan(g, headers, m + 1, rule).0
  {
    ScanRecsStep(g, headers, m, rule);
  }

  /** The first real date of a header row sits in the column of its own weekday */
  predicate AnchorOnItsDay(row: Row, generic: string -> Option<int>)
  {
    AnchorFits(Anchor(row, generic, 0))
  }

  /** No anchor, or a date whose weekday is the anchor's column */
  predicate AnchorFits(anchor: Option<(int, nat)>)
  {
    anchor.Some? ==> Weekday(anchor.value.0) == anchor.value.1
  }

  /** Every header row's anchor sits in the column of its own weekday */
  predicate AnchorsOnTheirDays(g: Grid, headers: seq<nat>, generic: string -> Option<int>)
  {
    forall k :: 0 <= k < |headers| ==> AnchorOnItsDay(GetRow(g, headers[k]), generic)
  }

  /** No day, or a Sunday */
  predicate SundayIfAny(d: Option<int>)
  {
    d.Some? ==> Weekday(d.value) == 0
  }

  /** An anchor in its weekday's column, or a Sunday carried over, gives a Sunday */
  lemma WeekStartWeekday(anchor: Option<(int, nat)>, prev: Option<int>)
    requires AnchorFits(anchor) && SundayIfAny(prev)
    ensures SundayIfAny(WeekStart(anchor, prev))
  {
    if anchor.Some? {
      WeekdayShift(anchor.value.0, 0);
    } else if prev.Some? {
      WeekdayShift(prev.value, 1);
    }
  }

  /** A rule that gives a Sunday, if anything, whenever the carried day is a Sunday, if anything */
  ghost predicate KeepsSundays(g: Grid, headers: seq<nat>, rule: SundayRule)
  {
    forall k, prev :: 0 <= k < |headers| && SundayIfAny(prev) ==> SundayIfAny(rule(GetRow(g, headers[k]), prev))
  }

  /** When the rule keeps Sundays, every day the scan carries is a Sunday */
  lemma {:induction false} ScanSundays(g: Grid, headers: seq<nat>, n: nat, rule: SundayRule)
    requires n <= |headers| && KeepsSundays(g, headers, rule)
    ensures SundayIfAny(Scan(g, headers, n, rule).1)
  {
    if n > 0 {
      ScanSundays(g, headers, n - 1, rule);
      var prev := Scan(g, headers, n - 1, rule).1;
      assert SundayIfAny(rule(GetRow(g, headers[n - 1]), prev));
    }
  }

  /** When every anchor sits in its weekday's column, `SundayOf` keeps Sundays */
  lemma AnchorsKeepSundays(g: Grid, headers: seq<nat>, generic: string -> Option<int>)
    requires AnchorsOnTheirDays(g, headers, generic)
    ensures KeepsSundays(g, headers, SundayRuleOf(generic))
  {
    forall k, prev | 0 <= k < |headers| && SundayIfAny(prev)
      ensures SundayIfAny(SundayRuleOf(generic)(GetRow(g, headers[k]), prev))
    {
      var row := GetRow(g, headers[k]);
      assert AnchorOnItsDay(row, generic);
      WeekStartWeekday(Anchor(row, generic, 0), prev);
    }
  }

  /** The record was read from some row, in the column of its own weekday */
  ghost predicate OnItsWeekday(g: Grid, rec: Rec)
  {
    exists r, i :: 0 <= i < 7 && CellEntry(GetRow(g, r), i) == Some(rec.entry) && Weekday(rec.day) == i
  }

  /** A week that got a Sunday dates its records by the weekday of their columns */
  lemma WeekRecordWeekday(g: Grid, headers: seq<nat>, k: nat, rule: SundayRule, rec: Rec)
    requires KeepsSundays(g, headers, rule)
    requires k < |headers| && WeekSunday(g, headers, k, rule).Some?
    requires FromWeek(g, headers[k] + 1, NextHeader(g, headers, k), WeekSunday(g, headers, k, rule).value, rec)
    ensures OnItsWeekday(g, rec)
  {
    var s := WeekSunday(g, headers, k, rule).value;
    ScanSundays(g, headers, k + 1, rule);
    assert Scan(g, headers, k + 1, rule).1 == Some(s);
    var r, i :| headers[k] + 1 <= r < NextHeader(g, headers, k) && 0 <= i < 7 && rec.day == s + i &&
      CellEntry(GetRow(g, r), i) == Some(rec.entry);
    WeekdayAfterSunday(s, i);
    assert 0 <= i < 7 && CellEntry(GetRow(g, r), i) == Some(rec.entry) && Weekday(rec.day) == i;
  }

  /**
   * When the rule keeps Sundays, every record of the
   * first `n` weeks falls on the weekday of the column it was read from
   */
  lemma {:induction false} RecordWeekday(g: Grid, headers: seq<nat>, n: nat, rule: SundayRule, rec: Rec)
    requires KeepsSundays(g, headers, rule)
    requires n <= |headers| && FromSomeWeek(g, headers, n, rule, rec)
    ensures OnItsWeekday(g, rec)
  {
    if FromSomeWeek(g, headers, n - 1, rule, rec) {
      RecordWeekday(g, headers, n - 1, rule, rec);
    } else {
      WeekRecordWeekday(g, headers, n - 1, rule, rec);
    }
  }

  // ---------------------------------------------------------------------
  // Deduplication

  /** The state and name the deduplication normalises an entry to */
  function Normalized(e: Entry): Entry
  {
    Entry(NormState(e.state), CleanName(e.name))
  }

  /** `st + '|' + nm.toLowerCase()` */
  function Key(e: Entry): string
  {
    e.state + "|" + Lower(e.name)
  }

  /** Entries that survive the emptiness test */
  predicate Usable(e: Entry)
  {
    Normalized(e).state != [] && Normalized(e).name != []
  }

  /** The deduplicated list, given the keys already `seen` */
  function DedupFrom(arr: seq<Entry>, seen: set<string>): seq<Entry>
    decreases |arr|
  {
    if arr == [] then []
    else
      var e := Normalized(arr[0]);
      if !Usable(arr[0]) || Key(e) in seen then DedupFrom(arr[1..], seen)
      else [e] + DedupFrom(arr[1..], seen + {Key(e)})
  }

  function Dedup(arr: seq<Entry>): seq<Entry>
  {
    DedupFrom(arr, {})
  }

  /** The deduplication loop of one date's list */
  method DedupEntries(arr: seq<Entry>) returns (dedup: seq<Entry>)
    ensures dedup == Dedup(arr)
  {
    var seen: set<string> := {};
    dedup := [];
    var i := 0;
    while i < |arr|
      invariant 0 <= i <= |arr|
      invariant dedup + DedupFrom(arr[i..], seen) == Dedup(arr)
    {
      var e := Normalized(arr[i]);
      assert arr[i..][1..] == arr[i + 1..];
      if e.state != [] && e.name != [] && Key(e) !in seen {
        seen := seen + {Key(e)};
        dedup := dedup + [e];
      }
      i := i + 1;
    }
  }

  /** No key of `d` is in `seen` */
  predicate KeysOutside(d: seq<Entry>, seen: set<string>)
  {
    forall i :: 0 <= i < |d| ==> Key(d[i]) !in seen
  }

  /** No two entries of `d` share a key */
  predicate KeysDistinct(d: seq<Entry>)
  {
    forall i, j :: 0 <= i < j < |d| ==> Key(d[i]) != Key(d[j])
  }

  /** Some entry of `d` has the key */
  predicate HasKey(d: seq<Entry>, key: string)
  {
    exists i :: 0 <= i < |d| && Key(d[i]) == key
  }

  /** `x` is the normalised form of an entry of `arr` */
  predicate NormalizedFrom(x: Entry, arr: seq<Entry>)
  {
    exists k :: 0 <= k < |arr| && x == Normalized(arr[k])
  }

  /** No two kept entries share a key, nor a key already seen */
  lemma {:induction false} DedupFromUnique(arr: seq<Entry>, seen: set<string>)
    ensures KeysOutside(DedupFrom(arr, seen), seen) && KeysDistinct(DedupFrom(arr, seen))
    decreases |arr|
  {
    if arr != [] {
      var e := Normalized(arr[0]);
      var rest := arr[1..];
      if !Usable(arr[0]) || Key(e) in seen {
        DedupFromUnique(rest, seen);
        assert DedupFrom(arr, seen) == DedupFrom(rest, seen);
      } else {
        var seen2 := seen + {Key(e)};
        DedupFromUnique(rest, seen2);
        var t := DedupFrom(rest, seen2);
        var d := DedupFrom(arr, seen);
        assert d == [e] + t;
        forall i | 0 <= i < |d| ensures Key(d[i]) !in seen {
          if i > 0 {
            assert d[i] == t[i - 1];
          }
        }
        forall i, j | 0 <= i < j < |d| ensures Key(d[i]) != Key(d[j]) {
          assert d[j] == t[j - 1];
          if i > 0 {
            assert d[i] == t[i - 1];
          }
        }
      }
    }
  }

  /** Every usable entry's key is either seen already or kept */
  lemma {:induction false} DedupFromComplete(arr: seq<Entry>, seen: set<string>, k: nat)
    requires k < |arr| && Usable(arr[k]) && Key(Normalized(arr[k])) !in seen
    ensures HasKey(DedupFrom(arr, seen), Key(Normalized(arr[k])))
    decreases |arr|, 1
  {
    var e := Normalized(arr[0]);
    if !Usable(arr[0]) || Key(e) in seen {
      assert k > 0 && arr[k] == arr[1..][k - 1];
      DedupFromComplete(arr[1..], seen, k - 1);
    } else if Key(Normalized(arr[k])) == Key(e) {
      assert Key(DedupFrom(arr, seen)[0]) == Key(e);
    } else {
      DedupFromCompleteLater(arr, seen, k);
    }
  }

  /** The case of an entry behind a kept first entry with another key */
  lemma {:induction false} DedupFromCompleteLater(arr: seq<Entry>, seen: set<string>, k: nat)
    requires k < |arr| && Usable(arr[k]) && Key(Normalized(arr[k])) !in seen
    requires Usable(arr[0]) && Key(Normalized(arr[0])) !in seen
    requires Key(Normalized(arr[k])) != Key(Normalized(arr[0]))
    ensures HasKey(DedupFrom(arr, seen), Key(Normalized(arr[k])))
    decreases |arr|, 0
  {
    var rest := arr[1..];
    var seen2 := seen + {Key(Normalized(arr[0]))};
    assert k > 0 && arr[k] == rest[k - 1];
    DedupFromComplete(rest, seen2, k - 1);
    var tail := DedupFrom(rest, seen2);
    assert DedupFrom(arr, seen) == [Normalized(arr[0])] + tail;
    HasKeyCons(Normalized(arr[0]), tail, Key(Normalized(arr[k])));
  }

  lemma HasKeyCons(x: Entry, tail: seq<Entry>, key: string)
    requires HasKey(tail, key)
    ensures HasKey([x] + tail, key)
  {
    var i :| 0 <= i < |tail| && Key(tail[i]) == key;
    assert ([x] + tail)[i + 1] == tail[i];
  }

  /** Every kept entry is the normalised form of an entry of the list */
  lemma {:induction false} DedupFromSound(arr: seq<Entry>, seen: set<string>, i: nat)
    requires i < |DedupFrom(arr, seen)|
    ensures NormalizedFrom(DedupFrom(arr, seen)[i], arr)
    decreases |arr|
  {
    var e := Normalized(arr[0]);
    var rest := arr[1..];
    if !Usable(arr[0]) || Key(e) in seen {
      DedupFromSound(rest, seen, i);
      var k :| 0 <= k < |rest| && DedupFrom(rest, seen)[i] == Normalized(rest[k]);
      assert rest[k] == arr[k + 1];
    } else if i > 0 {
      var seen2 := seen + {Key(e)};
      DedupFromSound(rest, seen2, i - 1);
      var k :| 0 <= k < |rest| && DedupFrom(rest, seen2)[i - 1] == Normalized(rest[k]);
      assert rest[k] == arr[k + 1];
    }
  }

  /**
   * After deduplication no two entries of a date share the key (state, lower-cased
   * name); every usable entry's key survives; every kept entry is the normalised
   * form of an entry of the list
   */
  lemma DedupSpec(arr: seq<Entry>)
    ensures KeysDistinct(Dedup(arr))
    ensures forall k :: 0 <= k < |arr| && Usable(arr[k]) ==>
      HasKey(Dedup(arr), Key(Normalized(arr[k])))
    ensures forall i :: 0 <= i < |Dedup(arr)| ==> NormalizedFrom(Dedup(arr)[i], arr)
  {
    DedupFromUnique(arr, {});
    forall k | 0 <= k < |arr| && Usable(arr[k])
      ensures HasKey(Dedup(arr), Key(Normalized(arr[k])))
    {
      DedupFromComplete(arr, {}, k);
    }
    forall i | 0 <= i < |Dedup(arr)|
      ensures NormalizedFrom(Dedup(arr)[i], arr)
    {
      DedupFromSound(arr, {}, i);
    }
  }

  /** The entry at `k` is usable and no usable entry before it has its key */
  predicate FirstOfKey(arr: seq<Entry>, k: nat)
    requires k < |arr|
  {
    Usable(arr[k]) &&
    forall j :: 0 <= j < k && Usable(arr[j]) ==> Key(Normalized(arr[j])) != Key(Normalized(arr[k]))
  }

  /** The normalised first entries per key among `arr[..n]`, in the order of `arr` */
  function Firsts(arr: seq<Entry>, n: nat): seq<Entry>
    requires n <= |arr|
  {
    if n == 0 then []
    else Firsts(arr, n - 1) + (if FirstOfKey(arr, n - 1) then [Normalized(arr[n - 1])] else [])
  }

  /** The keys of the usable entries among `arr[..n]` */
  function KeysBefore(arr: seq<Entry>, n: nat): set<string>
    requires n <= |arr|
  {
    if n == 0 then {}
    else KeysBefore(arr, n - 1) + (if Usable(arr[n - 1]) then {Key(Normalized(arr[n - 1]))} else {})
  }

  lemma KeysBeforeSpec(arr: seq<Entry>, n: nat, key: string)
    requires n <= |arr|
    ensures key in KeysBefore(arr, n) <==>
      exists j :: 0 <= j < n && Usable(arr[j]) && Key(Normalized(arr[j])) == key
  {
    if key in KeysBefore(arr, n) {
      var j := KeysBeforeWitness(arr, n, key);
    }
    if exists j :: 0 <= j < n && Usable(arr[j]) && Key(Normalized(arr[j])) == key {
      var j :| 0 <= j < n && Usable(arr[j]) && Key(Normalized(arr[j])) == key;
      KeysBeforeHas(arr, n, j);
    }
  }

  /** A key among `arr[..n]` is the key of a usable entry there */
  lemma {:induction false} KeysBeforeWitness(arr: seq<Entry>, n: nat, key: string) returns (j: nat)
    requires n <= |arr| && key in KeysBefore(arr, n)
    ensures j < n && Usable(arr[j]) && Key(Normalized(arr[j])) == key
    decreases n
  {
    if key in KeysBefore(arr, n - 1) {
      j := KeysBeforeWitness(arr, n - 1, key);
    } else {
      j := n - 1;
    }
  }

  /** The key of every usable entry among `arr[..n]` is among the keys */
  lemma {:induction false} KeysBeforeHas(arr: seq<Entry>, n: nat, j: nat)
    requires j < n <= |arr| && Usable(arr[j])
    ensures Key(Normalized(arr[j])) in KeysBefore(arr, n)
    decreases n
  {
    if j < n - 1 {
      KeysBeforeHas(arr, n - 1, j);
    }
  }

  /** The entry kept at index `m`, if any */
  function FirstAt(arr: seq<Entry>, m: nat): seq<Entry>
    requires m < |arr|
  {
    if FirstOfKey(arr, m) then [Normalized(arr[m])] else []
  }

  /** One turn of the deduplication loop */
  lemma DedupStep(arr: seq<Entry>, m: nat)
    requires m < |arr|
    ensures DedupFrom(arr[m..], KeysBefore(arr, m)) == FirstAt(arr, m) + DedupFrom(arr[m + 1..], KeysBefore(arr, m + 1))
  {
    var key := Key(Normalized(arr[m]));
    assert arr[m..][0] == arr[m] && arr[m..][1..] == arr[m + 1..];
    KeysBeforeSpec(arr, m, key);
    if FirstOfKey(arr, m) {
      assert key !in KeysBefore(arr, m);
    } else if Usable(arr[m]) {
      assert key in KeysBefore(arr, m);
      assert KeysBefore(arr, m + 1) == KeysBefore(arr, m);
    } else {
      assert KeysBefore(arr, m + 1) == KeysBefore(arr, m);
    }
  }

  /** Moving the kept entry from the rest to the prefix leaves the whole unchanged */
  lemma Regroup(a: seq<Entry>, f: seq<Entry>, d: seq<Entry>, af: seq<Entry>)
    requires af == a + f
    ensures af + d == a + (f + d)
  {
  }

  /** The deduplication loop after `n` entries: the first entries so far, then the rest deduplicated */
  lemma {:induction false} DedupPrefix(arr: seq<Entry>, n: nat)
    requires n <= |arr|
    ensures Firsts(arr, n) + DedupFrom(arr[n..], KeysBefore(arr, n)) == Dedup(arr)
    decreases n
  {
    if n == 0 {
      assert arr[0..] == arr;
    } else {
      var m := n - 1;
      DedupPrefix(arr, m);
      DedupStep(arr, m);
      Regroup(Firsts(arr, m), FirstAt(arr, m), DedupFrom(arr[n..], KeysBefore(arr, n)), Firsts(arr, n));
    }
  }

  /**
   * The deduplicated list holds, for each key, the normalised form of the FIRST
   * usable entry with that key, and the kept entries stay in input order
   */
  lemma DedupFirsts(arr: seq<Entry>)
    ensures Dedup(arr) == Firsts(arr, |arr|)
  {
    DedupPrefix(arr, |arr|);
    assert arr[|arr|..] == [];
  }

  // ---------------------------------------------------------------------
  // The parser

  /** What `parseDailyAvailabilityWorksheet` returns for the sheet `g` */
  function DailyAvailability(g: Grid, generic: string -> Option<int>): map<string, seq<Entry>>
  {
    DailyOf(SheetRecords(g, generic))
  }

  /** The records filed under their dates, each date's list deduplicated */
  function DailyOf(recs: seq<Rec>): map<string, seq<Entry>>
  {
    var raw := AddAll(map[], recs, Ymd);
    map k | k in raw :: Dedup(raw[k])
  }

  /** Every record the sheet's weeks yield, in row and column order */
  function SheetRecords(g: Grid, generic: string -> Option<int>): seq<Rec>
  {
    Scan(g, HeaderRows(g, generic, |g|), |HeaderRows(g, generic, |g|)|, SundayRuleOf(generic)).0
  }

  /**
   * `parseDailyAvailabilityWorksheet(ws)` on the rows of the sheet: find the
   * header rows, walk the weeks carrying the previous Sunday, file each record
   * under its date, then deduplicate each date's list in place
   */
  method ParseDailyAvailabilityWorksheet(g: Grid, generic: string -> Option<int>) returns (out: map<string, seq<Entry>>)
    ensures out == DailyAvailability(g, generic)
  {
    out := map[];
    if |g| == 0 {
      return;
    }
    var headers := FindHeaderRows(g, generic);
    if |headers| == 0 {
      return;
    }
    out := FileWeeks(g, headers, generic);
    out := DedupAll(out);
  }

  // ---------------------------------------------------------------------
  // What the parsed availability holds

  /** Some record dated by `text` as `k` carries the entry `x` */
  predicate FiledUnder(recs: seq<Rec>, text: int -> string, k: string, x: Entry)
  {
    exists rec :: rec in recs && text(rec.day) == k && rec.entry == x
  }

  /** Every entry filed under a date comes from a record of that date */
  lemma {:induction false} AddAllOrigin(recs: seq<Rec>, text: int -> string, k: string, x: Entry)
    requires k in AddAll(map[], recs, text) && x in AddAll(map[], recs, text)[k]
    ensures FiledUnder(recs, text, k, x)
    decreases |recs|
  {
    var init := recs[..|recs| - 1];
    var last := recs[|recs| - 1];
    var prev := AddAll(map[], init, text);
    if k in prev && x in prev[k] {
      AddAllOrigin(init, text, k, x);
      var rec :| rec in init && text(rec.day) == k && rec.entry == x;
      assert rec in recs;
    } else {
      assert text(last.day) == k && x == last.entry;
    }
  }

  /** Every record is filed under its own date */
  lemma {:induction false} AddAllComplete(recs: seq<Rec>, text: int -> string, rec: Rec)
    requires rec in recs
    ensures text(rec.day) in AddAll(map[], recs, text)
    ensures rec.entry in AddAll(map[], recs, text)[text(rec.day)]
    decreases |recs|
  {
    var init := recs[..|recs| - 1];
    var last := recs[|recs| - 1];
    if rec != last || rec in init {
      assert rec in init by {
        if rec != last {
          var j :| 0 <= j < |recs| && recs[j] == rec;
          assert init[j] == rec;
        }
      }
      AddAllComplete(init, text, rec);
    }
  }

  /**
   * The parsed availability: under every date, no two people share a key;
   * every one of them is the normalised entry of a record of that date; and
   * every usable record of the sheet is kept under its date
   */
  lemma DailyAvailabilitySpec(g: Grid, generic: string -> Option<int>)
    ensures forall d :: d in DailyAvailability(g, generic) ==> KeysDistinct(DailyAvailability(g, generic)[d])
    ensures forall d, x :: d in DailyAvailability(g, generic) && x in DailyAvailability(g, generic)[d] ==>
      exists rec :: rec in SheetRecords(g, generic) && Ymd(rec.day) == d && x == Normalized(rec.entry)
    ensures forall rec :: rec in SheetRecords(g, generic) && Usable(rec.entry) ==>
      Ymd(rec.day) in DailyAvailability(g, generic) &&
      HasKey(DailyAvailability(g, generic)[Ymd(rec.day)], Key(Normalized(rec.entry)))
  {
    var recs := SheetRecords(g, generic);
    var raw := AddAll(map[], recs, Ymd);
    var out := DailyAvailability(g, generic);
    forall d | d in out
      ensures KeysDistinct(out[d])
    {
      DedupSpec(raw[d]);
    }
    forall d, x | d in out && x in out[d]
      ensures exists rec :: rec in recs && Ymd(rec.day) == d && x == Normalized(rec.entry)
    {
      DedupSpec(raw[d]);
      var i :| 0 <= i < |out[d]| && out[d][i] == x;
      assert NormalizedFrom(out[d][i], raw[d]);
      var k :| 0 <= k < |raw[d]| && x == Normalized(raw[d][k]);
      AddAllOrigin(recs, Ymd, d, raw[d][k]);
      var rec :| rec in recs && Ymd(rec.day) == d && rec.entry == raw[d][k];
    }
    forall rec | rec in recs && Usable(rec.entry)
      ensures Ymd(rec.day) in out && HasKey(out[Ymd(rec.day)], Key(Normalized(rec.entry)))
    {
      AddAllComplete(recs, Ymd, rec);
      var d := Ymd(rec.day);
      var k :| 0 <= k < |raw[d]| && raw[d][k] == rec.entry;
      DedupSpec(raw[d]);
    }
  }

  /**
   * Every usable state and name pair in a data row of a week whose header
   * got a Sunday is kept under Sunday plus the weekday of its column
   */
  lemma DailyAvailabilityComplete(g: Grid, generic: string -> Option<int>, headers: seq<nat>, rule: SundayRule,
                                  k: nat, r: nat, i: nat, s: int, e: Entry)
    requires headers == HeaderRows(g, generic, |g|) && rule == SundayRuleOf(generic)
    requires k < |headers| && WeekSunday(g, headers, k, rule) == Some(s)
    requires headers[k] < r < NextHeader(g, headers, k) && i < 7
    requires CellEntry(GetRow(g, r), i) == Some(e) && Usable(e)
    ensures Ymd(s + i) in DailyAvailability(g, generic)
    ensures HasKey(DailyAvailability(g, generic)[Ymd(s + i)], Key(Normalized(e)))
  {
    ScanDailyComplete(g, headers, rule, k, r, i, s, e);
  }

  /** The same for any Sunday rule: the scan's records, filed and deduplicated, keep every usable cell */
  lemma ScanDailyComplete(g: Grid, headers: seq<nat>, rule: SundayRule, k: nat, r: nat, i: nat, s: int, e: Entry)
    requires k < |headers| && WeekSunday(g, headers, k, rule) == Some(s)
    requires headers[k] < r < NextHeader(g, headers, k) && i < 7
    requires CellEntry(GetRow(g, r), i) == Some(e) && Usable(e)
    ensures Ymd(s + i) in DailyOf(Scan(g, headers, |headers|, rule).0)
    ensures HasKey(DailyOf(Scan(g, headers, |headers|, rule).0)[Ymd(s + i)], Key(Normalized(e)))
  {
    ScanKeepsAll(g, headers, rule);
    ScanCellComplete(g, headers, rule, k, r, i, s, e);
  }

  /** Every usable record of the scan is kept under its date */
  lemma ScanKeepsAll(g: Grid, headers: seq<nat>, rule: SundayRule)
    ensures forall day, e :: Rec(day, e) in Scan(g, headers, |headers|, rule).0 && Usable(e) ==>
      Ymd(day) in DailyOf(Scan(g, headers, |headers|, rule).0) && HasKey(DailyOf(Scan(g, headers, |headers|, rule).0)[Ymd(day)], Key(Normalized(e)))
  {
    forall day, e | Rec(day, e) in Scan(g, headers, |headers|, rule).0 && Usable(e)
      ensures Ymd(day) in DailyOf(Scan(g, headers, |headers|, rule).0) && HasKey(DailyOf(Scan(g, headers, |headers|, rule).0)[Ymd(day)], Key(Normalized(e)))
    {
      ScanRecKept(g, headers, rule, day, e);
    }
  }

  /** A usable record of the scan is kept under its date */
  lemma ScanRecKept(g: Grid, headers: seq<nat>, rule: SundayRule, day: int, e: Entry)
    requires Rec(day, e) in Scan(g, headers, |headers|, rule).0 && Usable(e)
    ensures Ymd(day) in DailyOf(Scan(g, headers, |headers|, rule).0)
    ensures HasKey(DailyOf(Scan(g, headers, |headers|, rule).0)[Ymd(day)], Key(Normalized(e)))
  {
    KeptUnderDate(Scan(g, headers, |headers|, rule).0, Rec(day, e));
  }

  /** A usable record is kept under its date */
  lemma KeptUnderDate(recs: seq<Rec>, rec: Rec)
    requires rec in recs && Usable(rec.entry)
    ensures Ymd(rec.day) in DailyOf(recs)
    ensures HasKey(DailyOf(recs)[Ymd(rec.day)], Key(Normalized(rec.entry)))
  {
    DedupedKeeps(recs, rec);
  }

  /** Every state and name pair in a data row of a week that got a Sunday is a record of the whole scan */
  lemma ScanCellComplete(g: Grid, headers: seq<nat>, rule: SundayRule, k: nat, r: nat, i: nat, s: int, e: Entry)
    requires k < |headers| && WeekSunday(g, headers, k, rule) == Some(s)
    requires headers[k] < r < NextHeader(g, headers, k) && i < 7 && CellEntry(GetRow(g, r), i) == Some(e)
    ensures Rec(s + i, e) in Scan(g, headers, |headers|, rule).0
  {
    WeekRecsComplete(g, headers, k, rule, r, i, s, e);
    ScanComplete(g, headers, |headers|, rule, k, Rec(s + i, e));
  }

  /** A usable record is kept, filed and deduplicated, under its date */
  lemma DedupedKeeps(recs: seq<Rec>, rec: Rec)
    requires rec in recs && Usable(rec.entry)
    ensures var raw := AddAll(map[], recs, Ymd);
      Ymd(rec.day) in raw && HasKey(Dedup(raw[Ymd(rec.day)]), Key(Normalized(rec.entry)))
  {
    var raw := AddAll(map[], recs, Ymd);
    AddAllComplete(recs, Ymd, rec);
    var d := Ymd(rec.day);
    var j :| 0 <= j < |raw[d]| && raw[d][j] == rec.entry;
    DedupSpec(raw[d]);
  }

  /**
   * When every header row's first real date sits in the column of its own
   * weekday, every record of the sheet falls on the weekday of its column
   */
  lemma SheetRecordWeekday(g: Grid, generic: string -> Option<int>, rec: Rec)
    requires forall r :: 0 <= r < |g| && IsHeaderRow(g[r], r, generic) ==> AnchorOnItsDay(g[r], generic)
    requires rec in SheetRecords(g, generic)
    ensures OnItsWeekday(g, rec)
  {
    var headers := HeaderRows(g, generic, |g|);
    HeaderRowsSpec(g, generic, |g|);
    forall k | 0 <= k < |headers|
      ensures AnchorOnItsDay(GetRow(g, headers[k]), generic)
    {
      assert headers[k] in headers;
    }
    AnchorsKeepSundays(g, headers, generic);
    ScanOrigin(g, headers, |headers|, SundayRuleOf(generic), rec);
    RecordWeekday(g, headers, |headers|, SundayRuleOf(generic), rec);
  }

  /** The walk over the header rows, carrying the previous Sunday from week to week */
  method FileWeeks(g: Grid, headers: seq<nat>, generic: string -> Option<int>) returns (out: map<string, seq<Entry>>)
    ensures out == AddAll(map[], Scan(g, headers, |headers|, SundayRuleOf(generic)).0, Ymd)
  {
    out := map[];
    var prevSunday: Option<int> := None;
    var hi := 0;
    while hi < |headers|
      invariant 0 <= hi <= |headers|
      invariant prevSunday == Scan(g, headers, hi, SundayRuleOf(generic)).1
      invariant out == AddAll(map[], Scan(g, headers, hi, SundayRuleOf(generic)).0, Ymd)
    {
      prevSunday, out := FileHeader(g, headers, hi, generic, prevSunday, out);
      hi := hi + 1;
    }
  }

  /** One header: its Sunday, and its week's records filed when it has one */
  method FileHeader(g: Grid, headers: seq<nat>, hi: nat, generic: string -> Option<int>,
                    prevSunday: Option<int>, m: map<string, seq<Entry>>)
    returns (sunday: Option<int>, out: map<string, seq<Entry>>)
    requires hi < |headers|
    requires prevSunday == Scan(g, headers, hi, SundayRuleOf(generic)).1
    requires m == AddAll(map[], Scan(g, headers, hi, SundayRuleOf(generic)).0, Ymd)
    ensures sunday == Scan(g, headers, hi + 1, SundayRuleOf(generic)).1
    ensures out == AddAll(map[], Scan(g, headers, hi + 1, SundayRuleOf(generic)).0, Ymd)
  {
    var hr := headers[hi];
    var s := SundayOf(GetRow(g, hr), prevSunday, generic);
    var next := if hi + 1 < |headers| then headers[hi + 1] else |g|;
    ScanStep(g, headers, hi, SundayRuleOf(generic), prevSunday, s, next);
    if s.None? {
      return prevSunday, m;
    }
    AddAllConcat(map[], Scan(g, headers, hi, SundayRuleOf(generic)).0, BlockRecs(g, hr + 1, next, s.value), Ymd);
    out := FileWeek(g, hr + 1, next, s.value, m);
    sunday := s;
  }

  /** The rows `from .. to-1` of a week, each record appended to its date's list */
  method FileWeek(g: Grid, from: nat, to: nat, sunday: int, m: map<string, seq<Entry>>) returns (out: map<string, seq<Entry>>)
    ensures out == AddAll(m, BlockRecs(g, from, to, sunday), Ymd)
  {
    out := m;
    var stop := if to < from then from else to;
    for r := from to stop
      invariant out == AddAll(m, BlockRecs(g, from, r, sunday), Ymd)
    {
      BlockRecsAddStep(g, from, r, sunday, m, Ymd);
      out := FileRow(GetRow(g, r), sunday, out);
    }
    assert BlockRecs(g, from, stop, sunday) == BlockRecs(g, from, to, sunday);
  }

  /** One data row: each weekday's state and name appended to the list of Sunday plus the weekday */
  method FileRow(row: Row, sunday: int, m: map<string, seq<Entry>>) returns (out: map<string, seq<Entry>>)
    ensures out == AddAll(m, RowRecs(row, sunday, DaysPerWeek), Ymd)
  {
    out := m;
    for i := 0 to DaysPerWeek
      invariant out == AddAll(m, RowRecs(row, sunday, i), Ymd)
    {
      var e := CellEntry(row, i);
      RowRecsStep(row, sunday, i, e);
      if e.Some? {
        var rec := Rec(sunday + i, e.value);
        AddAllSnoc(m, RowRecs(row, sunday, i), rec, Ymd);
        out := Add(out, rec, Ymd);
      }
    }
  }

  /** The deduplication pass over every date of the map */
  method DedupAll(raw: map<string, seq<Entry>>) returns (out: map<string, seq<Entry>>)
    ensures out == map k | k in raw :: Dedup(raw[k])
  {
    out := raw;
    var keys := raw.Keys;
    while keys != {}
      invariant keys <= raw.Keys && out.Keys == raw.Keys
      invariant forall k :: k in out ==> out[k] == (if k in keys then raw[k] else Dedup(raw[k]))
      decreases keys
    {
      var k :| k in keys;
      var dedup := DedupEntries(out[k]);
      out := out[k := dedup];
      keys := keys - {k};
    }
  }

  lemma RowRecsStep(row: Row, sunday: int, i: nat, e: Option<Entry>)
    requires i < 7 && e == CellEntry(row, i)
    ensures e.None? ==> RowRecs(row, sunday, i + 1) == RowRecs(row, sunday, i)
    ensures e.Some? ==> RowRecs(row, sunday, i + 1) == RowRecs(row, sunday, i) + [Rec(sunday + i, e.value)]
  {
    if e.None? {
      assert RowRecs(row, sunday, i) + [] == RowRecs(row, sunday, i);
    }
  }

  lemma ScanStep(g: Grid, headers: seq<nat>, hi: nat, rule: SundayRule, prev: Option<int>, s: Option<int>, next: nat)
    requires hi < |headers| && prev == Scan(g, headers, hi, rule).1
    requires s == rule(GetRow(g, headers[hi]), prev)
    requires next == if hi + 1 < |headers| then headers[hi + 1] else |g|
    ensures s.None? ==> Scan(g, headers, hi + 1, rule) == Scan(g, headers, hi, rule)
    ensures s.Some? ==>
      Scan(g, headers, hi + 1, rule) == (Scan(g, headers, hi, rule).0 + BlockRecs(g, headers[hi] + 1, next, s.value), s)
  {
  }

  lemma BlockRecsAddStep(g: Grid, from: nat, r: nat, sunday: int, m: map<string, seq<Entry>>, text: int -> string)
    requires from <= r
    ensures AddAll(m, BlockRecs(g, from, r + 1, sunday), text) ==
      AddAll(AddAll(m, BlockRecs(g, from, r, sunday), text), RowRecs(GetRow(g, r), sunday, DaysPerWeek), text)
  {
    AddAllConcat(m, BlockRecs(g, from, r, sunday), RowRecs(GetRow(g, r), sunday, DaysPerWeek), text);
  }

  lemma AddAllSnoc(m: map<string, seq<Entry>>, recs: seq<Rec>, rec: Rec, text: int -> string)
    ensures AddAll(m, recs + [rec], text) == Add(AddAll(m, recs, text), rec, text)
  {
    assert (recs + [rec])[..|recs|] == recs;
  }

  lemma {:induction false} AddAllConcat(m: map<string, seq<Entry>>, a: seq<Rec>, b: seq<Rec>, text: int -> string)
    ensures AddAll(m, a + b, text) == AddAll(AddAll(m, a, text), b, text)
    decreases |b|
  {
    if b == [] {
      assert a + b == a;
    } else {
      var b0 := b[..|b| - 1];
      AddAllConcat(m, a, b0, text);
      assert (a + b)[..|a + b| - 1] == a + b0;
    }
  }
}
