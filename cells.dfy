/**
 * Worksheet cells and the per-cell parsers of the on-call application:
 * `normState`, `normalizeZip`, `parseExcelDate(Raw)` and `parseTechCell`.
 */
module Cells {
  import opened Wrappers
  import opened Strings
  import opened Calendar

  /**
   * A cell of an array-of-arrays worksheet. `Empty` is null (or a missing
   * cell); `DateCell` is a JavaScript `Date` given by its UTC day, together
   * with the text `String(date)` shows for it, which depends on the host's
   * time zone and is therefore carried as data.
   */
  datatype Cell = Empty | Text(s: string) | Num(n: int) | DateCell(day: int, shown: string)

  type Row = seq<Cell>
  type Grid = seq<Row>

  /** `String(v ?? '')` */
  function CellString(v: Cell): string
  {
    match v
    case Empty => ""
    case Text(s) => s
    case Num(n) => IntToString(n)
    case DateCell(_, shown) => shown
  }

  /** `row[c]`: a missing cell reads as null */
  function Get(row: Row, c: int): (v: Cell)
    ensures 0 <= c < |row| ==> v == row[c]
    ensures !(0 <= c < |row|) ==> v == Empty
  {
    if 0 <= c < |row| then row[c] else Empty
  }

  /** `aoa[r] || []` */
  function GetRow(g: Grid, r: int): Row
  {
    if 0 <= r < |g| then g[r] else []
  }

  /** The values JavaScript treats as false in `v || ...` */
  predicate Falsy(v: Cell)
  {
    v == Empty || v == Text("") || v == Num(0)
  }

  /** `normState(s)`: trimmed and upper-cased */
  function NormState(s: string): string
  {
    Upper(Trim(s))
  }

  // ---------------------------------------------------------------------
  // normalizeZip

  /** `/\d{5}/` matches at `j` */
  predicate FiveDigitsAt(s: string, j: int)
  {
    0 <= j && j + 5 <= |s| && AllDigits(s[j..j + 5])
  }

  /** Index of the leftmost run of five digits at or after `i` */
  function FindFiveDigits(s: string, i: nat): (r: Option<nat>)
    requires i <= |s|
    ensures r.Some? ==> i <= r.value && FiveDigitsAt(s, r.value)
    ensures r.Some? ==> forall j :: i <= j < r.value ==> !FiveDigitsAt(s, j)
    ensures r.None? ==> forall j :: i <= j ==> !FiveDigitsAt(s, j)
    decreases |s| - i
  {
    if i + 5 > |s| then None
    else if FiveDigitsAt(s, i) then Some(i)
    else FindFiveDigits(s, i + 1)
  }

  /** `replace(/\D/g, '')` */
  function KeepDigits(s: string): (r: string)
    ensures AllDigits(r) && |r| <= |s|
  {
    if s == [] then []
    else if IsDigit(s[0]) then [s[0]] + KeepDigits(s[1..])
    else KeepDigits(s[1..])
  }

  lemma {:induction false} KeepDigitsOfDigits(s: string)
    requires AllDigits(s)
    ensures KeepDigits(s) == s
  {
    if s != [] {
      KeepDigitsOfDigits(s[1..]);
    }
  }

  /** `padStart(5, '0')` */
  function PadZip(d: string): (r: string)
    requires |d| < 5
    ensures |r| == 5 && r[5 - |d|..] == d
    ensures forall i :: 0 <= i < 5 - |d| ==> r[i] == '0'
  {
    seq(5 - |d|, _ => '0') + d
  }

  /**
   * `normalizeZip(z)`: null for null or '', else the first five-digit run
   * of the trimmed text, else its digits cut or zero-padded to five; null
   * when there are no digits.
   */
  function NormalizeZip(z: Cell): (r: Option<string>)
    ensures r.Some? ==> |r.value| == 5 && AllDigits(r.value)
  {
    if z == Empty || z == Text("") then None
    else
      var s := Trim(CellString(z));
      var m := FindFiveDigits(s, 0);
      if m.Some? then Some(s[m.value..m.value + 5])
      else
        var digits := KeepDigits(s);
        if digits == [] then None
        else if |digits| >= 5 then Some(digits[..5])
        else Some(PadZip(digits))
  }

  /** A five-digit ZIP code is kept as it is: normalising is idempotent */
  lemma NormalizeZipOfZip(s: string)
    requires |s| == 5 && AllDigits(s)
    ensures NormalizeZip(Text(s)) == Some(s)
  {
    TrimOfNoSpace(s);
    assert s[0..5] == s;
  }

  lemma NormalizeZipIdempotent(z: Cell)
    requires NormalizeZip(z).Some?
    ensures NormalizeZip(Text(NormalizeZip(z).value)) == NormalizeZip(z)
  {
    NormalizeZipOfZip(NormalizeZip(z).value);
  }

  lemma {:induction false} DigitsValueZeros(z: string)
    requires forall i :: 0 <= i < |z| ==> z[i] == '0'
    ensures AllDigits(z) && DigitsValue(z) == 0
    decreases |z|
  {
    if z != [] {
      DigitsValueZeros(z[..|z| - 1]);
    }
  }

  /** Leading zeros do not change the value of a run of digits */
  lemma {:induction false} DigitsValueLeadingZeros(z: string, d: string)
    requires forall i :: 0 <= i < |z| ==> z[i] == '0'
    requires AllDigits(d)
    ensures AllDigits(z + d) && DigitsValue(z + d) == DigitsValue(d)
    decreases |d|
  {
    if d == [] {
      assert z + d == z;
      DigitsValueZeros(z);
    } else {
      DigitsValueLeadingZeros(z, d[..|d| - 1]);
      assert (z + d)[..|z + d| - 1] == z + d[..|d| - 1];
    }
  }

  /**
   * A ZIP code stored as a number that lost its leading zeros (7803 for
   * 07803) comes back as the five-digit code with that value.
   */
  lemma NormalizeZipOfNumber(n: nat)
    requires 0 < n < 100000
    ensures NormalizeZip(Num(n)).Some?
    ensures DigitsValue(NormalizeZip(Num(n)).value) == n
  {
    var s := NatToString(n);
    NatToStringLength(n, 5);
    TrimOfNoSpace(s);
    assert CellString(Num(n)) == s;
    if |s| == 5 {
      assert s[0..5] == s && FiveDigitsAt(s, 0);
    }
    var m := FindFiveDigits(s, 0);
    DigitsValueOfNatToString(n);
    if m.None? {
      KeepDigitsOfDigits(s);
      DigitsValueLeadingZeros(seq(5 - |s|, _ => '0'), s);
    }
  }

  /** The leftmost match of `/\d{5}/` in `s` starts at `j` */
  predicate FirstFiveDigitsAt(s: string, j: int)
  {
    FiveDigitsAt(s, j) && forall i :: 0 <= i < j ==> !FiveDigitsAt(s, i)
  }

  /** `replace(/\D/g, '')` is empty exactly when the text has no digit */
  lemma {:induction false} KeepDigitsEmpty(s: string)
    ensures KeepDigits(s) == [] <==> forall i :: 0 <= i < |s| ==> !IsDigit(s[i])
  {
    if s != [] {
      KeepDigitsEmpty(s[1..]);
      assert forall i :: 1 <= i < |s| ==> s[i] == s[1..][i - 1];
    }
  }

  /** No ZIP exactly for a null or empty cell or a trimmed text without any digit */
  lemma NormalizeZipNone(z: Cell)
    ensures var s := Trim(CellString(z));
      NormalizeZip(z).None? <==>
        z == Empty || z == Text("") || forall i :: 0 <= i < |s| ==> !IsDigit(s[i])
  {
    var s := Trim(CellString(z));
    KeepDigitsEmpty(s);
    var m := FindFiveDigits(s, 0);
    if m.Some? {
      assert IsDigit(s[m.value..m.value + 5][0]);
    }
  }

  /** The leftmost run of five digits of the trimmed text is preferred */
  lemma NormalizeZipFirstRun(z: Cell, j: int)
    requires z != Empty && z != Text("") && FirstFiveDigitsAt(Trim(CellString(z)), j)
    ensures NormalizeZip(z) == Some(Trim(CellString(z))[j..j + 5])
  {
    var s := Trim(CellString(z));
    var m := FindFiveDigits(s, 0);
    assert m == Some(j);
  }

  /** Without a run of five, five or more digits are cut to the first five */
  lemma NormalizeZipFirstFive(z: Cell)
    requires z != Empty && z != Text("")
    requires var s := Trim(CellString(z)); (forall j :: !FiveDigitsAt(s, j)) && |KeepDigits(s)| >= 5
    ensures NormalizeZip(z) == Some(KeepDigits(Trim(CellString(z)))[..5])
  {
    var s := Trim(CellString(z));
    assert FindFiveDigits(s, 0).None?;
  }

  /**
   * Without a run of five, one to four digits (a ZIP code whose leading
   * zeros were dropped) are zero-padded to five, which keeps their value
   */
  lemma NormalizeZipPadded(z: Cell)
    requires z != Empty && z != Text("")
    requires var s := Trim(CellString(z)); (forall j :: !FiveDigitsAt(s, j)) && 1 <= |KeepDigits(s)| < 5
    ensures var d := KeepDigits(Trim(CellString(z)));
      NormalizeZip(z).Some? && NormalizeZip(z).value[5 - |d|..] == d &&
      (forall i :: 0 <= i < 5 - |d| ==> NormalizeZip(z).value[i] == '0') &&
      DigitsValue(NormalizeZip(z).value) == DigitsValue(d)
  {
    var s := Trim(CellString(z));
    var d := KeepDigits(s);
    assert FindFiveDigits(s, 0).None?;
    DigitsValueLeadingZeros(seq(5 - |d|, _ => '0'), d);
  }

  // ---------------------------------------------------------------------
  // parseExcelDate / parseExcelDateRaw

  /** `new Date(t)` with `t` at noon of `day` is a valid date */
  predicate NoonInRange(day: int)
  {
    -MaxDays <= day < MaxDays
  }

  /** `Date.UTC(1899, 11, 31)`: day 0 of the Excel serial numbering */
  function ExcelEpoch(): int
  {
    DayNumber(1899, 12, 31)
  }

  /**
   * The UTC day of an Excel serial date: serials from 60 on are one day
   * early, to undo Excel's fictitious 29 February 1900.
   */
  function ExcelSerialDay(serial: int): int
  {
    ExcelEpoch() + (if serial >= 60 then serial - 1 else serial)
  }

  lemma ExcelSerialLandmarks()
    ensures ExcelSerialDay(1) == DayNumber(1900, 1, 1)
    ensures ExcelSerialDay(59) == DayNumber(1900, 2, 28)
    ensures ExcelSerialDay(60) == ExcelSerialDay(59)
    ensures ExcelSerialDay(61) == DayNumber(1900, 3, 1)
    ensures ExcelSerialDay(25569) == 0
  {
    assert DaysBeforeYear(1899) == 693596;
    assert DaysBeforeYear(1900) == 693961;
    assert ExcelEpoch() == -25568;
  }

  predicate IsDateSep(c: char) { c == '/' || c == '-' }

  /**
   * Where a field of one or two digits that starts at `start` is closed by
   * a separator: the index of that separator.
   */
  function FieldEnd(t: string, start: nat): (r: Option<nat>)
    ensures r.Some? ==> start + 1 <= r.value <= start + 2 && r.value < |t|
    ensures r.Some? ==> AllDigits(t[start..r.value]) && IsDateSep(t[r.value])
  {
    if start + 1 < |t| && IsDigit(t[start]) && IsDateSep(t[start + 1]) then Some(start + 1)
    else if start + 2 < |t| && IsDigit(t[start]) && IsDigit(t[start + 1]) && IsDateSep(t[start + 2]) then Some(start + 2)
    else None
  }

  /** `/^(\d{1,2})[\/\-](\d{1,2})[\/\-](\d{2,4})$/`: the three numbers */
  function MatchMdy(t: string): Option<(nat, nat, nat)>
  {
    var i := FieldEnd(t, 0);
    if i.None? then None
    else
      var j := FieldEnd(t, i.value + 1);
      if j.None? then None
      else
        var rest := t[j.value + 1..];
        if 2 <= |rest| <= 4 && AllDigits(rest) then
          Some((DigitsValue(t[..i.value]), DigitsValue(t[i.value + 1..j.value]), DigitsValue(rest)))
        else None
  }

  lemma FieldEndOf(t: string, start: nat, len: nat)
    requires 1 <= len <= 2 && start + len < |t|
    requires AllDigits(t[start..start + len]) && IsDateSep(t[start + len])
    ensures FieldEnd(t, start) == Some(start + len)
  {
    assert t[start..start + len][0] == t[start];
    if len == 2 {
      assert t[start..start + len][1] == t[start + 1];
    }
  }

  /** The pattern reads the three fields of a text cut at the separators `i` and `j` */
  lemma MatchMdyAt(t: string, i: nat, j: nat)
    requires 1 <= i <= 2 && i + 2 <= j <= i + 3 && j + 3 <= |t| <= j + 5
    requires AllDigits(t[..i]) && AllDigits(t[i + 1..j]) && AllDigits(t[j + 1..])
    requires IsDateSep(t[i]) && IsDateSep(t[j])
    ensures MatchMdy(t) == Some((DigitsValue(t[..i]), DigitsValue(t[i + 1..j]), DigitsValue(t[j + 1..])))
  {
    assert t[0..i] == t[..i];
    FieldEndOf(t, 0, i);
    FieldEndOf(t, i + 1, j - i - 1);
  }

  /** Every text of the shape the pattern describes is matched, with its three numbers */
  lemma MatchMdyOfParts(a: string, s1: char, b: string, s2: char, c: string)
    requires 1 <= |a| <= 2 && 1 <= |b| <= 2 && 2 <= |c| <= 4
    requires AllDigits(a) && AllDigits(b) && AllDigits(c) && IsDateSep(s1) && IsDateSep(s2)
    ensures MatchMdy(a + [s1] + b + [s2] + c) == Some((DigitsValue(a), DigitsValue(b), DigitsValue(c)))
  {
    Slices(a, s1, b, s2, c);
    MatchMdyAt(a + [s1] + b + [s2] + c, |a|, |a| + 1 + |b|);
  }

  /** The pieces of `a + [x] + b + [y] + c` */
  lemma Slices(a: string, x: char, b: string, y: char, c: string)
    ensures var t, i, j := a + [x] + b + [y] + c, |a|, |a| + 1 + |b|;
      t[..i] == a && t[i] == x && t[i + 1..j] == b && t[j] == y && t[j + 1..] == c
  {
    var t := a + [x] + b + [y] + c;
    var v := [y] + c;
    assert t == a + ([x] + (b + v));
    assert t[|a| + 1..] == b + v;
  }

  /** `parseExcelDateRaw(v)` as a UTC day; `generic` is `new Date(s)` on other texts */
  function ParseExcelDateRaw(v: Cell, generic: string -> Option<int>): (r: Option<int>)
    ensures r.Some? ==> NoonInRange(r.value)
    ensures v == Empty || v == Text("") ==> r.None?
  {
    match v
    case Empty => None
    case Num(n) => var d := ExcelSerialDay(n); if NoonInRange(d) then Some(d) else None
    case DateCell(day, _) => if NoonInRange(day) then Some(day) else None
    case Text(s) =>
      if s == "" then None
      else
        var t := Trim(s);
        var m := MatchMdy(t);
        var yy := if m.Some? && m.value.2 < 100 then 2000 + m.value.2 else if m.Some? then m.value.2 else 0;
        if m.Some? && 1 <= m.value.0 <= 12 && 1 <= m.value.1 <= 31 && NoonInRange(DayNumber(yy, m.value.0, m.value.1)) then
          Some(DayNumber(yy, m.value.0, m.value.1))
        else
          var g := generic(t);
          if g.Some? && NoonInRange(g.value) then g else None
  }

  /** `parseExcelDate(v)`: the same day, moved one day later */
  function ParseExcelDate(v: Cell, generic: string -> Option<int>): (r: Option<int>)
  {
    var d := ParseExcelDateRaw(v, generic);
    if d.Some? && NoonInRange(d.value + 1) then Some(d.value + 1) else None
  }

  lemma ParseExcelDateShifted(v: Cell, generic: string -> Option<int>)
    ensures ParseExcelDate(v, generic).Some? ==>
      ParseExcelDateRaw(v, generic) == Some(ParseExcelDate(v, generic).value - 1)
    ensures ParseExcelDateRaw(v, generic).None? ==> ParseExcelDate(v, generic).None?
  {
  }

  /** Dates of years 100 to 9999 are far inside the range of `Date` */
  lemma DayNumberInRange(c: Date)
    requires ValidDate(c) && 100 <= c.year < 10000
    ensures NoonInRange(DayNumber(c.year, c.month, c.day))
  {
    DayNumberOfMonthInRange(c);
    DaysBeforeYearMonotone(c.year, 10000);
    DaysBeforeYearMonotone(-1, c.year);
  }

  /** A M/D/YYYY text is read as that calendar date, and never handed to `new Date(s)` */
  lemma ParseExcelDateRawMdy(a: string, s1: char, b: string, s2: char, c: string, generic: string -> Option<int>)
    requires 1 <= |a| <= 2 && 1 <= |b| <= 2 && |c| == 4
    requires AllDigits(a) && AllDigits(b) && AllDigits(c) && IsDateSep(s1) && IsDateSep(s2)
    requires 1 <= DigitsValue(a) <= 12
    requires 1 <= DigitsValue(b) <= MonthLength(DigitsValue(c), DigitsValue(a))
    requires 1000 <= DigitsValue(c)
    ensures var d := ParseExcelDateRaw(Text(a + [s1] + b + [s2] + c), generic);
      d.Some? && Civil(d.value) == Date(DigitsValue(c), DigitsValue(a), DigitsValue(b))
  {
    var t := a + [s1] + b + [s2] + c;
    var date := Date(DigitsValue(c), DigitsValue(a), DigitsValue(b));
    MatchMdyOfParts(a, s1, b, s2, c);
    MdyTrimmed(a, s1, b, s2, c);
    DigitsValueBound(c);
    DayNumberInRange(date);
    ParseExcelDateRawOfMatch(t, date, generic);
    CivilOfDayNumber(date);
    ParsedAsDate(Text(t), generic, date);
  }

  /** A M/D/YYYY text has digits at both ends, so trimming leaves it as it is */
  lemma MdyTrimmed(a: string, s1: char, b: string, s2: char, c: string)
    requires 1 <= |a| && 1 <= |c| && AllDigits(a) && AllDigits(c)
    ensures Trim(a + [s1] + b + [s2] + c) == a + [s1] + b + [s2] + c
  {
    var t := a + [s1] + b + [s2] + c;
    assert t[0] == a[0] && t[|t| - 1] == c[|c| - 1];
    TrimNoEnds(t);
  }

  lemma ParsedAsDate(v: Cell, generic: string -> Option<int>, date: Date)
    requires ParseExcelDateRaw(v, generic) == Some(DayNumber(date.year, date.month, date.day))
    requires Civil(DayNumber(date.year, date.month, date.day)) == date
    ensures var d := ParseExcelDateRaw(v, generic); d.Some? && Civil(d.value) == date
  {
  }

  lemma ParseExcelDateRawOfMatch(t: string, date: Date, generic: string -> Option<int>)
    requires t != "" && MatchMdy(Trim(t)) == Some((date.month, date.day, date.year))
    requires 1 <= date.month <= 12 && 1 <= date.day <= 31 && date.year >= 100
    requires NoonInRange(DayNumber(date.year, date.month, date.day))
    ensures ParseExcelDateRaw(Text(t), generic) == Some(DayNumber(date.year, date.month, date.day))
  {
  }

  /** The year of a M/D/Y text: a year below 100 is taken as 2000 plus it */
  function MdyYear(y: nat): nat
  {
    if y < 100 then 2000 + y else y
  }

  /**
   * A M/D/Y text naming a real day, with a year of two to four digits, is
   * read as that date; a two-digit year is 2000 plus it
   */
  lemma ParseExcelDateRawMdyYear(a: string, s1: char, b: string, s2: char, c: string, generic: string -> Option<int>)
    requires 1 <= |a| <= 2 && 1 <= |b| <= 2 && 2 <= |c| <= 4
    requires AllDigits(a) && AllDigits(b) && AllDigits(c) && IsDateSep(s1) && IsDateSep(s2)
    requires 1 <= DigitsValue(a) <= 12
    requires 1 <= DigitsValue(b) <= MonthLength(MdyYear(DigitsValue(c)), DigitsValue(a))
    ensures var d := ParseExcelDateRaw(Text(a + [s1] + b + [s2] + c), generic);
      d.Some? && Civil(d.value) == Date(MdyYear(DigitsValue(c)), DigitsValue(a), DigitsValue(b))
    ensures |c| == 2 ==> MdyYear(DigitsValue(c)) == 2000 + DigitsValue(c)
  {
    var t := a + [s1] + b + [s2] + c;
    assert MatchMdy(Trim(t)) == Some((DigitsValue(a), DigitsValue(b), DigitsValue(c))) by {
      MatchMdyOfParts(a, s1, b, s2, c);
      MdyTrimmed(a, s1, b, s2, c);
    }
    MdyYearRange(c);
    ParseExcelDateRawOfMdyDate(t, DigitsValue(a), DigitsValue(b), DigitsValue(c), generic);
  }

  /** The year of a M/D/Y text is 100 to 9999 */
  lemma MdyYearRange(c: string)
    requires 2 <= |c| <= 4 && AllDigits(c)
    ensures 100 <= MdyYear(DigitsValue(c)) < 10000
    ensures |c| == 2 ==> DigitsValue(c) < 100
  {
    DigitsValueBound(c);
    assert Pow10(|c|) <= 10000 by {
      assert Pow10(2) == 100 && Pow10(3) == 1000 && Pow10(4) == 10000;
    }
  }

  lemma ParseExcelDateRawOfMdyDate(t: string, mm: nat, dd: nat, yv: nat, generic: string -> Option<int>)
    requires t != "" && MatchMdy(Trim(t)) == Some((mm, dd, yv))
    requires 100 <= MdyYear(yv) < 10000 && 1 <= mm <= 12 && 1 <= dd <= MonthLength(MdyYear(yv), mm)
    ensures var d := ParseExcelDateRaw(Text(t), generic); d.Some? && Civil(d.value) == Date(MdyYear(yv), mm, dd)
  {
    var date := Date(MdyYear(yv), mm, dd);
    DayNumberInRange(date);
    ParseExcelDateRawOfMdy(t, mm, dd, yv, generic);
    CivilOfDayNumber(date);
    ParsedAsDate(Text(t), generic, date);
  }

  lemma ParseExcelDateRawOfMdy(t: string, mm: nat, dd: nat, yv: nat, generic: string -> Option<int>)
    requires t != "" && MatchMdy(Trim(t)) == Some((mm, dd, yv))
    requires 1 <= mm <= 12 && 1 <= dd <= 31
    requires NoonInRange(DayNumber(MdyYear(yv), mm, dd))
    ensures ParseExcelDateRaw(Text(t), generic) == Some(DayNumber(MdyYear(yv), mm, dd))
  {
  }

  /**
   * A text the M/D/Y pattern does not match, or whose month is not 1 to 12
   * or whose day is not 1 to 31, is handed to `new Date(s)` and kept only
   * when that gives a valid date
   */
  lemma ParseExcelDateRawFallback(s: string, generic: string -> Option<int>)
    requires s != ""
    requires var m := MatchMdy(Trim(s)); m.None? || !(1 <= m.value.0 <= 12) || !(1 <= m.value.1 <= 31)
    ensures var g := generic(Trim(s));
      ParseExcelDateRaw(Text(s), generic) == (if g.Some? && NoonInRange(g.value) then g else None)
  {
  }

  /**
   * A serial number counts days from 1899-12-31, one day less from serial 60
   * on; from serial 61 that is the day `serial - 61` days after 1900-03-01
   */
  lemma ParseExcelDateRawSerial(n: int, generic: string -> Option<int>)
    ensures n < 60 && NoonInRange(ExcelEpoch() + n) ==>
      ParseExcelDateRaw(Num(n), generic) == Some(ExcelEpoch() + n)
    ensures n >= 60 && NoonInRange(ExcelEpoch() + n - 1) ==>
      ParseExcelDateRaw(Num(n), generic) == Some(ExcelEpoch() + n - 1)
    ensures n >= 61 && ParseExcelDateRaw(Num(n), generic).Some? ==>
      ParseExcelDateRaw(Num(n), generic).value == DayNumber(1900, 3, 1) + (n - 61)
    ensures !NoonInRange(ExcelSerialDay(n)) ==> ParseExcelDateRaw(Num(n), generic).None?
  {
    ExcelSerialLandmarks();
  }

  // ---------------------------------------------------------------------
  // parseTechCell

  /** `\b` at position `p` of `s` */
  predicate WordBoundary(s: string, p: int)
    requires 0 <= p <= |s|
  {
    (p > 0 && IsWordChar(s[p - 1])) != (p < |s| && IsWordChar(s[p]))
  }

  /** `/\b(\d{4,6})\b/` matches at `i` taking `k` digits */
  predicate TechIdMatch(s: string, i: int, k: int)
  {
    0 <= i && 4 <= k <= 6 && i + k <= |s| && AllDigits(s[i..i + k])
    && WordBoundary(s, i) && WordBoundary(s, i + k)
  }

  /** Length of the run of digits that starts at `i` */
  function DigitRun(s: string, i: nat): (k: nat)
    requires i <= |s|
    ensures i + k <= |s| && AllDigits(s[i..i + k]) && (i + k == |s| || !IsDigit(s[i + k]))
    decreases |s| - i
  {
    if i < |s| && IsDigit(s[i]) then
      var k := DigitRun(s, i + 1);
      assert s[i..i + 1 + k] == [s[i]] + s[i + 1..i + 1 + k];
      1 + k
    else 0
  }

  /** Whether the identifier pattern matches at `i`, decided from the digit run there */
  predicate TechIdAt(s: string, i: nat)
    requires i <= |s|
  {
    var k := DigitRun(s, i);
    4 <= k <= 6 && (i == 0 || !IsWordChar(s[i - 1])) && (i + k == |s| || !IsWordChar(s[i + k]))
  }

  /** The match at `i` takes exactly the digit run there */
  lemma TechIdAtIsMatch(s: string, i: nat)
    requires i <= |s|
    ensures TechIdAt(s, i) <==> exists k :: TechIdMatch(s, i, k)
    ensures forall k :: TechIdMatch(s, i, k) ==> k == DigitRun(s, i)
  {
    var run := DigitRun(s, i);
    forall k | TechIdMatch(s, i, k)
      ensures k == run
    {
      assert s[i..i + k][k - 1] == s[i + k - 1];
    }
    if TechIdAt(s, i) {
      assert s[i..i + run][0] == s[i];
      assert s[i..i + run][run - 1] == s[i + run - 1];
      assert TechIdMatch(s, i, run);
    }
  }

  /** The leftmost match at or after `from` */
  function FindTechId(s: string, from: nat): (r: Option<nat>)
    requires from <= |s|
    ensures r.Some? ==> from <= r.value <= |s| && TechIdAt(s, r.value)
    ensures r.Some? ==> forall j :: from <= j < r.value ==> !TechIdAt(s, j)
    ensures r.None? ==> forall j :: from <= j <= |s| ==> !TechIdAt(s, j)
    decreases |s| - from
  {
    if TechIdAt(s, from) then Some(from)
    else if from == |s| then None
    else FindTechId(s, from + 1)
  }

  /** What `parseTechCell` makes of a non-empty cell */
  datatype TechCell = TechCell(raw: string, techId: Option<string>, reserved: bool)

  /** `parseTechCell(v)` */
  function ParseTechCell(v: Cell): (r: Option<TechCell>)
    ensures r.None? <==> Trim(CellString(v)) == ""
    ensures r.Some? ==> r.value.raw == Trim(CellString(v))
    ensures r.Some? ==> (r.value.reserved <==> Contains(Lower(r.value.raw), "reserve"))
  {
    var s := Trim(CellString(v));
    if s == "" then None
    else
      var i := FindTechId(s, 0);
      var id := if i.Some? then Some(s[i.value..i.value + DigitRun(s, i.value)]) else None;
      Some(TechCell(s, id, Contains(Lower(s), "reserve")))
  }

  /**
   * The identifier is the leftmost four-to-six-digit word of the cell, and
   * there is none exactly when no such word occurs.
   */
  lemma ParseTechCellId(v: Cell)
    requires ParseTechCell(v).Some?
    ensures var c := ParseTechCell(v).value;
      (c.techId.None? <==> forall i, k :: 0 <= i <= |c.raw| ==> !TechIdMatch(c.raw, i, k))
    ensures var c := ParseTechCell(v).value;
      c.techId.Some? ==> exists i, k :: (TechIdMatch(c.raw, i, k) && c.techId.value == c.raw[i..i + k]
        && forall j, l :: 0 <= j < i ==> !TechIdMatch(c.raw, j, l))
  {
    var c := ParseTechCell(v).value;
    var s := c.raw;
    var f := FindTechId(s, 0);
    forall i, k | 0 <= i <= |s| && TechIdMatch(s, i, k)
      ensures f.Some? && f.value <= i
    {
      TechIdAtIsMatch(s, i);
    }
    if f.Some? {
      var i := f.value;
      TechIdAtIsMatch(s, i);
      assert TechIdMatch(s, i, DigitRun(s, i));
      forall j, l | 0 <= j < i
        ensures !TechIdMatch(s, j, l)
      {
        TechIdAtIsMatch(s, j);
      }
    }
  }

  /** `/\breserv/i.test(s)` */
  predicate MentionsReserv(s: string)
  {
    exists i | 0 <= i <= |s| :: IsReservAt(s, i)
  }

  predicate IsReservAt(s: string, i: int)
  {
    0 <= i && i + 6 <= |s| && Lower(s[i..i + 6]) == "reserv" && (i == 0 || !IsWordChar(s[i - 1]))
  }
}
