/**
 * Calendar arithmetic behind the JavaScript `Date` values the on-call
 * application uses. Every date the application builds is anchored at UTC
 * (usually at noon), so a date is modelled as its Unix day number: the
 * number of days since 1970-01-01 in the proleptic Gregorian calendar.
 */
module Calendar {
  import opened Wrappers
  import opened Strings

  predicate IsLeap(y: int) { y % 4 == 0 && (y % 100 != 0 || y % 400 == 0) }

  function YearLength(y: int): int { if IsLeap(y) then 366 else 365 }

  function MonthLength(y: int, m: int): int
    requires 1 <= m <= 12
  {
    if m == 2 then (if IsLeap(y) then 29 else 28)
    else if m == 4 || m == 6 || m == 9 || m == 11 then 30
    else 31
  }

  /** Days of year `y` before the first of month `m` (1-based) */
  function DaysBeforeMonth(y: int, m: int): int
    requires 1 <= m <= 12
  {
    [0, 31, 59, 90, 120, 151, 181, 212, 243, 273, 304, 334][m - 1]
    + (if m > 2 && IsLeap(y) then 1 else 0)
  }

  /** Days from 1 January of year 0 to 1 January of year `y` */
  function DaysBeforeYear(y: int): int
  {
    365 * y + (y + 3) / 4 - (y + 99) / 100 + (y + 399) / 400
  }

  /** `DaysBeforeYear(1970)`: the day number of 1970-01-01 counted from year 0 */
  const EpochOffset: int := 719528
  /** `new Date(t)` is valid only for |t| <= 8.64e15 ms, that is 10^8 days */
  const MaxDays: int := 100000000

  lemma FloorStep4(y: int)
    ensures (y + 4) / 4 == (y + 3) / 4 + (if y % 4 == 0 then 1 else 0)
  {
  }

  lemma FloorStep100(y: int)
    ensures (y + 100) / 100 == (y + 99) / 100 + (if y % 100 == 0 then 1 else 0)
  {
  }

  lemma FloorStep400(y: int)
    ensures (y + 400) / 400 == (y + 399) / 400 + (if y % 400 == 0 then 1 else 0)
  {
  }

  lemma DaysBeforeYearStep(y: int)
    ensures DaysBeforeYear(y + 1) == DaysBeforeYear(y) + YearLength(y)
  {
    FloorStep4(y);
    FloorStep100(y);
    FloorStep400(y);
    DivisibilityChain(y);
  }

  /** A multiple of 400 is a multiple of 100, and a multiple of 100 is a multiple of 4 */
  lemma DivisibilityChain(y: int)
    ensures y % 400 == 0 ==> y % 100 == 0
    ensures y % 100 == 0 ==> y % 4 == 0
  {
    if y % 400 == 0 {
      var a := 4 * (y / 400);
      assert y == 100 * a + 0;
      Shift100(a, 0);
    }
    if y % 100 == 0 {
      var a := 25 * (y / 100);
      assert y == 4 * a + 0;
      Shift4(a, 0);
    }
  }

  lemma Shift4(a: int, x: int)
    ensures (4 * a + x) / 4 == a + x / 4 && (4 * a + x) % 4 == x % 4
  {
  }

  lemma Shift100(a: int, x: int)
    ensures (100 * a + x) / 100 == a + x / 100 && (100 * a + x) % 100 == x % 100
  {
  }

  lemma Shift400(a: int, x: int)
    ensures (400 * a + x) / 400 == a + x / 400 && (400 * a + x) % 400 == x % 400
  {
  }

  lemma DaysBeforeYearCycle(q: int, k: int)
    ensures DaysBeforeYear(400 * q + k) == 146097 * q + DaysBeforeYear(k)
    ensures IsLeap(400 * q + k) == IsLeap(k)
  {
    Shift4(100 * q, k + 3);
    Shift4(100 * q, k);
    Shift100(4 * q, k + 99);
    Shift100(4 * q, k);
    Shift400(q, k + 399);
    Shift400(q, k);
  }

  lemma {:induction false} DaysBeforeYearMonotone(a: int, b: int)
    requires a < b
    ensures DaysBeforeYear(a) + YearLength(a) <= DaysBeforeYear(b)
    decreases b - a
  {
    DaysBeforeYearStep(a);
    if a + 1 < b {
      DaysBeforeYearMonotone(a + 1, b);
    }
  }

  lemma DaysBeforeMonthStep(y: int, m: int)
    requires 1 <= m <= 12
    ensures m < 12 ==> DaysBeforeMonth(y, m + 1) == DaysBeforeMonth(y, m) + MonthLength(y, m)
    ensures m == 12 ==> DaysBeforeMonth(y, m) + MonthLength(y, m) == YearLength(y)
  {
  }

  lemma {:induction false} DaysBeforeMonthMonotone(y: int, a: int, b: int)
    requires 1 <= a < b <= 12
    ensures DaysBeforeMonth(y, a) + MonthLength(y, a) <= DaysBeforeMonth(y, b)
    decreases b - a
  {
    DaysBeforeMonthStep(y, a);
    if a + 1 < b {
      DaysBeforeMonthMonotone(y, a + 1, b);
    }
  }

  /**
   * Day number of `Date.UTC(y, m - 1, d)`: like JavaScript, a month outside
   * 1..12 rolls over into neighbouring years and a day outside the month
   * rolls over into neighbouring months.
   */
  function DayNumber(y: int, m: int, d: int): int
  {
    var y2 := y + (m - 1) / 12;
    var m2 := (m - 1) % 12 + 1;
    DaysBeforeYear(y2) + DaysBeforeMonth(y2, m2) + d - 1 - EpochOffset
  }

  /** A calendar date as `getUTCFullYear`, `getUTCMonth() + 1` and `getUTCDate` report it */
  datatype Date = Date(year: int, month: int, day: int)

  predicate ValidDate(c: Date)
  {
    1 <= c.month <= 12 && 1 <= c.day <= MonthLength(c.year, c.month)
  }

  /** The first year from `y` on, within a 400-year cycle, whose end lies after day `r` of the cycle */
  function YearInCycle(r: int, y: int): (res: int)
    requires 0 <= y < 400
    ensures y <= res < 400
    decreases 400 - y
  {
    if y == 399 || r < DaysBeforeYear(y + 1) then y else YearInCycle(r, y + 1)
  }

  /** Day `r` of a 400-year cycle falls in year `YearInCycle(r, 0)` of the cycle */
  lemma {:induction false} YearInCycleSpec(r: int, y: int)
    requires 0 <= y < 400 && DaysBeforeYear(y) <= r < 146097
    ensures DaysBeforeYear(YearInCycle(r, y)) <= r < DaysBeforeYear(YearInCycle(r, y) + 1)
    decreases 400 - y
  {
    if y == 399 || r < DaysBeforeYear(y + 1) {
      assert DaysBeforeYear(400) == 146097;
    } else {
      YearInCycleSpec(r, y + 1);
    }
  }

  /** The first month from `m` on whose end lies after day `doy` (0-based) of year `y` */
  function MonthOfYear(y: int, doy: int, m: int): (res: int)
    requires 1 <= m <= 12
    ensures m <= res <= 12
    decreases 12 - m
  {
    if m == 12 || doy < DaysBeforeMonth(y, m + 1) then m else MonthOfYear(y, doy, m + 1)
  }

  /** Day `doy` of year `y` falls in month `MonthOfYear(y, doy, 1)` */
  lemma {:induction false} MonthOfYearSpec(y: int, doy: int, m: int)
    requires 1 <= m <= 12 && DaysBeforeMonth(y, m) <= doy < YearLength(y)
    ensures var res := MonthOfYear(y, doy, m);
      DaysBeforeMonth(y, res) <= doy < DaysBeforeMonth(y, res) + MonthLength(y, res)
    decreases 12 - m
  {
    DaysBeforeMonthStep(y, m);
    if m < 12 && doy >= DaysBeforeMonth(y, m + 1) {
      MonthOfYearSpec(y, doy, m + 1);
    }
  }

  /** The date of day `doy` (0-based) of year `y` */
  function DateOfDoy(y: int, doy: int): Date
  {
    var m := MonthOfYear(y, doy, 1);
    Date(y, m, doy - DaysBeforeMonth(y, m) + 1)
  }

  /** `c` is a valid date whose day number is `n` */
  predicate HasDayNumber(c: Date, n: int)
  {
    ValidDate(c) && DayNumber(c.year, c.month, c.day) == n
  }

  /** Day `doy` of year `y` is a valid date, `doy` days after the first of January */
  lemma DateOfDoySpec(y: int, doy: int, n: int)
    requires 0 <= doy < YearLength(y) && n == DaysBeforeYear(y) + doy - EpochOffset
    ensures DateOfDoy(y, doy).year == y && HasDayNumber(DateOfDoy(y, doy), n)
  {
    var m := MonthOfYear(y, doy, 1);
    MonthOfYearSpec(y, doy, 1);
    DayNumberOfDoy(y, m, doy - DaysBeforeMonth(y, m) + 1, doy);
  }

  /** The date of day `r` (0-based) of the 400-year cycle `q` */
  function CycleDate(q: int, r: int): Date
  {
    var yc := YearInCycle(r, 0);
    var c := DateOfDoy(yc, r - DaysBeforeYear(yc));
    Date(400 * q + yc, c.month, c.day)
  }

  /** Moving a valid date by `q` whole 400-year cycles moves its day number by `146097 * q` */
  lemma ShiftCycles(c: Date, y: int, q: int, n: int, n2: int)
    requires c.year == y && HasDayNumber(c, n) && n2 == n + 146097 * q
    ensures HasDayNumber(Date(400 * q + y, c.month, c.day), n2)
  {
    DaysBeforeYearCycle(q, y);
    DayNumberOfMonthInRange(c);
    DayNumberOfMonthInRange(Date(400 * q + y, c.month, c.day));
  }

  lemma CycleDateUnfold(q: int, r: int, yc: int, c: Date)
    requires yc == YearInCycle(r, 0) && c == DateOfDoy(yc, r - DaysBeforeYear(yc))
    ensures CycleDate(q, r) == Date(400 * q + yc, c.month, c.day)
  {
  }

  /** Day `r` of cycle `q` is a valid date, `146097 * q + r` days after 1 January of year 0 */
  lemma CycleDateSpec(q: int, r: int)
    requires 0 <= r < 146097
    ensures HasDayNumber(CycleDate(q, r), 146097 * q + r - EpochOffset)
  {
    var yc := YearInCycle(r, 0);
    YearInCycleSpec(r, 0);
    DaysBeforeYearStep(yc);
    var c := DateOfDoy(yc, r - DaysBeforeYear(yc));
    DateOfDoySpec(yc, r - DaysBeforeYear(yc), r - EpochOffset);
    ShiftCycles(c, yc, q, r - EpochOffset, 146097 * q + r - EpochOffset);
    CycleDateUnfold(q, r, yc, c);
    SameDayNumber(CycleDate(q, r), Date(400 * q + yc, c.month, c.day), 146097 * q + r - EpochOffset);
  }

  lemma SameDayNumber(a: Date, b: Date, n: int)
    requires a == b && HasDayNumber(b, n)
    ensures HasDayNumber(a, n)
  {
  }

  /** The UTC calendar date of day number `n` */
  function Civil(n: int): Date
  {
    CycleDate((n + EpochOffset) / 146097, (n + EpochOffset) % 146097)
  }

  /** `Civil` gives a valid date, and that date has day number `n` */
  lemma CivilSpec(n: int)
    ensures ValidDate(Civil(n)) && DayNumber(Civil(n).year, Civil(n).month, Civil(n).day) == n
  {
    CycleDateSpec((n + EpochOffset) / 146097, (n + EpochOffset) % 146097);
  }

  /** Day `r` of a 400-year cycle falls in year `yc` of the cycle, that is in year `400 * q + yc` */
  lemma CycleYear(q: int, r: int, yc: int)
    requires 0 <= yc < 400 && DaysBeforeYear(yc) <= r < DaysBeforeYear(yc + 1)
    ensures 0 <= r - DaysBeforeYear(yc) < YearLength(400 * q + yc)
    ensures DaysBeforeYear(400 * q + yc) == 146097 * q + DaysBeforeYear(yc)
  {
    DaysBeforeYearCycle(q, yc);
    DaysBeforeYearStep(yc);
  }

  /** The day number of day `d` of month `m`, when that is day `doy` (0-based) of year `y` */
  lemma DayNumberOfDoy(y: int, m: int, d: int, doy: int)
    requires 1 <= m <= 12 && d == doy - DaysBeforeMonth(y, m) + 1
    ensures DayNumber(y, m, d) == DaysBeforeYear(y) + doy - EpochOffset
  {
    DayNumberOfMonthInRange(Date(y, m, d));
  }

  /** Days from 1 January of year 0 to the date */
  function Ordinal(c: Date): int
    requires 1 <= c.month <= 12
  {
    DaysBeforeYear(c.year) + DaysBeforeMonth(c.year, c.month) + c.day - 1
  }

  lemma DayNumberOfMonthInRange(c: Date)
    requires 1 <= c.month <= 12
    ensures DayNumber(c.year, c.month, c.day) == Ordinal(c) - EpochOffset
  {
    assert (c.month - 1) / 12 == 0 && (c.month - 1) % 12 == c.month - 1;
  }

  /** Valid dates of different years are ordered by their year */
  lemma OrdinalYearOrder(a: Date, b: Date)
    requires ValidDate(a) && ValidDate(b) && a.year < b.year
    ensures Ordinal(a) < Ordinal(b)
  {
    DaysBeforeMonthStep(a.year, a.month);
    if a.month < 12 {
      DaysBeforeMonthMonotone(a.year, a.month, 12);
      DaysBeforeMonthStep(a.year, 12);
    }
    DaysBeforeYearMonotone(a.year, b.year);
  }

  /** Valid dates of one year and different months are ordered by their month */
  lemma OrdinalMonthOrder(a: Date, b: Date)
    requires ValidDate(a) && ValidDate(b) && a.year == b.year && a.month < b.month
    ensures Ordinal(a) < Ordinal(b)
  {
    DaysBeforeMonthMonotone(a.year, a.month, b.month);
  }

  /** Two valid dates with the same day number are the same date */
  lemma DayNumberInjective(a: Date, b: Date)
    requires ValidDate(a) && ValidDate(b)
    requires DayNumber(a.year, a.month, a.day) == DayNumber(b.year, b.month, b.day)
    ensures a == b
  {
    DayNumberOfMonthInRange(a);
    DayNumberOfMonthInRange(b);
    if a.year < b.year {
      OrdinalYearOrder(a, b);
    } else if b.year < a.year {
      OrdinalYearOrder(b, a);
    } else if a.month < b.month {
      OrdinalMonthOrder(a, b);
    } else if b.month < a.month {
      OrdinalMonthOrder(b, a);
    }
  }

  /** `Civil` inverts `DayNumber` on valid dates */
  lemma CivilOfDayNumber(c: Date)
    requires ValidDate(c)
    ensures Civil(DayNumber(c.year, c.month, c.day)) == c
  {
    var n := DayNumber(c.year, c.month, c.day);
    CivilSpec(n);
    DayNumberInjective(Civil(n), c);
  }

  /** `getUTCDay()`: 0 is Sunday; 1970-01-01 was a Thursday */
  function Weekday(n: int): (w: int)
    ensures 0 <= w < 7
  {
    (n + 4) % 7
  }

  lemma WeekdayShift(n: int, k: int)
    ensures Weekday(n + 7 * k) == Weekday(n)
    ensures Weekday(n - Weekday(n)) == 0
  {
  }

  /** The day `i` days after a Sunday, within the week, falls on weekday `i` */
  lemma WeekdayAfterSunday(s: int, i: int)
    requires Weekday(s) == 0 && 0 <= i < 7
    ensures Weekday(s + i) == i
  {
    var q := (s + 4) / 7;
    assert s + 4 == 7 * q;
    assert s + i + 4 == 7 * q + i;
  }

  /** `ymd(d)`: the UTC date written `${year}-${MM}-${DD}` with an unpadded year */
  function Ymd(n: int): string
  {
    CivilSpec(n);
    DateText(Civil(n))
  }

  lemma YmdNotEmpty(n: int)
    ensures |Ymd(n)| > 0
  {
  }

  /** A valid date written `${year}-${MM}-${DD}` */
  function DateText(c: Date): string
    requires ValidDate(c)
  {
    IntToString(c.year) + "-" + Pad2(c.month) + "-" + Pad2(c.day)
  }

  /** Calendar order: by year, then month, then day */
  predicate DateBefore(a: Date, b: Date)
  {
    a.year < b.year || (a.year == b.year && (a.month < b.month || (a.month == b.month && a.day < b.day)))
  }

  /** On valid dates calendar order is the order of the day numbers */
  lemma DateBeforeOrder(a: Date, b: Date)
    requires ValidDate(a) && ValidDate(b)
    ensures DateBefore(a, b) <==> DayNumber(a.year, a.month, a.day) < DayNumber(b.year, b.month, b.day)
  {
    DayNumberOfMonthInRange(a);
    DayNumberOfMonthInRange(b);
    if a.year < b.year {
      OrdinalYearOrder(a, b);
    } else if b.year < a.year {
      OrdinalYearOrder(b, a);
    } else if a.month < b.month {
      OrdinalMonthOrder(a, b);
    } else if b.month < a.month {
      OrdinalMonthOrder(b, a);
    }
  }

  /** Comparing two `-`-prefixed texts compares what follows the dash */
  lemma DashLess(s: string, t: string)
    ensures StrLess("-" + s, "-" + t) <==> StrLess(s, t)
  {
    StrLessAppend("-", s, "-", t);
    StrLessIrreflexive("-");
  }

  /** Two digit fields of one width compare, and are equal, as their values do */
  lemma FieldOrder(a: string, b: string, x: string, y: string)
    requires AllDigits(a) && AllDigits(b) && |a| == |b|
    ensures StrLess(a + x, b + y) <==>
      DigitsValue(a) < DigitsValue(b) || (DigitsValue(a) == DigitsValue(b) && StrLess(x, y))
    ensures a == b <==> DigitsValue(a) == DigitsValue(b)
  {
    StrLessAppend(a, x, b, y);
    DigitsLess(a, b);
    DigitsLess(b, a);
    StrLessTotal(a, b);
    if a == b {
      StrLessIrreflexive(a);
    }
  }

  /**
   * For years 1000 to 9999, comparing the texts `ymd` writes, as JavaScript
   * compares strings, compares the dates
   */
  lemma DateTextOrder(a: Date, b: Date)
    requires ValidDate(a) && ValidDate(b)
    requires 1000 <= a.year <= 9999 && 1000 <= b.year <= 9999
    ensures StrLess(DateText(a), DateText(b)) <==> DateBefore(a, b)
  {
    var ya, yb := NatToString(a.year), NatToString(b.year);
    var ta, tb := MonthDayText(a.month, a.day), MonthDayText(b.month, b.day);
    FourDigits(a.year);
    FourDigits(b.year);
    DigitsValueOfNatToString(a.year);
    DigitsValueOfNatToString(b.year);
    DateTextSplit(a);
    DateTextSplit(b);
    FieldOrder(ya, yb, ta, tb);
    MonthDayTextOrder(a.month, a.day, b.month, b.day);
  }

  lemma DateTextSplit(c: Date)
    requires ValidDate(c) && c.year >= 0
    ensures DateText(c) == NatToString(c.year) + MonthDayText(c.month, c.day)
  {
    var y, m, d := NatToString(c.year), Pad2(c.month), Pad2(c.day);
    assert y + "-" + m + "-" + d == y + ("-" + (m + ("-" + d)));
  }

  /** The `-MM-DD` part of a date's text */
  function MonthDayText(m: nat, d: nat): string
  {
    "-" + (Pad2(m) + ("-" + Pad2(d)))
  }

  /** Below 100, the `-MM-DD` texts compare as (month, day) pairs */
  lemma MonthDayTextOrder(ma: nat, da: nat, mb: nat, db: nat)
    requires ma < 100 && da < 100 && mb < 100 && db < 100
    ensures StrLess(MonthDayText(ma, da), MonthDayText(mb, db)) <==> ma < mb || (ma == mb && da < db)
  {
    Pad2Value(ma);
    Pad2Value(mb);
    Pad2Value(da);
    Pad2Value(db);
    DashLess(Pad2(ma) + ("-" + Pad2(da)), Pad2(mb) + ("-" + Pad2(db)));
    FieldOrder(Pad2(ma), Pad2(mb), "-" + Pad2(da), "-" + Pad2(db));
    DashLess(Pad2(da), Pad2(db));
    FieldOrder(Pad2(da), Pad2(db), [], []);
    assert Pad2(da) + [] == Pad2(da) && Pad2(db) + [] == Pad2(db);
  }

  /** For years 1000 to 9999, `ymd(a) < ymd(b)` as strings exactly when day a precedes day b */
  lemma YmdOrder(a: int, b: int)
    requires 1000 <= Civil(a).year <= 9999 && 1000 <= Civil(b).year <= 9999
    ensures StrLess(Ymd(a), Ymd(b)) <==> a < b
  {
    CivilSpec(a);
    CivilSpec(b);
    DateTextOrder(Civil(a), Civil(b));
    DateBeforeOrder(Civil(a), Civil(b));
  }

  /**
   * `Number(s)` on a string, when it is a natural number: white space is
   * trimmed, an empty string is 0, a run of decimal digits is its value and
   * anything else is NaN (None).
   */
  function JsNumber(s: string): (r: Option<nat>)
    ensures AllDigits(s) && |s| > 0 ==> r == Some(DigitsValue(s))
  {
    var t := Trim(s);
    if AllDigits(s) then TrimOfNoSpaceDigits(s); Some(DigitsValue(s))
    else if t == [] then Some(0)
    else if AllDigits(t) then Some(DigitsValue(t))
    else None
  }

  lemma TrimOfNoSpaceDigits(s: string)
    requires AllDigits(s)
    ensures Trim(s) == s
  {
    TrimOfNoSpace(s);
  }

  /** `Date.UTC` reads a year 0..99 as 1900..1999 */
  function FullYear(y: int): int
  {
    if 0 <= y <= 99 then 1900 + y else y
  }

  /**
   * The day `shiftYmd` reads out of a `YYYY-MM-DD` string: None where it
   * gives the string back unchanged (empty, not three parts, a part that is
   * 0 or not a number, a date out of the `Date` range).
   */
  function ParseYmd(s: string): (r: Option<int>)
    ensures r.Some? ==> -MaxDays <= r.value <= MaxDays
  {
    if s == [] then None
    else
      var parts := Split(s, '-');
      if |parts| != 3 then None
      else
        var y := JsNumber(parts[0]);
        var m := JsNumber(parts[1]);
        var d := JsNumber(parts[2]);
        if y.None? || m.None? || d.None? || y.value == 0 || m.value == 0 || d.value == 0 then None
        else
          var n := DayNumber(FullYear(y.value), m.value, d.value);
          if n < -MaxDays || n > MaxDays then None else Some(n)
  }

  /** `shiftYmd(s, k)` */
  function ShiftYmd(s: string, k: int): string
  {
    ShiftParsed(s, ParseYmd(s), k)
  }

  /** `shiftYmd(s, k)` once `s` has been read as the day `p` */
  function ShiftParsed(s: string, p: Option<int>, k: int): string
  {
    match p
    case None => s
    case Some(n) => ShiftDay(n, k)
  }

  /** The text of the day `k` days after day `n`, or the text of an invalid date */
  function ShiftDay(n: int, k: int): string
  {
    if n + k < -MaxDays || n + k > MaxDays then "NaN-NaN-NaN" else Ymd(n + k)
  }

  lemma NoDashInDigits(s: string)
    requires AllDigits(s)
    ensures forall i :: 0 <= i < |s| ==> s[i] != '-'
  {
  }

  /** A date written by `ymd` (year 100 or later) reads back as the same day */
  lemma ParseYmdOfYmd(n: int)
    requires Civil(n).year >= 100 && -MaxDays <= n <= MaxDays
    ensures ParseYmd(Ymd(n)) == Some(n)
  {
    var c := Civil(n);
    CivilSpec(n);
    var a := IntToString(c.year);
    var b := Pad2(c.month);
    var e := Pad2(c.day);
    assert a == NatToString(c.year);
    SplitDashes(a, b, e);
    DigitsValueOfNatToString(c.year);
    Pad2Value(c.month);
    Pad2Value(c.day);
  }

  /** Three runs of digits joined by dashes split back into the three */
  lemma SplitDashes(a: string, b: string, e: string)
    requires AllDigits(a) && AllDigits(b) && AllDigits(e)
    ensures Split(a + "-" + b + "-" + e, '-') == [a, b, e]
  {
    NoDashInDigits(a);
    NoDashInDigits(b);
    NoDashInDigits(e);
    SplitNoSep(e, '-');
    SplitJoin(b, '-', e);
    SplitJoin(a, '-', b + "-" + e);
    assert a + "-" + b + "-" + e == a + ['-'] + (b + ['-'] + e);
  }

  /** `shiftYmd` moves a date written by `ymd` by exactly `k` days */
  lemma ShiftYmdOfYmd(n: int, k: int)
    requires Civil(n).year >= 100 && -MaxDays <= n <= MaxDays && -MaxDays <= n + k <= MaxDays
    ensures ShiftYmd(Ymd(n), k) == Ymd(n + k)
  {
    ParseYmdOfYmd(n);
    ShiftYmdOfParsed(Ymd(n), n, k);
  }

  lemma ShiftYmdOfParsed(s: string, n: int, k: int)
    requires ParseYmd(s) == Some(n) && -MaxDays <= n + k <= MaxDays
    ensures ShiftYmd(s, k) == Ymd(n + k)
  {
    ShiftDayInRange(n, k);
  }

  lemma ShiftDayInRange(n: int, k: int)
    requires -MaxDays <= n + k <= MaxDays
    ensures ShiftDay(n, k) == Ymd(n + k)
  {
  }

  /** `ymd` is one-to-one on the dates `shiftYmd` can read back */
  lemma YmdInjective(a: int, b: int)
    requires Civil(a).year >= 100 && -MaxDays <= a <= MaxDays
    requires Civil(b).year >= 100 && -MaxDays <= b <= MaxDays
    requires Ymd(a) == Ymd(b)
    ensures a == b
  {
    ParseYmdOfYmd(a);
    ParseYmdOfYmd(b);
  }
}
