/**
 * Choosing the rotation week that covers a ticket date, and the date the
 * lookup uses when the browser runs at UTC-5.
 */
module WeekPick {
  import opened Wrappers
  import opened Strings
  import opened Calendar
  import opened Rotation

  datatype PickError =
    | NoDate          // no date chosen
    | SharedBoundary  // the date starts a later week and no morning/evening choice was given
    | OutsideRanges   // no week covers the date

  /** `weeks.map(w => ymd(w.start))` */
  function StartTexts(weeks: seq<Week>): (r: seq<string>)
    ensures |r| == |weeks|
    ensures forall k :: 0 <= k < |weeks| ==> r[k] == Ymd(weeks[k].start)
  {
    if weeks == [] then [] else [Ymd(weeks[0].start)] + StartTexts(weeks[1..])
  }

  /** `starts.indexOf(x)`: the first position holding x, or -1 */
  function IndexOf(starts: seq<string>, x: string): (r: int)
    ensures -1 <= r < |starts|
    ensures r >= 0 ==> starts[r] == x && forall k :: 0 <= k < r ==> starts[k] != x
    ensures r == -1 ==> forall k :: 0 <= k < |starts| ==> starts[k] != x
  {
    if starts == [] then -1
    else if starts[0] == x then 0
    else
      var t := IndexOf(starts[1..], x);
      if t == -1 then -1 else t + 1
  }

  /** `dateStr >= starts[i]` and it is the last week or `dateStr < starts[i + 1]` */
  predicate InWeek(starts: seq<string>, d: string, i: int)
    requires 0 <= i < |starts|
  {
    !StrLess(d, starts[i]) && (i == |starts| - 1 || StrLess(d, starts[i + 1]))
  }

  /** The answer for a date that starts week k > 0: "AM" keeps the week before */
  function SharedChoice(ampm: string, k: nat): Result<nat, PickError>
    requires k > 0
  {
    if ampm == [] then Err(SharedBoundary) else if ampm == "AM" then Ok(k - 1) else Ok(k)
  }

  /**
   * What `pickWeekIndexForDate` promises for the start texts `starts`; an
   * absent `ampm` is the empty string. A date that is the start of a week
   * after the first is shared with the week before and needs a choice: "AM"
   * keeps the earlier week, anything else takes the later one. Any other date
   * goes to the last week whose start text it does not precede and whose
   * successor's start text it precedes, and is outside the ranges when there
   * is no such week.
   */
  predicate Picked(starts: seq<string>, dateStr: string, ampm: string, r: Result<nat, PickError>)
  {
    if dateStr == [] then r == Err(NoDate)
    else if IndexOf(starts, dateStr) > 0 then
      var k := IndexOf(starts, dateStr);
      r == SharedChoice(ampm, k)
    else
      match r
      case Ok(i) =>
        i < |starts| && InWeek(starts, dateStr, i) &&
        forall j :: i < j < |starts| ==> !InWeek(starts, dateStr, j)
      case Err(e) =>
        e == OutsideRanges && forall j :: 0 <= j < |starts| ==> !InWeek(starts, dateStr, j)
  }

  /** `pickWeekIndexForDate(dateStr, ampm)` over the weeks of the parsed grid */
  method PickWeekIndexForDate(weeks: seq<Week>, dateStr: string, ampm: string) returns (r: Result<nat, PickError>)
    ensures Picked(StartTexts(weeks), dateStr, ampm, r)
  {
    r := PickWeekIndex(StartTexts(weeks), dateStr, ampm);
  }

  /** The search of `pickWeekIndexForDate` once the start texts are built */
  method PickWeekIndex(starts: seq<string>, dateStr: string, ampm: string) returns (r: Result<nat, PickError>)
    ensures Picked(starts, dateStr, ampm, r)
  {
    if dateStr == [] {
      return Err(NoDate);
    }
    var boundary := IndexOf(starts, dateStr);
    if boundary > 0 {
      if ampm == [] {
        return Err(SharedBoundary);
      }
      return if ampm == "AM" then Ok(boundary - 1) else Ok(boundary);
    }
    var i := |starts| - 1;
    while i >= 0
      invariant -1 <= i < |starts|
      invariant forall j :: i < j < |starts| ==> !InWeek(starts, dateStr, j)
    {
      if !StrLess(dateStr, starts[i]) {
        if i == |starts| - 1 {
          return Ok(i);
        }
        if StrLess(dateStr, starts[i + 1]) {
          return Ok(i);
        }
      }
      i := i - 1;
    }
    return Err(OutsideRanges);
  }

  /** Start texts in strictly increasing string order */
  predicate Ascending(starts: seq<string>)
  {
    forall i, j :: 0 <= i < j < |starts| ==> StrLess(starts[i], starts[j])
  }

  /** With ascending starts at most one week covers a date */
  lemma InWeekUnique(starts: seq<string>, d: string, i: int, j: int)
    requires Ascending(starts) && 0 <= i < |starts| && 0 <= j < |starts|
    requires InWeek(starts, d, i) && InWeek(starts, d, j)
    ensures i == j
  {
    if i + 1 < j {
      StrLessTransitive(d, starts[i + 1], starts[j]);
    } else if j + 1 < i {
      StrLessTransitive(d, starts[j + 1], starts[i]);
    }
  }

  /** A date not before the start at `i` lies in week `i` or a later one */
  lemma {:induction false} InWeekFrom(starts: seq<string>, d: string, i: int)
    requires 0 <= i < |starts| && !StrLess(d, starts[i])
    ensures exists j :: i <= j < |starts| && InWeek(starts, d, j)
    decreases |starts| - i
  {
    if i < |starts| - 1 && !StrLess(d, starts[i + 1]) {
      InWeekFrom(starts, d, i + 1);
    } else {
      assert InWeek(starts, d, i);
    }
  }

  /**
   * With ascending starts, "Date is outside Start/End ranges" happens exactly
   * when there are no weeks or the date precedes the first start
   */
  lemma OutsideIffBeforeFirst(starts: seq<string>, d: string)
    requires Ascending(starts)
    ensures (forall j :: 0 <= j < |starts| ==> !InWeek(starts, d, j)) <==> (|starts| == 0 || StrLess(d, starts[0]))
  {
    if |starts| > 0 {
      if !StrLess(d, starts[0]) {
        InWeekFrom(starts, d, 0);
      } else {
        forall j | 0 <= j < |starts| ensures !InWeek(starts, d, j) {
          if j > 0 && !StrLess(d, starts[j]) {
            StrLessTransitive(d, starts[0], starts[j]);
          }
        }
      }
    }
  }

  /** Weeks whose starts increase, in years 1000 to 9999 */
  predicate FourDigitAscending(weeks: seq<Week>)
  {
    (forall i, j :: 0 <= i < j < |weeks| ==> weeks[i].start < weeks[j].start) &&
    (forall i :: 0 <= i < |weeks| ==> 1000 <= Civil(weeks[i].start).year <= 9999)
  }

  /** Increasing start days give start texts in increasing string order */
  lemma StartTextsAscending(weeks: seq<Week>)
    requires FourDigitAscending(weeks)
    ensures Ascending(StartTexts(weeks))
  {
    var starts := StartTexts(weeks);
    forall i, j | 0 <= i < j < |starts| ensures StrLess(starts[i], starts[j]) {
      YmdOrder(weeks[i].start, weeks[j].start);
    }
  }

  /**
   * On texts written by `ymd`, the string test of the loop is the day test
   * `start_i <= n < start_{i+1}`
   */
  lemma InWeekOfDay(weeks: seq<Week>, n: int, i: int)
    requires FourDigitAscending(weeks) && 1000 <= Civil(n).year <= 9999 && 0 <= i < |weeks|
    ensures InWeek(StartTexts(weeks), Ymd(n), i) <==>
      weeks[i].start <= n && (i == |weeks| - 1 || n < weeks[i + 1].start)
  {
    YmdOrder(n, weeks[i].start);
    if i < |weeks| - 1 {
      YmdOrder(n, weeks[i + 1].start);
    }
  }

  /** With increasing starts, a week's start text is `ymd(n)` exactly when the week starts on day n */
  lemma StartTextIsDay(weeks: seq<Week>, n: int, k: int)
    requires FourDigitAscending(weeks) && 1000 <= Civil(n).year <= 9999 && 0 <= k < |weeks|
    ensures StartTexts(weeks)[k] == Ymd(n) <==> weeks[k].start == n
  {
    YmdOrder(n, weeks[k].start);
    YmdOrder(weeks[k].start, n);
    StrLessIrreflexive(Ymd(n));
  }

  /**
   * The week chosen for the day n, in days: a later week starting on n needs
   * the morning/evening choice; otherwise the chosen week is the one with
   * `start_i <= n < start_{i+1}`, and the date is outside the ranges exactly
   * when there are no weeks or n precedes the first start
   */
  lemma PickedOfDay(weeks: seq<Week>, n: int, ampm: string, r: Result<nat, PickError>)
    requires FourDigitAscending(weeks) && 1000 <= Civil(n).year <= 9999
    requires Picked(StartTexts(weeks), Ymd(n), ampm, r)
    ensures forall k :: 0 < k < |weeks| && weeks[k].start == n ==>
      r == SharedChoice(ampm, k)
    ensures (forall k :: 0 < k < |weeks| ==> weeks[k].start != n) ==>
      (r.Ok? ==> r.value < |weeks| && weeks[r.value].start <= n && (r.value == |weeks| - 1 || n < weeks[r.value + 1].start)) &&
      (r.Err? <==> |weeks| == 0 || n < weeks[0].start)
  {
    DayOrderFacts(weeks, n);
    PickedByOrder(weeks, StartTexts(weeks), n, Ymd(n), ampm, r);
  }

  /** The start texts compare with `ymd(n)` as the start days compare with n */
  lemma DayOrderFacts(weeks: seq<Week>, n: int)
    requires FourDigitAscending(weeks) && 1000 <= Civil(n).year <= 9999
    ensures Ymd(n) != [] && Ascending(StartTexts(weeks)) && |StartTexts(weeks)| == |weeks|
    ensures forall k :: 0 <= k < |weeks| ==>
      (StrLess(Ymd(n), StartTexts(weeks)[k]) <==> n < weeks[k].start) &&
      (StartTexts(weeks)[k] == Ymd(n) <==> weeks[k].start == n)
  {
    var starts := StartTexts(weeks);
    YmdNotEmpty(n);
    StartTextsAscending(weeks);
    forall k | 0 <= k < |weeks|
      ensures (StrLess(Ymd(n), starts[k]) <==> n < weeks[k].start) && (starts[k] == Ymd(n) <==> weeks[k].start == n)
    {
      YmdOrder(n, weeks[k].start);
      StartTextIsDay(weeks, n, k);
    }
  }

  /** `PickedOfDay` for any start texts ordered as the start days are */
  lemma PickedByOrder(weeks: seq<Week>, starts: seq<string>, n: int, d: string, ampm: string, r: Result<nat, PickError>)
    requires |starts| == |weeks| && d != [] && Ascending(starts) && Picked(starts, d, ampm, r)
    requires forall k :: 0 <= k < |weeks| ==>
      (StrLess(d, starts[k]) <==> n < weeks[k].start) && (starts[k] == d <==> weeks[k].start == n)
    ensures forall k :: 0 < k < |weeks| && weeks[k].start == n ==>
      r == SharedChoice(ampm, k)
    ensures (forall k :: 0 < k < |weeks| ==> weeks[k].start != n) ==>
      (r.Ok? ==> r.value < |weeks| && weeks[r.value].start <= n && (r.value == |weeks| - 1 || n < weeks[r.value + 1].start)) &&
      (r.Err? <==> |weeks| == 0 || n < weeks[0].start)
  {
    var b := IndexOf(starts, d);
    if b <= 0 {
      OutsideIffBeforeFirst(starts, d);
    }
  }

  /** `effectiveInputDateYmd(entered)`: at UTC-5 the entered date moves one day on */
  function EffectiveInputDate(entered: string, utcMinus5: bool): (r: string)
    ensures !utcMinus5 ==> r == entered
  {
    if utcMinus5 then ShiftYmd(entered, 1) else entered
  }

  /** `effectiveTodayYmd()` with today's text and the UTC-5 flag as parameters */
  function EffectiveToday(today: string, utcMinus5: bool): (r: string)
    ensures !utcMinus5 ==> r == today
  {
    EffectiveInputDate(today, utcMinus5)
  }

  /** On a date `ymd` wrote, the UTC-5 adjustment is the next day's text */
  lemma EffectiveDateOfYmd(n: int, utcMinus5: bool)
    requires Civil(n).year >= 100 && -MaxDays <= n < MaxDays
    ensures EffectiveInputDate(Ymd(n), utcMinus5) == (if utcMinus5 then Ymd(n + 1) else Ymd(n))
    ensures EffectiveToday(Ymd(n), utcMinus5) == EffectiveInputDate(Ymd(n), utcMinus5)
  {
    ShiftYmdOfYmd(n, 1);
  }
}
