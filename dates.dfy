/**
 * Calendar dates as the task manager uses chrono's `NaiveDate`: a proleptic
 * Gregorian (year, month, day), chronological order, "plus n days", the ISO
 * text form `YYYY-MM-DD`, the `%m-%d` and `%A` forms, and the strict
 * `YYYY-MM-DD` parser.
 */
module Dates {
  import opened Options
  import opened Text

  datatype CivilDate = CivilDate(year: int, month: int, day: int)

  predicate IsLeapYear(y: int) {
    y % 4 == 0 && (y % 100 != 0 || y % 400 == 0)
  }

  function DaysInMonth(year: int, month: int): (n: int)
    requires 1 <= month <= 12
    ensures 28 <= n <= 31
  {
    if month == 2 then (if IsLeapYear(year) then 29 else 28)
    else if month == 4 || month == 6 || month == 9 || month == 11 then 30
    else 31
  }

  predicate ValidCivil(d: CivilDate) {
    1 <= d.month <= 12 && 1 <= d.day <= DaysInMonth(d.year, d.month)
  }

  /** A real calendar day. */
  type Date = d: CivilDate | ValidCivil(d) witness CivilDate(1970, 1, 1)

  /** `a < b` on `NaiveDate`: chronological order. */
  predicate Before(a: Date, b: Date) {
    a.year < b.year ||
    (a.year == b.year && (a.month < b.month || (a.month == b.month && a.day < b.day)))
  }

  // ---------------------------------------------------------------------
  // Day numbers: the days since 1970-01-01
  // ---------------------------------------------------------------------

  /** Days from 0000-03-01 to the first of March of year `y`. */
  function MarchStart(y: int): int {
    365 * y + y / 4 - y / 100 + y / 400
  }

  /** Days from the first of March to the first of `month`, counting January and February at the end. */
  function DaysSinceMarch(month: int): int
    requires 1 <= month <= 12
  {
    match month
    case 3 => 0
    case 4 => 31
    case 5 => 61
    case 6 => 92
    case 7 => 122
    case 8 => 153
    case 9 => 184
    case 10 => 214
    case 11 => 245
    case 12 => 275
    case 1 => 306
    case _ => 337
  }

  /** The number of days from 1970-01-01 (day 0) to `d`. */
  function DayNumber(d: Date): int {
    var marchYear := if d.month <= 2 then d.year - 1 else d.year;
    MarchStart(marchYear) + DaysSinceMarch(d.month) + d.day - 1 - 719468
  }

  /** A March-based year lasts 365 days, plus the leap day of the next calendar year. */
  lemma MarchYearLength(y: int)
    ensures MarchStart(y + 1) == MarchStart(y) + 365 + (if IsLeapYear(y + 1) then 1 else 0)
  {
    assert (y + 1) / 4 - y / 4 == (if (y + 1) % 4 == 0 then 1 else 0);
    assert (y + 1) / 100 - y / 100 == (if (y + 1) % 100 == 0 then 1 else 0);
    assert (y + 1) / 400 - y / 400 == (if (y + 1) % 400 == 0 then 1 else 0);
  }

  /** The calendar day after `d` (`d + Duration::days(1)`). */
  function NextDay(d: Date): (r: Date)
    ensures Before(d, r)
    ensures DayNumber(r) == DayNumber(d) + 1
  {
    if d.day < DaysInMonth(d.year, d.month) then
      CivilDate(d.year, d.month, d.day + 1)
    else if d.month < 12 then
      MonthEndStep(d);
      CivilDate(d.year, d.month + 1, 1)
    else
      CivilDate(d.year + 1, 1, 1)
  }

  /** The first of the next month follows the last day of a month before December. */
  lemma MonthEndStep(d: Date)
    requires d.month < 12 && d.day == DaysInMonth(d.year, d.month)
    ensures DayNumber(CivilDate(d.year, d.month + 1, 1)) == DayNumber(d) + 1
  {
    if d.month == 2 {
      MarchYearLength(d.year - 1);
    }
  }

  /** `d + Duration::days(n)`. */
  function AddDays(d: Date, n: nat): (r: Date)
    ensures DayNumber(r) == DayNumber(d) + n
    ensures n > 0 ==> Before(d, r)
    decreases n
  {
    if n == 0 then d
    else
      var r := AddDays(NextDay(d), n - 1);
      BeforeTransitive(d, NextDay(d), r);
      r
  }

  lemma BeforeTransitive(a: Date, b: Date, c: Date)
    requires Before(a, b) && (b == c || Before(b, c))
    ensures Before(a, c)
  {
  }

  /** Nothing lies strictly between a day and the next one. */
  lemma NextDayIsSuccessor(d: Date, x: Date)
    ensures !(Before(d, x) && Before(x, NextDay(d)))
  {
  }

  /** The day of the week, 0 for Sunday through 6 for Saturday (1970-01-01 was a Thursday). */
  function Weekday(d: Date): (w: int)
    ensures 0 <= w < 7
  {
    (DayNumber(d) + 4) % 7
  }

  /** Weekdays advance by one, cyclically, from one day to the next. */
  lemma WeekdayOfNextDay(d: Date)
    ensures Weekday(NextDay(d)) == (Weekday(d) + 1) % 7
  {
    var k := DayNumber(d) + 4;
    assert DayNumber(NextDay(d)) + 4 == k + 1;
    CyclicStep(k);
  }

  lemma CyclicStep(k: int)
    ensures (k + 1) % 7 == (k % 7 + 1) % 7
  {
  }

  /** 1970-01-01, day 0, was a Thursday. */
  lemma WeekdayEpoch()
    ensures DayNumber(CivilDate(1970, 1, 1)) == 0
    ensures Weekday(CivilDate(1970, 1, 1)) == 4
    ensures WeekdayName(CivilDate(1970, 1, 1)) == "Thursday"
  {
  }

  /** The year whose first of March starts the March-based year `d` lies in. */
  function MarchYear(d: Date): (y: int)
    ensures y == d.year || (y == d.year - 1 && d.month <= 2)
  {
    if d.month <= 2 then d.year - 1 else d.year
  }

  /** Position of a month in the March-based year: March is 0, February 11. */
  function MarchMonth(month: int): (k: int)
    requires 1 <= month <= 12
    ensures 0 <= k < 12
  {
    (month + 9) % 12
  }

  /** Days from the first of March of `MarchYear(d)` to `d`. */
  function MarchOffset(d: Date): (n: int)
    ensures 0 <= n < 365 + (if IsLeapYear(MarchYear(d) + 1) then 1 else 0)
    ensures DayNumber(d) == MarchStart(MarchYear(d)) + n - 719468
  {
    DaysSinceMarch(d.month) + d.day - 1
  }

  /** Each first of March comes at least a March-based year after the one before. */
  lemma {:induction false} MarchStartIncreasing(x: int, y: int)
    requires x < y
    ensures MarchStart(x) + 365 + (if IsLeapYear(x + 1) then 1 else 0) <= MarchStart(y)
    decreases y - x
  {
    MarchYearLength(x);
    if x + 1 < y {
      MarchStartIncreasing(x + 1, y);
    }
  }

  /** A month ends no later than the next one in the March-based year begins. */
  lemma MonthsInMarchOrder(year: int, m1: int, m2: int)
    requires 1 <= m1 <= 12 && 1 <= m2 <= 12
    requires MarchMonth(m1) < MarchMonth(m2)
    ensures DaysSinceMarch(m1) + DaysInMonth(year, m1) <= DaysSinceMarch(m2)
  {
  }

  /** Day numbers follow chronological order. */
  lemma DayNumberIncreasing(a: Date, b: Date)
    requires Before(a, b)
    ensures DayNumber(a) < DayNumber(b)
  {
    var ya, yb := MarchYear(a), MarchYear(b);
    var oa, ob := MarchOffset(a), MarchOffset(b);
    if ya < yb {
      MarchStartIncreasing(ya, yb);
    } else {
      assert ya == yb;
      if a.month != b.month {
        assert MarchMonth(a.month) < MarchMonth(b.month);
        MonthsInMarchOrder(a.year, a.month, b.month);
      }
      assert oa < ob;
    }
  }

  /** Different dates have different day numbers. */
  lemma DayNumberInjective(a: Date, b: Date)
    requires DayNumber(a) == DayNumber(b)
    ensures a == b
  {
    if Before(a, b) {
      DayNumberIncreasing(a, b);
    } else if Before(b, a) {
      DayNumberIncreasing(b, a);
    }
  }

  /** chrono's `%A`: the full English weekday name. */
  function WeekdayName(d: Date): (name: string)
    ensures |name| >= 6 && name[|name| - 3..] == "day"
  {
    ["Sunday", "Monday", "Tuesday", "Wednesday", "Thursday", "Friday", "Saturday"][Weekday(d)]
  }

  // ---------------------------------------------------------------------
  // Text forms
  // ---------------------------------------------------------------------

  function Abs(y: int): nat {
    if y < 0 then -y else y
  }

  /**
   * chrono's year text: four zero-padded digits for years 0 to 9999, otherwise
   * a sign and at least four digits.
   */
  function YearText(y: int): (s: string)
    ensures |s| >= 4
    ensures 0 <= y <= 9999 <==> |s| == 4
    ensures 0 <= y <= 9999 ==> AllDigits(s) && DigitsValue(s) == y
    ensures y > 9999 ==> s[0] == '+'
    ensures y < 0 ==> s[0] == '-'
  {
    if 0 <= y <= 9999 then
      Pow10Values();
      ValueOfFixedDigits(y, 4);
      FixedDigits(y, 4)
    else
      var width := if NumDigits(Abs(y)) < 4 then 4 else NumDigits(Abs(y));
      (if y > 0 then "+" else "-") + FixedDigits(Abs(y), width)
  }

  /** `date.to_string()`: `YYYY-MM-DD`. */
  function IsoDate(d: Date): (s: string)
    ensures |s| == |YearText(d.year)| + 6
  {
    YearText(d.year) + "-" + FixedDigits(d.month, 2) + "-" + FixedDigits(d.day, 2)
  }

  /** `date.format("%m-%d")`. */
  function MonthDay(d: Date): (s: string)
    ensures |s| == 5 && s[2] == '-'
    ensures AllDigits(s[..2]) && DigitsValue(s[..2]) == d.month
    ensures AllDigits(s[3..]) && DigitsValue(s[3..]) == d.day
  {
    var s := FixedDigits(d.month, 2) + "-" + FixedDigits(d.day, 2);
    assert s[..2] == FixedDigits(d.month, 2) && s[3..] == FixedDigits(d.day, 2);
    ValueOfFixedDigits(d.month, 2);
    ValueOfFixedDigits(d.day, 2);
    s
  }

  /**
   * `NaiveDate::parse_from_str(s, "%Y-%m-%d")`, in its strict form: four
   * digits, a dash, two digits, a dash, two digits, naming a real day.
   */
  function ParseIsoDate(s: string): (r: Option<Date>)
    ensures r.Some? ==> |s| == 10 && s[4] == '-' && s[7] == '-'
    ensures r.Some? ==> AllDigits(s[..4]) && DigitsValue(s[..4]) == r.value.year
    ensures r.Some? ==> AllDigits(s[5..7]) && DigitsValue(s[5..7]) == r.value.month
    ensures r.Some? ==> AllDigits(s[8..]) && DigitsValue(s[8..]) == r.value.day
  {
    if |s| == 10 && s[4] == '-' && s[7] == '-'
       && AllDigits(s[..4]) && AllDigits(s[5..7]) && AllDigits(s[8..])
    then
      var c := CivilDate(DigitsValue(s[..4]), DigitsValue(s[5..7]), DigitsValue(s[8..]));
      if ValidCivil(c) then Some(c) else None
    else None
  }

  lemma Pow10Values()
    ensures Pow10(2) == 100 && Pow10(4) == 10000
  {
    assert Pow10(1) == 10;
    assert Pow10(3) == 1000;
  }

  lemma {:induction false} Pow10Monotone(i: nat, j: nat)
    requires i <= j
    ensures Pow10(i) <= Pow10(j)
  {
    if i < j {
      Pow10Monotone(i, j - 1);
    }
  }

  /** Every date of years 0 to 9999 reads back from its ISO text. */
  lemma ParseIsoDateOfIsoDate(d: Date)
    requires 0 <= d.year <= 9999
    ensures ParseIsoDate(IsoDate(d)) == Some(d)
  {
    var y, m, dd := FixedDigits(d.year, 4), FixedDigits(d.month, 2), FixedDigits(d.day, 2);
    var s := y + "-" + m + "-" + dd;
    assert s == IsoDate(d);
    assert s[..4] == y && s[5..7] == m && s[8..] == dd;
    Pow10Values();
    ValueOfFixedDigits(d.year, 4);
    ValueOfFixedDigits(d.month, 2);
    ValueOfFixedDigits(d.day, 2);
  }

  /** A text the parser accepts is the ISO text of the date it yields. */
  lemma IsoDateOfParseIsoDate(s: string)
    requires ParseIsoDate(s).Some?
    ensures 0 <= ParseIsoDate(s).value.year <= 9999
    ensures IsoDate(ParseIsoDate(s).value) == s
  {
    var d := ParseIsoDate(s).value;
    DigitsValueBound(s[..4]);
    Pow10Values();
    FixedDigitsOfValue(s[..4]);
    FixedDigitsOfValue(s[5..7]);
    FixedDigitsOfValue(s[8..]);
    assert s == s[..4] + "-" + s[5..7] + "-" + s[8..];
  }

  lemma YearTextInjective(x: int, y: int)
    requires YearText(x) == YearText(y)
    ensures x == y
  {
    Pow10Values();
    var tx, ty := YearText(x), YearText(y);
    if 0 <= x <= 9999 && 0 <= y <= 9999 {
      FixedDigitsInjective(x, y, 4);
    } else if 0 <= x <= 9999 {
      assert false;
    } else if 0 <= y <= 9999 {
      assert false;
    } else {
      var w := |tx| - 1;
      assert tx[1..] == FixedDigits(Abs(x), w) && ty[1..] == FixedDigits(Abs(y), w);
      Pow10Monotone(NumDigits(Abs(x)), w);
      Pow10Monotone(NumDigits(Abs(y)), w);
      FixedDigitsInjective(Abs(x), Abs(y), w);
      assert (x > 0) == (tx[0] == '+') && (y > 0) == (ty[0] == '+');
    }
  }

  /** Different dates have different ISO texts. */
  lemma IsoDateInjective(a: Date, b: Date)
    requires IsoDate(a) == IsoDate(b)
    ensures a == b
  {
    var s := IsoDate(a);
    var n := |s|;
    Pow10Values();
    assert YearText(a.year) == s[..n - 6] == YearText(b.year);
    YearTextInjective(a.year, b.year);
    assert FixedDigits(a.month, 2) == s[n - 5..n - 3] == FixedDigits(b.month, 2);
    assert FixedDigits(a.day, 2) == s[n - 2..] == FixedDigits(b.day, 2);
    FixedDigitsInjective(a.month, b.month, 2);
    FixedDigitsInjective(a.day, b.day, 2);
  }
}
