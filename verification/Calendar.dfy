/** Calendar-month arithmetic on the Gregorian calendar. */
module Calendar {
  import opened Common

  const MIN_YEAR := 1
  const MAX_YEAR := 9999

  datatype Date = Date(year: int, month: int, day: int)

  predicate IsLeap(year: int) {
    year % 4 == 0 && (year % 100 != 0 || year % 400 == 0)
  }

  function DaysInMonth(year: int, month: int): (n: int)
    requires 1 <= month <= 12
    ensures 28 <= n <= 31
  {
    if month == 2 then (if IsLeap(year) then 29 else 28)
    else if month in {4, 6, 9, 11} then 30
    else 31
  }

  predicate Valid(d: Date) {
    MIN_YEAR <= d.year <= MAX_YEAR && 1 <= d.month <= 12 && 1 <= d.day <= DaysInMonth(d.year, d.month)
  }

  /** Adds calendar months, clamping the day; None where the year leaves the supported range. */
  function AddMonths(d: Date, months: int): Option<Date>
    requires Valid(d)
  {
    var total := d.month - 1 + months;
    var year := d.year + total / 12;
    var month := total % 12 + 1;
    var day := Min(d.day, DaysInMonth(year, month));
    if MIN_YEAR <= year <= MAX_YEAR then Some(Date(year, month, day)) else None
  }

  // ---------- Counting months and days ----------

  function MonthIndex(d: Date): int {
    d.year * 12 + (d.month - 1)
  }

  function LengthOf(index: int): (n: int)
    ensures 28 <= n <= 31
  {
    DaysInMonth(index / 12, index % 12 + 1)
  }

  const FIRST_MONTH := 12  // January of year 1

  /** Days before the first of the month, counted month by month from 0001-01-01. */
  function MonthStart(index: int): nat
    requires FIRST_MONTH <= index
    decreases index
  {
    if index == FIRST_MONTH then 0 else MonthStart(index - 1) + LengthOf(index - 1)
  }

  /** The day number: 0001-01-01 is day 1 and consecutive days are consecutive. */
  function DayNumber(d: Date): nat
    requires Valid(d)
  {
    MonthStart(MonthIndex(d)) + d.day
  }

  /** Days before year `year` by the leap-year count of the Gregorian calendar. */
  function DaysBeforeYear(year: int): int {
    365 * (year - 1) + (year - 1) / 4 - (year - 1) / 100 + (year - 1) / 400
  }

  /** Days before the first of a month within its year; month 13 stands for the whole year. */
  function DaysBeforeMonth(year: int, month: int): int
    requires 1 <= month <= 13
    decreases month
  {
    if month == 1 then 0 else DaysBeforeMonth(year, month - 1) + DaysInMonth(year, month - 1)
  }

  lemma YearLength(year: int)
    ensures DaysBeforeMonth(year, 13) == if IsLeap(year) then 366 else 365
  {
    assert DaysBeforeMonth(year, 3) == if IsLeap(year) then 60 else 59 by {
      assert DaysBeforeMonth(year, 2) == 31;
    }
    assert DaysBeforeMonth(year, 5) == DaysBeforeMonth(year, 3) + 61;
    assert DaysBeforeMonth(year, 7) == DaysBeforeMonth(year, 5) + 61;
    assert DaysBeforeMonth(year, 9) == DaysBeforeMonth(year, 7) + 62;
    assert DaysBeforeMonth(year, 11) == DaysBeforeMonth(year, 9) + 61;
    assert DaysBeforeMonth(year, 13) == DaysBeforeMonth(year, 11) + 61;
  }

  lemma {:induction false} WithinYear(year: int, month: int)
    requires MIN_YEAR <= year && 1 <= month <= 13
    ensures MonthStart(12 * year + (month - 1)) == MonthStart(12 * year) + DaysBeforeMonth(year, month)
    decreases month
  {
    if month == 1 {
    } else {
      WithinYear(year, month - 1);
      var k := 12 * year + (month - 2);
      LengthAt(year, month - 1, k);
      assert MonthStart(k + 1) == MonthStart(k) + LengthOf(k);
    }
  }

  lemma LengthAt(year: int, month: int, index: int)
    requires 1 <= month <= 12 && index == 12 * year + (month - 1)
    ensures LengthOf(index) == DaysInMonth(year, month)
  {
    assert index / 12 == year && index % 12 == month - 1;
  }

  lemma FourthSteps(n: int)
    requires n >= 1
    ensures n / 4 == (n - 1) / 4 + if n % 4 == 0 then 1 else 0
  {
  }

  lemma HundredthSteps(n: int)
    requires n >= 1
    ensures n / 100 == (n - 1) / 100 + if n % 100 == 0 then 1 else 0
  {
  }

  lemma FourHundredthSteps(n: int)
    requires n >= 1
    ensures n / 400 == (n - 1) / 400 + if n % 400 == 0 then 1 else 0
  {
  }

  lemma MultiplesNest(n: int)
    ensures n % 400 == 0 ==> n % 100 == 0
    ensures n % 100 == 0 ==> n % 4 == 0
  {
  }

  lemma LeapCount(n: int)
    requires n >= 1
    ensures n / 4 - n / 100 + n / 400
         == (n - 1) / 4 - (n - 1) / 100 + (n - 1) / 400 + if IsLeap(n) then 1 else 0
  {
    FourthSteps(n);
    HundredthSteps(n);
    FourHundredthSteps(n);
    MultiplesNest(n);
  }

  lemma NextYear(n: int)
    requires n >= 1
    ensures DaysBeforeYear(n + 1) == DaysBeforeYear(n) + if IsLeap(n) then 366 else 365
  {
    LeapCount(n);
  }

  lemma WholeYear(year: int)
    requires MIN_YEAR <= year
    ensures MonthStart(12 * (year + 1)) == MonthStart(12 * year) + if IsLeap(year) then 366 else 365
  {
    WithinYear(year, 13);
    YearLength(year);
    assert 12 * year + (13 - 1) == 12 * (year + 1);
  }

  lemma {:induction false} CountMatchesYears(year: int)
    requires MIN_YEAR <= year
    ensures MonthStart(12 * year) == DaysBeforeYear(year)
    decreases year
  {
    if year == MIN_YEAR {
    } else {
      CountMatchesYears(year - 1);
      WholeYear(year - 1);
      NextYear(year - 1);
    }
  }

  /** The day-by-day count agrees with the closed formula of the Gregorian calendar on every date. */
  lemma CountMatchesCalendar(d: Date)
    requires Valid(d)
    ensures DayNumber(d) == DaysBeforeYear(d.year) + DaysBeforeMonth(d.year, d.month) + d.day
  {
    assert MonthIndex(d) == 12 * d.year + (d.month - 1);
    CountMatchesYears(d.year);
    WithinYear(d.year, d.month);
    assert DayNumber(d) == MonthStart(12 * d.year + (d.month - 1)) + d.day;
  }

  // ---------- Properties of AddMonths ----------

  lemma SplitIndex(year: int, month: int, index: int)
    requires 0 <= month < 12 && index == 12 * year + month
    ensures index / 12 == year && index % 12 == month
    ensures MIN_YEAR <= year <= MAX_YEAR <==> 12 * MIN_YEAR <= index < 12 * (MAX_YEAR + 1)
  {
  }

  lemma Regroup(year: int, total: int)
    ensures 0 <= total % 12 < 12 && 12 * year + total == 12 * (year + total / 12) + total % 12
  {
  }

  /** The result is a valid date exactly `months` months on, on the same day or the last one. */
  lemma AddsExactly(d: Date, months: int)
    requires Valid(d)
    ensures AddMonths(d, months).Some? <==> 12 * MIN_YEAR <= MonthIndex(d) + months < 12 * (MAX_YEAR + 1)
    ensures AddMonths(d, months).Some? ==>
              var r := AddMonths(d, months).value;
              && Valid(r)
              && MonthIndex(r) == MonthIndex(d) + months
              && r.day == Min(d.day, LengthOf(MonthIndex(d) + months))
  {
    var total := d.month - 1 + months;
    Regroup(d.year, total);
    SplitIndex(d.year + total / 12, total % 12, MonthIndex(d) + months);
  }

  function ClampedStart(index: int, day: int): int
    requires FIRST_MONTH <= index
  {
    MonthStart(index) + Min(day, LengthOf(index))
  }

  lemma {:induction false} ClampedMoves(index: int, day: int, months: nat)
    requires FIRST_MONTH <= index && 1 <= day <= LengthOf(index)
    ensures 28 * months <= ClampedStart(index + months, day) - ClampedStart(index, day) <= 31 * months
  {
    if months == 0 {
    } else {
      ClampedMoves(index, day, months - 1);
      assert MonthStart(index + months) == MonthStart(index + months - 1) + LengthOf(index + months - 1);
    }
  }

  /** A validity of `months` months lasts between 28 and 31 days per month. */
  lemma MovesBetween(d: Date, months: nat)
    requires Valid(d) && AddMonths(d, months).Some?
    ensures Valid(AddMonths(d, months).value)
    ensures 28 * months <= DayNumber(AddMonths(d, months).value) - DayNumber(d) <= 31 * months
  {
    AddsExactly(d, months);
    ClampedDay(d);
    ClampedDay(AddMonths(d, months).value);
    ClampedMoves(MonthIndex(d), d.day, months);
  }

  lemma ClampedDay(d: Date)
    requires Valid(d)
    ensures FIRST_MONTH <= MonthIndex(d) && d.day <= LengthOf(MonthIndex(d))
    ensures DayNumber(d) == ClampedStart(MonthIndex(d), d.day)
    ensures forall day :: Min(day, LengthOf(MonthIndex(d))) == d.day ==>
              DayNumber(d) == ClampedStart(MonthIndex(d), day)
  {
    IndexIsReadable(d);
  }

  lemma IndexIsReadable(d: Date)
    requires Valid(d)
    ensures LengthOf(MonthIndex(d)) == DaysInMonth(d.year, d.month) && FIRST_MONTH <= MonthIndex(d)
  {
    assert MonthIndex(d) / 12 == d.year && MonthIndex(d) % 12 == d.month - 1;
  }

  lemma {:induction false} LaterMonthStartsLater(a: int, b: int)
    requires FIRST_MONTH <= a < b
    ensures MonthStart(a) + LengthOf(a) <= MonthStart(b)
    decreases b
  {
    if a == b - 1 {
    } else {
      LaterMonthStartsLater(a, b - 1);
    }
  }

  /** Day numbers order dates by month, then by day. */
  lemma OrderOfDays(a: Date, b: Date)
    requires Valid(a) && Valid(b)
    ensures DayNumber(a) < DayNumber(b)
            <==> MonthIndex(a) < MonthIndex(b) || (MonthIndex(a) == MonthIndex(b) && a.day < b.day)
    ensures DayNumber(a) == DayNumber(b) <==> a == b
  {
    IndexIsReadable(a);
    IndexIsReadable(b);
    var i, j := MonthIndex(a), MonthIndex(b);
    if i < j { LaterMonthStartsLater(i, j); }
    if j < i { LaterMonthStartsLater(j, i); }
  }

  /** Starting no later never ends later. */
  lemma MonotoneInDate(a: Date, b: Date, months: int)
    requires Valid(a) && Valid(b) && DayNumber(a) <= DayNumber(b)
    requires AddMonths(a, months).Some? && AddMonths(b, months).Some?
    ensures Valid(AddMonths(a, months).value) && Valid(AddMonths(b, months).value)
    ensures DayNumber(AddMonths(a, months).value) <= DayNumber(AddMonths(b, months).value)
  {
    AddsExactly(a, months);
    AddsExactly(b, months);
    OrderOfDays(a, b);
    OrderOfDays(AddMonths(a, months).value, AddMonths(b, months).value);
  }

  /** More months always end strictly later. */
  lemma StrictInMonths(d: Date, m: int, n: int)
    requires Valid(d) && m < n && AddMonths(d, m).Some? && AddMonths(d, n).Some?
    ensures Valid(AddMonths(d, m).value) && Valid(AddMonths(d, n).value)
    ensures DayNumber(AddMonths(d, m).value) < DayNumber(AddMonths(d, n).value)
  {
    AddsExactly(d, m);
    AddsExactly(d, n);
    OrderOfDays(AddMonths(d, m).value, AddMonths(d, n).value);
  }

  /** Adding in two steps never overtakes adding at once, and it agrees exactly when the stop-over
      month did not clamp the day more than the final month does; days up to the 28th always agree. */
  lemma TwoStepsLag(d: Date, a: int, b: int)
    requires Valid(d) && AddMonths(d, a).Some? && AddMonths(d, a + b).Some?
    ensures Valid(AddMonths(d, a).value) && Valid(AddMonths(d, a + b).value)
    ensures AddMonths(AddMonths(d, a).value, b).Some? && Valid(AddMonths(AddMonths(d, a).value, b).value)
    ensures DayNumber(AddMonths(AddMonths(d, a).value, b).value) <= DayNumber(AddMonths(d, a + b).value)
    ensures AddMonths(AddMonths(d, a).value, b) == AddMonths(d, a + b)
            <==> d.day <= LengthOf(MonthIndex(d) + a) || LengthOf(MonthIndex(d) + a + b) <= LengthOf(MonthIndex(d) + a)
    ensures d.day <= 28 ==> AddMonths(AddMonths(d, a).value, b) == AddMonths(d, a + b)
  {
    AddsExactly(d, a);
    AddsExactly(d, a + b);
    var stop := AddMonths(d, a).value;
    AddsExactly(stop, b);
    var x, y := AddMonths(stop, b).value, AddMonths(d, a + b).value;
    OrderOfDays(x, y);
    assert MonthIndex(x) == MonthIndex(y) && x.year == y.year && x.month == y.month;
  }

  /** One month after another can fall short: 31 January plus one plus one month is 28 March, plus two it is
      31 March. */
  lemma TwoStepsFallShort()
    ensures AddMonths(Date(2026, 1, 31), 1) == Some(Date(2026, 2, 28))
    ensures AddMonths(Date(2026, 2, 28), 1) == Some(Date(2026, 3, 28))
    ensures AddMonths(Date(2026, 1, 31), 2) == Some(Date(2026, 3, 31))
  {
  }
}
