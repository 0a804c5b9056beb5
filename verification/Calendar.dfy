/** The proleptic Gregorian calendar of Python's `datetime.date`, and the order
    isomorphism between its dates and the day ordinals 1..MAX_ORDINAL. */
module Calendar {

  const FIRST_YEAR := 1
  const LAST_YEAR := 9999
  const MAX_ORDINAL := 3652059

  datatype Date = Date(year: int, month: int, day: int)

  predicate IsLeap(year: int) {
    year % 4 == 0 && (year % 100 != 0 || year % 400 == 0)
  }

  /** `calendar.monthrange(year, month)[1]`. */
  function MonthLength(year: int, month: int): int {
    if month == 2 then (if IsLeap(year) then 29 else 28)
    else if month in {4, 6, 9, 11} then 30
    else 31
  }

  predicate ValidDate(d: Date) {
    && FIRST_YEAR <= d.year <= LAST_YEAR
    && 1 <= d.month <= 12
    && 1 <= d.day <= MonthLength(d.year, d.month)
  }

  /** Thirty days have the fourth, sixth, ninth and eleventh month; the second has 29 in
      a year divisible by four, unless by 100 and not by 400, and else 28. */
  lemma MonthLengths(year: int)
    ensures forall m :: m in [1, 3, 5, 7, 8, 10, 12] ==> MonthLength(year, m) == 31
    ensures forall m :: m in [4, 6, 9, 11] ==> MonthLength(year, m) == 30
    ensures MonthLength(year, 2) == 29 <==> (year % 400 == 0 || (year % 4 == 0 && year % 100 != 0))
    ensures MonthLength(year, 2) == 28 || MonthLength(year, 2) == 29
  {}

  /** Python's `a < b` on dates. */
  predicate Before(a: Date, b: Date) {
    || a.year < b.year
    || (a.year == b.year && a.month < b.month)
    || (a.year == b.year && a.month == b.month && a.day < b.day)
  }

  function DaysBeforeYear(year: int): int {
    365 * (year - 1) + (year - 1) / 4 - (year - 1) / 100 + (year - 1) / 400
  }

  function DaysBeforeMonth(year: int, month: int): int
    requires 1 <= month <= 13
    decreases month
  {
    if month == 1 then 0 else DaysBeforeMonth(year, month - 1) + MonthLength(year, month - 1)
  }

  /** `date.toordinal()`. */
  function Ordinal(d: Date): int
    requires 1 <= d.month <= 12
  {
    DaysBeforeYear(d.year) + DaysBeforeMonth(d.year, d.month) + d.day
  }

  lemma FourYearStep(year: int)
    ensures year / 4 == (year - 1) / 4 + if year % 4 == 0 then 1 else 0
  {}

  lemma CenturyStep(year: int)
    ensures year / 100 == (year - 1) / 100 + if year % 100 == 0 then 1 else 0
  {}

  lemma FourCenturyStep(year: int)
    ensures year / 400 == (year - 1) / 400 + if year % 400 == 0 then 1 else 0
  {}

  lemma YearLength(year: int)
    ensures DaysBeforeYear(year + 1) == DaysBeforeYear(year) + (if IsLeap(year) then 366 else 365)
  {
    FourYearStep(year);
    CenturyStep(year);
    FourCenturyStep(year);
  }

  lemma {:induction false} YearsIncrease(a: int, b: int)
    requires a <= b
    ensures DaysBeforeYear(a) + 365 * (b - a) <= DaysBeforeYear(b)
    decreases b - a
  {
    if a < b {
      YearLength(b - 1);
      YearsIncrease(a, b - 1);
    }
  }

  /** The twelve months fill the year. */
  lemma MonthsFillYear(year: int)
    ensures DaysBeforeMonth(year, 13) == if IsLeap(year) then 366 else 365
  {
    var before := m requires 1 <= m <= 13 => DaysBeforeMonth(year, m);
    assert before(2) == 31;
    assert before(3) == 31 + MonthLength(year, 2);
    assert before(4) == before(3) + 31;
    assert before(5) == before(3) + 61;
    assert before(6) == before(3) + 92;
    assert before(7) == before(3) + 122;
    assert before(8) == before(3) + 153;
    assert before(9) == before(3) + 184;
    assert before(10) == before(3) + 214;
    assert before(11) == before(3) + 245;
    assert before(12) == before(3) + 275;
  }

  lemma {:induction false} MonthsIncrease(year: int, a: int, b: int)
    requires 1 <= a < b <= 13
    ensures DaysBeforeMonth(year, a) + MonthLength(year, a) <= DaysBeforeMonth(year, b)
    decreases b
  {
    if a + 1 < b {
      MonthsIncrease(year, a, b - 1);
    }
  }

  /** A date's ordinal stays inside its own year. */
  lemma OrdinalInYear(d: Date)
    requires ValidDate(d)
    ensures DaysBeforeYear(d.year) < Ordinal(d) <= DaysBeforeYear(d.year + 1)
  {
    MonthsIncrease(d.year, d.month, 13);
    MonthsFillYear(d.year);
    YearLength(d.year);
    MonthsBeforeNonnegative(d.year, d.month);
  }

  lemma {:induction false} MonthsBeforeNonnegative(year: int, month: int)
    requires 1 <= month <= 13
    ensures DaysBeforeMonth(year, month) >= 0
    decreases month
  {
    if month > 1 {
      MonthsBeforeNonnegative(year, month - 1);
    }
  }

  lemma LaterMonthLater(a: Date, b: Date)
    requires ValidDate(a) && ValidDate(b) && a.year == b.year && a.month < b.month
    ensures Ordinal(a) < Ordinal(b)
  {
    MonthsIncrease(a.year, a.month, b.month);
  }

  lemma LaterYearLater(a: Date, b: Date)
    requires ValidDate(a) && ValidDate(b) && a.year < b.year
    ensures Ordinal(a) < Ordinal(b)
  {
    OrdinalInYear(a);
    OrdinalInYear(b);
    YearsIncrease(a.year + 1, b.year);
  }

  lemma BeforeRaisesOrdinal(a: Date, b: Date)
    requires ValidDate(a) && ValidDate(b) && Before(a, b)
    ensures Ordinal(a) < Ordinal(b)
  {
    if a.year < b.year {
      LaterYearLater(a, b);
    } else if a.month < b.month {
      LaterMonthLater(a, b);
    }
  }

  /** Ordinals carry the date order both ways, so they name dates uniquely. */
  lemma OrdinalOrder(a: Date, b: Date)
    requires ValidDate(a) && ValidDate(b)
    ensures Before(a, b) <==> Ordinal(a) < Ordinal(b)
    ensures a == b <==> Ordinal(a) == Ordinal(b)
  {
    if Before(a, b) {
      BeforeRaisesOrdinal(a, b);
    } else if Before(b, a) {
      BeforeRaisesOrdinal(b, a);
    } else {
      assert a == b;
    }
  }

  lemma OrdinalRange(d: Date)
    requires ValidDate(d)
    ensures 1 <= Ordinal(d) <= MAX_ORDINAL
  {
    OrdinalInYear(d);
    YearsIncrease(1, d.year);
    YearsIncrease(d.year + 1, 10000);
  }

  function YearFrom(n: int, year: int): (y: int)
    requires FIRST_YEAR <= year <= LAST_YEAR && DaysBeforeYear(year) < n <= MAX_ORDINAL
    ensures FIRST_YEAR <= y <= LAST_YEAR && DaysBeforeYear(y) < n <= DaysBeforeYear(y + 1)
    decreases LAST_YEAR - year
  {
    if n <= DaysBeforeYear(year + 1) then year else YearFrom(n, year + 1)
  }

  function MonthFrom(year: int, dayOfYear: int, month: int): (m: int)
    requires 1 <= month <= 12 && DaysBeforeMonth(year, month) < dayOfYear <= DaysBeforeMonth(year, 13)
    ensures 1 <= m <= 12 && DaysBeforeMonth(year, m) < dayOfYear <= DaysBeforeMonth(year, m + 1)
    decreases 12 - month
  {
    if dayOfYear <= DaysBeforeMonth(year, month + 1) then month else MonthFrom(year, dayOfYear, month + 1)
  }

  /** `date.fromordinal`: every ordinal names a calendar date. */
  function FromOrdinal(n: int): (d: Date)
    requires 1 <= n <= MAX_ORDINAL
    ensures ValidDate(d) && Ordinal(d) == n
  {
    var year := YearFrom(n, FIRST_YEAR);
    YearLength(year);
    MonthsFillYear(year);
    var dayOfYear := n - DaysBeforeYear(year);
    var month := MonthFrom(year, dayOfYear, 1);
    Date(year, month, dayOfYear - DaysBeforeMonth(year, month))
  }

  lemma FromOrdinalOfDate(d: Date)
    requires ValidDate(d)
    ensures 1 <= Ordinal(d) <= MAX_ORDINAL && FromOrdinal(Ordinal(d)) == d
  {
    OrdinalRange(d);
    OrdinalOrder(FromOrdinal(Ordinal(d)), d);
  }

  /** The day after a month ends is the first of the next month. */
  lemma NextMonthStarts(year: int, month: int)
    requires 1 <= month <= 11
    ensures Ordinal(Date(year, month, MonthLength(year, month))) + 1 == Ordinal(Date(year, month + 1, 1))
  {
  }

  /** The days from the first of `first` to the end of `last` are exactly the
      dates of that year whose month lies between the two. */
  lemma MonthSpan(year: int, first: int, last: int, d: Date)
    requires FIRST_YEAR <= year <= LAST_YEAR && 1 <= first <= last <= 12 && ValidDate(d)
    ensures Ordinal(Date(year, first, 1)) <= Ordinal(d) <= Ordinal(Date(year, last, MonthLength(year, last)))
            <==> d.year == year && first <= d.month <= last
  {
    OrdinalOrder(Date(year, first, 1), d);
    OrdinalOrder(d, Date(year, last, MonthLength(year, last)));
  }
}
