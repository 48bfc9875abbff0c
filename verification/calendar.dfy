/** Calendar dates (no time of day) and the month arithmetic both summary routes rely on. */
module Calendar {

  datatype Date = Date(year: int, month: int, day: int)

  predicate IsLeapYear(y: int)
  {
    (y % 4 == 0 && y % 100 != 0) || y % 400 == 0
  }

  function DaysInMonth(year: int, month: int): (n: int)
    requires 1 <= month <= 12
    ensures 28 <= n <= 31
  {
    if month == 2 then (if IsLeapYear(year) then 29 else 28)
    else if month == 4 || month == 6 || month == 9 || month == 11 then 30
    else 31
  }

  /** A date the store's `date` type can hold (proleptic Gregorian calendar). */
  predicate ValidDate(d: Date)
  {
    1 <= d.month <= 12 && 1 <= d.day <= DaysInMonth(d.year, d.month)
  }

  /** Strict chronological order: by year, then month, then day. */
  predicate Before(a: Date, b: Date)
  {
    || a.year < b.year
    || (a.year == b.year && (a.month < b.month || (a.month == b.month && a.day < b.day)))
  }

  /** Months counted from January of year 0; consecutive months have consecutive indices. */
  function MonthIndex(year: int, month: int): int
  {
    year * 12 + (month - 1)
  }

  /** The first day of the month with the given index. */
  function MonthStart(index: int): (d: Date)
    ensures ValidDate(d) && d.day == 1
    ensures MonthIndex(d.year, d.month) == index
  {
    Date(index / 12, index % 12 + 1, 1)
  }

  /** The first day of a month is the start of that month's index, and the month after
      December is January of the following year. */
  lemma MonthStartOfIndex(year: int, month: int)
    requires 1 <= month <= 12
    ensures MonthStart(MonthIndex(year, month)) == Date(year, month, 1)
    ensures MonthStart(MonthIndex(year, month) + 1)
         == if month == 12 then Date(year + 1, 1, 1) else Date(year, month + 1, 1)
  {
    var i := MonthIndex(year, month);
    assert i / 12 == year && i % 12 == month - 1;
    if month == 12 {
      assert (i + 1) / 12 == year + 1 && (i + 1) % 12 == 0;
    } else {
      assert (i + 1) / 12 == year && (i + 1) % 12 == month;
    }
  }

  /** The half-open window [first day of month `index`, first day of month `index` + 1). */
  predicate InMonthWindow(d: Date, index: int)
  {
    !Before(d, MonthStart(index)) && Before(d, MonthStart(index + 1))
  }

  /** On month-valid dates, chronological order of (year, month) is the order of month indices. */
  lemma MonthIndexOrder(a: Date, b: Date)
    requires 1 <= a.month <= 12 && 1 <= b.month <= 12
    ensures MonthIndex(a.year, a.month) < MonthIndex(b.year, b.month)
        <==> (a.year < b.year || (a.year == b.year && a.month < b.month))
  {
  }

  /** A valid date lies in the window of a month exactly when it belongs to that calendar month,
      whatever the month's length. */
  lemma {:induction false} WindowIsCalendarMonth(d: Date, index: int)
    requires ValidDate(d)
    ensures InMonthWindow(d, index) <==> MonthIndex(d.year, d.month) == index
  {
    var lo, hi := MonthStart(index), MonthStart(index + 1);
    MonthIndexOrder(d, lo);
    MonthIndexOrder(lo, d);
    MonthIndexOrder(d, hi);
    MonthIndexOrder(hi, d);
    if MonthIndex(d.year, d.month) == index {
      assert d.year == lo.year && d.month == lo.month;
    }
    if MonthIndex(d.year, d.month) == index + 1 {
      assert d.year == hi.year && d.month == hi.month;
    }
  }
}
