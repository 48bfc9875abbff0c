/**
 * The in-memory monthly summary over stored movements: format check only, a month window
 * built with the JavaScript `Date` constructor, and a loop accumulating income and expense.
 */
module MovementSummary {
  import opened Results
  import opened Calendar
  import opened MonthToken

  /** A stored movement. `amount` is `None` when missing or falsy; `date` is the calendar day
      of the movement in local time. */
  datatype Movement = Movement(userId: nat, kind: string, amount: Option<real>, date: Date)

  /** `{ income, expense, balance, count }`. */
  datatype Totals = Totals(income: real, expense: real, balance: real, count: nat)

  datatype SummaryError = InvalidMonth

  /** `!month || !/^\d{4}-\d{2}$/.test(month)`: only the format is checked, not the range. */
  predicate MonthAccepted(month: Option<string>)
  {
    month.Some? && MonthFormatOk(month.value)
  }

  /** The year the `Date` constructor uses: years 0..99 are taken as 1900..1999. */
  function JsFullYear(y: int): (r: int)
    ensures r == y || r == y + 1900
    ensures !(0 <= r <= 99)
  {
    if 0 <= y <= 99 then 1900 + y else y
  }

  /** The month index of `new Date(y, m - 1, 1)`; the end of the window, `new Date(y, m, 1)`, is
      the next index. A month part of 00 or 13..99 rolls over into neighbouring years. */
  function WindowIndex(month: string): (r: int)
    requires MonthFormatOk(month)
    ensures r == MonthIndex(JsFullYear(YearPart(month)), MonthPart(month))
    ensures 1 <= MonthPart(month) <= 12 ==>
      MonthStart(r) == Date(JsFullYear(YearPart(month)), MonthPart(month), 1)
    ensures MonthPart(month) == 0 ==> MonthStart(r) == Date(JsFullYear(YearPart(month)) - 1, 12, 1)
  {
    StartOfMonthPart(JsFullYear(YearPart(month)), MonthPart(month));
    JsFullYear(YearPart(month)) * 12 + (MonthPart(month) - 1)
  }

  lemma StartOfMonthPart(year: int, month: int)
    ensures 1 <= month <= 12 ==> MonthStart(year * 12 + (month - 1)) == Date(year, month, 1)
    ensures month == 0 ==> MonthStart(year * 12 + (month - 1)) == Date(year - 1, 12, 1)
  {
    if 1 <= month <= 12 {
      MonthStartOfIndex(year, month);
    } else if month == 0 {
      MonthStartOfIndex(year - 1, 12);
    }
  }

  /** The query `{ userId, date: { $gte: start, $lt: end } }`, in store order. */
  function Found(store: seq<Movement>, user: nat, index: int): (r: seq<Movement>)
    ensures forall mv :: multiset(r)[mv] ==
                         if mv.userId == user && InMonthWindow(mv.date, index) then multiset(store)[mv] else 0
  {
    if store == [] then []
    else
      var init := Found(store[..|store| - 1], user, index);
      var mv := store[|store| - 1];
      assert store == store[..|store| - 1] + [mv];
      if mv.userId == user && InMonthWindow(mv.date, index) then init + [mv] else init
  }

  /** `Number(mv.amount || 0)`: a missing or falsy amount is 0. */
  function AmountOf(mv: Movement): (r: real)
    ensures r == 0.0 <==> mv.amount.None? || mv.amount == Some(0.0)
  {
    match mv.amount
    case None => 0.0
    case Some(a) => a
  }

  /** The sum of the amounts of movements of the given type. */
  function KindSum(ms: seq<Movement>, kind: string): real
  {
    if ms == [] then 0.0
    else KindSum(ms[..|ms| - 1], kind) + (if ms[|ms| - 1].kind == kind then AmountOf(ms[|ms| - 1]) else 0.0)
  }

  /** GET /summary/monthly of the in-memory store. */
  method Monthly(store: seq<Movement>, user: nat, month: Option<string>) returns (r: Result<Totals, SummaryError>)
    ensures r.Failure? <==> !MonthAccepted(month)
    ensures r.Success? ==>
      var found := Found(store, user, WindowIndex(month.value));
      && r.value.income == KindSum(found, "income")
      && r.value.expense == KindSum(found, "expense")
      && r.value.balance == r.value.income - r.value.expense
      && r.value.count == |found|
  {
    if month.None? || !MonthFormatOk(month.value) {
      return Failure(InvalidMonth);
    }
    var movements := Found(store, user, WindowIndex(month.value));
    var income, expense := 0.0, 0.0;
    for i := 0 to |movements|
      invariant income == KindSum(movements[..i], "income")
      invariant expense == KindSum(movements[..i], "expense")
    {
      var mv := movements[i];
      var amt := AmountOf(mv);
      if mv.kind == "income" {
        income := income + amt;
      }
      if mv.kind == "expense" {
        expense := expense + amt;
      }
      assert movements[..i + 1][..i] == movements[..i];
    }
    assert movements[..|movements|] == movements;
    r := Success(Totals(income, expense, income - expense, |movements|));
  }

  /** The query returns exactly the user's movements dated in the calendar month of the index. */
  lemma {:induction false} FoundIsCalendarMonth(store: seq<Movement>, user: nat, index: int)
    requires forall mv :: mv in store ==> ValidDate(mv.date)
    ensures forall mv :: mv in Found(store, user, index) <==>
      mv in store && mv.userId == user && MonthIndex(mv.date.year, mv.date.month) == index
    ensures forall mv :: multiset(Found(store, user, index))[mv] ==
                         if mv.userId == user && MonthIndex(mv.date.year, mv.date.month) == index then multiset(store)[mv] else 0
  {
    if store != [] {
      var init, last := store[..|store| - 1], store[|store| - 1];
      assert store == init + [last];
      FoundIsCalendarMonth(init, user, index);
      WindowIsCalendarMonth(last.date, index);
    }
  }

  /** For years from 0100 on and months 01..12 the window is that calendar month, as in the
      SQL summary. */
  lemma WindowAgreesForValidTokens(month: string)
    requires ValidMonth(month) && YearPart(month) >= 100
    ensures WindowIndex(month) == MonthIndex(YearPart(month), MonthPart(month))
  {
  }

  /** Without a range check, month 13 rolls over into January of the next year. */
  lemma MonthThirteenRollsOver()
    ensures MonthFormatOk("2026-13") && MonthStart(WindowIndex("2026-13")) == Date(2027, 1, 1)
  {
    TokenParts("2026-13");
    assert WindowIndex("2026-13") == 2027 * 12;
  }

  /** Month 00 falls back into December of the previous year. */
  lemma MonthZeroRollsBack()
    ensures MonthFormatOk("2026-00") && MonthStart(WindowIndex("2026-00")) == Date(2025, 12, 1)
  {
    TokenParts("2026-00");
    assert WindowIndex("2026-00") == 2025 * 12 + 11;
  }

  /** A year written 0000..0099 selects a month of 1900..1999. */
  lemma TwoDigitYearMovesToNineteenHundreds()
    ensures MonthFormatOk("0050-03") && MonthStart(WindowIndex("0050-03")) == Date(1950, 3, 1)
  {
    TokenParts("0050-03");
    assert WindowIndex("0050-03") == 1950 * 12 + 2;
  }

  lemma {:induction false} KindSumAppend(a: seq<Movement>, b: seq<Movement>, kind: string)
    ensures KindSum(a + b, kind) == KindSum(a, kind) + KindSum(b, kind)
  {
    if b != [] {
      assert (a + b)[..|a + b| - 1] == a + b[..|b| - 1];
      KindSumAppend(a, b[..|b| - 1], kind);
    } else {
      assert a + b == a;
    }
  }

  /** A movement that is neither income nor expense, or whose amount is missing or falsy, adds
      nothing to either sum wherever it stands, though it is still counted. */
  lemma ContributesNothing(a: seq<Movement>, mv: Movement, b: seq<Movement>)
    requires (mv.kind != "income" && mv.kind != "expense") || mv.amount.None? || mv.amount == Some(0.0)
    ensures KindSum(a + [mv] + b, "income") == KindSum(a + b, "income")
    ensures KindSum(a + [mv] + b, "expense") == KindSum(a + b, "expense")
    ensures |a + [mv] + b| == |a + b| + 1
  {
    KindSumAppend(a + [mv], b, "income");
    KindSumAppend(a + [mv], b, "expense");
    KindSumAppend(a, b, "income");
    KindSumAppend(a, b, "expense");
    assert (a + [mv])[..|a + [mv]| - 1] == a;
  }

  /** A type none of whose movements has a non-zero amount sums to 0; one none of whose
      movements has a negative amount sums to a non-negative value. */
  lemma {:induction false} KindSumBounds(ms: seq<Movement>, kind: string)
    ensures (forall mv :: mv in ms && mv.kind == kind ==> AmountOf(mv) == 0.0) ==> KindSum(ms, kind) == 0.0
    ensures (forall mv :: mv in ms && mv.kind == kind ==> AmountOf(mv) >= 0.0) ==> KindSum(ms, kind) >= 0.0
  {
    if ms != [] {
      KindSumBounds(ms[..|ms| - 1], kind);
      assert ms[|ms| - 1] in ms;
      assert forall mv :: mv in ms[..|ms| - 1] ==> mv in ms;
    }
  }

  /** Income is the total amount of income movements, expense that of expense movements. */
  lemma OnlyOwnKindCounts(ms: seq<Movement>, mv: Movement)
    ensures KindSum(ms + [mv], "income") ==
            KindSum(ms, "income") + (if mv.kind == "income" && mv.amount.Some? then mv.amount.value else 0.0)
    ensures KindSum(ms + [mv], "expense") ==
            KindSum(ms, "expense") + (if mv.kind == "expense" && mv.amount.Some? then mv.amount.value else 0.0)
  {
    assert (ms + [mv])[..|ms + [mv]| - 1] == ms;
  }
}
