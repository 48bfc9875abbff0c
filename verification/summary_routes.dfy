/**
 * The monthly summary over the transactions table and the two routes built on it:
 * `/summary/monthly` (one month) and `/summary/compare` (month B against month A).
 */
module SummaryRoutes {
  import opened Results
  import opened Calendar
  import opened MonthToken
  import opened TransactionRoutes

  /** `{ month, income, expense, balance, count }`. */
  datatype Summary = Summary(month: string, income: real, expense: real, balance: real, count: int)

  /** `${month}-01`, read as a date. */
  function WindowStart(month: string): Date
    requires ValidMonth(month)
  {
    Date(YearPart(month), MonthPart(month), 1)
  }

  /** `date_trunc('month', start) + interval '1 month'`: the first day of the next month. */
  function WindowEnd(month: string): Date
    requires ValidMonth(month)
  {
    MonthStart(MonthIndex(YearPart(month), MonthPart(month)) + 1)
  }

  /** The `WHERE` clause: the user's row with `start <= occurred_on < end`. */
  predicate Selected(r: TxRow, user: nat, month: string): (ok: bool)
    requires ValidMonth(month)
    ensures ok <==> r.userId == user && InMonthWindow(r.occurredOn, MonthIndex(YearPart(month), MonthPart(month)))
  {
    MonthStartOfIndex(YearPart(month), MonthPart(month));
    r.userId == user && !Before(r.occurredOn, WindowStart(month)) && Before(r.occurredOn, WindowEnd(month))
  }

  /** The rows the summary query reads, in table order. */
  function Matching(rows: seq<TxRow>, user: nat, month: string): (r: seq<TxRow>)
    requires ValidMonth(month)
    ensures |r| <= |rows|
  {
    if rows == [] then []
    else
      var init := Matching(rows[..|rows| - 1], user, month);
      var last := rows[|rows| - 1];
      assert rows == rows[..|rows| - 1] + [last];
      if Selected(last, user, month) then init + [last] else init
  }

  /** `COALESCE(SUM(CASE WHEN type = kind THEN amount ELSE 0 END), 0)`. */
  function KindTotal(rows: seq<TxRow>, kind: string): (t: real)
    ensures (forall i :: 0 <= i < |rows| ==> rows[i].kind != kind) ==> t == 0.0
  {
    if rows == [] then 0.0
    else KindTotal(rows[..|rows| - 1], kind) + (if rows[|rows| - 1].kind == kind then rows[|rows| - 1].amount else 0.0)
  }

  /** The summary query for one user and one month. */
  function MonthlySummary(rows: seq<TxRow>, user: nat, month: string): (s: Summary)
    requires ValidMonth(month)
    ensures s.month == month && s.balance == s.income - s.expense
    ensures s.count == |Matching(rows, user, month)|
  {
    var selected := Matching(rows, user, month);
    var income := KindTotal(selected, "income");
    var expense := KindTotal(selected, "expense");
    Summary(month, income, expense, income - expense, |selected|)
  }

  /** One more row in the table: a selected income row raises income by its amount and leaves
      expense alone, a selected expense row does the reverse, and a row outside the user's
      month changes nothing. */
  lemma {:induction false} SummaryOfOneMoreRow(rows: seq<TxRow>, row: TxRow, user: nat, month: string)
    requires ValidMonth(month)
    ensures var s, t := MonthlySummary(rows, user, month), MonthlySummary(rows + [row], user, month);
      && t.income == s.income + (if Selected(row, user, month) && row.kind == "income" then row.amount else 0.0)
      && t.expense == s.expense + (if Selected(row, user, month) && row.kind == "expense" then row.amount else 0.0)
      && t.count == s.count + (if Selected(row, user, month) then 1 else 0)
  {
    MatchingAppend(rows, [row], user, month);
    assert [row][..0] == [];
    var m := Matching(rows, user, month);
    if Selected(row, user, month) {
      assert (m + [row])[..|m + [row]| - 1] == m;
    } else {
      assert m + [] == m;
    }
  }

  /** The half-open window selects exactly the user's rows dated in that calendar month. */
  lemma SelectedIsCalendarMonth(r: TxRow, user: nat, month: string)
    requires ValidMonth(month) && ValidDate(r.occurredOn)
    ensures Selected(r, user, month) <==>
      r.userId == user && r.occurredOn.year == YearPart(month) && r.occurredOn.month == MonthPart(month)
  {
    MonthStartOfIndex(YearPart(month), MonthPart(month));
    WindowIsCalendarMonth(r.occurredOn, MonthIndex(YearPart(month), MonthPart(month)));
  }

  lemma {:induction false} KindTotalAppend(a: seq<TxRow>, b: seq<TxRow>, kind: string)
    ensures KindTotal(a + b, kind) == KindTotal(a, kind) + KindTotal(b, kind)
  {
    if b != [] {
      assert (a + b)[..|a + b| - 1] == a + b[..|b| - 1];
      KindTotalAppend(a, b[..|b| - 1], kind);
    } else {
      assert a + b == a;
    }
  }

  lemma {:induction false} MatchingAppend(a: seq<TxRow>, b: seq<TxRow>, user: nat, month: string)
    requires ValidMonth(month)
    ensures Matching(a + b, user, month) == Matching(a, user, month) + Matching(b, user, month)
  {
    if b != [] {
      assert (a + b)[..|a + b| - 1] == a + b[..|b| - 1];
      MatchingAppend(a, b[..|b| - 1], user, month);
    } else {
      assert a + b == a;
    }
  }

  /** Summaries add up over a split of the table: income, expense, balance and count of the
      whole are the sums of those of the parts. */
  lemma SummaryAdditive(a: seq<TxRow>, b: seq<TxRow>, user: nat, month: string)
    requires ValidMonth(month)
    ensures var s, sa, sb := MonthlySummary(a + b, user, month), MonthlySummary(a, user, month),
                             MonthlySummary(b, user, month);
      && s.income == sa.income + sb.income && s.expense == sa.expense + sb.expense
      && s.balance == sa.balance + sb.balance && s.count == sa.count + sb.count
  {
    MatchingAppend(a, b, user, month);
    KindTotalAppend(Matching(a, user, month), Matching(b, user, month), "income");
    KindTotalAppend(Matching(a, user, month), Matching(b, user, month), "expense");
  }

  /** Rows of other users never change a user's summary. */
  lemma {:induction false} OtherUsersInvisible(rows: seq<TxRow>, others: seq<TxRow>, user: nat, month: string)
    requires ValidMonth(month)
    requires forall r :: r in others ==> r.userId != user
    ensures MonthlySummary(rows + others, user, month) == MonthlySummary(rows, user, month)
  {
    MatchingAppend(rows, others, user, month);
    NothingSelected(others, user, month);
    assert Matching(rows, user, month) + [] == Matching(rows, user, month);
  }

  /** A month with no selected rows gives an all-zero summary. */
  lemma EmptyMonthIsZero(rows: seq<TxRow>, user: nat, month: string)
    requires ValidMonth(month)
    requires forall r :: r in rows ==> !Selected(r, user, month)
    ensures MonthlySummary(rows, user, month) == Summary(month, 0.0, 0.0, 0.0, 0)
  {
    NothingSelected(rows, user, month);
  }

  /** The summary reads exactly the selected rows. */
  lemma {:induction false} MatchingMembers(rows: seq<TxRow>, user: nat, month: string)
    requires ValidMonth(month)
    ensures forall x :: x in Matching(rows, user, month) <==> x in rows && Selected(x, user, month)
  {
    if rows != [] {
      MatchingMembers(rows[..|rows| - 1], user, month);
      assert rows == rows[..|rows| - 1] + [rows[|rows| - 1]];
    }
  }

  lemma NothingSelected(rows: seq<TxRow>, user: nat, month: string)
    requires ValidMonth(month)
    requires forall r :: r in rows ==> !Selected(r, user, month)
    ensures Matching(rows, user, month) == []
  {
    MatchingMembers(rows, user, month);
  }

  lemma {:induction false} KindTotalNonNegative(rows: seq<TxRow>, kind: string)
    requires forall r :: r in rows ==> r.amount >= 0.0
    ensures KindTotal(rows, kind) >= 0.0
  {
    if rows != [] {
      KindTotalNonNegative(rows[..|rows| - 1], kind);
    }
  }

  /** In a well-formed table income and expense are never negative, and together they are the
      whole amount moved in the month, since every row is one of the two kinds. */
  lemma {:induction false} WellFormedSummary(rows: seq<TxRow>, user: nat, month: string)
    requires ValidMonth(month) && WellFormed(rows)
    ensures var s := MonthlySummary(rows, user, month);
      s.income >= 0.0 && s.expense >= 0.0 && s.income + s.expense == AmountTotal(Matching(rows, user, month))
  {
    var selected := Matching(rows, user, month);
    MatchingMembers(rows, user, month);
    KindTotalNonNegative(selected, "income");
    KindTotalNonNegative(selected, "expense");
    IncomeAndExpenseCoverAll(selected);
  }

  function AmountTotal(rows: seq<TxRow>): real
  {
    if rows == [] then 0.0 else AmountTotal(rows[..|rows| - 1]) + rows[|rows| - 1].amount
  }

  lemma {:induction false} IncomeAndExpenseCoverAll(rows: seq<TxRow>)
    requires forall r :: r in rows ==> IsKind(r.kind)
    ensures KindTotal(rows, "income") + KindTotal(rows, "expense") == AmountTotal(rows)
  {
    if rows != [] {
      assert rows[|rows| - 1] in rows;
      IncomeAndExpenseCoverAll(rows[..|rows| - 1]);
    }
  }

  /** GET /summary/monthly: format error first, then range error, and only then the query. */
  function Monthly(rows: seq<TxRow>, user: nat, month: Option<string>): (r: Result<Summary, MonthError>)
    ensures r == Failure(InvalidFormat) <==> month.None? || !MonthFormatOk(month.value)
    ensures r.Success? <==> month.Some? && ValidMonth(month.value)
    ensures r.Success? ==> r.value == MonthlySummary(rows, user, month.value)
  {
    match CheckMonth(month)
    case Failure(e) => Failure(e)
    case Success(m) => Success(MonthlySummary(rows, user, m))
  }

  /** `pctChange`: percentage change of `next` against `base`; `None` (null) when the base is zero. */
  function PctChange(base: real, next: real): (p: Option<real>)
    ensures p.None? <==> base == 0.0
  {
    if base == 0.0 then None else Some((next - base) / base * 100.0)
  }

  /** A percentage change is undone by applying it: `next` is `base` grown by `p` percent. */
  lemma PctChangeRecoversNext(base: real, next: real)
    requires base != 0.0
    ensures PctChange(base, next).Some?
    ensures next == base + base * PctChange(base, next).value / 100.0
  {
    var p := (next - base) / base * 100.0;
    assert p / 100.0 == (next - base) / base;
    assert base * ((next - base) / base) == next - base;
  }

  /** For a positive base the change is positive, zero or negative as `next` is above, at or below it. */
  lemma PctChangeSign(base: real, next: real)
    requires base > 0.0
    ensures PctChange(base, next).value > 0.0 <==> next > base
    ensures PctChange(base, next).value == 0.0 <==> next == base
  {
    PctChangeRecoversNext(base, next);
  }

  lemma PctChangeExamples()
    ensures PctChange(100.0, 150.0) == Some(50.0)
    ensures PctChange(100.0, 50.0) == Some(-50.0)
    ensures PctChange(0.0, 500.0) == None
  {
  }

  datatype Metrics = Metrics(income: real, expense: real, balance: real, count: real)

  datatype PctMetrics = PctMetrics(income: Option<real>, expense: Option<real>, balance: Option<real>, count: Option<real>)

  datatype Comparison = Comparison(monthA: Summary, monthB: Summary, delta: Metrics, pctChange: PctMetrics)

  /** The change of `next` against `base`, when there is one, recovers `next`. */
  predicate Recovers(base: real, next: real, p: Option<real>)
  {
    (p.None? <==> base == 0.0) && (p.Some? ==> next == base + base * p.value / 100.0)
  }

  lemma PctChangeRecovers(base: real, next: real)
    ensures Recovers(base, next, PctChange(base, next))
  {
    if base != 0.0 {
      PctChangeRecoversNext(base, next);
    }
  }

  /** The comparison of two summaries: `delta` is B - A, `pct_change` the change against A. */
  function Compared(a: Summary, b: Summary): (c: Comparison)
    ensures c.monthA == a && c.monthB == b
    ensures c.delta.income + a.income == b.income && c.delta.expense + a.expense == b.expense
    ensures c.delta.balance + a.balance == b.balance && c.delta.count + a.count as real == b.count as real
    ensures Recovers(a.income, b.income, c.pctChange.income)
    ensures Recovers(a.expense, b.expense, c.pctChange.expense)
    ensures Recovers(a.balance, b.balance, c.pctChange.balance)
    ensures Recovers(a.count as real, b.count as real, c.pctChange.count)
  {
    PctChangeRecovers(a.income, b.income);
    PctChangeRecovers(a.expense, b.expense);
    PctChangeRecovers(a.balance, b.balance);
    PctChangeRecovers(a.count as real, b.count as real);
    Comparison(a, b,
      Metrics(b.income - a.income, b.expense - a.expense, b.balance - a.balance, b.count as real - a.count as real),
      PctMetrics(PctChange(a.income, b.income), PctChange(a.expense, b.expense),
                 PctChange(a.balance, b.balance), PctChange(a.count as real, b.count as real)))
  }

  /** GET /summary/compare: both formats are checked before either range; any failure is
      reported without a query, and on success both months are summarised independently. */
  function Compare(rows: seq<TxRow>, user: nat, monthA: Option<string>, monthB: Option<string>)
    : (r: Result<Comparison, MonthError>)
    ensures r == Failure(InvalidFormat) <==>
      monthA.None? || monthB.None? || !MonthFormatOk(monthA.value) || !MonthFormatOk(monthB.value)
    ensures r.Success? <==> monthA.Some? && monthB.Some? && ValidMonth(monthA.value) && ValidMonth(monthB.value)
    ensures r.Success? ==>
      r.value == Compared(MonthlySummary(rows, user, monthA.value), MonthlySummary(rows, user, monthB.value))
  {
    if monthA.None? || monthB.None? || !MonthFormatOk(monthA.value) || !MonthFormatOk(monthB.value) then
      Failure(InvalidFormat)
    else if !MonthRangeOk(monthA.value) || !MonthRangeOk(monthB.value) then
      Failure(InvalidRange)
    else
      Success(Compared(MonthlySummary(rows, user, monthA.value), MonthlySummary(rows, user, monthB.value)))
  }

  /** The balance delta is the income delta less the expense delta. */
  lemma BalanceDelta(rows: seq<TxRow>, user: nat, monthA: Option<string>, monthB: Option<string>)
    requires Compare(rows, user, monthA, monthB).Success?
    ensures var d := Compare(rows, user, monthA, monthB).value.delta; d.balance == d.income - d.expense
  {
  }

  /** Swapping the months negates every delta. */
  lemma CompareAntisymmetric(rows: seq<TxRow>, user: nat, monthA: Option<string>, monthB: Option<string>)
    requires Compare(rows, user, monthA, monthB).Success?
    ensures var d, e := Compare(rows, user, monthA, monthB).value.delta, Compare(rows, user, monthB, monthA).value.delta;
      d.income == -e.income && d.expense == -e.expense && d.balance == -e.balance && d.count == -e.count
  {
  }

  /** Comparing a month with itself gives zero deltas and changes that are zero or null. */
  lemma CompareSameMonth(rows: seq<TxRow>, user: nat, month: string)
    requires ValidMonth(month)
    ensures var c := Compare(rows, user, Some(month), Some(month)).value;
      && c.delta == Metrics(0.0, 0.0, 0.0, 0.0)
      && (c.pctChange.income == None || c.pctChange.income == Some(0.0))
      && (c.pctChange.expense == None || c.pctChange.expense == Some(0.0))
      && (c.pctChange.balance == None || c.pctChange.balance == Some(0.0))
      && (c.pctChange.count == None || c.pctChange.count == Some(0.0))
  {
  }

  lemma ExampleTokens()
    ensures ValidMonth("2026-01") && YearPart("2026-01") == 2026 && MonthPart("2026-01") == 1
    ensures ValidMonth("2026-02") && YearPart("2026-02") == 2026 && MonthPart("2026-02") == 2
  {
    TokenParts("2026-01");
    TokenParts("2026-02");
  }

  function ExampleRows(user: nat): seq<TxRow>
  {
    [ TxRow(1, user, "income", 1000.0, "Ventas", Date(2026, 1, 5), None, "cash", "paid", 1),
      TxRow(2, user, "expense", 400.0, "Arriendo", Date(2026, 1, 10), None, "bank", "paid", 2),
      TxRow(3, user, "income", 500.0, "Ventas", Date(2026, 2, 1), None, "cash", "paid", 3) ]
  }

  lemma ExampleSelection(user: nat)
    ensures ValidMonth("2026-01") && ValidMonth("2026-02")
    ensures var rows := ExampleRows(user);
      && Selected(rows[0], user, "2026-01") && Selected(rows[1], user, "2026-01") && !Selected(rows[2], user, "2026-01")
      && !Selected(rows[0], user, "2026-02") && !Selected(rows[1], user, "2026-02") && Selected(rows[2], user, "2026-02")
  {
    ExampleTokens();
    var rows := ExampleRows(user);
    SelectedIsCalendarMonth(rows[0], user, "2026-01");
    SelectedIsCalendarMonth(rows[1], user, "2026-01");
    SelectedIsCalendarMonth(rows[2], user, "2026-01");
    SelectedIsCalendarMonth(rows[0], user, "2026-02");
    SelectedIsCalendarMonth(rows[1], user, "2026-02");
    SelectedIsCalendarMonth(rows[2], user, "2026-02");
  }

  lemma MatchingOfThree(a: TxRow, b: TxRow, c: TxRow, user: nat, month: string)
    requires ValidMonth(month)
    ensures Matching([a, b, c], user, month)
         == (if Selected(a, user, month) then [a] else []) + (if Selected(b, user, month) then [b] else [])
          + (if Selected(c, user, month) then [c] else [])
  {
    assert [a, b, c][..2] == [a, b] && [a, b][..1] == [a] && [a][..0] == [];
    var pa := if Selected(a, user, month) then [a] else [];
    var pb := if Selected(b, user, month) then [b] else [];
    assert Matching([a], user, month) == pa;
    assert Matching([a, b], user, month) == pa + pb;
  }

  lemma MatchingFirstTwo(a: TxRow, b: TxRow, c: TxRow, user: nat, month: string)
    requires ValidMonth(month)
    requires Selected(a, user, month) && Selected(b, user, month) && !Selected(c, user, month)
    ensures Matching([a, b, c], user, month) == [a, b]
  {
    MatchingOfThree(a, b, c, user, month);
    assert [a] + [b] + [] == [a, b];
  }

  lemma ExampleMatchingJanuary(user: nat)
    ensures ValidMonth("2026-01")
    ensures Matching(ExampleRows(user), user, "2026-01") == [ExampleRows(user)[0], ExampleRows(user)[1]]
  {
    ExampleSelection(user);
    var rows := ExampleRows(user);
    assert rows == [rows[0], rows[1], rows[2]];
    MatchingFirstTwo(rows[0], rows[1], rows[2], user, "2026-01");
  }

  lemma ExampleMatchingFebruary(user: nat)
    ensures ValidMonth("2026-02")
    ensures Matching(ExampleRows(user), user, "2026-02") == [ExampleRows(user)[2]]
  {
    ExampleSelection(user);
    var rows := ExampleRows(user);
    var a, b, c := rows[0], rows[1], rows[2];
    assert rows == [a, b, c];
    MatchingOfThree(a, b, c, user, "2026-02");
    assert [] + [] + [c] == [c];
  }

  lemma KindTotalOfTwo(a: TxRow, b: TxRow, kind: string)
    ensures KindTotal([a], kind) == if a.kind == kind then a.amount else 0.0
    ensures KindTotal([a, b], kind)
         == (if a.kind == kind then a.amount else 0.0) + (if b.kind == kind then b.amount else 0.0)
  {
    assert [a, b][..1] == [a] && [a][..0] == [];
  }

  /** The worked example: two January rows and one February row of one user. */
  lemma EndToEndExample(user: nat)
    ensures Monthly(ExampleRows(user), user, Some("2026-01")) == Success(Summary("2026-01", 1000.0, 400.0, 600.0, 2))
    ensures var c := Compare(ExampleRows(user), user, Some("2026-01"), Some("2026-02"));
      && c.Success?
      && c.value.delta == Metrics(-500.0, -400.0, -100.0, -1.0)
      && c.value.pctChange.income == Some(-50.0)
  {
    ExampleMatchingJanuary(user);
    ExampleMatchingFebruary(user);
    var rows := ExampleRows(user);
    KindTotalOfTwo(rows[0], rows[1], "income");
    KindTotalOfTwo(rows[0], rows[1], "expense");
    KindTotalOfTwo(rows[2], rows[2], "income");
    KindTotalOfTwo(rows[2], rows[2], "expense");
    assert MonthlySummary(rows, user, "2026-01") == Summary("2026-01", 1000.0, 400.0, 600.0, 2);
    assert MonthlySummary(rows, user, "2026-02") == Summary("2026-02", 500.0, 0.0, 500.0, 1);
  }
}
