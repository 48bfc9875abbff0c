/**
 * The transactions table and its two routes: POST validates a body against the creation
 * schema and inserts one row; GET lists the caller's rows, newest first, at most 200.
 */
module TransactionRoutes {
  import opened Results
  import opened Payload
  import opened Text
  import opened Calendar
  import Sorting

  /** One row of the transactions table. `description` is `None` for SQL NULL. */
  datatype TxRow = TxRow(
    id: nat,
    userId: nat,
    kind: string,
    amount: real,
    category: string,
    occurredOn: Date,
    description: Option<string>,
    paymentMethod: string,
    status: string,
    createdAt: int)

  /** The fields of a body that passed validation. */
  datatype TxInput = TxInput(
    kind: string,
    amount: real,
    category: string,
    occurredOn: string,
    description: Option<string>,
    paymentMethod: string,
    status: string)

  predicate IsKind(s: string) { s == "income" || s == "expense" }

  predicate IsPaymentMethod(s: string) { s == "cash" || s == "bank" || s == "card" || s == "transfer" }

  predicate IsStatus(s: string) { s == "paid" || s == "pending" }

  /** The regular expression `^\d{4}-\d{2}-\d{2}$`; the digits are not checked against the calendar. */
  predicate DateFormatOk(s: string)
  {
    |s| == 10 && AllDigits(s[..4]) && s[4] == '-' && AllDigits(s[5..7]) && s[7] == '-' && AllDigits(s[8..])
  }

  /** What the creation schema admits. */
  predicate ValidInput(t: TxInput)
  {
    && IsKind(t.kind)
    && t.amount >= 0.0
    && |t.category| >= 1
    && DateFormatOk(t.occurredOn)
    && IsPaymentMethod(t.paymentMethod)
    && IsStatus(t.status)
  }

  /** The optional description: absent, or present and a string. */
  function DescriptionField(body: Body): Option<Option<string>>
  {
    if Absent(body, "description") then Some(None)
    else match StringField(body, "description")
      case Some(d) => Some(Some(d))
      case None => None
  }

  /** The body a client sends for an input: the description key is left out when there is none. */
  function BodyOf(t: TxInput): Body
  {
    var fields := map[
      "type" := JStr(t.kind), "amount" := JNum(t.amount), "category" := JStr(t.category),
      "occurred_on" := JStr(t.occurredOn), "payment_method" := JStr(t.paymentMethod),
      "status" := JStr(t.status)];
    Object(if t.description.Some? then fields["description" := JStr(t.description.value)] else fields)
  }

  /** `body` holds the fields of `t` (and possibly other keys, which the schema strips). */
  predicate Carries(body: Body, t: TxInput)
  {
    && body.Object?
    && (forall k :: k in BodyOf(t).fields ==> k in body.fields && body.fields[k] == BodyOf(t).fields[k])
    && (t.description.None? ==> Absent(body, "description"))
  }

  /** The creation schema applied to a request body. */
  function ParseTx(body: Body): (r: Result<TxInput, string>)
    ensures r.Success? ==> ValidInput(r.value) && Carries(body, r.value)
  {
    var kind := StringField(body, "type");
    var amount := NumberField(body, "amount");
    var category := StringField(body, "category");
    var occurredOn := StringField(body, "occurred_on");
    var description := DescriptionField(body);
    var paymentMethod := StringField(body, "payment_method");
    var status := StringField(body, "status");
    if && kind.Some? && IsKind(kind.value)
       && amount.Some? && amount.value >= 0.0
       && category.Some? && |category.value| >= 1
       && occurredOn.Some? && DateFormatOk(occurredOn.value)
       && description.Some?
       && paymentMethod.Some? && IsPaymentMethod(paymentMethod.value)
       && status.Some? && IsStatus(status.value)
    then Success(TxInput(kind.value, amount.value, category.value, occurredOn.value, description.value,
                         paymentMethod.value, status.value))
    else Failure("Datos inválidos")
  }

  /** The schema accepts every body that carries a well-formed input and reads that input back;
      with the contract of `ParseTx`, a body is accepted exactly when it carries a valid input. */
  lemma ParseAcceptsEveryValidInput(body: Body, t: TxInput)
    requires ValidInput(t) && Carries(body, t)
    ensures ParseTx(body) == Success(t)
  {
    var b := BodyOf(t).fields;
    assert StringField(body, "type") == Some(t.kind) by { assert "type" in b; }
    assert NumberField(body, "amount") == Some(t.amount) by { assert "amount" in b; }
    assert StringField(body, "category") == Some(t.category) by { assert "category" in b; }
    assert StringField(body, "occurred_on") == Some(t.occurredOn) by { assert "occurred_on" in b; }
    assert DescriptionField(body) == Some(t.description) by {
      if t.description.Some? { assert "description" in b; }
    }
    assert StringField(body, "payment_method") == Some(t.paymentMethod) by { assert "payment_method" in b; }
    assert StringField(body, "status") == Some(t.status) by { assert "status" in b; }
  }

  /** Zero is an accepted amount. */
  lemma SchemaAcceptsZeroAmount(t: TxInput)
    requires ValidInput(t)
    ensures ParseTx(BodyOf(t.(amount := 0.0))) == Success(t.(amount := 0.0))
  {
    ParseAcceptsEveryValidInput(BodyOf(t.(amount := 0.0)), t.(amount := 0.0));
  }

  /** A negative amount is refused, whatever the other fields hold. */
  lemma SchemaRejectsNegativeAmount(t: TxInput, amount: real)
    requires amount < 0.0
    ensures ParseTx(BodyOf(t.(amount := amount))).Failure?
  {
    var body := BodyOf(t.(amount := amount));
    assert NumberField(body, "amount") == Some(amount);
  }

  /** A payment method outside the four known ones is refused, whatever the other fields hold. */
  lemma SchemaRejectsUnknownPaymentMethod(t: TxInput, pm: string)
    requires !IsPaymentMethod(pm)
    ensures ParseTx(BodyOf(t.(paymentMethod := pm))).Failure?
  {
    var body := BodyOf(t.(paymentMethod := pm));
    assert StringField(body, "payment_method") == Some(pm);
  }

  /** The calendar date the store reads from `YYYY-MM-DD` text. */
  function DateOfText(s: string): (d: Date)
    requires DateFormatOk(s)
    ensures 0 <= d.year < 10000 && 0 <= d.month < 100 && 0 <= d.day < 100
  {
    Date(DigitsValue(s[..4]), DigitsValue(s[5..7]), DigitsValue(s[8..]))
  }

  /** The text of a date: zero-padded year, month and day joined by hyphens. */
  function DateText(year: nat, month: nat, day: nat): (s: string)
    requires year < 10000 && month < 100 && day < 100
    ensures DateFormatOk(s)
  {
    var s := Numeral(year, 4) + "-" + Numeral(month, 2) + "-" + Numeral(day, 2);
    assert s[..4] == Numeral(year, 4) && s[5..7] == Numeral(month, 2) && s[8..] == Numeral(day, 2);
    s
  }

  /** The store reads the written date back: year, month and day come from their own digits. */
  lemma DateTextRoundTrip(year: nat, month: nat, day: nat)
    requires year < 10000 && month < 100 && day < 100
    ensures DateOfText(DateText(year, month, day)) == Date(year, month, day)
  {
    var s := DateText(year, month, day);
    assert s[..4] == Numeral(year, 4) && s[5..7] == Numeral(month, 2) && s[8..] == Numeral(day, 2);
  }

  /** Every text the schema admits as a date is the written form of the date the store reads. */
  lemma DateTextIsFormatted(s: string)
    requires DateFormatOk(s)
    ensures var d := DateOfText(s); s == DateText(d.year, d.month, d.day)
  {
    NumeralOfValue(s[..4]);
    NumeralOfValue(s[5..7]);
    NumeralOfValue(s[8..]);
    assert s == s[..4] + "-" + s[5..7] + "-" + s[8..];
  }

  datatype PostOutcome =
    | Created(row: TxRow)          // 201 with the inserted row
    | Invalid                      // 400: the body failed the schema
    | StoreRejected                // the store refuses to read the text as a date

  datatype PostResult = PostResult(table: seq<TxRow>, outcome: PostOutcome)

  /** POST /transactions for user `user`; the store picks `id` and `createdAt`. */
  function Post(table: seq<TxRow>, user: nat, body: Body, id: nat, createdAt: int): (r: PostResult)
    ensures r.outcome.Invalid? <==> ParseTx(body).Failure?
    ensures !r.outcome.Created? ==> r.table == table
    ensures r.outcome.StoreRejected? <==>
      ParseTx(body).Success? && !ValidDate(DateOfText(ParseTx(body).value.occurredOn))
    ensures r.outcome.Created? ==>
      var t := ParseTx(body).value;
      && r.table == table + [r.outcome.row]
      && r.outcome.row == TxRow(id, user, t.kind, t.amount, t.category, DateOfText(t.occurredOn),
                                t.description, t.paymentMethod, t.status, createdAt)
  {
    match ParseTx(body)
    case Failure(_) => PostResult(table, Invalid)
    case Success(t) =>
      var date := DateOfText(t.occurredOn);
      if !ValidDate(date) then PostResult(table, StoreRejected)
      else
        var row := TxRow(id, user, t.kind, t.amount, t.category, date, t.description, t.paymentMethod,
                         t.status, createdAt);
        PostResult(table + [row], Created(row))
  }

  /** A body whose date is written `YYYY-MM-DD` is refused by the store exactly when that day
      does not exist, and is otherwise stored on that very day. */
  lemma PostStoresWrittenDate(table: seq<TxRow>, user: nat, body: Body, id: nat, createdAt: int,
                              year: nat, month: nat, day: nat)
    requires year < 10000 && month < 100 && day < 100
    requires ParseTx(body).Success? && ParseTx(body).value.occurredOn == DateText(year, month, day)
    ensures Post(table, user, body, id, createdAt).outcome.StoreRejected? <==> !ValidDate(Date(year, month, day))
    ensures Post(table, user, body, id, createdAt).outcome.Created? ==>
      Post(table, user, body, id, createdAt).outcome.row.occurredOn == Date(year, month, day)
  {
    DateTextRoundTrip(year, month, day);
  }

  /** What every row inserted through POST satisfies, with ids unique across the table. */
  ghost predicate WellFormed(table: seq<TxRow>)
  {
    && (forall r :: r in table ==>
          IsKind(r.kind) && r.amount >= 0.0 && |r.category| >= 1 && ValidDate(r.occurredOn)
          && IsPaymentMethod(r.paymentMethod) && IsStatus(r.status))
    && (forall i, j :: 0 <= i < j < |table| ==> table[i].id != table[j].id)
  }

  /** POST keeps the table well formed when the store hands out a fresh id. */
  lemma PostPreservesWellFormed(table: seq<TxRow>, user: nat, body: Body, id: nat, createdAt: int)
    requires WellFormed(table)
    requires forall r :: r in table ==> r.id != id
    ensures WellFormed(Post(table, user, body, id, createdAt).table)
  {
    var r := Post(table, user, body, id, createdAt);
    if r.outcome.Created? {
      var t := r.table;
      forall i, j | 0 <= i < j < |t|
        ensures t[i].id != t[j].id
      {
        if j == |table| {
          assert t[i] in table;
        } else {
          assert t[i] == table[i] && t[j] == table[j];
        }
      }
    }
  }

  /** `ORDER BY occurred_on DESC, created_at DESC`: `a` may be listed before `b`. */
  predicate NewerOrSame(a: TxRow, b: TxRow)
  {
    Before(b.occurredOn, a.occurredOn) || (a.occurredOn == b.occurredOn && a.createdAt >= b.createdAt)
  }

  lemma NewerOrSameIsTotalPreorder()
    ensures Sorting.IsTotalPreorder(NewerOrSame)
  {
  }

  /** `WHERE user_id = $1`, in table order. */
  function OwnRows(table: seq<TxRow>, user: nat): (r: seq<TxRow>)
    ensures forall x :: x in r <==> x in table && x.userId == user
    ensures forall x :: multiset(r)[x] == if x.userId == user then multiset(table)[x] else 0
  {
    if table == [] then []
    else
      var init := OwnRows(table[..|table| - 1], user);
      var last := table[|table| - 1];
      assert table == table[..|table| - 1] + [last];
      if last.userId == user then init + [last] else init
  }

  const ListLimit: nat := 200

  /** GET /transactions: the caller's rows, newest `occurred_on` first and, within a day, newest
      `created_at` first; at most 200 of them, and none older than a row left out. */
  function List(table: seq<TxRow>, user: nat): (r: seq<TxRow>)
    ensures |r| == if |OwnRows(table, user)| < ListLimit then |OwnRows(table, user)| else ListLimit
    ensures forall x :: x in r ==> x in table && x.userId == user
    ensures Sorting.SortedBy(r, NewerOrSame)
    ensures multiset(r) <= multiset(OwnRows(table, user))
    ensures forall x, i :: x in multiset(OwnRows(table, user)) - multiset(r) && 0 <= i < |r|
                           ==> NewerOrSame(r[i], x)
  {
    NewerOrSameIsTotalPreorder();
    var r := Sorting.TopBy(OwnRows(table, user), NewerOrSame, ListLimit);
    assert forall x :: x in r ==> x in multiset(OwnRows(table, user));
    r
  }
}
