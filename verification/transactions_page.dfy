/**
 * The client-side ledger page: running totals over the entries, the entry form with its
 * ordered checks, prepending a new entry and deleting entries by id.
 */
module TransactionsPage {
  import opened Results
  import opened Text

  datatype Entry = Entry(
    id: string,
    kind: string,
    amount: real,
    category: string,
    date: string,
    description: string,
    counterparty: string,
    paymentMethod: string,
    status: string,
    createdAt: string)

  datatype Totals = Totals(income: real, expense: real, balance: real)

  /** Amounts of entries whose type is "income". */
  function IncomeTotal(es: seq<Entry>): real
  {
    if es == [] then 0.0
    else IncomeTotal(es[..|es| - 1]) + (if es[|es| - 1].kind == "income" then es[|es| - 1].amount else 0.0)
  }

  /** Amounts of all other entries: anything that is not "income" counts as expense. */
  function ExpenseTotal(es: seq<Entry>): real
  {
    if es == [] then 0.0
    else ExpenseTotal(es[..|es| - 1]) + (if es[|es| - 1].kind != "income" then es[|es| - 1].amount else 0.0)
  }

  function AmountTotal(es: seq<Entry>): real
  {
    if es == [] then 0.0 else AmountTotal(es[..|es| - 1]) + es[|es| - 1].amount
  }

  /** The `totals` memo: one pass with two accumulators. */
  method ComputeTotals(es: seq<Entry>) returns (t: Totals)
    ensures t.income == IncomeTotal(es) && t.expense == ExpenseTotal(es)
    ensures t.balance == t.income - t.expense
    ensures es == [] ==> t == Totals(0.0, 0.0, 0.0)
  {
    var income, expense := 0.0, 0.0;
    for i := 0 to |es|
      invariant income == IncomeTotal(es[..i])
      invariant expense == ExpenseTotal(es[..i])
    {
      assert es[..i + 1][..i] == es[..i];
      if es[i].kind == "income" {
        income := income + es[i].amount;
      } else {
        expense := expense + es[i].amount;
      }
    }
    assert es[..|es|] == es;
    t := Totals(income, expense, income - expense);
  }

  /** Every entry lands in exactly one of the two totals. */
  lemma {:induction false} TotalsCoverEveryEntry(es: seq<Entry>)
    ensures IncomeTotal(es) + ExpenseTotal(es) == AmountTotal(es)
  {
    if es != [] {
      TotalsCoverEveryEntry(es[..|es| - 1]);
    }
  }

  lemma {:induction false} TotalsAppend(a: seq<Entry>, b: seq<Entry>)
    ensures IncomeTotal(a + b) == IncomeTotal(a) + IncomeTotal(b)
    ensures ExpenseTotal(a + b) == ExpenseTotal(a) + ExpenseTotal(b)
  {
    if b != [] {
      assert (a + b)[..|a + b| - 1] == a + b[..|b| - 1];
      TotalsAppend(a, b[..|b| - 1]);
    } else {
      assert a + b == a;
    }
  }

  /** Prepending an entry adds its amount to the total of its side only. */
  lemma TotalsAfterPrepend(e: Entry, es: seq<Entry>)
    ensures IncomeTotal([e] + es) == IncomeTotal(es) + (if e.kind == "income" then e.amount else 0.0)
    ensures ExpenseTotal([e] + es) == ExpenseTotal(es) + (if e.kind != "income" then e.amount else 0.0)
  {
    TotalsAppend([e], es);
    assert [e][..0] == [];
  }

  /** `prev.filter((t) => t.id !== id)`. */
  function RemoveById(es: seq<Entry>, id: string): (r: seq<Entry>)
    ensures |r| <= |es|
  {
    if es == [] then []
    else
      var init := RemoveById(es[..|es| - 1], id);
      var e := es[|es| - 1];
      if e.id != id then init + [e] else init
  }

  /** After a delete, exactly the entries with other ids remain. */
  lemma {:induction false} RemoveByIdMembers(es: seq<Entry>, id: string)
    ensures forall e :: e in RemoveById(es, id) <==> e in es && e.id != id
  {
    if es != [] {
      RemoveByIdMembers(es[..|es| - 1], id);
      assert es == es[..|es| - 1] + [es[|es| - 1]];
    }
  }

  /** Entries with the given id. */
  function WithId(es: seq<Entry>, id: string): seq<Entry>
  {
    if es == [] then []
    else WithId(es[..|es| - 1], id) + (if es[|es| - 1].id == id then [es[|es| - 1]] else [])
  }

  /** Delete keeps order: filtering a concatenation filters each part in place. */
  lemma {:induction false} RemoveByIdKeepsOrder(a: seq<Entry>, b: seq<Entry>, id: string)
    ensures RemoveById(a + b, id) == RemoveById(a, id) + RemoveById(b, id)
  {
    if b != [] {
      assert (a + b)[..|a + b| - 1] == a + b[..|b| - 1];
      RemoveByIdKeepsOrder(a, b[..|b| - 1], id);
    } else {
      assert a + b == a;
    }
  }

  /** Every other entry is kept as often as it occurred, and the deleted ones are exactly those
      with the id: the list is split between the two without loss. */
  lemma {:induction false} RemoveByIdPartition(es: seq<Entry>, id: string)
    ensures multiset(RemoveById(es, id)) + multiset(WithId(es, id)) == multiset(es)
  {
    if es != [] {
      var init, e := es[..|es| - 1], es[|es| - 1];
      assert es == init + [e];
      RemoveByIdPartition(init, id);
    }
  }

  /** Deleted and kept entries together carry the whole income and expense. */
  lemma {:induction false} RemoveByIdTotals(es: seq<Entry>, id: string)
    ensures IncomeTotal(RemoveById(es, id)) + IncomeTotal(WithId(es, id)) == IncomeTotal(es)
    ensures ExpenseTotal(RemoveById(es, id)) + ExpenseTotal(WithId(es, id)) == ExpenseTotal(es)
  {
    if es != [] {
      var init, e := es[..|es| - 1], es[|es| - 1];
      RemoveByIdTotals(init, id);
      assert [e][..0] == [];
      assert IncomeTotal([e]) == if e.kind == "income" then e.amount else 0.0;
      assert ExpenseTotal([e]) == if e.kind != "income" then e.amount else 0.0;
      if e.id == id {
        assert RemoveById(es, id) == RemoveById(init, id);
        assert WithId(es, id) == WithId(init, id) + [e];
        TotalsAppend(WithId(init, id), [e]);
      } else {
        assert RemoveById(es, id) == RemoveById(init, id) + [e];
        assert WithId(es, id) == WithId(init, id) + [];
        assert WithId(init, id) + [] == WithId(init, id);
        TotalsAppend(RemoveById(init, id), [e]);
      }
    }
  }

  /** Deleting twice is deleting once. */
  lemma RemoveByIdIdempotent(es: seq<Entry>, id: string)
    ensures RemoveById(RemoveById(es, id), id) == RemoveById(es, id)
  {
    RemoveByIdMembers(es, id);
    RemoveByIdUnchanged(RemoveById(es, id), id);
  }

  /** A list without the id is left as it is. */
  lemma {:induction false} RemoveByIdUnchanged(es: seq<Entry>, id: string)
    requires forall e :: e in es ==> e.id != id
    ensures RemoveById(es, id) == es
  {
    if es != [] {
      assert forall e :: e in es[..|es| - 1] ==> e in es;
      assert es == es[..|es| - 1] + [es[|es| - 1]];
      RemoveByIdUnchanged(es[..|es| - 1], id);
    }
  }

  /** `10^e` for any integer exponent. */
  function Scale(e: int): (p: real)
    ensures p > 0.0
  {
    if e >= 0 then Pow10(e) as real else 1.0 / Pow10(-e) as real
  }

  /** The first position of `c` in `s`, or `|s|` when there is none. */
  function IndexOf(s: string, c: char): (k: nat)
    ensures k <= |s| && (k < |s| ==> s[k] == c)
    ensures forall i :: 0 <= i < k ==> s[i] != c
  {
    if s == [] || s[0] == c then 0 else 1 + IndexOf(s[1..], c)
  }

  /** Digits, digits '.' digits, or '.' digits. */
  function ParseMantissa(s: string): (r: Option<real>)
    ensures r.Some? ==> r.value >= 0.0
  {
    var d := IndexOf(s, '.');
    if d == |s| then
      if s != [] && AllDigits(s) then Some(DigitsValue(s) as real) else None
    else
      var whole, fraction := s[..d], s[d + 1..];
      if AllDigits(whole) && fraction != [] && AllDigits(fraction) then
        Some(Decimal(DigitsValue(whole), DigitsValue(fraction), |fraction|))
      else None
  }

  /** The value of `whole.fraction` where the fraction has `places` digits. */
  function Decimal(whole: nat, fraction: nat, places: nat): (r: real)
    ensures r >= whole as real
  {
    var p := Pow10(places) as real;
    assert fraction as real / p >= 0.0;
    whole as real + fraction as real / p
  }

  lemma DecimalValue(whole: nat, fraction: nat, places: nat)
    ensures Decimal(whole, fraction, places) == whole as real + fraction as real / Pow10(places) as real
  {
  }

  /** An optional '+' or '-' and one or more digits. */
  function ParseExponent(s: string): Option<int>
  {
    if s != [] && (s[0] == '+' || s[0] == '-') then
      var digits := s[1..];
      if digits != [] && AllDigits(digits) then
        Some(if s[0] == '-' then -(DigitsValue(digits) as int) else DigitsValue(digits) as int)
      else None
    else if s != [] && AllDigits(s) then Some(DigitsValue(s) as int)
    else None
  }

  /** `m * 10^e`, which keeps the sign of `m`. */
  function Scaled(m: real, e: int): (r: real)
    requires m >= 0.0
    ensures r >= 0.0
  {
    var p := Scale(e);
    assert m * p >= 0.0 by {
      if m > 0.0 {
        assert m * p > 0.0;
      }
    }
    m * p
  }

  /** A mantissa optionally followed by 'e' or 'E' and an exponent. */
  function ParseUnsigned(s: string): (r: Option<real>)
    ensures r.Some? ==> r.value >= 0.0
  {
    var e, E := IndexOf(s, 'e'), IndexOf(s, 'E');
    var k := if e < E then e else E;
    var mantissa := ParseMantissa(s[..k]);
    if mantissa.None? then None
    else if k == |s| then mantissa
    else
      var exponent := ParseExponent(s[k + 1..]);
      if exponent.None? then None else Some(Scaled(mantissa.value, exponent.value))
  }

  /** `Number(amount)` for the text of a number input: an optional '-' and an unsigned number;
      `None` stands for NaN. */
  function ParseNumber(s: string): (r: Option<real>)
    ensures s != [] && s[0] == '-' && r.Some? ==> r.value <= 0.0
  {
    if s != [] && s[0] == '-' then
      match ParseUnsigned(s[1..])
      case None => None
      case Some(v) => Some(-v)
    else ParseUnsigned(s)
  }

  /** A plain numeral reads as its value. */
  lemma NumeralParses(n: nat, width: nat)
    requires 1 <= width && n < Pow10(width)
    ensures ParseNumber(Numeral(n, width)) == Some(n as real)
  {
    var s := Numeral(n, width);
    assert IndexOf(s, '.') == |s| && IndexOf(s, 'e') == |s| && IndexOf(s, 'E') == |s|;
    assert s[..|s|] == s;
    assert IsDigit(s[0]);
  }

  /** `IndexOf` finds the first occurrence, wherever the string continues. */
  lemma IndexOfAt(s: string, c: char, k: nat)
    requires k <= |s| && (k < |s| ==> s[k] == c) && forall i :: 0 <= i < k ==> s[i] != c
    ensures IndexOf(s, c) == k
  {
  }

  lemma MantissaOfDecimal(whole: string, fraction: string)
    requires AllDigits(whole) && fraction != [] && AllDigits(fraction)
    ensures ParseMantissa(whole + "." + fraction)
         == Some(Decimal(DigitsValue(whole), DigitsValue(fraction), |fraction|))
  {
    var s := whole + "." + fraction;
    IndexOfAt(s, '.', |whole|);
    assert s[..|whole|] == whole && s[|whole| + 1..] == fraction;
  }

  lemma MantissaOfDigits(digits: string)
    requires digits != [] && AllDigits(digits)
    ensures ParseMantissa(digits) == Some(DigitsValue(digits) as real)
  {
    IndexOfAt(digits, '.', |digits|);
  }

  lemma UnsignedWithoutExponent(s: string)
    requires NoExponentMark(s)
    ensures ParseUnsigned(s) == ParseMantissa(s)
  {
    IndexOfAt(s, 'e', |s|);
    IndexOfAt(s, 'E', |s|);
    assert s[..|s|] == s;
  }

  /** A mantissa, 'e' or 'E' and an exponent read as the mantissa scaled by the exponent. */
  lemma UnsignedWithExponent(mantissa: string, mark: char, exponent: string, m: real, e: int)
    requires mark == 'e' || mark == 'E'
    requires NoExponentMark(mantissa) && NoExponentMark(exponent)
    requires ParseMantissa(mantissa) == Some(m) && ParseExponent(exponent) == Some(e)
    ensures ParseUnsigned(mantissa + [mark] + exponent) == Some(Scaled(m, e))
  {
    var s := mantissa + [mark] + exponent;
    var other := if mark == 'e' then 'E' else 'e';
    forall i | 0 <= i < |s|
      ensures s[i] != other && (i < |mantissa| ==> s[i] != mark)
    {
      if i < |mantissa| {
        assert s[i] == mantissa[i];
      } else if i > |mantissa| {
        assert s[i] == exponent[i - |mantissa| - 1];
      }
    }
    IndexOfAt(s, mark, |mantissa|);
    IndexOfAt(s, other, |s|);
    assert s[..|mantissa|] == mantissa && s[|mantissa| + 1..] == exponent;
  }

  /** The same, for a mantissa starting with a digit, as `Number` reads the whole text. */
  lemma NumberWithExponent(mantissa: string, mark: char, exponent: string, m: real, e: int)
    requires mantissa != [] && mantissa[0] != '-'
    requires mark == 'e' || mark == 'E'
    requires NoExponentMark(mantissa) && NoExponentMark(exponent)
    requires ParseMantissa(mantissa) == Some(m) && ParseExponent(exponent) == Some(e)
    ensures ParseNumber(mantissa + [mark] + exponent) == Some(Scaled(m, e))
  {
    UnsignedWithExponent(mantissa, mark, exponent, m, e);
    assert (mantissa + [mark] + exponent)[0] == mantissa[0];
  }

  lemma DigitsHaveNoMark(s: string)
    requires AllDigits(s)
    ensures NoExponentMark(s)
  {
    forall i | 0 <= i < |s|
      ensures s[i] != 'e' && s[i] != 'E'
    {
      assert IsDigit(s[i]);
    }
  }

  /** No exponent marker: neither 'e' nor 'E' occurs. */
  predicate NoExponentMark(s: string)
  {
    forall i :: 0 <= i < |s| ==> s[i] != 'e' && s[i] != 'E'
  }

  lemma NoExponentMarkConcat(a: string, b: string)
    requires NoExponentMark(a) && NoExponentMark(b)
    ensures NoExponentMark(a + b)
  {
    forall i | 0 <= i < |a + b|
      ensures (a + b)[i] != 'e' && (a + b)[i] != 'E'
    {
      if i >= |a| {
        assert (a + b)[i] == b[i - |a|];
      }
    }
  }

  /** Text not starting with '-' and without an exponent marker reads as its mantissa. */
  lemma PlainNumberIsMantissa(s: string)
    requires s != [] && s[0] != '-' && NoExponentMark(s)
    ensures ParseNumber(s) == ParseMantissa(s)
  {
    UnsignedWithoutExponent(s);
  }

  /** A numeral with a fraction reads as its whole part plus the fraction over 10^places
      (the value `DecimalValue` gives); a whole part of width 0 is the ".fraction" form. */
  lemma DecimalParses(whole: nat, width: nat, fraction: nat, places: nat)
    requires whole < Pow10(width) && 1 <= places && fraction < Pow10(places)
    ensures ParseNumber(Numeral(whole, width) + "." + Numeral(fraction, places)) == Some(Decimal(whole, fraction, places))
  {
    var w, f := Numeral(whole, width), Numeral(fraction, places);
    DecimalMantissa(w, f);
    PlainNumberIsMantissa(w + "." + f);
  }

  lemma ScaledUp(n: nat, exponent: nat)
    ensures Scaled(n as real, exponent) == (n * Pow10(exponent)) as real
  {
    assert Scale(exponent) == Pow10(exponent) as real;
    assert (n * Pow10(exponent)) as real == n as real * Pow10(exponent) as real;
  }

  lemma ScaledDown(n: nat, exponent: nat)
    ensures Scaled(n as real, -(exponent as int)) == n as real / Pow10(exponent) as real
  {
    var m, p := n as real, Pow10(exponent) as real;
    assert Scale(-(exponent as int)) == 1.0 / p;
    assert m * (1.0 / p) == m / p;
  }

  /** Exponent digits read as their value, after an optional '+' or a '-' that negates it. */
  lemma ExponentOfDigits(x: string)
    requires x != [] && AllDigits(x)
    ensures ParseExponent(x) == Some(DigitsValue(x) as int)
    ensures ParseExponent("+" + x) == Some(DigitsValue(x) as int)
    ensures ParseExponent("-" + x) == Some(-(DigitsValue(x) as int))
  {
    assert IsDigit(x[0]);
    assert ("+" + x)[1..] == x;
    assert ("-" + x)[1..] == x;
  }

  /** An exponent written with any of the three signs, as one statement. */
  lemma SignedExponent(sign: string, x: string)
    requires sign == "" || sign == "+" || sign == "-"
    requires x != [] && AllDigits(x)
    ensures ParseExponent(sign + x) == Some(if sign == "-" then -(DigitsValue(x) as int) else DigitsValue(x) as int)
    ensures NoExponentMark(sign + x)
  {
    ExponentOfDigits(x);
    DigitsHaveNoMark(x);
    if sign == "" {
      assert sign + x == x;
    } else {
      assert NoExponentMark(sign);
      NoExponentMarkConcat(sign, x);
    }
  }

  lemma ExponentDigitsParse(m: string, x: string)
    requires m != [] && AllDigits(m) && x != [] && AllDigits(x)
    ensures ParseNumber(m + "e" + x) == Some((DigitsValue(m) * Pow10(DigitsValue(x))) as real)
  {
    ExponentOfDigits(x);
    MantissaOfDigits(m);
    DigitsHaveNoMark(m);
    DigitsHaveNoMark(x);
    assert IsDigit(m[0]);
    NumberWithExponent(m, 'e', x, DigitsValue(m) as real, DigitsValue(x));
    ScaledUp(DigitsValue(m), DigitsValue(x));
  }

  lemma SignedExponentText(m: string, x: string)
    ensures m + "e" + ("-" + x) == m + "e-" + x
  {
    assert "e" + ("-" + x) == "e-" + x;
  }

  lemma NegativeExponentDigitsParse(m: string, x: string)
    requires m != [] && AllDigits(m) && x != [] && AllDigits(x)
    ensures ParseNumber(m + "e-" + x) == Some(DigitsValue(m) as real / Pow10(DigitsValue(x)) as real)
  {
    SignedExponent("-", x);
    MantissaOfDigits(m);
    DigitsHaveNoMark(m);
    assert IsDigit(m[0]);
    NumberWithExponent(m, 'e', "-" + x, DigitsValue(m) as real, -(DigitsValue(x) as int));
    SignedExponentText(m, x);
    ScaledDown(DigitsValue(m), DigitsValue(x));
  }

  /** `m * 10^e` in closed form, for either sign of the exponent. */
  lemma ScaledValue(m: real, e: int)
    requires m >= 0.0
    ensures e >= 0 ==> Scaled(m, e) == m * Pow10(e) as real
    ensures e < 0 ==> Scaled(m, e) == m / Pow10(-e) as real
  {
    if e < 0 {
      var p := Pow10(-e) as real;
      assert m * (1.0 / p) == m / p;
    }
  }

  lemma Regroup(a: string, b: string, c: string)
    ensures a + (b + c) == a + b + c
  {
  }

  /** A mantissa, 'e' or 'E', an optional sign and exponent digits, as text. */
  lemma MantissaExponentText(mantissa: string, v: real, mark: char, sign: string, x: string)
    requires mantissa != [] && mantissa[0] != '-' && NoExponentMark(mantissa)
    requires ParseMantissa(mantissa) == Some(v)
    requires mark == 'e' || mark == 'E'
    requires sign == "" || sign == "+" || sign == "-"
    requires x != [] && AllDigits(x)
    ensures ParseNumber(mantissa + [mark] + sign + x)
         == Some(Scaled(v, if sign == "-" then -(DigitsValue(x) as int) else DigitsValue(x) as int))
  {
    var e := if sign == "-" then -(DigitsValue(x) as int) else DigitsValue(x) as int;
    SignedExponent(sign, x);
    NumberWithExponent(mantissa, mark, sign + x, v, e);
    Regroup(mantissa + [mark], sign, x);
  }

  /** Digits, 'e' or 'E', an optional sign and exponent digits, as text. */
  lemma DigitsExponentText(m: string, mark: char, sign: string, x: string)
    requires m != [] && AllDigits(m) && x != [] && AllDigits(x)
    requires mark == 'e' || mark == 'E'
    requires sign == "" || sign == "+" || sign == "-"
    ensures ParseNumber(m + [mark] + sign + x)
         == Some(Scaled(DigitsValue(m) as real, if sign == "-" then -(DigitsValue(x) as int) else DigitsValue(x) as int))
  {
    MantissaOfDigits(m);
    DigitsHaveNoMark(m);
    assert IsDigit(m[0]);
    MantissaExponentText(m, DigitsValue(m) as real, mark, sign, x);
  }

  /** Digits, 'e' or 'E', an optional sign and exponent digits read as the digits' value
      scaled by the signed exponent. */
  lemma DigitsExponentParses(mantissa: nat, width: nat, mark: char, sign: string, exponent: nat, digits: nat)
    requires 1 <= width && mantissa < Pow10(width)
    requires mark == 'e' || mark == 'E'
    requires sign == "" || sign == "+" || sign == "-"
    requires 1 <= digits && exponent < Pow10(digits)
    ensures ParseNumber(Numeral(mantissa, width) + [mark] + sign + Numeral(exponent, digits))
         == Some(Scaled(mantissa as real, if sign == "-" then -(exponent as int) else exponent as int))
  {
    var m, x := Numeral(mantissa, width), Numeral(exponent, digits);
    var e := if sign == "-" then -(exponent as int) else exponent as int;
    assert DigitsValue(m) == mantissa && DigitsValue(x) == exponent;
    assert e == if sign == "-" then -(DigitsValue(x) as int) else DigitsValue(x) as int;
    DigitsExponentText(m, mark, sign, x);
    assert ParseNumber(m + [mark] + sign + x) == Some(Scaled(mantissa as real, e));
  }

  /** `whole.fraction`, 'e' or 'E', an optional sign and exponent digits, as text. */
  lemma DecimalExponentText(w: string, f: string, mark: char, sign: string, x: string)
    requires AllDigits(w) && AllDigits(f) && f != [] && AllDigits(x) && x != []
    requires mark == 'e' || mark == 'E'
    requires sign == "" || sign == "+" || sign == "-"
    ensures ParseNumber(w + "." + f + [mark] + sign + x)
         == Some(Scaled(Decimal(DigitsValue(w), DigitsValue(f), |f|),
                        if sign == "-" then -(DigitsValue(x) as int) else DigitsValue(x) as int))
  {
    DecimalMantissa(w, f);
    MantissaExponentText(w + "." + f, Decimal(DigitsValue(w), DigitsValue(f), |f|), mark, sign, x);
  }

  /** A `whole.fraction` mantissa, as `NumberWithExponent` needs it. */
  lemma DecimalMantissa(w: string, f: string)
    requires AllDigits(w) && AllDigits(f) && f != []
    ensures (w + "." + f)[0] != '-' && NoExponentMark(w + "." + f)
    ensures ParseMantissa(w + "." + f) == Some(Decimal(DigitsValue(w), DigitsValue(f), |f|))
  {
    MantissaOfDecimal(w, f);
    DigitsHaveNoMark(w);
    DigitsHaveNoMark(f);
    NoExponentMarkConcat(w, ".");
    NoExponentMarkConcat(w + ".", f);
    if w == [] {
      assert (w + "." + f)[0] == '.';
    } else {
      assert (w + "." + f)[0] == w[0] && IsDigit(w[0]);
    }
  }

  /** `whole.fraction`, 'e' or 'E', an optional sign and exponent digits read as the decimal
      value scaled by the signed exponent; a whole part of width 0 is the ".fraction" form. */
  lemma DecimalExponentParses(whole: nat, width: nat, fraction: nat, places: nat,
                              mark: char, sign: string, exponent: nat, digits: nat)
    requires whole < Pow10(width) && 1 <= places && fraction < Pow10(places)
    requires mark == 'e' || mark == 'E'
    requires sign == "" || sign == "+" || sign == "-"
    requires 1 <= digits && exponent < Pow10(digits)
    ensures ParseNumber(Numeral(whole, width) + "." + Numeral(fraction, places) + [mark] + sign + Numeral(exponent, digits))
         == Some(Scaled(Decimal(whole, fraction, places), if sign == "-" then -(exponent as int) else exponent as int))
  {
    var w, f, x := Numeral(whole, width), Numeral(fraction, places), Numeral(exponent, digits);
    var e := if sign == "-" then -(exponent as int) else exponent as int;
    assert DigitsValue(w) == whole && DigitsValue(f) == fraction && |f| == places && DigitsValue(x) == exponent;
    assert e == if sign == "-" then -(DigitsValue(x) as int) else DigitsValue(x) as int;
    DecimalExponentText(w, f, mark, sign, x);
    assert ParseNumber(w + "." + f + [mark] + sign + x) == Some(Scaled(Decimal(whole, fraction, places), e));
  }

  /** An exponent written with '+' reads as the one written without it. */
  lemma PlusExponentParses(mantissa: nat, width: nat, exponent: nat, digits: nat)
    requires 1 <= width && mantissa < Pow10(width) && 1 <= digits && exponent < Pow10(digits)
    ensures ParseNumber(Numeral(mantissa, width) + "e+" + Numeral(exponent, digits))
         == Some((mantissa * Pow10(exponent)) as real)
  {
    var m, x := Numeral(mantissa, width), Numeral(exponent, digits);
    DigitsExponentText(m, 'e', "+", x);
    PlusExponentText(m, x);
    assert DigitsValue(m) == mantissa && DigitsValue(x) == exponent;
    ScaledUp(mantissa, exponent);
  }

  lemma PlusExponentText(m: string, x: string)
    ensures m + ['e'] + "+" + x == m + "e+" + x
  {
    assert m + ['e'] + "+" == m + "e+";
  }

  /** A numeral with an exponent `e` digits reads as the numeral times 10^exponent. */
  lemma ExponentParses(mantissa: nat, width: nat, exponent: nat, digits: nat)
    requires 1 <= width && mantissa < Pow10(width) && 1 <= digits && exponent < Pow10(digits)
    ensures ParseNumber(Numeral(mantissa, width) + "e" + Numeral(exponent, digits))
         == Some((mantissa * Pow10(exponent)) as real)
  {
    var m, x := Numeral(mantissa, width), Numeral(exponent, digits);
    ExponentDigitsParse(m, x);
    assert DigitsValue(m) == mantissa && DigitsValue(x) == exponent;
  }

  /** A numeral with an exponent `e-` digits reads as the numeral divided by 10^exponent. */
  lemma NegativeExponentParses(mantissa: nat, width: nat, exponent: nat, digits: nat)
    requires 1 <= width && mantissa < Pow10(width) && 1 <= digits && exponent < Pow10(digits)
    ensures ParseNumber(Numeral(mantissa, width) + "e-" + Numeral(exponent, digits))
         == Some(mantissa as real / Pow10(exponent) as real)
  {
    var m, x := Numeral(mantissa, width), Numeral(exponent, digits);
    NegativeExponentDigitsParse(m, x);
    assert DigitsValue(m) == mantissa && DigitsValue(x) == exponent;
  }

  /** A decimal mantissa with an exponent. */
  lemma ExampleDecimalExponent()
    ensures ParseNumber("1.5e3") == Some(1500.0)
  {
    DecimalExponentText("1", "5", 'e', "", "3");
    assert "1" + "." + "5" + ['e'] + "" + "3" == "1.5e3";
    assert DigitsValue("1") == 1 && DigitsValue("5") == 5 && DigitsValue("3") == 3;
    ScaledDecimalExample();
  }

  lemma ScaledDecimalExample()
    ensures Scaled(Decimal(1, 5, 1), 3) == 1500.0
  {
    DecimalValue(1, 5, 1);
    ScaledValue(1.5, 3);
  }

  /** An exponent written with '+'. */
  lemma ExamplePlusExponent()
    ensures ParseNumber("1e+3") == Some(1000.0)
  {
    DigitsExponentText("1", 'e', "+", "3");
    assert "1" + ['e'] + "+" + "3" == "1e+3";
    assert DigitsValue("1") == 1 && DigitsValue("3") == 3;
    ScaledUp(1, 3);
  }

  datatype FormError = AmountNotPositive | DateRequired | CategoryRequired

  /** The checks of `handleSubmit`, in order; on success, the parsed amount. */
  function CheckForm(amount: string, date: string, category: string): (r: Result<real, FormError>)
    ensures r.Success? ==> r.value > 0.0 && ParseNumber(amount) == Some(r.value)
  {
    var n := ParseNumber(amount);
    if amount == "" || n.None? || n.value <= 0.0 then Failure(AmountNotPositive)
    else if date == "" then Failure(DateRequired)
    else if category == "" then Failure(CategoryRequired)
    else Success(n.value)
  }

  /** Each failure is reported exactly when every earlier check passed and its own did not. */
  lemma CheckFormOrder(amount: string, date: string, category: string)
    ensures var r := CheckForm(amount, date, category);
      && (r == Failure(AmountNotPositive) <==>
            amount == "" || ParseNumber(amount).None? || ParseNumber(amount).value <= 0.0)
      && (r == Failure(DateRequired) <==> r != Failure(AmountNotPositive) && date == "")
      && (r == Failure(CategoryRequired) <==> r != Failure(AmountNotPositive) && date != "" && category == "")
      && (r.Success? <==> r != Failure(AmountNotPositive) && date != "" && category != "")
  {
  }

  /** A negative amount never gets through, whatever the other fields hold. */
  lemma NegativeAmountRejected(amount: string, date: string, category: string)
    requires amount != [] && amount[0] == '-'
    ensures CheckForm(amount, date, category) == Failure(AmountNotPositive)
  {
  }

  /** Only the first failing check is reported. */
  lemma FirstFailureReported()
    ensures CheckForm("", "", "") == Failure(AmountNotPositive)
    ensures CheckForm("50000", "", "") == Failure(DateRequired)
    ensures CheckForm("50000", "2026-01-05", "") == Failure(CategoryRequired)
    ensures CheckForm("50000", "2026-01-05", "Ventas") == Success(50000.0)
  {
    ExampleAmountParses();
  }

  lemma ExampleAmountParses()
    ensures ParseNumber("50000") == Some(50000.0)
  {
    NumeralParses(50000, 5);
    assert Numeral(50000, 5) == "50000";
  }

  /** The ledger page: the form fields, the error message and the list of entries. */
  class Page {
    var kind: string
    var amount: string
    var category: string
    var date: string
    var description: string
    var paymentMethod: string
    var status: string
    var counterparty: string
    var error: Option<FormError>
    var transactions: seq<Entry>

    /** The initial state; `today` is the current date and `stored` the entries loaded at start. */
    constructor (today: string, stored: seq<Entry>)
      ensures kind == "expense" && amount == "" && category == "Insumos/Inventario" && date == today
      ensures description == "" && paymentMethod == "cash" && status == "paid" && counterparty == ""
      ensures error == None && transactions == stored
    {
      kind, amount, category, date := "expense", "", "Insumos/Inventario", today;
      description, paymentMethod, status, counterparty := "", "cash", "paid", "";
      error, transactions := None, stored;
    }

    /** `handleSubmit`; `id` and `createdAt` stand for `crypto.randomUUID()` and the current time. */
    method Submit(id: string, createdAt: string)
      modifies this`error, this`transactions, this`amount, this`description, this`counterparty
      ensures CheckForm(old(amount), date, category).Failure? ==>
        && error == Some(CheckForm(old(amount), date, category).error)
        && transactions == old(transactions)
        && amount == old(amount) && description == old(description) && counterparty == old(counterparty)
      ensures CheckForm(old(amount), date, category).Success? ==>
        && error == None
        && transactions == [Entry(id, kind, CheckForm(old(amount), date, category).value, category, date,
                                  Trim(old(description)), Trim(old(counterparty)), paymentMethod, status,
                                  createdAt)] + old(transactions)
        && amount == "" && description == "" && counterparty == ""
    {
      error := None;
      var check := CheckForm(amount, date, category);
      if check.Failure? {
        error := Some(check.error);
      } else {
        var entry := Entry(id, kind, check.value, category, date, Trim(description), Trim(counterparty),
                           paymentMethod, status, createdAt);
        transactions := [entry] + transactions;
        amount, description, counterparty := "", "", "";
      }
    }

    /** `handleDelete`. */
    method Delete(id: string)
      modifies this`transactions
      ensures transactions == RemoveById(old(transactions), id)
    {
      transactions := RemoveById(transactions, id);
    }
  }
}
