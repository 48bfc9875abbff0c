/**
 * Month tokens `YYYY-MM`: the format check (`^\d{4}-\d{2}$`) and, separately, the check
 * that the two-digit month lies in 01..12.
 */
module MonthToken {
  import opened Results
  import opened Text

  /** The regular expression `^\d{4}-\d{2}$`: four digits, a hyphen, two digits, nothing else. */
  predicate MonthFormatOk(s: string): (ok: bool)
    ensures ok <==> |s| == 7 && s[4] == '-' && forall i :: 0 <= i < 7 && i != 4 ==> IsDigit(s[i])
  {
    |s| == 7 && AllDigits(s[..4]) && s[4] == '-' && AllDigits(s[5..])
  }

  /** `Number` of the part before the hyphen. */
  function YearPart(s: string): (y: nat)
    requires MonthFormatOk(s)
    ensures y < 10000
  {
    DigitsValue(s[..4])
  }

  /** `Number(s.split("-")[1])`: the two-digit part after the hyphen. */
  function MonthPart(s: string): (m: nat)
    requires MonthFormatOk(s)
    ensures m < 100
  {
    DigitsValue(s[5..])
  }

  /** The month part is a calendar month. */
  predicate MonthRangeOk(s: string): (ok: bool)
    requires MonthFormatOk(s)
    ensures ok <==> (s[5] == '0' && s[6] != '0') || (s[5] == '1' && s[6] <= '2')
  {
    TokenParts(s);
    1 <= MonthPart(s) <= 12
  }

  /** A token that passes both checks. */
  predicate ValidMonth(s: string)
  {
    MonthFormatOk(s) && MonthRangeOk(s)
  }

  /** The token of a year and month: zero-padded year, a hyphen, zero-padded month. */
  function FormatMonth(year: nat, month: nat): (s: string)
    requires year < 10000 && 1 <= month <= 12
    ensures ValidMonth(s)
    ensures YearPart(s) == year && MonthPart(s) == month
  {
    var s := Numeral(year, 4) + "-" + Numeral(month, 2);
    assert s[..4] == Numeral(year, 4) && s[5..] == Numeral(month, 2);
    s
  }

  /** Every token that passes both checks is the formatted token of its year and month, so the
      two checks accept exactly the months 0000-01 .. 9999-12 written with zero padding. */
  lemma ValidMonthIsFormatted(s: string)
    requires ValidMonth(s)
    ensures s == FormatMonth(YearPart(s), MonthPart(s))
  {
    NumeralOfValue(s[..4]);
    NumeralOfValue(s[5..]);
    assert s == s[..4] + "-" + s[5..];
  }

  /** The two parts of a token read digit by digit. */
  lemma TokenParts(s: string)
    requires |s| == 7 && s[4] == '-'
    requires IsDigit(s[0]) && IsDigit(s[1]) && IsDigit(s[2]) && IsDigit(s[3]) && IsDigit(s[5]) && IsDigit(s[6])
    ensures MonthFormatOk(s)
    ensures YearPart(s) == ((DigitValue(s[0]) * 10 + DigitValue(s[1])) * 10 + DigitValue(s[2])) * 10 + DigitValue(s[3])
    ensures MonthPart(s) == DigitValue(s[5]) * 10 + DigitValue(s[6])
  {
    var y, m := s[..4], s[5..];
    assert y[..3][..2] == y[..2] && y[..2][..1] == y[..1] && y[..1][..0] == [] && m[..1][..0] == [];
    assert y[..3] == s[..3] && y[..2] == s[..2] && y[..1] == s[..1] && y[..3][..2] == s[..2];
    assert DigitsValue(y[..1]) == DigitValue(s[0]);
    assert DigitsValue(y[..2]) == DigitValue(s[0]) * 10 + DigitValue(s[1]);
    assert DigitsValue(y[..3]) == (DigitValue(s[0]) * 10 + DigitValue(s[1])) * 10 + DigitValue(s[2]);
    assert DigitsValue(m[..1]) == DigitValue(s[5]);
  }

  /** A token can pass the format check and still fail the range check. */
  lemma RangeIsCheckedSeparately()
    ensures MonthFormatOk("2026-99") && !MonthRangeOk("2026-99")
    ensures MonthFormatOk("2026-00") && !MonthRangeOk("2026-00")
    ensures ValidMonth("2026-12") && !MonthFormatOk("2026-1") && !MonthFormatOk("26-01")
  {
    TokenParts("2026-99");
    TokenParts("2026-00");
    TokenParts("2026-12");
  }

  datatype MonthError = InvalidFormat | InvalidRange

  /** One month query parameter (`None` when absent): the format is checked first, then the range. */
  function CheckMonth(q: Option<string>): (r: Result<string, MonthError>)
    ensures r.Success? <==> q.Some? && ValidMonth(q.value)
    ensures r.Success? ==> r.value == q.value
    ensures r == Failure(InvalidFormat) <==> q.None? || !MonthFormatOk(q.value)
  {
    if q.None? || !MonthFormatOk(q.value) then Failure(InvalidFormat)
    else if !MonthRangeOk(q.value) then Failure(InvalidRange)
    else Success(q.value)
  }
}
