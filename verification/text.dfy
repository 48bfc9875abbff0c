/**
 * Character-level helpers shared by the validators: ASCII digits and the decimal numerals
 * they spell, JavaScript's `String.prototype.trim`, and the code-point order of strings.
 */
module Text {

  /** `\d` in a JavaScript regular expression without the `u` flag: an ASCII digit. */
  predicate IsDigit(c: char)
  {
    '0' <= c <= '9'
  }

  predicate AllDigits(s: string)
  {
    forall i :: 0 <= i < |s| ==> IsDigit(s[i])
  }

  function DigitValue(c: char): (d: nat)
    requires IsDigit(c)
    ensures d < 10
  {
    c as int - '0' as int
  }

  function DigitChar(d: nat): (c: char)
    requires d < 10
    ensures IsDigit(c) && DigitValue(c) == d
  {
    ('0' as int + d) as char
  }

  function Pow10(k: nat): (p: nat)
    ensures p >= 1
  {
    if k == 0 then 1 else 10 * Pow10(k - 1)
  }

  /** The value of a decimal numeral, most significant digit first, leading zeros allowed
      (what `Number` gives for such a string). */
  function DigitsValue(s: string): (n: nat)
    requires AllDigits(s)
    ensures n < Pow10(|s|)
  {
    if s == [] then 0 else DigitsValue(s[..|s| - 1]) * 10 + DigitValue(s[|s| - 1])
  }

  /** The `width`-digit numeral of `n`, padded with leading zeros. */
  function Numeral(n: nat, width: nat): (s: string)
    requires n < Pow10(width)
    ensures |s| == width && AllDigits(s) && DigitsValue(s) == n
  {
    if width == 0 then []
    else
      var s := Numeral(n / 10, width - 1) + [DigitChar(n % 10)];
      assert s[..|s| - 1] == Numeral(n / 10, width - 1);
      s
  }

  /** Reading a numeral and writing it back at the same width gives the numeral again. */
  lemma {:induction false} NumeralOfValue(s: string)
    requires AllDigits(s)
    ensures Numeral(DigitsValue(s), |s|) == s
  {
    if s != [] {
      var init, last := s[..|s| - 1], s[|s| - 1];
      var n := DigitsValue(s);
      assert n / 10 == DigitsValue(init) && n % 10 == DigitValue(last);
      NumeralOfValue(init);
      assert s == init + [last];
    }
  }

  /** The characters `String.prototype.trim` removes: white space and line terminators. */
  predicate IsJsSpace(c: char)
  {
    var u := c as int;
    || u == 0x09 || u == 0x0A || u == 0x0B || u == 0x0C || u == 0x0D || u == 0x20
    || u == 0xA0 || u == 0x1680 || (0x2000 <= u <= 0x200A) || u == 0x2028 || u == 0x2029
    || u == 0x202F || u == 0x205F || u == 0x3000 || u == 0xFEFF
  }

  predicate AllSpace(s: string)
  {
    forall i :: 0 <= i < |s| ==> IsJsSpace(s[i])
  }

  /** Neither begins nor ends with white space. */
  predicate Bare(s: string)
  {
    s == [] || (!IsJsSpace(s[0]) && !IsJsSpace(s[|s| - 1]))
  }

  /** The length of the longest all-space prefix. */
  function LeadingSpace(s: string): (n: nat)
    ensures n <= |s| && forall i :: 0 <= i < n ==> IsJsSpace(s[i])
    ensures n < |s| ==> !IsJsSpace(s[n])
  {
    if s == [] || !IsJsSpace(s[0]) then 0
    else 1 + LeadingSpace(s[1..])
  }

  /** The length of the longest all-space suffix. */
  function TrailingSpace(s: string): (n: nat)
    ensures n <= |s| && forall i :: |s| - n <= i < |s| ==> IsJsSpace(s[i])
    ensures n < |s| ==> !IsJsSpace(s[|s| - 1 - n])
  {
    if s == [] || !IsJsSpace(s[|s| - 1]) then 0
    else 1 + TrailingSpace(s[..|s| - 1])
  }

  /** `String.prototype.trim`: the string without its leading and trailing white space. */
  function Trim(s: string): (r: string)
    ensures Bare(r)
    ensures r == [] <==> AllSpace(s)
  {
    var a := LeadingSpace(s);
    var rest := s[a..];
    var r := rest[..|rest| - TrailingSpace(rest)];
    assert a < |s| ==> r != [] by {
      if a < |s| {
        assert rest[0] == s[a] && !IsJsSpace(rest[0]);
      }
    }
    r
  }

  lemma {:induction false} LeadingSpaceAfterSpaces(p: string, t: string)
    requires AllSpace(p)
    ensures LeadingSpace(p + t) == |p| + LeadingSpace(t)
  {
    if p != [] {
      assert (p + t)[1..] == p[1..] + t;
      LeadingSpaceAfterSpaces(p[1..], t);
    } else {
      assert p + t == t;
    }
  }

  lemma {:induction false} TrailingSpaceBeforeSpaces(t: string, q: string)
    requires AllSpace(q)
    ensures TrailingSpace(t + q) == TrailingSpace(t) + |q|
  {
    if q != [] {
      assert (t + q)[..|t + q| - 1] == t + q[..|q| - 1];
      TrailingSpaceBeforeSpaces(t, q[..|q| - 1]);
    } else {
      assert t + q == t;
    }
  }

  /** Trim removes exactly the surrounding white space: whatever spaces surround a bare core,
      trimming gives back the core. */
  lemma TrimRemovesExactlySurroundingSpace(p: string, core: string, q: string)
    requires AllSpace(p) && AllSpace(q) && Bare(core)
    ensures Trim(p + core + q) == core
  {
    var s := p + core + q;
    LeadingSpaceAfterSpaces(p, core + q);
    assert s == p + (core + q);
    var rest := s[|p| + LeadingSpace(core + q)..];
    if core == [] {
      assert AllSpace(q);
      LeadingSpaceAfterSpaces(q, []);
      assert q + [] == q;
      assert core + q == q;
      assert rest == [];
    } else {
      assert LeadingSpace(core + q) == 0 by { assert (core + q)[0] == core[0]; }
      assert rest == core + q;
      TrailingSpaceBeforeSpaces(core, []);
      assert core + [] == core;
      assert TrailingSpace(core) == 0;
      TrailingSpaceBeforeSpaces(core, q);
      assert rest[..|rest| - TrailingSpace(rest)] == core;
    }
  }

  /** Trimming twice is trimming once. */
  lemma TrimIdempotent(s: string)
    ensures Trim(Trim(s)) == Trim(s)
  {
    TrimRemovesExactlySurroundingSpace([], Trim(s), []);
    assert [] + Trim(s) + [] == Trim(s);
  }

  /** Code-point (lexicographic) order on strings, as a `C`-collated `ORDER BY` sorts them. */
  predicate LexLe(a: string, b: string)
  {
    a == [] || (b != [] && (a[0] < b[0] || (a[0] == b[0] && LexLe(a[1..], b[1..]))))
  }

  lemma {:induction false} LexLeTotal(a: string, b: string)
    ensures LexLe(a, b) || LexLe(b, a)
  {
    if a != [] && b != [] && a[0] == b[0] {
      LexLeTotal(a[1..], b[1..]);
    }
  }

  lemma {:induction false} LexLeTransitive(a: string, b: string, c: string)
    requires LexLe(a, b) && LexLe(b, c)
    ensures LexLe(a, c)
  {
    if a != [] && b != [] && c != [] && a[0] == b[0] == c[0] {
      LexLeTransitive(a[1..], b[1..], c[1..]);
    }
  }

  lemma {:induction false} LexLeAntisymmetric(a: string, b: string)
    requires LexLe(a, b) && LexLe(b, a)
    ensures a == b
  {
    if a != [] && b != [] {
      LexLeAntisymmetric(a[1..], b[1..]);
      assert a == [a[0]] + a[1..] && b == [b[0]] + b[1..];
    }
  }
}
