/** Exact decimal numbers as Python's `Decimal` holds them: a coefficient and a
    power-of-ten exponent, so that 1.0 and 1 are equal in value but distinct. */
module Decimals {
  import opened Wrappers
  import opened Text
  import opened Seqs

  /** The decimal `coeff × 10^exp`: `Decimal('1.45000')` is `Dec(145000, -5)`. */
  datatype Dec = Dec(coeff: int, exp: int)

  function Abs(i: int): nat {
    if i < 0 then -i else i
  }

  function Min(a: int, b: int): int {
    if a <= b then a else b
  }

  /** The coefficient of `d` once rewritten with the smaller exponent `m`:
      `d` and `Dec(Scale(d, m), m)` denote the same number. */
  function Scale(d: Dec, m: int): int
    requires m <= d.exp
  {
    d.coeff * Pow10(d.exp - m)
  }

  /** `a` and `b` denote the same number (Python's `a == b` on decimals), decided by
      writing both with the smaller of their exponents. */
  predicate SameValue(a: Dec, b: Dec) {
    var m := Min(a.exp, b.exp);
    Scale(a, m) == Scale(b, m)
  }

  /** Normal form: written without exponent notation (`exp <= 0`) and without a
      trailing zero after the decimal point. */
  predicate IsNormalized(d: Dec) {
    d.exp <= 0 && (d.exp < 0 ==> d.coeff % 10 != 0)
  }

  lemma MulTen(c: int, p: int)
    ensures c * (10 * p) == (c * p) * 10
  {
  }

  lemma MulCancel(x: int, y: int, p: int)
    requires p > 0 && x * p == y * p
    ensures x == y
  {
  }

  /** Rewriting with an exponent `j` lower multiplies the coefficient by `10^j`. */
  lemma {:induction false} ScaleShift(d: Dec, m: int, j: nat)
    requires m <= d.exp
    ensures Scale(d, m - j) == Scale(d, m) * Pow10(j)
    decreases j
  {
    if j > 0 {
      ScaleShift(d, m, j - 1);
      var p := Pow10(d.exp - m);
      var q := Pow10(j - 1);
      assert Pow10(d.exp - (m - j)) == 10 * Pow10(d.exp - m + (j - 1));
      assert Pow10(j) == 10 * q;
      MulTen(d.coeff, Pow10(d.exp - m + (j - 1)));
      MulTen(Scale(d, m), q);
    }
  }

  /** Same value can be decided at any common exponent, not only the larger one. */
  lemma SameValueAt(a: Dec, b: Dec, m: int)
    requires m <= a.exp && m <= b.exp
    ensures SameValue(a, b) <==> Scale(a, m) == Scale(b, m)
  {
    var n := Min(a.exp, b.exp);
    ScaleShift(a, n, n - m);
    ScaleShift(b, n, n - m);
    if Scale(a, m) == Scale(b, m) {
      MulCancel(Scale(a, n), Scale(b, n), Pow10(n - m));
    }
  }

  lemma SameValueTransitive(a: Dec, b: Dec, c: Dec)
    requires SameValue(a, b) && SameValue(b, c)
    ensures SameValue(a, c)
  {
    var m := Min(a.exp, Min(b.exp, c.exp));
    SameValueAt(a, b, m);
    SameValueAt(b, c, m);
    SameValueAt(a, c, m);
  }

  /** Dropping one trailing zero of the coefficient and raising the exponent keeps the value. */
  lemma DropZeroKeepsValue(d: Dec)
    requires d.coeff % 10 == 0
    ensures SameValue(Dec(d.coeff / 10, d.exp + 1), d)
  {
    assert Pow10(1) == 10;
    assert Scale(Dec(d.coeff / 10, d.exp + 1), d.exp) == d.coeff / 10 * 10;
  }

  /** Strips trailing zeros off the coefficient while the exponent is negative. */
  function StripTrailingZeros(d: Dec): (r: Dec)
    requires d.exp <= 0
    ensures IsNormalized(r) && SameValue(r, d)
    decreases -d.exp
  {
    if d.exp < 0 && d.coeff % 10 == 0 then
      var d' := Dec(d.coeff / 10, d.exp + 1);
      var r := StripTrailingZeros(d');
      DropZeroKeepsValue(d);
      SameValueTransitive(r, d', d);
      r
    else
      assert Scale(d, d.exp) == d.coeff;
      d
  }

  /** `_remove_exponent_and_trailing_zeros`: the same value, in normal form. An
      integral value comes out with exponent 0 (`5000.0` gives `5000`, never `5E+3`);
      any other value keeps exactly its significant fractional digits. */
  function RemoveExponentAndTrailingZeros(d: Dec): (r: Dec)
    ensures IsNormalized(r) && SameValue(r, d)
  {
    if d.exp >= 0 then
      assert Scale(Dec(d.coeff * Pow10(d.exp), 0), 0) == d.coeff * Pow10(d.exp);
      Dec(d.coeff * Pow10(d.exp), 0)
    else StripTrailingZeros(d)
  }

  /** A normal form never equals in value one with a larger exponent. */
  lemma LowerExponentNotNormal(a: Dec, b: Dec)
    requires IsNormalized(a) && IsNormalized(b) && SameValue(a, b)
    ensures a.exp >= b.exp
  {
    if a.exp < b.exp {
      LowerExponentTrailingZero(a, b);
    }
  }

  /** Of two equal values, the one with the lower exponent ends in a zero digit. */
  lemma LowerExponentTrailingZero(a: Dec, b: Dec)
    requires SameValue(a, b) && a.exp < b.exp
    ensures a.coeff % 10 == 0
  {
    var k: nat := b.exp - a.exp;
    var p := Pow10(k - 1);
    assert Scale(a, a.exp) == a.coeff * 1;
    assert Scale(b, a.exp) == b.coeff * (10 * p);
    MulTen(b.coeff, p);
    TimesTenEndsInZero(b.coeff * p);
  }

  lemma TimesTenEndsInZero(x: int)
    ensures (x * 10) % 10 == 0
  {
  }

  /** Two normal forms with the same value are the same decimal. */
  lemma NormalFormUnique(a: Dec, b: Dec)
    requires IsNormalized(a) && IsNormalized(b) && SameValue(a, b)
    ensures a == b
  {
    LowerExponentNotNormal(a, b);
    LowerExponentNotNormal(b, a);
    assert Scale(a, a.exp) == a.coeff && Scale(b, b.exp) == b.coeff;
  }

  lemma SameValueSymmetric(a: Dec, b: Dec)
    requires SameValue(a, b)
    ensures SameValue(b, a)
  {
  }

  /** Normalization is a canonical form: decimals equal in value normalize to the same
      decimal, and a decimal already in normal form is left as it is. */
  lemma NormalizationIsCanonical(a: Dec, b: Dec)
    ensures SameValue(a, b) <==>
            RemoveExponentAndTrailingZeros(a) == RemoveExponentAndTrailingZeros(b)
    ensures IsNormalized(a) ==> RemoveExponentAndTrailingZeros(a) == a
  {
    var ra, rb := RemoveExponentAndTrailingZeros(a), RemoveExponentAndTrailingZeros(b);
    if SameValue(a, b) {
      SameValueTransitive(ra, a, b);
      SameValueSymmetric(rb, b);
      SameValueTransitive(ra, b, rb);
      NormalFormUnique(ra, rb);
    }
    if ra == rb {
      SameValueSymmetric(ra, a);
      SameValueTransitive(a, ra, b);
    }
    if IsNormalized(a) {
      NormalFormUnique(ra, a);
    }
  }

  /** Python's `str()` of a finite decimal: a '-' for a negative coefficient, then
      the coefficient's digits laid out by `Layout`. */
  function ToString(d: Dec): (r: string)
    ensures |r| > 0 && (r[0] == '-' <==> d.coeff < 0)
  {
    var digits := NatToString(Abs(d.coeff));
    LayoutStartsWithDigit(digits, d.exp);
    (if d.coeff < 0 then "-" else "") + Layout(digits, d.exp)
  }

  /** The unsigned part of `str()`: plain notation when the exponent is not positive
      and fewer than six zeros follow the point, otherwise one digit before the point
      and an `E` exponent. */
  function Layout(digits: string, exp: int): string {
    var leftdigits := exp + |digits|;
    var dotplace := if exp <= 0 && leftdigits > -6 then leftdigits else 1;
    var intpart :=
      if dotplace <= 0 then "0"
      else if dotplace >= |digits| then digits + Repeat('0', dotplace - |digits|)
      else digits[..dotplace];
    var fracpart :=
      if dotplace <= 0 then "." + Repeat('0', -dotplace) + digits
      else if dotplace >= |digits| then ""
      else "." + digits[dotplace..];
    var exponent :=
      if leftdigits == dotplace then ""
      else "E" + (if leftdigits - dotplace >= 0 then "+" else "-") + NatToString(Abs(leftdigits - dotplace));
    intpart + fracpart + exponent
  }

  /** `ToString` uses plain notation for `d`. */
  predicate IsPlain(d: Dec) {
    d.exp <= 0 && d.exp + |NatToString(Abs(d.coeff))| > -6
  }

  /** `Decimal(s)` for plain notation: an optional '-', digits, then optionally a '.'
      followed by digits; the number of fractional digits becomes the exponent. */
  function Parse(s: string): Option<Dec> {
    if |s| > 0 && s[0] == '-' then
      match ParseUnsigned(s[1..])
      case Some(d) => Some(Dec(-d.coeff, d.exp))
      case None => None
    else ParseUnsigned(s)
  }

  function ParseUnsigned(s: string): Option<Dec> {
    match IndexOf(s, '.')
    case None =>
      if |s| > 0 && AllDigits(s) then Some(Dec(DigitsToNat(s), 0)) else None
    case Some(k) =>
      var whole, frac := s[..k], s[k + 1..];
      if |whole| > 0 && |frac| > 0 && AllDigits(whole) && AllDigits(frac) then
        DigitsToNatAppend(whole, frac);
        Some(Dec(DigitsToNat(whole + frac), -|frac|))
      else None
  }

  lemma DigitsHaveNoPoint(s: string)
    requires AllDigits(s)
    ensures '.' !in s
  {
    forall i | 0 <= i < |s| ensures s[i] != '.' {
      assert IsDigit(s[i]);
    }
  }

  lemma ParsePointed(w: string, f: string)
    requires |w| > 0 && |f| > 0 && AllDigits(w) && AllDigits(f)
    ensures AllDigits(w + f)
    ensures var r := ParseUnsigned(w + "." + f);
            r.Some? && r.value == Dec(DigitsToNat(w + f), -|f|)
  {
    DigitsHaveNoPoint(w);
    IndexOfAfter(w, '.', f);
    var s := w + "." + f;
    assert s[..|w|] == w && s[|w| + 1..] == f;
    DigitsToNatAppend(w, f);
  }

  lemma ZeroDigitValue()
    ensures AllDigits("0") && DigitsToNat("0") == 0
  {
    assert "0"[..0] == "";
  }

  /** A leading zero does not change what a digit string reads as. */
  lemma ZeroPrefix(f: string)
    requires AllDigits(f)
    ensures AllDigits("0" + f) && DigitsToNat("0" + f) == DigitsToNat(f)
  {
    ZeroDigitValue();
    DigitsToNatAppend("0", f);
  }

  /** A number below one: "0." then zeros then the digits. */
  lemma ParseBelowOne(digits: string, z: nat)
    requires |digits| > 0 && AllDigits(digits)
    ensures var r := ParseUnsigned("0" + ("." + Repeat('0', z) + digits));
            r.Some? && r.value == Dec(DigitsToNat(digits), -(z + |digits|))
  {
    var f := Repeat('0', z) + digits;
    LeadingZeros(z, digits);
    ZeroPrefix(f);
    ParsePointed("0", f);
    Assoc(".", Repeat('0', z), digits);
    Assoc("0", ".", Repeat('0', z) + digits);
  }

  /** A number with digits on both sides of the point. */
  lemma ParseSplit(digits: string, k: nat)
    requires 0 < k < |digits| && AllDigits(digits)
    ensures var r := ParseUnsigned(digits[..k] + ("." + digits[k..]));
            r.Some? && r.value == Dec(DigitsToNat(digits), -(|digits| - k))
  {
    var w, f := digits[..k], digits[k..];
    PrefixRest(digits, k);
    ParsePointed(w, f);
    Assoc(w, ".", f);
  }

  lemma ParseWhole(w: string)
    requires |w| > 0 && AllDigits(w)
    ensures var r := ParseUnsigned(w); r.Some? && r.value == Dec(DigitsToNat(w), 0)
  {
    DigitsHaveNoPoint(w);
  }

  lemma LayoutBelowOne(digits: string, exp: int)
    requires |digits| > 0 && AllDigits(digits) && exp <= 0 && -6 < exp + |digits| <= 0
    ensures var r := ParseUnsigned(Layout(digits, exp));
            r.Some? && r.value == Dec(DigitsToNat(digits), exp)
  {
    assert Layout(digits, exp) == "0" + ("." + Repeat('0', -(exp + |digits|)) + digits);
    ParseBelowOne(digits, -(exp + |digits|));
  }

  lemma LayoutInteger(digits: string, exp: int)
    requires |digits| > 0 && AllDigits(digits) && exp == 0
    ensures var r := ParseUnsigned(Layout(digits, exp));
            r.Some? && r.value == Dec(DigitsToNat(digits), exp)
  {
    assert Repeat('0', 0) == "";
    assert digits + "" == digits;
    assert Layout(digits, exp) == digits + "" + "" + "";
    ParseWhole(digits);
  }

  lemma LayoutSplit(digits: string, exp: int)
    requires AllDigits(digits) && exp < 0 && 0 < exp + |digits| < |digits|
    ensures var r := ParseUnsigned(Layout(digits, exp));
            r.Some? && r.value == Dec(DigitsToNat(digits), exp)
  {
    var k := exp + |digits|;
    assert Layout(digits, exp) == digits[..k] + ("." + digits[k..]) + "";
    assert digits[..k] + ("." + digits[k..]) + "" == digits[..k] + ("." + digits[k..]);
    ParseSplit(digits, k);
  }

  /** In plain notation `Layout` writes the digits around the point without an exponent,
      so the text reads back as the coefficient's digits with the same exponent. */
  lemma PlainLayout(digits: string, exp: int)
    requires |digits| > 0 && AllDigits(digits) && exp <= 0 && exp + |digits| > -6
    ensures var r := ParseUnsigned(Layout(digits, exp));
            r.Some? && r.value == Dec(DigitsToNat(digits), exp)
  {
    if exp + |digits| <= 0 {
      LayoutBelowOne(digits, exp);
    } else if exp == 0 {
      LayoutInteger(digits, exp);
    } else {
      LayoutSplit(digits, exp);
    }
  }

  /** Printed digits start with a digit: a leading "0", or the coefficient's first digit. */
  lemma LayoutStartsWithDigit(digits: string, exp: int)
    requires |digits| > 0 && AllDigits(digits)
    ensures |Layout(digits, exp)| > 0 && IsDigit(Layout(digits, exp)[0])
  {
  }

  /** Round trip: the plain-notation text Python prints for a decimal reads back as the
      very same decimal, coefficient and exponent. */
  lemma ParseToString(d: Dec)
    requires IsPlain(d)
    ensures Parse(ToString(d)) == Some(d)
  {
    var digits := NatToString(Abs(d.coeff));
    NatToStringRoundTrip(Abs(d.coeff));
    PlainLayout(digits, d.exp);
    LayoutStartsWithDigit(digits, d.exp);
    var u := Layout(digits, d.exp);
    if d.coeff < 0 {
      ParseNegated(u);
      assert ToString(d) == "-" + u;
    } else {
      ParseUnsignedText(u);
      assert ToString(d) == u;
    }
  }

  /** A '-' in front negates the coefficient of what the rest reads as. */
  lemma ParseNegated(u: string)
    requires ParseUnsigned(u).Some?
    ensures var c := ParseUnsigned(u).value;
            Parse("-" + u) == Some(Dec(-c.coeff, c.exp))
  {
    assert ("-" + u)[1..] == u;
  }

  /** Text opening with a digit is read without a sign. */
  lemma ParseUnsignedText(u: string)
    requires |u| > 0 && IsDigit(u[0])
    ensures Parse(u) == ParseUnsigned(u)
  {
  }

  /** `_remove_exponent_and_trailing_zeros(Decimal(value))` is `Decimal(expected)`, coefficient
      and exponent alike, and prints as `expected`. */
  predicate NormalizesTo(value: string, expected: string) {
    var a, b := Parse(value), Parse(expected);
    a.Some? && b.Some? && RemoveExponentAndTrailingZeros(a.value) == b.value
    && ToString(b.value) == expected
  }

  /** Reading the text `s` that `d` prints as gives `d`. */
  lemma ReadsBack(d: Dec, s: string)
    requires IsPlain(d) && ToString(d) == s
    ensures Parse(s).Some? && Parse(s).value == d
  {
    ParseToString(d);
  }

  /** Appending a digit to a positive number appends its character to the printed digits. */
  lemma AppendDigit(n: nat, d: nat)
    requires d < 10 && n > 0
    ensures NatToString(10 * n + d) == NatToString(n) + [DigitChar(d)]
  {
  }

  /** In plain notation with the point inside the digits, `Layout` is the digits
      with a '.' after the first `exp + |digits|` of them. */
  lemma LayoutSplitText(digits: string, exp: int)
    requires exp < 0 && 0 < exp + |digits| < |digits|
    ensures Layout(digits, exp) == digits[..exp + |digits|] + "." + digits[exp + |digits|..]
  {
    var k := exp + |digits|;
    assert Layout(digits, exp) == digits[..k] + ("." + digits[k..]) + "";
  }

  /** With exponent 0, `Layout` is the digits themselves. */
  lemma LayoutIntegerText(digits: string)
    requires |digits| > 0
    ensures Layout(digits, 0) == digits
  {
    assert Repeat('0', 0) == "";
    assert Layout(digits, 0) == digits + "" + "" + "";
  }

  /** A value equal to a normal form normalizes to that normal form. */
  lemma NormalFormIs(d: Dec, n: Dec)
    requires IsNormalized(n) && SameValue(n, d)
    ensures RemoveExponentAndTrailingZeros(d) == n
  {
    var r := RemoveExponentAndTrailingZeros(d);
    SameValueSymmetric(n, d);
    SameValueTransitive(r, d, n);
    NormalFormUnique(r, n);
  }

  lemma DigitsOne()
    ensures NatToString(1) == "1" && NatToString(10) == "10"
  {
    AppendDigit(1, 0);
  }

  lemma DigitsFiveThousand()
    ensures NatToString(5000) == "5000" && NatToString(50000) == "50000"
  {
    assert NatToString(5) == "5";
    AppendDigit(5, 0);
    AppendDigit(50, 0);
    AppendDigit(500, 0);
    AppendDigit(5000, 0);
  }

  lemma DigitsOneFortyFive()
    ensures NatToString(145) == "145" && NatToString(145000) == "145000"
  {
    assert NatToString(1) == "1";
    AppendDigit(1, 4);
    AppendDigit(14, 5);
    AppendDigit(145, 0);
    AppendDigit(1450, 0);
    AppendDigit(14500, 0);
  }

  lemma DigitsFiveThousandFour()
    ensures NatToString(50004) == "50004" && NatToString(500040000) == "500040000"
  {
    DigitsFiveThousand();
    AppendDigit(5000, 4);
    AppendDigit(50004, 0);
    AppendDigit(500040, 0);
    AppendDigit(5000400, 0);
    AppendDigit(50004000, 0);
  }

  lemma NormalizesOnePointZero()
    ensures NormalizesTo("1.0", "1")
  {
    StripsOnePointZero();
    PrintsOnePointZero();
    ReadsBack(Dec(10, -1), "1.0");
    ReadsBack(Dec(1, 0), "1");
  }

  lemma PrintsOnePointZero()
    ensures ToString(Dec(10, -1)) == "1.0" && ToString(Dec(1, 0)) == "1"
  {
    DigitsOne();
    LayoutSplitText("10", -1);
    LayoutIntegerText("1");
  }

  lemma StripsOnePointZero()
    ensures RemoveExponentAndTrailingZeros(Dec(10, -1)) == Dec(1, 0)
  {
    assert Pow10(1) == 10;
    NormalFormIs(Dec(10, -1), Dec(1, 0));
  }

  /** An integral value loses its exponent entirely: 5000, never 5E+3. */
  lemma NormalizesFiveThousand()
    ensures NormalizesTo("5000.0", "5000")
  {
    StripsFiveThousand();
    PrintsFiveThousand();
    ReadsBack(Dec(50000, -1), "5000.0");
    ReadsBack(Dec(5000, 0), "5000");
  }

  lemma PrintsFiveThousand()
    ensures ToString(Dec(50000, -1)) == "5000.0" && ToString(Dec(5000, 0)) == "5000"
  {
    DigitsFiveThousand();
    LayoutSplitText("50000", -1);
    LayoutIntegerText("5000");
  }

  lemma StripsFiveThousand()
    ensures RemoveExponentAndTrailingZeros(Dec(50000, -1)) == Dec(5000, 0)
  {
    assert Pow10(1) == 10;
    NormalFormIs(Dec(50000, -1), Dec(5000, 0));
  }

  lemma NormalizesOnePointFortyFive()
    ensures NormalizesTo("1.45000", "1.45")
  {
    StripsOnePointFortyFive();
    PrintsOnePointFortyFive();
    ReadsBack(Dec(145000, -5), "1.45000");
    ReadsBack(Dec(145, -2), "1.45");
  }

  lemma PrintsOnePointFortyFive()
    ensures ToString(Dec(145000, -5)) == "1.45000" && ToString(Dec(145, -2)) == "1.45"
  {
    DigitsOneFortyFive();
    LayoutSplitText("145000", -5);
    LayoutSplitText("145", -2);
  }

  lemma StripsOnePointFortyFive()
    ensures RemoveExponentAndTrailingZeros(Dec(145000, -5)) == Dec(145, -2)
  {
    assert Pow10(3) == 1000;
    NormalFormIs(Dec(145000, -5), Dec(145, -2));
  }

  lemma NormalizesFiveThousandPointFour()
    ensures NormalizesTo("5000.40000", "5000.4")
  {
    StripsFiveThousandPointFour();
    PrintsFiveThousandPointFour();
    ReadsBack(Dec(500040000, -5), "5000.40000");
    ReadsBack(Dec(50004, -1), "5000.4");
  }

  lemma PrintsFiveThousandPointFour()
    ensures ToString(Dec(500040000, -5)) == "5000.40000" && ToString(Dec(50004, -1)) == "5000.4"
  {
    DigitsFiveThousandFour();
    LayoutSplitText("500040000", -5);
    LayoutSplitText("50004", -1);
  }

  lemma StripsFiveThousandPointFour()
    ensures RemoveExponentAndTrailingZeros(Dec(500040000, -5)) == Dec(50004, -1)
  {
    assert Pow10(4) == 10000;
    NormalFormIs(Dec(500040000, -5), Dec(50004, -1));
  }
}
