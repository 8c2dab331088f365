/** `format_benefit_value`: a discount benefit shown to a learner, either as a
    percentage or as a currency amount. */
module BenefitFormat {
  import opened Wrappers
  import opened Text
  import opened Decimals

  /** The two benefit types the formatter distinguishes, once a proxy class has been
      resolved to its type. */
  datatype BenefitType = Percentage | Fixed

  datatype Benefit = Benefit(kind: BenefitType, value: Dec)

  /** The currency formatter is outside this model and is taken as a parameter. */
  type CurrencyFormat = Dec -> string

  /** A percentage shows the normalized value followed by '%'; a fixed amount shows '$'
      followed by the currency-formatted value. */
  function FormatBenefitValue(b: Benefit, addCurrency: CurrencyFormat): (r: string)
    ensures b.kind == Fixed ==> r == "$" + addCurrency(b.value)
    ensures b.kind == Percentage ==> |r| > 0 && r[|r| - 1] == '%'
    ensures b.kind == Percentage ==> r[..|r| - 1] == ToString(RemoveExponentAndTrailingZeros(b.value))
  {
    match b.kind
    case Percentage => ToString(RemoveExponentAndTrailingZeros(b.value)) + "%"
    case Fixed => "$" + addCurrency(b.value)
  }

  /** Percentages of equal value are shown alike ("35.00" and "35" both give "35%"),
      and, in plain notation, different values are shown differently. */
  lemma EqualPercentagesLookAlike(a: Benefit, b: Benefit, addCurrency: CurrencyFormat)
    requires a.kind == Percentage && b.kind == Percentage
    ensures SameValue(a.value, b.value) ==> FormatBenefitValue(a, addCurrency) == FormatBenefitValue(b, addCurrency)
    ensures IsPlain(RemoveExponentAndTrailingZeros(a.value)) && IsPlain(RemoveExponentAndTrailingZeros(b.value))
            && FormatBenefitValue(a, addCurrency) == FormatBenefitValue(b, addCurrency)
            ==> SameValue(a.value, b.value)
  {
    var ra, rb := RemoveExponentAndTrailingZeros(a.value), RemoveExponentAndTrailingZeros(b.value);
    NormalizationIsCanonical(a.value, b.value);
    var ta, tb := FormatBenefitValue(a, addCurrency), FormatBenefitValue(b, addCurrency);
    if IsPlain(ra) && IsPlain(rb) && ta == tb {
      assert ta[..|ta| - 1] == ToString(ra) && tb[..|tb| - 1] == ToString(rb);
      ParseToString(ra);
      ParseToString(rb);
    }
  }

  /** The printed form of a decimal opens with '-' or a digit, never with '$'. */
  lemma ToStringStart(d: Dec)
    ensures |ToString(d)| > 0 && (ToString(d)[0] == '-' || IsDigit(ToString(d)[0]))
  {
    var digits := NatToString(Abs(d.coeff));
    LayoutStartsWithDigit(digits, d.exp);
    if d.coeff < 0 {
      assert ToString(d)[0] == '-';
    } else {
      assert ToString(d) == Layout(digits, d.exp);
    }
  }

  /** The benefit type can be read off the text: only a fixed amount starts with '$'. */
  lemma DollarSignMeansFixed(b: Benefit, addCurrency: CurrencyFormat)
    ensures FormatBenefitValue(b, addCurrency)[0] == '$' <==> b.kind == Fixed
  {
    if b.kind == Percentage {
      ToStringStart(RemoveExponentAndTrailingZeros(b.value));
    }
  }

  /** A percentage in plain range reads back, without its '%', as the benefit's value in
      normal form: the same number, with no trailing fractional zeros. */
  lemma PercentageReadsBack(b: Benefit, addCurrency: CurrencyFormat)
    requires b.kind == Percentage && IsPlain(RemoveExponentAndTrailingZeros(b.value))
    ensures var r := FormatBenefitValue(b, addCurrency);
            var p := Parse(r[..|r| - 1]);
            p.Some? && SameValue(p.value, b.value) && IsNormalized(p.value)
  {
    var n := RemoveExponentAndTrailingZeros(b.value);
    var r := FormatBenefitValue(b, addCurrency);
    assert r[..|r| - 1] == ToString(n);
    ParseToString(n);
  }

  /** The test's percentage benefit of 35.00 is shown as "35%". */
  lemma ThirtyFivePercent(addCurrency: CurrencyFormat)
    ensures FormatBenefitValue(Benefit(Percentage, Dec(3500, -2)), addCurrency) == "35%"
  {
    assert Pow10(2) == 100;
    NormalFormIs(Dec(3500, -2), Dec(35, 0));
    assert NatToString(3) == "3";
    AppendDigit(3, 5);
    LayoutIntegerText("35");
  }
}
