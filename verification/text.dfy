/** Decimal digit strings and the small string helpers Python code gets from `str`. */
module Text {
  import opened Wrappers

  /** 10 to the power `n`. */
  function Pow10(n: nat): (r: nat)
    ensures r >= 1
  {
    if n == 0 then 1 else 10 * Pow10(n - 1)
  }

  predicate IsDigit(c: char) {
    '0' <= c <= '9'
  }

  predicate AllDigits(s: string) {
    forall i :: 0 <= i < |s| ==> IsDigit(s[i])
  }

  function DigitChar(d: nat): (c: char)
    requires d < 10
    ensures IsDigit(c) && c as int - '0' as int == d
  {
    ('0' as int + d) as char
  }

  function DigitValue(c: char): nat
    requires IsDigit(c)
  {
    c as int - '0' as int
  }

  /** The value of a string of decimal digits; the empty string reads as 0. */
  function DigitsToNat(s: string): nat
    requires AllDigits(s)
    decreases |s|
  {
    if |s| == 0 then 0 else DigitsToNat(s[..|s| - 1]) * 10 + DigitValue(s[|s| - 1])
  }

  /** Python's `str(n)` for a natural number: its decimal digits, no leading zero. */
  function NatToString(n: nat): (s: string)
    ensures |s| >= 1 && AllDigits(s)
    ensures |s| > 1 ==> s[0] != '0'
    decreases n
  {
    if n < 10 then [DigitChar(n)] else NatToString(n / 10) + [DigitChar(n % 10)]
  }

  /** Python's `str(i)` for an integer. */
  function IntToString(i: int): string {
    if i < 0 then "-" + NatToString(-i) else NatToString(i)
  }

  /** `n` copies of `c`. */
  function Repeat(c: char, n: nat): (s: string)
    ensures |s| == n && forall i :: 0 <= i < n ==> s[i] == c
  {
    if n == 0 then "" else [c] + Repeat(c, n - 1)
  }

  /** Python's `sep.join(parts)`. */
  function Join(parts: seq<string>, sep: string): string
    decreases |parts|
  {
    if |parts| == 0 then ""
    else if |parts| == 1 then parts[0]
    else parts[0] + sep + Join(parts[1..], sep)
  }

  /** Python's `x in s` for strings: `x` occurs in `s` as a contiguous piece. */
  predicate Contains(s: string, x: string) {
    exists i :: 0 <= i <= |s| && OccursAt(s, x, i)
  }

  /** `x` occurs in `s` starting at index `i`. */
  predicate OccursAt(s: string, x: string, i: nat)
    requires i <= |s|
  {
    x <= s[i..]
  }

  /** Reading back the digits written by `NatToString` gives the number again. */
  lemma {:induction false} NatToStringRoundTrip(n: nat)
    ensures DigitsToNat(NatToString(n)) == n
    decreases n
  {
    var s := NatToString(n);
    if n >= 10 {
      NatToStringRoundTrip(n / 10);
      assert s[..|s| - 1] == NatToString(n / 10);
    }
  }

  /** The value of a concatenation of digit strings. */
  lemma {:induction false} DigitsToNatAppend(a: string, b: string)
    requires AllDigits(a) && AllDigits(b)
    ensures AllDigits(a + b)
    ensures DigitsToNat(a + b) == DigitsToNat(a) * Pow10(|b|) + DigitsToNat(b)
    decreases |b|
  {
    assert AllDigits(a + b) by {
      forall i | 0 <= i < |a + b| ensures IsDigit((a + b)[i]) {
        if i < |a| { assert (a + b)[i] == a[i]; } else { assert (a + b)[i] == b[i - |a|]; }
      }
    }
    if |b| == 0 {
      assert a + b == a;
    } else {
      var b' := b[..|b| - 1];
      var c := b[|b| - 1];
      assert (a + b)[..|a + b| - 1] == a + b';
      assert (a + b)[|a + b| - 1] == c;
      DigitsToNatAppend(a, b');
      var x, p, y, v := DigitsToNat(a), Pow10(|b'|), DigitsToNat(b'), DigitValue(c);
      assert DigitsToNat(a + b) == DigitsToNat(a + b') * 10 + v;
      assert DigitsToNat(b) == y * 10 + v;
      assert Pow10(|b|) == 10 * p;
      ShiftDigit(x, p, y, v);
    }
  }

  lemma ShiftDigit(x: int, p: int, y: int, v: int)
    ensures (x * p + y) * 10 + v == x * (10 * p) + (y * 10 + v)
  {
  }

  /** Leading zeros do not change the value of a digit string. */
  lemma {:induction false} LeadingZeros(k: nat, s: string)
    requires AllDigits(s)
    ensures AllDigits(Repeat('0', k) + s)
    ensures DigitsToNat(Repeat('0', k) + s) == DigitsToNat(s)
  {
    ZerosReadAsZero(k);
    DigitsToNatAppend(Repeat('0', k), s);
  }

  lemma {:induction false} ZerosReadAsZero(k: nat)
    ensures AllDigits(Repeat('0', k)) && DigitsToNat(Repeat('0', k)) == 0
  {
    if k > 0 {
      ZerosReadAsZero(k - 1);
      var z := Repeat('0', k);
      assert z[..k - 1] == Repeat('0', k - 1);
    }
  }

  /** The index of the first `c` in `s`, Python's `s.find(c)` with -1 as `None`. */
  function IndexOf(s: string, c: char): (r: Option<nat>)
    ensures r.None? <==> c !in s
    ensures r.Some? ==> r.value < |s| && s[r.value] == c && c !in s[..r.value]
    decreases |s|
  {
    if |s| == 0 then None
    else if s[0] == c then Some(0)
    else match IndexOf(s[1..], c)
      case None => None
      case Some(k) => assert s[..k + 1] == [s[0]] + s[1..][..k]; Some(k + 1)
  }

  /** The separator is found right after a prefix that does not contain it. */
  lemma IndexOfAfter(a: string, c: char, b: string)
    requires c !in a
    ensures IndexOf(a + [c] + b, c) == Some(|a|)
  {
    var s := a + [c] + b;
    assert s[|a|] == c;
    assert s[..|a|] == a;
    assert forall k :: |a| < k <= |s| ==> s[..k][|a|] == c;
  }
}
