/**
 * Currency literals and the two ways the scraper renders them:
 * `f"{float(x) / 1_000_000:.10f}".rstrip('0').rstrip('.')` for prices quoted per
 * million units, and `f"{float(x)}"` for prices quoted per minute or per image.
 * Both are modelled with exact decimal arithmetic on digit strings instead of
 * binary floating point.
 */
module Decimal {
  import opened Text

  function DigitValue(c: char): nat
    requires IsDigit(c)
  {
    (c as int) - ('0' as int)
  }

  function DigitChar(d: nat): (c: char)
    requires d < 10
    ensures IsDigit(c) && DigitValue(c) == d
  {
    (('0' as int) + d) as char
  }

  function Pow10(n: nat): (r: nat)
    ensures r >= 1
  {
    if n == 0 then 1 else 10 * Pow10(n - 1)
  }

  lemma {:induction false} Pow10Add(a: nat, b: nat)
    ensures Pow10(a + b) == Pow10(a) * Pow10(b)
  {
    if b > 0 {
      Pow10Add(a, b - 1);
      assert Pow10(a + b) == 10 * Pow10(a + b - 1);
    }
  }

  lemma Pow10Split(a: nat, n: nat)
    requires a <= n
    ensures Pow10(n) == Pow10(a) * Pow10(n - a)
  {
    Pow10Add(a, n - a);
  }

  /** The number a string of decimal digits denotes ("" denotes 0). */
  function Value(s: string): nat
    requires AllDigits(s)
  {
    if |s| == 0 then 0 else 10 * Value(s[..|s| - 1]) + DigitValue(s[|s| - 1])
  }

  lemma AllDigitsConcat(a: string, b: string)
    requires AllDigits(a) && AllDigits(b)
    ensures AllDigits(a + b)
  {
    forall k | 0 <= k < |a + b| ensures IsDigit((a + b)[k]) {
      if k < |a| { assert (a + b)[k] == a[k]; } else { assert (a + b)[k] == b[k - |a|]; }
    }
  }

  /** Appending digits shifts the value left by their count. */
  lemma {:induction false} ValueConcat(a: string, b: string)
    requires AllDigits(a) && AllDigits(b)
    ensures AllDigits(a + b)
    ensures Value(a + b) == Value(a) * Pow10(|b|) + Value(b)
  {
    AllDigitsConcat(a, b);
    if |b| == 0 {
      assert a + b == a;
    } else {
      var b' := b[..|b| - 1];
      assert (a + b)[..|a + b| - 1] == a + b';
      ValueConcat(a, b');
      var d := DigitValue(b[|b| - 1]);
      assert Value(a + b) == 10 * Value(a + b') + d;
      assert Value(b) == 10 * Value(b') + d;
      ShiftArith(Value(a), Pow10(|b'|), Value(b'), d);
    }
  }

  lemma ShiftArith(v: nat, p: nat, w: nat, d: nat)
    ensures 10 * (v * p + w) + d == v * (10 * p) + (10 * w + d)
  {
  }

  /** A string of `n` zeros. */
  function Zeros(n: nat): (z: string)
    ensures |z| == n && AllDigits(z)
    ensures forall k :: 0 <= k < n ==> z[k] == '0'
  {
    if n == 0 then "" else Zeros(n - 1) + "0"
  }

  lemma ValueZeros(n: nat)
    ensures Value(Zeros(n)) == 0
  {
    ValueAllZeros(Zeros(n));
  }

  /** Digits that are all `0` are worth nothing. */
  lemma {:induction false} ValueAllZeros(s: string)
    requires forall k :: 0 <= k < |s| ==> s[k] == '0'
    ensures AllDigits(s) && Value(s) == 0
    decreases |s|
  {
    if |s| > 0 {
      var init := s[..|s| - 1];
      assert forall k :: 0 <= k < |init| ==> init[k] == s[k];
      ValueAllZeros(init);
    }
  }

  /** Python's `str(n)` for a natural number: its shortest decimal spelling. */
  function Digits(n: nat): (s: string)
    ensures |s| >= 1 && AllDigits(s) && Value(s) == n
    ensures |s| == 1 || s[0] != '0'
  {
    if n < 10 then
      [DigitChar(n)]
    else
      var s := Digits(n / 10) + [DigitChar(n % 10)];
      assert s[..|s| - 1] == Digits(n / 10);
      AllDigitsConcat(Digits(n / 10), [DigitChar(n % 10)]);
      s
  }

  lemma {:induction false} DigitsFit(n: nat, w: nat)
    requires w >= 1 && n < Pow10(w)
    ensures |Digits(n)| <= w
  {
    if n >= 10 {
      assert w >= 2;
      assert n / 10 < Pow10(w - 1);
      DigitsFit(n / 10, w - 1);
    }
  }

  /** Left-pads a digit string with zeros to width `w` (what `%.10f` does with
      the fractional part). */
  function PadLeft(s: string, w: nat): (r: string)
    requires AllDigits(s) && |s| <= w
    ensures |r| == w && AllDigits(r) && Value(r) == Value(s)
  {
    ValueConcat(Zeros(w - |s|), s);
    ValueZeros(w - |s|);
    Zeros(w - |s|) + s
  }

  /** A currency literal `<whole>[.<frac>]` as captured by `\$([0-9]+(?:\.[0-9]+)?)`;
      an empty `frac` means the literal has no point. */
  datatype Amount = Amount(whole: string, frac: string)

  predicate ValidAmount(a: Amount)
  {
    |a.whole| >= 1 && AllDigits(a.whole) && AllDigits(a.frac)
  }

  /** The literal exactly as it was written. */
  function AmountText(a: Amount): string
  {
    if a.frac == "" then a.whole else a.whole + "." + a.frac
  }

  /** The amount is `Mantissa(a) / 10^|a.frac|`. */
  function Mantissa(a: Amount): nat
    requires ValidAmount(a)
  {
    AllDigitsConcat(a.whole, a.frac);
    Value(a.whole + a.frac)
  }

  /** The parts of a decimal text: the digits before the first point and those
      after it (empty when there is no point). */
  function IntegerPart(r: string): string
  {
    r[..IndexOf(r, '.')]
  }

  function FractionPart(r: string): string
  {
    var k := IndexOf(r, '.');
    if k < |r| then r[k + 1..] else ""
  }

  /** `r` is plain decimal notation, `i` or `i.f` with digits only, no exponent
      and no dangling point. */
  predicate IsDecimalText(r: string)
  {
    var i, f := IntegerPart(r), FractionPart(r);
    |i| >= 1 && AllDigits(i) && AllDigits(f)
    && r == (if f == "" then i else i + "." + f)
  }

  /** `r` is decimal text for the number `v / 10^e`. */
  predicate DenotesValue(r: string, v: nat, e: nat)
  {
    IsDecimalText(r)
    && (AllDigitsConcat(IntegerPart(r), FractionPart(r));
        Value(IntegerPart(r) + FractionPart(r)) * Pow10(e) == v * Pow10(|FractionPart(r)|))
  }

  /** The parts of `i.f` are `i` and `f` when `i` is digits. */
  lemma PartsOfDecimal(i: string, f: string)
    requires |i| >= 1 && AllDigits(i) && AllDigits(f)
    ensures var r := if f == "" then i else i + "." + f;
            IntegerPart(r) == i && FractionPart(r) == f && IsDecimalText(r)
  {
    var r := if f == "" then i else i + "." + f;
    if f == "" {
      assert IndexOf(r, '.') == |i|;
    } else {
      assert r[|i|] == '.';
      assert IndexOf(r, '.') == |i|;
      assert r[..|i|] == i;
      assert r[|i| + 1..] == f;
    }
  }

  /** The literal as written is decimal text for its own value. */
  lemma AmountTextDenotes(a: Amount)
    requires ValidAmount(a)
    ensures DenotesValue(AmountText(a), Mantissa(a), |a.frac|)
  {
    PartsOfDecimal(a.whole, a.frac);
  }

  /** Round `n / d` to the nearest integer, ties to even (the rounding `%.10f`
      applies past its last digit). */
  function RoundHalfEven(n: nat, d: nat): nat
    requires d >= 1
  {
    var q, r := n / d, n % d;
    if 2 * r > d || (2 * r == d && q % 2 == 1) then q + 1 else q
  }

  /** The rounded quotient is within half a unit of `n / d`, and an exact tie
      goes to the even neighbour. */
  lemma RoundHalfEvenNearest(n: nat, d: nat)
    requires d >= 1
    ensures var q := RoundHalfEven(n, d);
            2 * n <= 2 * (q * d) + d && 2 * (q * d) <= 2 * n + d
            && (2 * (n % d) == d ==> q % 2 == 0)
  {
    DivModParts(n, d);
    MulSucc(n / d, d);
  }

  lemma QuotientRemainder(m: nat, d: nat, q: nat, r: nat)
    requires d >= 1 && q == m / d && r == m % d
    ensures q * d + r == m
  {
  }

  lemma DivModParts(n: nat, d: nat)
    requires d >= 1
    ensures n == (n / d) * d + n % d && n % d < d
  {
  }

  lemma MulSucc(q: nat, d: nat)
    ensures (q + 1) * d == q * d + d
  {
  }

  /** `float(a) / 1_000_000` as a count of 10^-10 units: exact when the literal
      has at most four fractional digits, rounded half to even otherwise. */
  function TenBillionths(a: Amount): nat
    requires ValidAmount(a)
  {
    var f := |a.frac|;
    if f <= 4 then Mantissa(a) * Pow10(4 - f) else RoundHalfEven(Mantissa(a), Pow10(f - 4))
  }

  /** Python's `f"{m / 10**10:.10f}"`. */
  function FixedTen(m: nat): string
  {
    assert Pow10(10) == 10000000000;
    DigitsFit(m % 10000000000, 10);
    Digits(m / 10000000000) + "." + PadLeft(Digits(m % 10000000000), 10)
  }

  /** The per-unit price of a literal quoted per million units, rendered as the
      scraper does: ten decimals, then trailing zeros and a trailing point
      stripped. */
  function PerMillion(a: Amount): string
    requires ValidAmount(a)
  {
    TrimEnd(TrimEnd(FixedTen(TenBillionths(a)), '0'), '.')
  }

  /** `rstrip('0')` then `rstrip('.')` on `i.p` keeps `i` and the significant
      digits of `p`. */
  lemma TrimFixedParts(i: string, p: string)
    requires |i| >= 1 && AllDigits(i) && AllDigits(p)
    ensures var f := TrimEnd(p, '0');
            TrimEnd(TrimEnd(i + "." + p, '0'), '.') == (if f == "" then i else i + "." + f)
  {
    var f := TrimEnd(p, '0');
    var head := i + ".";
    TrimEndKeepsPrefix(head, p, '0');
    assert TrimEnd(i + "." + p, '0') == head + f;
    if f == "" {
      assert head + f == head;
      assert head[..|head| - 1] == i;
      assert TrimEnd(head, '.') == TrimEnd(i, '.');
      assert IsDigit(i[|i| - 1]);
    } else {
      assert f[|f| - 1] == p[|f| - 1];
      assert IsDigit(p[|f| - 1]);
      LastOfConcat(head, f);
    }
  }

  lemma LastOfConcat(x: string, y: string)
    requires |y| >= 1
    ensures (x + y)[|x + y| - 1] == y[|y| - 1]
  {
  }

  lemma {:induction false} TrimEndKeepsPrefix(x: string, y: string, c: char)
    requires |x| >= 1 && x[|x| - 1] != c
    ensures TrimEnd(x + y, c) == x + TrimEnd(y, c)
    decreases |y|
  {
    if |y| == 0 {
      assert x + y == x;
    } else if y[|y| - 1] == c {
      assert (x + y)[..|x + y| - 1] == x + y[..|y| - 1];
      TrimEndKeepsPrefix(x, y[..|y| - 1], c);
    } else {
      assert (x + y)[|x + y| - 1] == y[|y| - 1];
    }
  }

  /** Stripping trailing zeros from a digit string divides its value by the
      matching power of ten. */
  lemma TrimZerosValue(p: string)
    requires AllDigits(p)
    ensures AllDigits(TrimEnd(p, '0'))
    ensures Value(TrimEnd(p, '0')) * Pow10(|p| - |TrimEnd(p, '0')|) == Value(p)
  {
    var f := TrimEnd(p, '0');
    var z := |p| - |f|;
    assert p == f + Zeros(z);
    ValueConcat(f, Zeros(z));
    ValueZeros(z);
  }

  /** The rendering `%.10f`-then-strip of `m / 10^10` is decimal text for exactly
      that number, with at most ten fractional digits and no trailing zero. */
  lemma FixedTenTrimmed(m: nat)
    ensures var r := TrimEnd(TrimEnd(FixedTen(m), '0'), '.');
            DenotesValue(r, m, 10) && |FractionPart(r)| <= 10
            && (FractionPart(r) == "" || FractionPart(r)[|FractionPart(r)| - 1] != '0')
  {
    var big := 10000000000;
    assert Pow10(10) == big;
    var q, rem := m / big, m % big;
    DigitsFit(rem, 10);
    var i, p := Digits(q), PadLeft(Digits(rem), 10);
    assert FixedTen(m) == i + "." + p;
    QuotientRemainder(m, big, q, rem);
    TrimmedFixed(i, p, m);
  }

  /** `i.p` with trailing zeros and then a trailing point stripped denotes the
      number the digits `i p` spell, scaled back by `|p|` places. */
  lemma TrimmedFixed(i: string, p: string, m: nat)
    requires |i| >= 1 && AllDigits(i) && AllDigits(p)
    requires Value(i) * Pow10(|p|) + Value(p) == m
    ensures var r := TrimEnd(TrimEnd(i + "." + p, '0'), '.');
            DenotesValue(r, m, |p|) && |FractionPart(r)| <= |p|
            && (FractionPart(r) == "" || FractionPart(r)[|FractionPart(r)| - 1] != '0')
  {
    var f := TrimEnd(p, '0');
    TrimFixedParts(i, p);
    PartsOfDecimal(i, f);
    TrimmedDigitsScale(i, p, m);
  }

  /** Dropping the trailing zeros of the fraction `p` of `i.p` keeps the number
      the digits denote, scaled by the powers of ten that were dropped. */
  lemma TrimmedDigitsScale(i: string, p: string, m: nat)
    requires AllDigits(i) && AllDigits(p)
    requires Value(i) * Pow10(|p|) + Value(p) == m
    ensures var f := TrimEnd(p, '0');
            AllDigits(i + f) && Value(i + f) * Pow10(|p|) == m * Pow10(|f|)
  {
    var f := TrimEnd(p, '0');
    TrimZerosValue(p);
    ValueConcat(i, f);
    Pow10Split(|f|, |p|);
    ScaleArith(Value(i), Value(f), Value(p), Pow10(|f|), Pow10(|p| - |f|), Pow10(|p|), m);
  }

  /** The arithmetic behind FixedTenTrimmed: with `P = pf * pz`, `vp = vf * pz`
      and `m = vi * P + vp`, the trimmed digits `vi·vf` denote `m / P`. */
  lemma ScaleArith(vi: nat, vf: nat, vp: nat, pf: nat, pz: nat, big: nat, m: nat)
    requires big == pf * pz && vp == vf * pz && vi * big + vp == m
    ensures (vi * pf + vf) * big == m * pf
  {
    calc {
      (vi * pf + vf) * big;
      vi * pf * big + vf * big;
      { assert vf * big == vf * (pf * pz) == (vf * pz) * pf; }
      vi * pf * big + vp * pf;
      (vi * big + vp) * pf;
    }
  }

  /** The per-million rendering is exact for literals with at most four
      fractional digits: it is decimal text for the literal divided by 10^6,
      with no trailing zero after the point. */
  lemma PerMillionExact(a: Amount)
    requires ValidAmount(a) && |a.frac| <= 4
    ensures DenotesValue(PerMillion(a), Mantissa(a), |a.frac| + 6)
    ensures FractionPart(PerMillion(a)) == ""
            || FractionPart(PerMillion(a))[|FractionPart(PerMillion(a))| - 1] != '0'
  {
    var m := TenBillionths(a);
    var f := |a.frac|;
    FixedTenTrimmed(m);
    var r := PerMillion(a);
    assert r == TrimEnd(TrimEnd(FixedTen(m), '0'), '.');
    assert DenotesValue(r, m, (f + 6) + (4 - f));
    RescaleDenotes(r, m, Mantissa(a), f + 6, 4 - f);
  }

  /** `price` is the per-million rendering of `a`, and denotes exactly `a`
      divided by a million when `a` has at most four decimals. */
  predicate PricedPerMillion(price: string, a: Amount)
  {
    ValidAmount(a) && price == PerMillion(a)
    && (|a.frac| <= 4 ==> DenotesValue(price, Mantissa(a), |a.frac| + 6))
  }

  /** Every per-million rendering is priced that way. */
  lemma PerMillionPriced(a: Amount)
    requires ValidAmount(a)
    ensures PricedPerMillion(PerMillion(a), a)
  {
    if |a.frac| <= 4 {
      PerMillionExact(a);
    }
  }

  /** Text for `m / 10^(e+k)` where `m = mant · 10^k` is text for `mant / 10^e`. */
  lemma RescaleDenotes(r: string, m: nat, mant: nat, e: nat, k: nat)
    requires DenotesValue(r, m, e + k) && m == mant * Pow10(k)
    ensures DenotesValue(r, mant, e)
  {
    AllDigitsConcat(IntegerPart(r), FractionPart(r));
    var v := Value(IntegerPart(r) + FractionPart(r));
    var s := Pow10(|FractionPart(r)|);
    Pow10Add(e, k);
    CancelArith(v, mant, s, Pow10(e), Pow10(k), Pow10(e + k), m);
  }

  /** `v · 10^(e+k) = m · s` with `m = mant · 10^k` gives `v · 10^e = mant · s`. */
  lemma CancelArith(v: nat, mant: nat, s: nat, a6: nat, b4: nat, big: nat, m: nat)
    requires big == a6 * b4 && b4 >= 1 && m == mant * b4 && v * big == m * s
    ensures v * a6 == mant * s
  {
    assert (v * a6) * b4 == (mant * s) * b4;
    if v * a6 < mant * s {
      MulStrict(v * a6, mant * s, b4);
    } else if v * a6 > mant * s {
      MulStrict(mant * s, v * a6, b4);
    }
  }

  lemma MulStrict(x: nat, y: nat, k: nat)
    requires x < y && k >= 1
    ensures x * k < y * k
  {
  }

  /** Every per-million rendering is plain decimal text (no exponent), whatever
      the number of fractional digits. */
  lemma PerMillionIsDecimal(a: Amount)
    requires ValidAmount(a)
    ensures IsDecimalText(PerMillion(a))
  {
    FixedTenTrimmed(TenBillionths(a));
  }

  /** Python's `f"{float(x)}"` for a literal `x`, in the range where `repr` of a
      float prints positional notation: leading zeros of the whole part and
      trailing zeros of the fraction dropped, at least one digit on each side. */
  function FloatText(a: Amount): string
    requires ValidAmount(a)
  {
    FloatWhole(a.whole) + "." + FloatFraction(a.frac)
  }

  /** The whole part of a float rendering: no leading zeros, at least one digit. */
  function FloatWhole(w: string): (r: string)
    requires AllDigits(w)
    ensures |r| >= 1 && AllDigits(r) && Value(r) == Value(w)
    ensures |r| == 1 || r[0] != '0'
  {
    var i := TrimStart(w, '0');
    TrimZerosStartValue(w);
    ValueOfZero();
    if i == "" then "0" else i
  }

  /** The fraction of a float rendering: no trailing zeros, at least one digit. */
  function FloatFraction(x: string): (r: string)
    requires AllDigits(x)
    ensures |r| >= 1 && AllDigits(r)
    ensures r == "0" || r[|r| - 1] != '0'
  {
    var f := TrimEnd(x, '0');
    if f == "" then "0" else f
  }

  lemma TrimZerosStartValue(s: string)
    requires AllDigits(s)
    ensures AllDigits(TrimStart(s, '0')) && Value(TrimStart(s, '0')) == Value(s)
  {
    ZerosPrefixValue(s, TrimStart(s, '0'));
  }

  /** Leading zeros add nothing to the value. */
  lemma ZerosPrefixValue(s: string, t: string)
    requires AllDigits(s) && |t| <= |s| && t == s[|s| - |t|..]
    requires forall k :: 0 <= k < |s| - |t| ==> s[k] == '0'
    ensures AllDigits(t) && Value(t) == Value(s)
  {
    var n := |s| - |t|;
    assert forall k :: 0 <= k < |t| ==> t[k] == s[n + k];
    ZerosThen(s, n);
    ZerosValue(n, t);
  }

  /** Zeros in front of digits leave their value unchanged. */
  lemma ZerosValue(n: nat, t: string)
    requires AllDigits(t)
    ensures AllDigits(Zeros(n) + t) && Value(Zeros(n) + t) == Value(t)
  {
    ValueZeros(n);
    ValueConcat(Zeros(n), t);
  }

  /** Text that is zeros up to its suffix `t` is a run of zeros then `t`. */
  lemma ZerosThen(s: string, n: nat)
    requires n <= |s| && forall k :: 0 <= k < n ==> s[k] == '0'
    ensures s == Zeros(n) + s[n..]
  {
    var z, t := Zeros(n), s[n..];
    forall k | 0 <= k < |s| ensures s[k] == (z + t)[k] {
      if k < n {
        assert z[k] == '0';
      } else {
        assert t[k - n] == s[k];
      }
    }
  }

  /** The float rendering is decimal text for the literal's own value, always with
      a point, and with no trailing zero beyond the one digit the point needs. */
  lemma FloatTextDenotes(a: Amount)
    requires ValidAmount(a)
    ensures DenotesValue(FloatText(a), Mantissa(a), |a.frac|)
    ensures FractionPart(FloatText(a)) == FloatFraction(a.frac)
  {
    var i, f := FloatWhole(a.whole), FloatFraction(a.frac);
    FloatFractionScale(i, a.whole, a.frac);
    DenotesFromParts(i, f, Mantissa(a), |a.frac|);
  }

  /** `i.f` denotes `v / 10^e` when the digits `i f` scaled back by `|f|` places
      are `v / 10^e`. */
  lemma DenotesFromParts(i: string, f: string, v: nat, e: nat)
    requires |i| >= 1 && AllDigits(i) && |f| >= 1 && AllDigits(f) && AllDigits(i + f)
    requires Value(i + f) * Pow10(e) == v * Pow10(|f|)
    ensures DenotesValue(i + "." + f, v, e) && FractionPart(i + "." + f) == f
  {
    PartsOfDecimal(i, f);
  }

  /** The float fraction of `x` after a whole part worth `w` keeps the value of
      `w.x`. */
  lemma FloatFractionScale(i: string, w: string, x: string)
    requires AllDigits(i) && AllDigits(w) && AllDigits(x) && Value(i) == Value(w)
    ensures AllDigits(i + FloatFraction(x)) && AllDigits(w + x)
    ensures Value(i + FloatFraction(x)) * Pow10(|x|) == Value(w + x) * Pow10(|FloatFraction(x)|)
  {
    if TrimEnd(x, '0') == "" {
      FloatScaleZero(i, w, x);
    } else {
      FloatScaleSignificant(i, w, x);
    }
  }

  lemma ValueOfZero()
    ensures Value("0") == 0
  {
    assert Value("0") == 10 * Value("") + 0;
  }

  /** With no significant fractional digit, `i.0` has the value of `w.x`. */
  lemma FloatScaleZero(i: string, w: string, x: string)
    requires AllDigits(i) && AllDigits(w) && AllDigits(x) && Value(i) == Value(w)
    requires TrimEnd(x, '0') == ""
    ensures AllDigits(i + "0") && AllDigits(w + x)
    ensures Value(i + "0") * Pow10(|x|) == Value(w + x) * Pow10(1)
  {
    ValueConcat(w, x);
    var m := Value(w + x);
    TrimmedDigitsScale(i, x, m);
    var f := TrimEnd(x, '0');
    assert i + f == i;
    var vi, px := Value(i), Pow10(|x|);
    assert Value(i + f) == vi;
    assert Pow10(|f|) == 1;
    assert vi * px == m * 1;
    ValueOfZero();
    ValueConcat(i, "0");
    assert Value(i + "0") == vi * 10 + 0;
    SwapArith(vi, 10, px);
  }

  /** Dropping the trailing zeros of the fraction keeps the value of `w.x`. */
  lemma FloatScaleSignificant(i: string, w: string, x: string)
    requires AllDigits(i) && AllDigits(w) && AllDigits(x) && Value(i) == Value(w)
    ensures var f := TrimEnd(x, '0');
            AllDigits(i + f) && AllDigits(w + x)
            && Value(i + f) * Pow10(|x|) == Value(w + x) * Pow10(|f|)
  {
    ValueConcat(w, x);
    TrimmedDigitsScale(i, x, Value(w + x));
  }

  lemma SwapArith(w: nat, p: nat, q: nat)
    ensures (w * p + 0) * q == (w * q + 0) * p
  {
  }
}
