/** Exact decimal arithmetic standing in for JavaScript numbers: digit strings
    and their values, powers of ten, and `Math.round`. */
module Numbers {
  import opened Strings

  function Pow10(n: nat): (r: nat)
    ensures r >= 1
  {
    if n == 0 then 1 else 10 * Pow10(n - 1)
  }

  lemma {:induction false} Pow10Add(a: nat, b: nat)
    ensures Pow10(a + b) == Pow10(a) * Pow10(b)
  {
    if b > 0 {
      Pow10Add(a, b - 1);
    }
  }

  function DigitValue(c: char): (d: nat)
    requires IsDigit(c)
    ensures d < 10
  {
    c as int - '0' as int
  }

  function Digit(d: nat): (c: char)
    requires d < 10
    ensures IsDigit(c) && DigitValue(c) == d
  {
    ('0' as int + d) as char
  }

  /** The value of a string of decimal digits, most significant digit first. */
  function DigitsValue(s: string): (n: nat)
    requires AllDigits(s)
    ensures n < Pow10(|s|)
  {
    if s == [] then 0
    else
      var m := DigitsValue(s[..|s| - 1]);
      assert m * 10 + 9 < Pow10(|s|) by {
        assert m + 1 <= Pow10(|s| - 1);
      }
      m * 10 + DigitValue(s[|s| - 1])
  }

  /** Digits written after a digit string shift its value left. */
  lemma {:induction false} DigitsValueAppend(a: string, b: string)
    requires AllDigits(a) && AllDigits(b)
    ensures AllDigits(a + b)
    ensures DigitsValue(a + b) == DigitsValue(a) * Pow10(|b|) + DigitsValue(b)
  {
    AllDigitsAppend(a, b);
    if b == [] {
      assert a + b == a;
    } else {
      var b' := b[..|b| - 1];
      DropLastAppend(a, b);
      DigitsValueAppend(a, b');
      var x, p, y, d := DigitsValue(a), Pow10(|b'|), DigitsValue(b'), DigitValue(b[|b| - 1]);
      DigitsValueLast(a + b, a + b', b[|b| - 1]);
      DigitsValueLast(b, b', b[|b| - 1]);
      Regroup(x, p, y, d);
    }
  }

  lemma AllDigitsAppend(a: string, b: string)
    requires AllDigits(a) && AllDigits(b)
    ensures AllDigits(a + b)
  {
    forall i | 0 <= i < |a + b| ensures IsDigit((a + b)[i]) {
      if i < |a| { assert (a + b)[i] == a[i]; } else { assert (a + b)[i] == b[i - |a|]; }
    }
  }

  lemma DropLastAppend(a: string, b: string)
    requires b != []
    ensures (a + b)[..|a + b| - 1] == a + b[..|b| - 1]
    ensures (a + b)[|a + b| - 1] == b[|b| - 1]
  {
  }

  /** The value of a digit string in terms of its last digit. */
  lemma DigitsValueLast(s: string, init: string, last: char)
    requires AllDigits(s) && s != [] && init == s[..|s| - 1] && last == s[|s| - 1]
    ensures AllDigits(init) && IsDigit(last)
    ensures DigitsValue(s) == DigitsValue(init) * 10 + DigitValue(last)
  {
  }

  lemma Regroup(x: int, p: int, y: int, d: int)
    ensures (x * p + y) * 10 + d == x * (10 * p) + (y * 10 + d)
  {
  }

  lemma MulDivCancel(x: real, p: real)
    requires p != 0.0
    ensures (x * p) / p == x
  {
  }

  lemma DivScale(a: real, b: real, c: real)
    requires b != 0.0 && c != 0.0
    ensures (c * a) / (c * b) == a / b
  {
  }

  lemma DivAdd(n: real, f: real, p: real)
    requires p != 0.0
    ensures n + f / p == (n * p + f) / p
  {
  }

  lemma DivBelowOne(n: real, p: real)
    requires 0.0 <= n < p
    ensures 0.0 <= n / p < 1.0
  {
  }

  lemma DivMonotone(a: real, b: real, p: real)
    requires p > 0.0 && a <= b
    ensures a / p <= b / p
  {
  }

  lemma MulMonotone(a: real, b: real, p: real)
    requires p > 0.0 && a <= b
    ensures a * p <= b * p
  {
  }

  lemma DivModBounds(n: nat, p: nat)
    requires p > 0
    ensures 0 <= n / p && 0 <= n % p < p
  {
  }

  /** A multiple of `p` divides by `p` exactly. */
  lemma MulDivExact(k: nat, p: nat)
    requires p > 0
    ensures (k * p) / p == k && (k * p) % p == 0
  {
    var q, r := (k * p) / p, (k * p) % p;
    DivModBounds(k * p, p);
    assert k * p == q * p + r;
    Distribute(k, q, p);
    if k > q {
      MulAtLeast(k - q, p);
    } else if k < q {
      MulAtLeast(q - k, p);
    }
  }

  lemma Distribute(k: int, q: int, p: int)
    ensures k * p - q * p == (k - q) * p
  {
  }

  lemma {:induction false} MulAtLeast(a: nat, p: nat)
    requires a >= 1
    ensures a * p >= p
  {
    if a > 1 {
      MulAtLeast(a - 1, p);
      assert a * p == (a - 1) * p + p;
    }
  }

  lemma CastMul(a: int, b: int)
    ensures (a * b) as real == a as real * b as real
  {
  }

  /** `n / p` as an exact quotient. */
  function Ratio(n: nat, p: nat): (r: real)
    requires p > 0
    ensures 0.0 <= r && (n < p ==> r < 1.0)
  {
    assert n < p ==> n as real / p as real < 1.0 by {
      if n < p { DivBelowOne(n as real, p as real); }
    }
    n as real / p as real
  }

  /** The value `0.f` of the fraction digits `f`. */
  function FractionValue(f: string): (r: real)
    requires AllDigits(f)
    ensures 0.0 <= r < 1.0
  {
    Ratio(DigitsValue(f), Pow10(|f|))
  }

  /** A trailing zero does not change the value of a fraction. */
  lemma FractionTrailingZero(f: string)
    requires AllDigits(f)
    ensures AllDigits(f + "0") && FractionValue(f + "0") == FractionValue(f)
  {
    DigitsValueAppend(f, "0");
    var n, q := DigitsValue(f), Pow10(|f|);
    var g := f + "0";
    assert DigitsValue(g) == 10 * n by { assert DigitsValue("0") == 0 && Pow10(1) == 10; }
    assert Pow10(|g|) == 10 * q;
    RatioScale(n, q);
  }

  lemma RatioScale(n: nat, q: nat)
    requires q > 0
    ensures Ratio(10 * n, 10 * q) == Ratio(n, q)
  {
    assert (10 * n) as real == 10.0 * n as real && (10 * q) as real == 10.0 * q as real;
    DivScale(n as real, q as real, 10.0);
  }

  /** The canonical decimal digits of `n`: no leading zero unless `n` is 0. */
  function NatToDigits(n: nat): (s: string)
    ensures AllDigits(s) && |s| >= 1
    ensures DigitsValue(s) == n
    ensures s[0] == '0' <==> n == 0
  {
    if n < 10 then [Digit(n)]
    else
      var s := NatToDigits(n / 10) + [Digit(n % 10)];
      assert s[..|s| - 1] == NatToDigits(n / 10);
      s
  }

  /** A number below `10^k` has at most `k` canonical digits. */
  lemma {:induction false} NatToDigitsLength(n: nat, k: nat)
    requires k >= 1 && n < Pow10(k)
    ensures |NatToDigits(n)| <= k
  {
    if n >= 10 {
      assert k >= 2;
      assert n / 10 < Pow10(k - 1);
      NatToDigitsLength(n / 10, k - 1);
    }
  }

  /** The `w` low-order digits of `n`, padded with leading zeros. */
  function PadDigits(n: nat, w: nat): (s: string)
    requires n < Pow10(w)
    ensures |s| == w && AllDigits(s)
    ensures DigitsValue(s) == n
  {
    if w == 0 then ""
    else
      var s := PadDigits(n / 10, w - 1) + [Digit(n % 10)];
      assert s[..|s| - 1] == PadDigits(n / 10, w - 1);
      s
  }

  /** `Math.round`: the nearest integer, ties toward positive infinity. */
  function Round(x: real): (r: int)
    ensures r as real - 0.5 <= x < r as real + 0.5
  {
    (x + 0.5).Floor
  }

  predicate IsInteger(x: real) { x.Floor as real == x }

  lemma RoundMonotone(x: real, y: real)
    requires x <= y
    ensures Round(x) <= Round(y)
  {
  }

  lemma RoundInteger(k: int)
    ensures Round(k as real) == k
  {
  }

  /** `x` times ten to the `d`. */
  function Scale(x: real, d: nat): real {
    x * Pow10(d) as real
  }

  lemma ScaleMonotone(x: real, y: real, d: nat)
    requires x <= y
    ensures Scale(x, d) <= Scale(y, d)
  {
    MulMonotone(x, y, Pow10(d) as real);
  }

  lemma ScaleInverse(x: real, d: nat)
    ensures Scale(x, d) / Pow10(d) as real == x
  {
    MulDivCancel(x, Pow10(d) as real);
  }

  /** `x` rounded to `d` fraction digits, half-way cases up. */
  function RoundTo(x: real, d: nat): real {
    Round(Scale(x, d)) as real / Pow10(d) as real
  }

  /** `x` has at most `d` fraction digits. */
  predicate Representable(x: real, d: nat) {
    IsInteger(Scale(x, d))
  }

  lemma RepresentableOf(x: real, d: nat, k: int)
    requires Scale(x, d) == k as real
    ensures Representable(x, d)
  {
  }

  /** Rounding a value that already has at most `d` fraction digits keeps it. */
  lemma RoundToRepresentable(x: real, d: nat)
    requires Representable(x, d)
    ensures RoundTo(x, d) == x
  {
    var k := Scale(x, d).Floor;
    RoundInteger(k);
    assert Round(Scale(x, d)) == k;
    ScaleInverse(x, d);
  }

  /** Rounding to `d` digits never crosses a value that has at most `d` fraction digits. */
  lemma RoundToBetween(x: real, lo: real, d: nat)
    requires Representable(lo, d)
    ensures lo <= x ==> lo <= RoundTo(x, d)
    ensures x <= lo ==> RoundTo(x, d) <= lo
  {
    var k := Scale(lo, d).Floor;
    RoundInteger(k);
    assert Round(Scale(lo, d)) == k;
    ScaleInverse(lo, d);
    assert k as real / Pow10(d) as real == lo;
    if lo <= x {
      ScaleMonotone(lo, x, d);
      RoundMonotone(Scale(lo, d), Scale(x, d));
      DivMonotone(k as real, Round(Scale(x, d)) as real, Pow10(d) as real);
    }
    if x <= lo {
      ScaleMonotone(x, lo, d);
      RoundMonotone(Scale(x, d), Scale(lo, d));
      DivMonotone(Round(Scale(x, d)) as real, k as real, Pow10(d) as real);
    }
  }

  lemma RatioScaled(n: nat, p: nat, q: nat, r: nat)
    requires p > 0 && r == p * q
    ensures Ratio(n, p) * r as real == (n * q) as real
  {
    CastMul(p, q);
    CastMul(n, q);
    ScaledFraction(n as real, p as real, q as real, r as real);
  }

  lemma ScaledFraction(n: real, p: real, q: real, r: real)
    requires p != 0.0 && r == p * q
    ensures (n / p) * r == n * q
  {
  }
}
