/** The display formatter of a field: what `Intl.NumberFormat('en-US',
    { minimumFractionDigits, maximumFractionDigits })` produces for a number,
    written out as exact decimal arithmetic. This is a model of the foreign
    formatter for the fixed locale en-US, not the formatter itself: the value
    is rounded to `maxFrac` fraction digits (half-way cases up), trailing
    fraction zeros are dropped down to `minFrac` digits, and the integer digits
    are grouped by threes with `,`. */
module Formatter {
  import opened Wrappers
  import opened Strings
  import opened Numbers
  import opened Normalizer
  import opened NumericParser

  // ---------------------------------------------------------------------
  // Digit grouping

  /** The digits `s` with a `,` before every group of three counted from the right. */
  function Group(s: string): (r: string)
    requires AllDigits(s)
    ensures forall i :: 0 <= i < |r| ==> IsDigit(r[i]) || r[i] == ','
    ensures s != [] ==> r != [] && r[0] == s[0] && r[|r| - 1] == s[|s| - 1]
  {
    if |s| <= 3 then s
    else
      var r := Group(s[..|s| - 3]) + "," + s[|s| - 3..];
      assert forall i :: 0 <= i < |r| ==> IsDigit(r[i]) || r[i] == ',' by {
        var g := Group(s[..|s| - 3]);
        forall i | 0 <= i < |r| ensures IsDigit(r[i]) || r[i] == ',' {
          if i < |g| { assert r[i] == g[i]; }
          else if i > |g| { assert r[i] == s[|s| - 3..][i - |g| - 1]; }
        }
      }
      r
  }

  /** A `,` stands exactly where a multiple of four characters remain up to the
      end, so every group after the first has three digits and the first has
      one to three. */
  lemma {:induction false} GroupShape(s: string)
    requires AllDigits(s)
    ensures forall i :: 0 <= i < |Group(s)| ==> (Group(s)[i] == ',' <==> (|Group(s)| - i) % 4 == 0)
  {
    if |s| > 3 {
      var pre, last := s[..|s| - 3], s[|s| - 3..];
      GroupShape(pre);
      assert Group(s) == Group(pre) + [','] + last;
      GroupShapeStep(Group(pre), last);
    }
  }

  lemma GroupShapeStep(g: string, last: string)
    requires AllDigits(last) && |last| == 3
    requires forall j :: 0 <= j < |g| ==> (g[j] == ',' <==> (|g| - j) % 4 == 0)
    ensures var r := g + [','] + last;
      forall i :: 0 <= i < |r| ==> (r[i] == ',' <==> (|r| - i) % 4 == 0)
  {
    var r := g + [','] + last;
    forall i | 0 <= i < |r| ensures r[i] == ',' <==> (|r| - i) % 4 == 0 {
      if i < |g| {
        assert r[i] == g[i];
        assert (|r| - i) % 4 == (|g| - i) % 4;
      } else if i > |g| {
        assert r[i] == last[i - |g| - 1];
      }
    }
  }

  /** Deleting the `,` of grouped digits gives the digits back. */
  lemma {:induction false} UngroupGroup(s: string)
    requires AllDigits(s)
    ensures RemoveChar(Group(s), ',') == s
  {
    if |s| <= 3 {
      RemoveCharAbsent(s, ',');
    } else {
      var pre, last := s[..|s| - 3], s[|s| - 3..];
      var g := Group(pre);
      assert Group(s) == g + [','] + last;
      UngroupGroup(pre);
      assert AllDigits(last);
      RemoveCharAround(g, last, ',');
      assert s == pre + last;
    }
  }

  // ---------------------------------------------------------------------
  // Trailing fraction zeros

  /** `s` without its trailing zeros, but never shorter than `keep` digits. */
  function TrimZeros(s: string, keep: nat): (r: string)
    requires AllDigits(s)
    ensures r <= s && AllDigits(r)
    ensures |r| >= keep || r == s
    ensures |r| > keep ==> r[|r| - 1] != '0'
    ensures FractionValue(r) == FractionValue(s)
  {
    if |s| > keep && s[|s| - 1] == '0' then
      var t := s[..|s| - 1];
      assert s == t + "0";
      FractionTrailingZero(t);
      TrimZeros(t, keep)
    else s
  }

  // ---------------------------------------------------------------------
  // Rounding to the fraction digits

  /** `x` rounded to `d` fraction digits, as the whole number of units of
      `10^-d` it is printed with. */
  function Rounded(x: real, d: nat): nat
    requires x >= 0.0
  {
    ScaleMonotone(0.0, x, d);
    Round(Scale(x, d))
  }

  /** The integer and fraction digits a formatted number is printed with. */
  datatype Parts = Parts(intDigits: string, fracDigits: string)

  predicate WellFormed(p: Parts) {
    AllDigits(p.intDigits) && AllDigits(p.fracDigits) && p.intDigits != []
  }

  /** The digits of `x` with between `minFrac` and `maxFrac` fraction digits.
      `Intl.NumberFormat` refuses `minFrac > maxFrac`. */
  function PartsOf(x: real, minFrac: nat, maxFrac: nat): (p: Parts)
    requires x >= 0.0 && minFrac <= maxFrac
    ensures WellFormed(p)
    ensures p.intDigits[0] == '0' ==> |p.intDigits| == 1
    ensures minFrac <= |p.fracDigits| <= maxFrac
    ensures |p.fracDigits| > minFrac ==> p.fracDigits[|p.fracDigits| - 1] != '0'
  {
    var n, unit := Rounded(x, maxFrac), Pow10(maxFrac);
    DivModBounds(n, unit);
    Parts(NatToDigits(n / unit), TrimZeros(PadDigits(n % unit, maxFrac), minFrac))
  }

  /** The parts print exactly `x` rounded to `maxFrac` fraction digits. */
  lemma PartsValue(x: real, minFrac: nat, maxFrac: nat)
    requires x >= 0.0 && minFrac <= maxFrac
    ensures var p := PartsOf(x, minFrac, maxFrac);
      LiteralValue(p.intDigits, p.fracDigits) == RoundTo(x, maxFrac)
  {
    var n, unit := Rounded(x, maxFrac), Pow10(maxFrac);
    var p := PartsOf(x, minFrac, maxFrac);
    FractionOfPadded(n % unit, maxFrac, minFrac, p.fracDigits);
    DivModRatio(n, unit);
    RoundToRatio(x, maxFrac);
  }

  lemma FractionOfPadded(m: nat, d: nat, keep: nat, f: string)
    requires m < Pow10(d) && f == TrimZeros(PadDigits(m, d), keep)
    ensures AllDigits(f) && FractionValue(f) == Ratio(m, Pow10(d))
  {
  }

  lemma DivModRatio(n: nat, p: nat)
    requires p > 0
    ensures (n / p) as real + Ratio(n % p, p) == Ratio(n, p)
  {
    var q, m := n / p, n % p;
    assert n == q * p + m;
    CastMul(q, p);
    DivAdd(q as real, m as real, p as real);
  }

  lemma RoundToRatio(x: real, d: nat)
    requires x >= 0.0
    ensures RoundTo(x, d) == Ratio(Rounded(x, d), Pow10(d))
  {
  }

  // ---------------------------------------------------------------------
  // Formatted text

  /** `.f`, or nothing when there are no fraction digits. */
  function FractionText(f: string): string {
    if f == [] then "" else "." + f
  }

  /** The number as digits and `.` only, which is what the field shows once
      the grouping separators are taken out. */
  function PlainText(p: Parts): string {
    p.intDigits + FractionText(p.fracDigits)
  }

  function GroupedText(p: Parts): string
    requires AllDigits(p.intDigits)
  {
    Group(p.intDigits) + FractionText(p.fracDigits)
  }

  /** `numberFormat.format(num)` for the locale en-US with the given fraction
      digit limits; a negative number is its magnitude after a `-`. */
  function Format(x: real, minFrac: nat, maxFrac: nat): (s: string)
    requires minFrac <= maxFrac
    ensures s != []
    ensures x >= 0.0 ==> forall i :: 0 <= i < |s| ==> IsNumberChar(s[i])
  {
    if x < 0.0 then "-" + GroupedText(PartsOf(-x, minFrac, maxFrac))
    else
      var p := PartsOf(x, minFrac, maxFrac);
      var s := GroupedText(p);
      assert forall i :: 0 <= i < |s| ==> IsNumberChar(s[i]) by {
        var g := Group(p.intDigits);
        forall i | 0 <= i < |s| ensures IsNumberChar(s[i]) {
          if i < |g| { assert s[i] == g[i]; }
          else if i > |g| { assert s[i] == p.fracDigits[i - |g| - 1]; }
        }
      }
      s
  }

  /** Deleting the `,` of the formatted text leaves its plain text. */
  lemma UngroupText(p: Parts)
    requires WellFormed(p)
    ensures RemoveChar(GroupedText(p), ',') == PlainText(p)
  {
    UngroupGroup(p.intDigits);
    var f := FractionText(p.fracDigits);
    RemoveCharAbsent(f, ',');
    RemoveCharAppend(Group(p.intDigits), f, ',');
  }

  /** `parseFloat` reads the plain text back as the value of its digits. */
  lemma ParsePlainText(p: Parts)
    requires WellFormed(p)
    ensures ParseFloat(PlainText(p)) == Some(LiteralValue(p.intDigits, p.fracDigits))
  {
    if p.fracDigits == [] {
      assert PlainText(p) == p.intDigits;
      ParseFloatInteger(p.intDigits);
    } else {
      ParseFloatPointOf(PlainText(p), p.intDigits, p.fracDigits);
    }
  }

  /** What `format()` writes, `getNumericValue` reads back as the value
      rounded to `maxFrac` fraction digits, whatever the suffix. */
  lemma FormatRoundTrip(x: real, minFrac: nat, maxFrac: nat, suffix: string)
    requires x >= 0.0 && minFrac <= maxFrac && InertSuffix(suffix)
    ensures GetNumericValue(Format(x, minFrac, maxFrac) + suffix, suffix, EnUs) == Some(RoundTo(x, maxFrac))
  {
    var p := PartsOf(x, minFrac, maxFrac);
    var t := Format(x, minFrac, maxFrac);
    assert t == GroupedText(p);
    CanonicalGrouped(t, suffix);
    UngroupText(p);
    ParsePlainText(p);
    PartsValue(x, minFrac, maxFrac);
  }

  /** A value with at most `maxFrac` fraction digits survives formatting and
      parsing exactly. */
  lemma FormatRoundTripExact(x: real, minFrac: nat, maxFrac: nat, suffix: string)
    requires x >= 0.0 && minFrac <= maxFrac && InertSuffix(suffix)
    requires Representable(x, maxFrac)
    ensures GetNumericValue(Format(x, minFrac, maxFrac) + suffix, suffix, EnUs) == Some(x)
  {
    FormatRoundTrip(x, minFrac, maxFrac, suffix);
    RoundToRepresentable(x, maxFrac);
  }

  /** Formatting looks only at the value rounded to `maxFrac` digits. */
  lemma FormatRounded(x: real, minFrac: nat, maxFrac: nat)
    requires x >= 0.0 && minFrac <= maxFrac
    ensures RoundTo(x, maxFrac) >= 0.0
    ensures Format(RoundTo(x, maxFrac), minFrac, maxFrac) == Format(x, minFrac, maxFrac)
  {
    var n := Rounded(x, maxFrac);
    RoundedScale(x, maxFrac);
    RoundInteger(n);
    assert Rounded(RoundTo(x, maxFrac), maxFrac) == n;
  }

  /** Scaling the rounded value back gives the whole number of units it was
      rounded to, so it has at most `d` fraction digits. */
  lemma RoundedScale(x: real, d: nat)
    requires x >= 0.0
    ensures Scale(RoundTo(x, d), d) == Rounded(x, d) as real
    ensures Representable(RoundTo(x, d), d)
  {
    var n, unit := Rounded(x, d), Pow10(d);
    RoundToRatio(x, d);
    RatioScaled(n, unit, 1, unit);
    RepresentableOf(RoundTo(x, d), d, n);
  }

  /** The plain text holds digits and at most one `.`. */
  lemma PlainTextChars(p: Parts)
    requires WellFormed(p)
    ensures PlainText(p) != []
    ensures forall i :: 0 <= i < |PlainText(p)| ==> IsDigitOrDot(PlainText(p)[i])
  {
    var t := PlainText(p);
    forall i | 0 <= i < |t| ensures IsDigitOrDot(t[i]) {
      if i < |p.intDigits| { assert t[i] == p.intDigits[i]; }
      else if i > |p.intDigits| { assert t[i] == p.fracDigits[i - |p.intDigits| - 1]; }
    }
  }

  /** Plain text within the digit limits is text the input handler accepts. */
  lemma PlainTextEditing(p: Parts, maxDigits: Bound<nat>, decimals: nat)
    requires WellFormed(p) && WithinCap(|p.intDigits|, maxDigits) && |p.fracDigits| <= decimals
    ensures IsEditingText(PlainText(p), '.', maxDigits, decimals)
  {
    if p.fracDigits == [] {
      assert PlainText(p) == p.intDigits;
      EditingTextOfDigits(p.intDigits, '.', maxDigits, decimals);
    } else {
      assert PlainText(p) == p.intDigits + ['.'] + p.fracDigits;
      EditingTextOf(p.intDigits, '.', p.fracDigits, maxDigits, decimals);
    }
  }

  /** A rounded value below `10^k` is printed with at most `k` integer digits. */
  lemma IntDigitsBound(x: real, minFrac: nat, maxFrac: nat, k: nat)
    requires x >= 0.0 && minFrac <= maxFrac && k >= 1
    requires RoundTo(x, maxFrac) < Pow10(k) as real
    ensures |PartsOf(x, minFrac, maxFrac).intDigits| <= k
  {
    var n, unit := Rounded(x, maxFrac), Pow10(maxFrac);
    DivModBounds(n, unit);
    var p := PartsOf(x, minFrac, maxFrac);
    PartsValue(x, minFrac, maxFrac);
    assert DigitsValue(p.intDigits) == n / unit;
    NatToDigitsLength(n / unit, k);
  }

  /** Zero fraction digits are all trimmed when none need be kept. */
  lemma {:induction false} ZerosTrimmed(d: nat)
    ensures TrimZeros(PadDigits(0, d), 0) == ""
  {
    if d > 0 {
      ZerosTrimmed(d - 1);
      assert PadDigits(0, d) == PadDigits(0, d - 1) + ['0'];
    }
  }

  /** With no minimum of fraction digits a whole number is printed without a
      fraction, its digits grouped. */
  lemma FormatWhole(k: nat, d: nat)
    ensures Format(k as real, 0, d) == Group(NatToDigits(k))
  {
    var p := Pow10(d);
    CastMul(k, p);
    assert Scale(k as real, d) == (k * p) as real;
    RoundInteger(k * p);
    assert Rounded(k as real, d) == k * p;
    MulDivExact(k, p);
    ZerosTrimmed(d);
  }
}
