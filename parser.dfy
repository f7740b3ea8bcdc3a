/** Reading numbers back out of field text: `getNumericValue`, the
    `parseFloat` and `Number` conversions it relies on, and `isInvalidNumber`. */
module NumericParser {
  import opened Wrappers
  import opened Strings
  import opened Numbers
  import opened Normalizer

  /** The longest run of digits at the start of `s`. */
  function LeadingDigits(s: string): (r: string)
    ensures r <= s && AllDigits(r)
    ensures |r| < |s| ==> !IsDigit(s[|r|])
    ensures r == [] <==> s == [] || !IsDigit(s[0])
  {
    if s != [] && IsDigit(s[0]) then [s[0]] + LeadingDigits(s[1..]) else []
  }

  /** `t` begins with a decimal literal: a digit, or `.` and a digit. */
  predicate StartsWithNumber(t: string) {
    (|t| > 0 && IsDigit(t[0])) || (|t| > 1 && t[0] == '.' && IsDigit(t[1]))
  }

  /** The longest prefix of a decimal literal `digits[.digits]`: its integer
      digits, its fraction digits and how many characters it spans. */
  datatype Scan = Scan(intDigits: string, fracDigits: string, length: nat)

  /** The value of the literal `intDigits.fracDigits`. */
  function LiteralValue(intDigits: string, fracDigits: string): (r: real)
    requires AllDigits(intDigits) && AllDigits(fracDigits)
    ensures DigitsValue(intDigits) as real <= r < DigitsValue(intDigits) as real + 1.0
  {
    DigitsValue(intDigits) as real + FractionValue(fracDigits)
  }

  function ScanDecimal(t: string): (r: Option<Scan>)
    ensures r.Some? <==> StartsWithNumber(t)
    ensures r.Some? ==> AllDigits(r.value.intDigits) && AllDigits(r.value.fracDigits)
    ensures r.Some? ==> 0 < r.value.length <= |t|
  {
    var ip := LeadingDigits(t);
    var rest := t[|ip|..];
    assert ip == [] ==> rest == t;
    ScanAfter(ip, rest)
  }

  /** The literal continues after the integer digits `ip` with `rest`. */
  function ScanAfter(ip: string, rest: string): (r: Option<Scan>)
    requires AllDigits(ip) && (rest == [] || !IsDigit(rest[0]))
    ensures r.Some? <==> ip != [] || (|rest| > 1 && rest[0] == '.' && IsDigit(rest[1]))
    ensures r.Some? ==> AllDigits(r.value.intDigits) && AllDigits(r.value.fracDigits)
    ensures r.Some? ==> 0 < r.value.length <= |ip| + |rest|
  {
    if rest != [] && rest[0] == '.' then
      var fp := LeadingDigits(rest[1..]);
      assert fp != [] <==> |rest| > 1 && IsDigit(rest[1]);
      FromParts(ip, fp, 1)
    else FromParts(ip, "", 0)
  }

  /** The literal with integer digits `ip`, fraction digits `fp` and a
      decimal point of `dotLength` characters; none without any digit. */
  function FromParts(ip: string, fp: string, dotLength: nat): (r: Option<Scan>)
    ensures r.Some? <==> ip != [] || fp != []
    ensures r.Some? ==> r.value == Scan(ip, fp, |ip| + dotLength + |fp|)
  {
    if ip == [] && fp == [] then None
    else Some(Scan(ip, fp, |ip| + dotLength + |fp|))
  }

  /** `parseFloat(s)` for inputs whose number is written `digits[.digits]`:
      leading whitespace is skipped and the longest literal prefix is read. */
  function ParseFloat(s: string): (r: Option<real>)
    ensures r.Some? <==> StartsWithNumber(TrimStart(s))
    ensures r.Some? ==> 0.0 <= r.value
  {
    match ScanDecimal(TrimStart(s))
    case None => None
    case Some(sc) => Some(LiteralValue(sc.intDigits, sc.fracDigits))
  }

  /** `Number(s)` for inputs whose number is written `digits[.digits]`: blank
      text is 0 and anything but one whole literal is `NaN`. */
  function NumberValue(s: string): (r: Option<real>)
    ensures Trim(s) == [] ==> r == Some(0.0)
    ensures r.Some? && Trim(s) != [] ==> StartsWithNumber(Trim(s))
  {
    var t := Trim(s);
    if t == [] then Some(0.0)
    else
      match ScanDecimal(t)
      case Some(sc) => if sc.length == |t| then Some(LiteralValue(sc.intDigits, sc.fracDigits)) else None
      case None => None
  }

  /** `getNumericValue(value, suffix)`: `null` for empty text; otherwise the
      first occurrence of the suffix removed, the text trimmed, every group
      separator deleted, every decimal separator turned into `.`, and the
      result read with `parseFloat` (`NaN` becoming `null`). */
  function GetNumericValue(value: string, suffix: string, seps: Separators): (r: Option<real>)
    ensures value == [] ==> r.None?
    ensures r.Some? ==> 0.0 <= r.value
  {
    if value == [] then None else ParseFloat(Canonical(value, suffix, seps))
  }

  /** The text `getNumericValue` hands to `parseFloat`. */
  function Canonical(value: string, suffix: string, seps: Separators): (t: string)
    ensures seps.group != '.' ==> forall i :: 0 <= i < |t| ==> t[i] != seps.group
  {
    var stripped := Trim(ReplaceFirst(value, suffix, ""));
    ReplaceChar(RemoveChar(stripped, seps.group), seps.decimal, '.')
  }

  /** `isInvalidNumber(v)`: `null`, `undefined` or `NaN`. */
  predicate IsInvalidNumber(v: Option<real>) {
    v.None?
  }

  // ---------------------------------------------------------------------
  // Reading decimal literals

  /** Digits followed by text that cannot continue a literal read as the digits. */
  lemma {:induction false} LeadingDigitsOf(a: string, rest: string)
    requires AllDigits(a) && (rest == [] || !IsDigit(rest[0]))
    ensures LeadingDigits(a + rest) == a
  {
    if a != [] {
      assert (a + rest)[1..] == a[1..] + rest;
      LeadingDigitsOf(a[1..], rest);
    } else {
      assert a + rest == rest;
    }
  }

  /** A literal `a.b` (either part may be empty, not both) spans all of it. */
  lemma ScanDecimalPoint(a: string, b: string)
    requires AllDigits(a) && AllDigits(b) && (a != [] || b != [])
    ensures ScanDecimal(a + "." + b) == Some(Scan(a, b, |a| + 1 + |b|))
  {
    assert a + "." + b == a + ("." + b);
    LeadingDigitsOf(a, "." + b);
    assert (a + ("." + b))[|a|..] == "." + b;
    assert ("." + b)[1..] == b;
    LeadingDigitsOf(b, "");
    assert b + "" == b;
  }

  /** A run of digits spans all of it. */
  lemma ScanDigits(a: string)
    requires AllDigits(a) && a != []
    ensures ScanDecimal(a) == Some(Scan(a, "", |a|))
  {
    LeadingDigitsOf(a, "");
    assert a + "" == a;
    assert a[|a|..] == "";
  }

  lemma FractionEmpty()
    ensures FractionValue("") == 0.0
  {
  }

  /** Text without leading whitespace and with a non-digit first character
      other than `,` is not trimmed by `trimStart`. */
  lemma TrimStartNumber(t: string)
    requires t != [] && (IsDigit(t[0]) || t[0] == '.')
    ensures TrimStart(t) == t
  {
    assert !IsJsWhitespace(t[0]);
  }

  lemma ParseFloatPoint(a: string, b: string)
    requires AllDigits(a) && AllDigits(b) && (a != [] || b != [])
    ensures ParseFloat(a + "." + b) == Some(LiteralValue(a, b))
  {
    var t := a + "." + b;
    assert t[0] == if a != [] then a[0] else '.';
    TrimStartNumber(t);
    ScanDecimalPoint(a, b);
  }

  /** `parseFloat` reads the longest literal prefix: `a.b` followed by text
      that does not start with a digit reads as `a.b`, so `1.2.3` is 1.2. */
  lemma ParseFloatPointPrefix(a: string, b: string, rest: string)
    requires AllDigits(a) && AllDigits(b) && (a != [] || b != [])
    requires rest == [] || !IsDigit(rest[0])
    ensures ParseFloat(a + "." + b + rest) == Some(LiteralValue(a, b))
  {
    var t := a + "." + b + rest;
    assert t[0] == if a != [] then a[0] else '.';
    TrimStartNumber(t);
    ScanPointPrefix(a, b, rest);
  }

  lemma ScanPointPrefix(a: string, b: string, rest: string)
    requires AllDigits(a) && AllDigits(b) && (a != [] || b != [])
    requires rest == [] || !IsDigit(rest[0])
    ensures ScanDecimal(a + "." + b + rest) == Some(Scan(a, b, |a| + 1 + |b|))
  {
    var u := ['.'] + (b + rest);
    assert a + "." + b + rest == a + u;
    ScanDecimalOf(a, u);
    ScanAfterPoint(a, b, rest);
  }

  /** The scan of digits `a` followed by text that cannot continue them
      continues after `a`. */
  lemma ScanDecimalOf(a: string, u: string)
    requires AllDigits(a) && (u == [] || !IsDigit(u[0]))
    ensures ScanDecimal(a + u) == ScanAfter(a, u)
  {
    LeadingDigitsOf(a, u);
    assert (a + u)[|a|..] == u;
  }

  lemma ScanAfterPoint(a: string, b: string, rest: string)
    requires AllDigits(a) && AllDigits(b) && (a != [] || b != [])
    requires rest == [] || !IsDigit(rest[0])
    ensures ScanAfter(a, ['.'] + (b + rest)) == Some(Scan(a, b, |a| + 1 + |b|))
  {
    var u := ['.'] + (b + rest);
    assert u[1..] == b + rest;
    LeadingDigitsOf(b, rest);
  }

  /** Digits followed by text that starts with neither a digit nor `.` read as
      the digits, so `12abc` is 12. */
  lemma ParseFloatDigitsPrefix(a: string, rest: string)
    requires AllDigits(a) && a != []
    requires rest == [] || (!IsDigit(rest[0]) && rest[0] != '.')
    ensures ParseFloat(a + rest) == Some(DigitsValue(a) as real)
  {
    TrimStartNumber(a + rest);
    ScanDecimalOf(a, rest);
    LiteralValueInteger(a);
  }

  lemma ParseFloatInteger(a: string)
    requires AllDigits(a) && a != []
    ensures ParseFloat(a) == Some(LiteralValue(a, ""))
  {
    TrimStartNumber(a);
    ScanDigits(a);
  }

  lemma ParseFloatDigits(a: string)
    requires AllDigits(a) && a != []
    ensures ParseFloat(a) == Some(DigitsValue(a) as real)
  {
    ParseFloatInteger(a);
    LiteralValueInteger(a);
  }

  /** `Number` reads a digit string as its value. */
  lemma NumberValueDigits(a: string)
    requires AllDigits(a) && a != []
    ensures NumberValue(a) == Some(DigitsValue(a) as real)
  {
    TrimDigitOrDot(a);
    ScanDigits(a);
    LiteralValueInteger(a);
  }

  lemma LiteralValueInteger(a: string)
    requires AllDigits(a)
    ensures LiteralValue(a, "") == DigitsValue(a) as real
  {
    FractionEmpty();
  }

  /** Nothing to read: empty or blank text, or a `.` with no digit after it. */
  lemma ParseFloatNothing(s: string)
    requires forall i :: 0 <= i < |s| ==> IsJsWhitespace(s[i])
    ensures ParseFloat(s) == None && ParseFloat(s + ".") == None
  {
    var t := TrimStart(s + ".");
    assert TrimStart(s) == [];
    assert t == (s + ".")[|s|..] by {
      TrimStartPast(s, ".");
    }
    assert t == ".";
  }

  /** `trimStart` skips a whitespace prefix and stops at a non-space. */
  lemma {:induction false} TrimStartPast(s: string, t: string)
    requires forall i :: 0 <= i < |s| ==> IsJsWhitespace(s[i])
    requires t == [] || !IsJsWhitespace(t[0])
    ensures TrimStart(s + t) == t
  {
    if s != [] {
      assert (s + t)[0] == s[0];
      assert (s + t)[1..] == s[1..] + t;
      TrimStartPast(s[1..], t);
    } else {
      assert s + t == t;
    }
  }

  // ---------------------------------------------------------------------
  // Reading what the field holds while it is edited

  /** Digits and `.` with nothing to strip or trim are read by `parseFloat` as they stand. */
  lemma GetNumericValuePlain(t: string, suffix: string)
    requires InertSuffix(suffix) && t != []
    requires forall i :: 0 <= i < |t| ==> IsDigitOrDot(t[i])
    ensures GetNumericValue(t, suffix, EnUs) == ParseFloat(t)
  {
    CanonicalPlain(t, suffix);
  }

  lemma CanonicalPlain(t: string, suffix: string)
    requires InertSuffix(suffix) && t != []
    requires forall i :: 0 <= i < |t| ==> IsDigitOrDot(t[i])
    ensures Canonical(t, suffix, EnUs) == t
  {
    assert forall i :: 0 <= i < |t| ==> IsNumberChar(t[i]) && t[i] != ',' by {
      forall i | 0 <= i < |t| ensures IsNumberChar(t[i]) && t[i] != ',' {
        assert IsDigitOrDot(t[i]);
      }
    }
    StripInertSuffix(t, suffix);
    TrimDigitOrDot(t);
    RemoveCharAbsent(t, ',');
    ReplaceCharSame(t, '.');
  }

  lemma TrimDigitOrDot(t: string)
    requires t != [] && IsDigitOrDot(t[0]) && IsDigitOrDot(t[|t| - 1])
    ensures Trim(t) == t
  {
    TrimUnchanged(t);
  }

  /** The number editing text denotes: its digits before the `.` and after it. */
  function EditingValue(r: string, maxDigits: Bound<nat>, decimals: nat): real
    requires IsEditingText(r, '.', maxDigits, decimals)
  {
    var k := FindChar(r, '.');
    LiteralValue(r[..k], if k < |r| then r[k + 1..] else "")
  }

  /** `getNumericValue` of editing text is `null` exactly for the empty text and
      a lone `.`; for anything else it is the number the digits spell, with the
      digits after the `.` as the fraction. */
  lemma GetNumericValueEditingText(r: string, suffix: string, maxDigits: Bound<nat>, decimals: nat)
    requires InertSuffix(suffix)
    requires IsEditingText(r, '.', maxDigits, decimals)
    ensures GetNumericValue(r, suffix, EnUs).None? <==> r == [] || r == "."
    ensures r != [] && r != "." ==> GetNumericValue(r, suffix, EnUs) == Some(EditingValue(r, maxDigits, decimals))
  {
    if r != [] {
      EditingTextDigitOrDot(r, maxDigits, decimals);
      GetNumericValuePlain(r, suffix);
      ParseFloatEditingText(r, maxDigits, decimals);
    }
  }

  lemma EditingTextDigitOrDot(r: string, maxDigits: Bound<nat>, decimals: nat)
    requires IsEditingText(r, '.', maxDigits, decimals)
    ensures forall i :: 0 <= i < |r| ==> IsDigitOrDot(r[i])
  {
    EditingTextChars(r, '.', maxDigits, decimals);
  }

  lemma ParseFloatEditingText(r: string, maxDigits: Bound<nat>, decimals: nat)
    requires IsEditingText(r, '.', maxDigits, decimals) && r != []
    ensures ParseFloat(r).None? <==> r == "."
    ensures r != "." ==> ParseFloat(r) == Some(EditingValue(r, maxDigits, decimals))
  {
    if FindChar(r, '.') == |r| {
      ParseFloatEditingInteger(r, maxDigits, decimals);
    } else {
      ParseFloatEditingPoint(r, maxDigits, decimals);
    }
  }

  lemma ParseFloatEditingInteger(r: string, maxDigits: Bound<nat>, decimals: nat)
    requires IsEditingText(r, '.', maxDigits, decimals) && r != [] && FindChar(r, '.') == |r|
    ensures r != "." && ParseFloat(r) == Some(EditingValue(r, maxDigits, decimals))
  {
    assert r[..|r|] == r;
    ParseFloatInteger(r);
  }

  lemma ParseFloatEditingPoint(r: string, maxDigits: Bound<nat>, decimals: nat)
    requires IsEditingText(r, '.', maxDigits, decimals) && FindChar(r, '.') < |r|
    ensures ParseFloat(r).None? <==> r == "."
    ensures r != "." ==> ParseFloat(r) == Some(EditingValue(r, maxDigits, decimals))
  {
    var k := FindChar(r, '.');
    var a, b := r[..k], r[k + 1..];
    SplitAtPoint(r, k);
    if a == [] && b == [] {
      assert r == "." by { assert |r| == 1; }
    } else {
      assert |r| > 1;
      ParseFloatPointOf(r, a, b);
    }
  }

  lemma SplitAtPoint(r: string, k: nat)
    requires k < |r| && r[k] == '.'
    ensures r == r[..k] + "." + r[k + 1..]
  {
  }

  lemma ParseFloatPointOf(r: string, a: string, b: string)
    requires AllDigits(a) && AllDigits(b) && (a != [] || b != [])
    requires r == a + "." + b
    ensures ParseFloat(r) == Some(LiteralValue(a, b))
  {
    ParseFloatPoint(a, b);
  }

  /** A suffix written after the number text is stripped before reading. */
  lemma GetNumericValueSuffixed(t: string, suffix: string)
    requires InertSuffix(suffix) && t != []
    requires forall i :: 0 <= i < |t| ==> IsDigitOrDot(t[i])
    ensures GetNumericValue(t + suffix, suffix, EnUs) == ParseFloat(t)
  {
    CanonicalSuffixed(t, suffix);
  }

  lemma CanonicalSuffixed(t: string, suffix: string)
    requires InertSuffix(suffix) && t != []
    requires forall i :: 0 <= i < |t| ==> IsDigitOrDot(t[i])
    ensures Canonical(t + suffix, suffix, EnUs) == t
  {
    assert forall i :: 0 <= i < |t| ==> IsNumberChar(t[i]) && t[i] != ',' by {
      forall i | 0 <= i < |t| ensures IsNumberChar(t[i]) && t[i] != ',' {
        assert IsDigitOrDot(t[i]);
      }
    }
    CanonicalGrouped(t, suffix);
    RemoveCharAbsent(t, ',');
  }

  /** Number text followed by the suffix reaches `parseFloat` with the suffix
      and every `,` removed. */
  lemma CanonicalGrouped(t: string, suffix: string)
    requires InertSuffix(suffix) && t != []
    requires forall i :: 0 <= i < |t| ==> IsNumberChar(t[i])
    ensures Canonical(t + suffix, suffix, EnUs) == RemoveChar(t, ',')
  {
    assert forall i :: 0 <= i < |t| ==> suffix == [] || t[i] != suffix[0];
    ReplaceFirstTrailing(t, suffix);
    TrimNumberText(t);
    ReplaceCharSame(RemoveChar(t, ','), '.');
  }

  lemma TrimNumberText(t: string)
    requires t != [] && IsNumberChar(t[0]) && IsNumberChar(t[|t| - 1])
    ensures Trim(t) == t
  {
    TrimUnchanged(t);
  }

  /** Digits followed by the suffix read as the number the digits spell. */
  lemma GetNumericValueDigits(d: string, suffix: string)
    requires InertSuffix(suffix) && AllDigits(d) && d != []
    ensures GetNumericValue(d + suffix, suffix, EnUs) == Some(DigitsValue(d) as real)
  {
    GetNumericValueSuffixed(d, suffix);
    ParseFloatDigits(d);
  }

  /** Blank text holds no number. */
  lemma GetNumericValueBlank(v: string, suffix: string)
    requires forall i :: 0 <= i < |v| ==> IsJsWhitespace(v[i])
    requires suffix == [] || !IsJsWhitespace(suffix[0])
    ensures GetNumericValue(v, suffix, EnUs) == None
  {
    if v != [] {
      CanonicalBlank(v, suffix);
    }
  }

  lemma CanonicalBlank(v: string, suffix: string)
    requires forall i :: 0 <= i < |v| ==> IsJsWhitespace(v[i])
    requires suffix == [] || !IsJsWhitespace(suffix[0])
    ensures Canonical(v, suffix, EnUs) == ""
  {
    if suffix == [] {
      assert v + suffix == v;
      ReplaceFirstTrailing(v, suffix);
    } else {
      ReplaceFirstAbsent(v, suffix, "");
    }
    TrimBlank(v);
  }

  lemma {:induction false} TrimBlank(s: string)
    requires forall i :: 0 <= i < |s| ==> IsJsWhitespace(s[i])
    ensures TrimStart(s) == [] && Trim(s) == []
  {
    if s != [] {
      TrimBlank(s[1..]);
    }
  }

  // ---------------------------------------------------------------------
  // Examples

  /** `getNumericValue("15%", "%")` is 15. */
  lemma PercentExample()
    ensures GetNumericValue("15%", "%", EnUs) == Some(15.0)
  {
    assert "15%" == "15" + "%";
    GetNumericValueDigits("15", "%");
    TwoDigits("15");
  }

  lemma TwoDigits(d: string)
    requires AllDigits(d) && |d| == 2
    ensures DigitsValue(d) == 10 * DigitValue(d[0]) + DigitValue(d[1])
  {
    assert d[..1][..0] == [];
  }

  /** `parseFloat("12abc")` is 12. */
  lemma TrailingTextExample()
    ensures ParseFloat("12abc") == Some(12.0)
  {
    assert "12abc" == "12" + "abc";
    ParseFloatDigitsPrefix("12", "abc");
    TwoDigits("12");
  }

  /** `parseFloat("1.2.3")` is 1.2. */
  lemma SecondPointExample()
    ensures ParseFloat("1.2.3") == Some(1.2)
  {
    assert "1.2.3" == "1" + "." + "2" + ".3";
    ParseFloatPointPrefix("1", "2", ".3");
    OnePointTwo();
  }

  lemma OnePointTwo()
    ensures LiteralValue("1", "2") == 1.2
  {
    OneDigit("1");
    OneDigit("2");
    assert Pow10(1) == 10;
  }

  lemma OneDigit(d: string)
    requires AllDigits(d) && |d| == 1
    ensures DigitsValue(d) == DigitValue(d[0])
  {
    assert d[..0] == [];
  }

  /** `getNumericValue(".")` is `null`. */
  lemma LonePointExample()
    ensures GetNumericValue(".", "", EnUs) == None
  {
    CanonicalPlain(".", "");
    TrimStartNumber(".");
  }

  /** `getNumericValue("   ")` is `null`. */
  lemma BlankExample()
    ensures GetNumericValue("   ", "", EnUs) == None
  {
    GetNumericValueBlank("   ", "");
  }
}
