/** The keystroke normaliser of `setupDecimalInput` (`normalize`): after every
    input event it rewrites the field text to digits with at most one decimal
    separator, the integer part capped at `maxDigits` digits and the fraction
    at `decimals` digits. */
module Normalizer {
  import opened Wrappers
  import opened Strings

  /** `n` does not exceed a cap that may be `Infinity`. */
  predicate WithinCap(n: nat, cap: Bound<nat>) {
    cap.Bounded? ==> n <= cap.limit
  }

  /** `intPart.length > maxDigits ? intPart.slice(0, maxDigits) : intPart`:
      the leftmost digits survive. */
  function CapDigits(s: string, maxDigits: Bound<nat>): (r: string)
    ensures r <= s && WithinCap(|r|, maxDigits)
    ensures WithinCap(|s|, maxDigits) ==> r == s
    ensures !WithinCap(|s|, maxDigits) ==> |r| == maxDigits.limit
  {
    if maxDigits.Bounded? && |s| > maxDigits.limit then s[..maxDigits.limit] else s
  }

  /** `s.slice(0, n)`. */
  function Take(s: string, n: nat): (r: string)
    ensures r <= s && |r| <= n
    ensures |r| == if |s| <= n then |s| else n
  {
    if |s| <= n then s else s[..n]
  }

  /** The text `normalize` splits: the first suffix occurrence removed, trimmed,
      and everything but digits, `.` and `,` deleted. */
  function Sanitize(value: string, suffix: string): (v: string)
    ensures forall i :: 0 <= i < |v| ==> IsNumberChar(v[i])
  {
    Filter(Trim(ReplaceFirst(value, suffix, "")), IsNumberChar)
  }

  /** The separator `normalize` splits at: whichever of `.` and `,` occurs
      last, or none when neither occurs. */
  function DecimalChar(v: string): (r: Option<char>)
    ensures r.Some? ==> r.value == '.' || r.value == ','
    ensures r.None? <==> forall i :: 0 <= i < |v| ==> v[i] != '.' && v[i] != ','
  {
    var lastDot := LastIndexOf(v, '.');
    var lastComma := LastIndexOf(v, ',');
    if lastDot != -1 || lastComma != -1 then Some(if lastDot > lastComma then '.' else ',')
    else None
  }

  /** Text the field may hold while it is edited: digits, then optionally the
      separator `sep` followed by digits, with at most `maxDigits` digits
      before the separator and at most `decimals` after it. */
  predicate IsEditingText(r: string, sep: char, maxDigits: Bound<nat>, decimals: nat) {
    var k := FindChar(r, sep);
    AllDigits(r[..k]) && WithinCap(k, maxDigits) &&
    (k < |r| ==> AllDigits(r[k + 1..]) && |r| - (k + 1) <= decimals)
  }

  /** `normalize(value)` with the field's `suffix`, `maxDigits` and `decimals`
      and the locale's separators. */
  function Normalize(value: string, suffix: string, maxDigits: Bound<nat>, decimals: nat, seps: Separators): (r: string)
    ensures !IsDigit(seps.decimal) ==> IsEditingText(r, seps.decimal, maxDigits, decimals)
  {
    Reshape(Sanitize(value, suffix), maxDigits, decimals, seps.decimal)
  }

  /** The part of `normalize` after sanitising: choose the separator, split,
      cap both parts and join them with the locale's decimal separator. */
  function Reshape(v: string, maxDigits: Bound<nat>, decimals: nat, decimalSep: char): (r: string)
    ensures !IsDigit(decimalSep) ==> IsEditingText(r, decimalSep, maxDigits, decimals)
  {
    var decimalChar := DecimalChar(v);
    if v == "." || v == "," then
      OneSeparator(decimalSep, maxDigits, decimals)
    else if decimalChar.None? then
      IntegerOnly(KeepDigits(v), decimalSep, maxDigits, decimals)
    else
      var parts := Split(v, decimalChar.value);
      Joined(KeepDigits(parts[0]), decimalSep, KeepDigits(Concat(parts[1..])), maxDigits, decimals)
  }

  /** `return decimalSep` for a lone `.` or `,`. */
  function OneSeparator(decimalSep: char, maxDigits: Bound<nat>, decimals: nat): (r: string)
    ensures !IsDigit(decimalSep) ==> IsEditingText(r, decimalSep, maxDigits, decimals)
  {
    var r := [decimalSep];
    assert !IsDigit(decimalSep) ==> IsEditingText(r, decimalSep, maxDigits, decimals) by {
      if !IsDigit(decimalSep) { EditingTextOf("", decimalSep, "", maxDigits, decimals); }
    }
    r
  }

  /** The branch without a separator: the digits, capped. */
  function IntegerOnly(digits: string, decimalSep: char, maxDigits: Bound<nat>, decimals: nat): (r: string)
    requires AllDigits(digits)
    ensures !IsDigit(decimalSep) ==> IsEditingText(r, decimalSep, maxDigits, decimals)
  {
    var r := CapDigits(digits, maxDigits);
    assert !IsDigit(decimalSep) ==> IsEditingText(r, decimalSep, maxDigits, decimals) by {
      if !IsDigit(decimalSep) { EditingTextOfDigits(r, decimalSep, maxDigits, decimals); }
    }
    r
  }

  /** `intPart + decimalSep + decPart` after capping both parts. */
  function Joined(intDigits: string, decimalSep: char, fracDigits: string, maxDigits: Bound<nat>, decimals: nat): (r: string)
    requires AllDigits(intDigits) && AllDigits(fracDigits)
    ensures !IsDigit(decimalSep) ==> IsEditingText(r, decimalSep, maxDigits, decimals)
  {
    var intPart := CapDigits(intDigits, maxDigits);
    var decPart := Take(fracDigits, decimals);
    var r := intPart + [decimalSep] + decPart;
    assert !IsDigit(decimalSep) ==> IsEditingText(r, decimalSep, maxDigits, decimals) by {
      if !IsDigit(decimalSep) { EditingTextOf(intPart, decimalSep, decPart, maxDigits, decimals); }
    }
    r
  }

  // ---------------------------------------------------------------------
  // The shape of editing text

  lemma EditingTextOf(a: string, sep: char, b: string, maxDigits: Bound<nat>, decimals: nat)
    requires AllDigits(a) && AllDigits(b) && !IsDigit(sep)
    requires WithinCap(|a|, maxDigits) && |b| <= decimals
    ensures FindChar(a + [sep] + b, sep) == |a|
    ensures IsEditingText(a + [sep] + b, sep, maxDigits, decimals)
  {
    var r := a + [sep] + b;
    assert r[|a|] == sep;
    assert r[..|a|] == a && r[|a| + 1..] == b;
  }

  lemma EditingTextOfDigits(a: string, sep: char, maxDigits: Bound<nat>, decimals: nat)
    requires AllDigits(a) && !IsDigit(sep) && WithinCap(|a|, maxDigits)
    ensures FindChar(a, sep) == |a|
    ensures IsEditingText(a, sep, maxDigits, decimals)
  {
    assert a[..|a|] == a;
  }

  /** Editing text holds only digits and the separator, and the separator at
      most once. */
  lemma EditingTextChars(r: string, sep: char, maxDigits: Bound<nat>, decimals: nat)
    requires IsEditingText(r, sep, maxDigits, decimals) && !IsDigit(sep)
    ensures forall i :: 0 <= i < |r| ==> IsDigit(r[i]) || r[i] == sep
    ensures forall i, j :: 0 <= i < j < |r| && r[i] == sep ==> r[j] != sep
  {
    var k := FindChar(r, sep);
    forall i | 0 <= i < |r| ensures IsDigit(r[i]) || r[i] == sep {
      if i < k { assert r[i] == r[..k][i]; }
      else if i > k { assert r[i] == r[k + 1..][i - k - 1]; }
    }
    forall i, j | 0 <= i < j < |r| && r[i] == sep ensures r[j] != sep {
      assert i >= k;
      assert r[j] == r[k + 1..][j - k - 1];
    }
  }

  // ---------------------------------------------------------------------
  // The separator rule

  /** When the rightmost `.` or `,` of the sanitised text is a `c`, the text is
      split at the FIRST `c`: the integer part is the digits before it, capped
      at `maxDigits`, and the fraction is every digit after it (the other
      separator kind is dropped), cut to `decimals` digits. */
  lemma NormalizeSplit(value: string, suffix: string, maxDigits: Bound<nat>, decimals: nat,
                       seps: Separators, c: char, k: nat)
    requires c == '.' || c == ','
    requires var v := Sanitize(value, suffix);
      k < |v| && v[k] == c && forall j :: k < j < |v| ==> v[j] != '.' && v[j] != ','
    ensures var v := Sanitize(value, suffix); var i := FindChar(v, c);
      i < |v| &&
      Normalize(value, suffix, maxDigits, decimals, seps) ==
        CapDigits(KeepDigits(v[..i]), maxDigits) + [seps.decimal] + Take(KeepDigits(v[i + 1..]), decimals)
  {
    ReshapeSplit(Sanitize(value, suffix), maxDigits, decimals, seps.decimal, c, k);
  }

  lemma ReshapeSplit(v: string, maxDigits: Bound<nat>, decimals: nat, decimalSep: char, c: char, k: nat)
    requires c == '.' || c == ','
    requires k < |v| && v[k] == c && forall j :: k < j < |v| ==> v[j] != '.' && v[j] != ','
    ensures var i := FindChar(v, c);
      i < |v| &&
      Reshape(v, maxDigits, decimals, decimalSep) ==
        CapDigits(KeepDigits(v[..i]), maxDigits) + [decimalSep] + Take(KeepDigits(v[i + 1..]), decimals)
  {
    DecimalCharLast(v, c, k);
    var i := FindChar(v, c);
    if v == "." || v == "," {
      assert i == 0 && v[..i] == "" && v[i + 1..] == "";
    } else {
      SplitDigits(v, c);
    }
  }

  /** The separator `normalize` picks is the kind of the last `.` or `,`. */
  lemma DecimalCharLast(v: string, c: char, k: nat)
    requires c == '.' || c == ','
    requires k < |v| && v[k] == c && forall j :: k < j < |v| ==> v[j] != '.' && v[j] != ','
    ensures DecimalChar(v) == Some(c)
  {
    var other := if c == '.' then ',' else '.';
    assert LastIndexOf(v, c) == k;
    assert LastIndexOf(v, other) < k;
  }

  /** Splitting at `c` and joining the later parts keeps the digits before
      the first `c` and the digits after it. */
  lemma SplitDigits(v: string, c: char)
    requires c == '.' || c == ','
    requires FindChar(v, c) < |v|
    ensures var parts := Split(v, c); var i := FindChar(v, c);
      KeepDigits(parts[0]) == KeepDigits(v[..i]) &&
      KeepDigits(Concat(parts[1..])) == KeepDigits(v[i + 1..])
  {
    var i := FindChar(v, c);
    var before, after := v[..i], v[i + 1..];
    SplitAtFirst(v, c);
    var parts, rest := Split(v, c), Split(after, c);
    assert parts == [before] + rest;
    assert parts[0] == before && parts[1..] == rest;
    SplitJoinDigits(after, c);
  }

  /** Text with neither `.` nor `,` keeps just its digits, capped at `maxDigits`. */
  lemma NormalizeWithoutSeparator(value: string, suffix: string, maxDigits: Bound<nat>, decimals: nat, seps: Separators)
    requires var v := Sanitize(value, suffix); forall j :: 0 <= j < |v| ==> v[j] != '.' && v[j] != ','
    ensures AllDigits(Sanitize(value, suffix))
    ensures Normalize(value, suffix, maxDigits, decimals, seps) == CapDigits(Sanitize(value, suffix), maxDigits)
  {
    ReshapeWithoutSeparator(Sanitize(value, suffix), maxDigits, decimals, seps.decimal);
  }

  lemma ReshapeWithoutSeparator(v: string, maxDigits: Bound<nat>, decimals: nat, decimalSep: char)
    requires forall i :: 0 <= i < |v| ==> IsNumberChar(v[i])
    requires forall j :: 0 <= j < |v| ==> v[j] != '.' && v[j] != ','
    ensures AllDigits(v)
    ensures Reshape(v, maxDigits, decimals, decimalSep) == CapDigits(v, maxDigits)
  {
    assert LastIndexOf(v, '.') == -1 && LastIndexOf(v, ',') == -1;
    assert v != "." && v != "," by {
      if |v| == 1 { assert v[0] != '.' && v[0] != ','; }
    }
  }

  // ---------------------------------------------------------------------
  // Normalising twice

  /** Text made only of number characters is its own sanitised form. */
  lemma SanitizeUnchanged(s: string, suffix: string)
    requires InertSuffix(suffix)
    requires forall i :: 0 <= i < |s| ==> IsNumberChar(s[i])
    ensures Sanitize(s, suffix) == s
  {
    StripInertSuffix(s, suffix);
    if s != [] {
      NumberCharNotSpace(s[0]);
      NumberCharNotSpace(s[|s| - 1]);
    }
    TrimUnchanged(s);
    KeepNumberChars(s);
  }

  lemma NumberCharNotSpace(c: char)
    requires IsNumberChar(c)
    ensures !IsJsWhitespace(c)
  {
  }

  lemma KeepNumberChars(s: string)
    requires forall i :: 0 <= i < |s| ==> IsNumberChar(s[i])
    ensures Filter(s, IsNumberChar) == s
  {
  }

  /** Editing text is left as it is by the reshaping step. */
  lemma ReshapeEditingText(r: string, maxDigits: Bound<nat>, decimals: nat, sep: char)
    requires sep == '.' || sep == ','
    requires IsEditingText(r, sep, maxDigits, decimals)
    ensures Reshape(r, maxDigits, decimals, sep) == r
  {
    var k := FindChar(r, sep);
    if k == |r| {
      assert r[..k] == r;
      ReshapeDigits(r, maxDigits, decimals, sep);
    } else {
      assert r == r[..k] + [sep] + r[k + 1..];
      ReshapeDigitsSeparatorDigits(r[..k], r[k + 1..], maxDigits, decimals, sep);
    }
  }

  lemma ReshapeDigits(r: string, maxDigits: Bound<nat>, decimals: nat, sep: char)
    requires AllDigits(r) && WithinCap(|r|, maxDigits)
    ensures Reshape(r, maxDigits, decimals, sep) == r
  {
    ReshapeWithoutSeparator(r, maxDigits, decimals, sep);
  }

  lemma ReshapeDigitsSeparatorDigits(a: string, b: string, maxDigits: Bound<nat>, decimals: nat, sep: char)
    requires sep == '.' || sep == ','
    requires AllDigits(a) && AllDigits(b) && WithinCap(|a|, maxDigits) && |b| <= decimals
    ensures Reshape(a + [sep] + b, maxDigits, decimals, sep) == a + [sep] + b
  {
    var r := a + [sep] + b;
    EditingTextOf(a, sep, b, maxDigits, decimals);
    assert r[..|a|] == a && r[|a| + 1..] == b;
    forall j | |a| < j < |r| ensures r[j] != '.' && r[j] != ',' {
      assert r[j] == b[j - |a| - 1];
    }
    ReshapeSplit(r, maxDigits, decimals, sep, sep, |a|);
  }

  /** With `.` or `,` as the decimal separator and a suffix that cannot start a
      number, `normalize` leaves editing text unchanged. */
  lemma NormalizeEditingText(r: string, suffix: string, maxDigits: Bound<nat>, decimals: nat, seps: Separators)
    requires seps.decimal == '.' || seps.decimal == ','
    requires InertSuffix(suffix)
    requires IsEditingText(r, seps.decimal, maxDigits, decimals)
    ensures Normalize(r, suffix, maxDigits, decimals, seps) == r
  {
    EditingTextChars(r, seps.decimal, maxDigits, decimals);
    SanitizeUnchanged(r, suffix);
    ReshapeEditingText(r, maxDigits, decimals, seps.decimal);
  }

  /** Hence normalising twice is normalising once. */
  lemma NormalizeIdempotent(value: string, suffix: string, maxDigits: Bound<nat>, decimals: nat, seps: Separators)
    requires seps.decimal == '.' || seps.decimal == ','
    requires InertSuffix(suffix)
    ensures var r := Normalize(value, suffix, maxDigits, decimals, seps);
      Normalize(r, suffix, maxDigits, decimals, seps) == r
  {
    NormalizeEditingText(Normalize(value, suffix, maxDigits, decimals, seps), suffix, maxDigits, decimals, seps);
  }

  // ---------------------------------------------------------------------
  // The separator rule on typical inputs

  /** Removing one non-digit between two digit strings leaves their digits. */
  lemma KeepDigitsAround(a: string, x: char, b: string)
    requires AllDigits(a) && AllDigits(b) && !IsDigit(x)
    ensures KeepDigits(a + [x] + b) == a + b
  {
    KeepDigitsAppend(a + [x], b);
    KeepDigitsAppend(a, [x]);
    KeepDigitsOf(a);
    KeepDigitsOf(b);
    KeepDigitsNone(x);
  }

  lemma KeepDigitsAppend(a: string, b: string)
    ensures KeepDigits(a + b) == KeepDigits(a) + KeepDigits(b)
  {
    FilterAppend(a, b, IsDigit);
  }

  lemma KeepDigitsOf(a: string)
    requires AllDigits(a)
    ensures KeepDigits(a) == a
  {
  }

  lemma KeepDigitsNone(x: char)
    requires !IsDigit(x)
    ensures KeepDigits([x]) == []
  {
    assert [x][1..] == [];
  }

  /** The first `x` after a run of digits is the one right behind it. */
  lemma FindAfterDigits(a: string, x: char, rest: string)
    requires AllDigits(a) && !IsDigit(x)
    ensures FindChar(a + [x] + rest, x) == |a|
  {
    var t := a + [x] + rest;
    assert t[|a|] == x;
    assert forall j :: 0 <= j < |a| ==> t[j] == a[j];
  }

  /** Text whose last separator `y` is followed by digits `c` is split at the
      first `y` of `w + [y]`. */
  lemma ReshapeBeforeDigits(w: string, y: char, c: string, maxDigits: Bound<nat>, decimals: nat, decimalSep: char)
    requires AllDigits(c) && (y == '.' || y == ',')
    ensures var v := w + [y] + c; var i := FindChar(v, y);
      i < |v| &&
      Reshape(v, maxDigits, decimals, decimalSep) ==
        CapDigits(KeepDigits(v[..i]), maxDigits) + [decimalSep] + Take(KeepDigits(v[i + 1..]), decimals)
  {
    var v := w + [y] + c;
    forall j | |w| < j < |v| ensures v[j] != '.' && v[j] != ',' {
      assert v[j] == c[j - |w| - 1];
    }
    ReshapeSplit(v, maxDigits, decimals, decimalSep, y, |w|);
  }

  /** `a`, a separator `x`, `b`, the other separator `y`, then `c`: the later
      separator is the decimal point and the earlier one is dropped. */
  lemma ReshapeMixedSeparators(a: string, x: char, b: string, y: char, c: string,
                               maxDigits: Bound<nat>, decimals: nat, decimalSep: char)
    requires AllDigits(a) && AllDigits(b) && AllDigits(c)
    requires (x == '.' || x == ',') && (y == '.' || y == ',') && x != y
    ensures Reshape(a + [x] + b + [y] + c, maxDigits, decimals, decimalSep) ==
      CapDigits(a + b, maxDigits) + [decimalSep] + Take(c, decimals)
  {
    var w := a + [x] + b;
    var v := w + [y] + c;
    assert v[..|w|] == w && v[|w| + 1..] == c;
    FindAfterDigitsSkipping(a, x, b, y, c);
    KeepDigitsAround(a, x, b);
    assert KeepDigits(c) == c;
    var i := FindChar(v, y);
    assert i == |w|;
    assert KeepDigits(v[..i]) == a + b;
    assert KeepDigits(v[i + 1..]) == c;
    ReshapeBeforeDigits(w, y, c, maxDigits, decimals, decimalSep);
  }

  /** `a`, a separator `y`, `b`, the same separator again, then `c`: the first
      one is the decimal point and the digits after it are joined. */
  lemma ReshapeRepeatedSeparator(a: string, b: string, y: char, c: string,
                                 maxDigits: Bound<nat>, decimals: nat, decimalSep: char)
    requires AllDigits(a) && AllDigits(b) && AllDigits(c) && (y == '.' || y == ',')
    ensures Reshape(a + [y] + b + [y] + c, maxDigits, decimals, decimalSep) ==
      CapDigits(a, maxDigits) + [decimalSep] + Take(b + c, decimals)
  {
    var w := a + [y] + b;
    var v := w + [y] + c;
    var rest := b + [y] + c;
    assert v == a + [y] + rest;
    assert v[..|a|] == a && v[|a| + 1..] == rest;
    FindAfterDigits(a, y, rest);
    KeepDigitsAround(b, y, c);
    assert KeepDigits(a) == a;
    ReshapeBeforeDigits(w, y, c, maxDigits, decimals, decimalSep);
  }

  /** With two different separators the first occurrence of the later one is
      the later one itself. */
  lemma FindAfterDigitsSkipping(a: string, x: char, b: string, y: char, c: string)
    requires AllDigits(a) && AllDigits(b) && !IsDigit(y) && x != y
    ensures FindChar(a + [x] + b + [y] + c, y) == |a| + 1 + |b|
  {
    var t := a + [x] + b + [y] + c;
    assert t[|a| + 1 + |b|] == y;
    forall j | 0 <= j < |a| + 1 + |b| ensures t[j] != y {
      if j < |a| { assert t[j] == a[j]; }
      else if j > |a| { assert t[j] == b[j - |a| - 1]; }
    }
  }

  /** With no suffix, text of number characters is reshaped as it stands. */
  lemma NormalizeNumberText(v: string, maxDigits: Bound<nat>, decimals: nat, seps: Separators)
    requires forall i :: 0 <= i < |v| ==> IsNumberChar(v[i])
    ensures Normalize(v, "", maxDigits, decimals, seps) == Reshape(v, maxDigits, decimals, seps.decimal)
  {
    SanitizeUnchanged(v, "");
  }

  /** Each of `1,234.5` and `1.234,5` is read as `1234.5`: a separator before
      a different, later one is a grouping mark and is dropped. */
  lemma NormalizeMixedSeparators(a: string, x: char, b: string, y: char, c: string,
                                 maxDigits: Bound<nat>, decimals: nat)
    requires AllDigits(a) && AllDigits(b) && AllDigits(c)
    requires (x == '.' || x == ',') && (y == '.' || y == ',') && x != y
    ensures Normalize(a + [x] + b + [y] + c, "", maxDigits, decimals, EnUs) ==
      CapDigits(a + b, maxDigits) + "." + Take(c, decimals)
  {
    TwoSeparatorsNumberText(a, x, b, y, c);
    NormalizeNumberText(a + [x] + b + [y] + c, maxDigits, decimals, EnUs);
    ReshapeMixedSeparators(a, x, b, y, c, maxDigits, decimals, '.');
  }

  /** `1.2.3` is read as `1.23`: a repeated separator ends the integer part at
      its first occurrence and the later ones are dropped. */
  lemma NormalizeRepeatedSeparator(a: string, b: string, y: char, c: string,
                                   maxDigits: Bound<nat>, decimals: nat)
    requires AllDigits(a) && AllDigits(b) && AllDigits(c) && (y == '.' || y == ',')
    ensures Normalize(a + [y] + b + [y] + c, "", maxDigits, decimals, EnUs) ==
      CapDigits(a, maxDigits) + "." + Take(b + c, decimals)
  {
    TwoSeparatorsNumberText(a, y, b, y, c);
    NormalizeNumberText(a + [y] + b + [y] + c, maxDigits, decimals, EnUs);
    ReshapeRepeatedSeparator(a, b, y, c, maxDigits, decimals, '.');
  }

  lemma TwoSeparatorsNumberText(a: string, x: char, b: string, y: char, c: string)
    requires AllDigits(a) && AllDigits(b) && AllDigits(c)
    requires (x == '.' || x == ',') && (y == '.' || y == ',')
    ensures var v := a + [x] + b + [y] + c; forall i :: 0 <= i < |v| ==> IsNumberChar(v[i])
  {
    var v := a + [x] + b + [y] + c;
    forall i | 0 <= i < |v| ensures IsNumberChar(v[i]) {
      if i < |a| { assert v[i] == a[i]; }
      else if |a| < i < |a| + 1 + |b| { assert v[i] == b[i - |a| - 1]; }
      else if i > |a| + 1 + |b| { assert v[i] == c[i - |a| - 2 - |b|]; }
    }
  }

  /** A lone `.` or `,` becomes the locale's decimal separator. */
  lemma LoneSeparator(x: char, suffix: string, maxDigits: Bound<nat>, decimals: nat)
    requires (x == '.' || x == ',') && InertSuffix(suffix)
    ensures Normalize([x], suffix, maxDigits, decimals, EnUs) == "."
  {
    SanitizeUnchanged([x], suffix);
  }

  /** A typed separator is kept even when no fraction digit is allowed:
      `12.` stays `12.` with `decimals = 0`. */
  lemma TrailingSeparatorKept(a: string, suffix: string, maxDigits: Bound<nat>, decimals: nat)
    requires AllDigits(a) && WithinCap(|a|, maxDigits) && InertSuffix(suffix)
    ensures Normalize(a + ".", suffix, maxDigits, decimals, EnUs) == a + "."
  {
    EditingTextOf(a, '.', "", maxDigits, decimals);
    assert a + ['.'] + "" == a + ".";
    NormalizeEditingText(a + ".", suffix, maxDigits, decimals, EnUs);
  }

  /** Whatever is typed, the field then holds only ASCII digits and at most
      one decimal separator. */
  lemma NormalizeOutputChars(value: string, suffix: string, maxDigits: Bound<nat>, decimals: nat, seps: Separators)
    requires !IsDigit(seps.decimal)
    ensures var r := Normalize(value, suffix, maxDigits, decimals, seps);
      (forall i :: 0 <= i < |r| ==> IsDigit(r[i]) || r[i] == seps.decimal) &&
      (forall i, j :: 0 <= i < j < |r| && r[i] == seps.decimal ==> r[j] != seps.decimal)
  {
    EditingTextChars(Normalize(value, suffix, maxDigits, decimals, seps), seps.decimal, maxDigits, decimals);
  }
}
