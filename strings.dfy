/** The JavaScript string operations the input controller is built from:
    character classes, regex-style filtering, `indexOf`/`lastIndexOf`,
    `replace` with a string pattern, `trim` and `split`/`join`. */
module Strings {
  import opened Wrappers

  /** `\d` in a JavaScript regular expression without the `u` flag. */
  predicate IsDigit(c: char) { '0' <= c <= '9' }

  /** The characters `/[^\d.,]/g` keeps. */
  predicate IsNumberChar(c: char) { IsDigit(c) || c == '.' || c == ',' }

  /** The characters `/[^\d.]/g` keeps. */
  predicate IsDigitOrDot(c: char) { IsDigit(c) || c == '.' }

  predicate AllDigits(s: string) { forall i :: 0 <= i < |s| ==> IsDigit(s[i]) }

  /** The WhiteSpace and LineTerminator code points of ECMAScript, which
      `String.prototype.trim` and `parseFloat` skip. */
  predicate IsJsWhitespace(c: char) {
    c == '\t' || c == '\n' || c == '\U{000B}' || c == '\U{000C}' || c == '\r' ||
    c == ' ' || c == '\U{00A0}' || c == '\U{1680}' || ('\U{2000}' <= c <= '\U{200A}') ||
    c == '\U{2028}' || c == '\U{2029}' || c == '\U{202F}' || c == '\U{205F}' ||
    c == '\U{3000}' || c == '\U{FEFF}'
  }

  // ---------------------------------------------------------------------
  // Filtering: `s.replace(/[^...]/g, '')`

  /** The characters of `s` that `keep` accepts, in order. */
  function Filter(s: string, keep: char -> bool): (r: string)
    ensures |r| <= |s|
    ensures forall i :: 0 <= i < |r| ==> keep(r[i])
    ensures (forall i :: 0 <= i < |s| ==> keep(s[i])) ==> r == s
    ensures r == [] <==> forall i :: 0 <= i < |s| ==> !keep(s[i])
  {
    if s == [] then [] else (if keep(s[0]) then [s[0]] else []) + Filter(s[1..], keep)
  }

  lemma {:induction false} FilterAppend(a: string, b: string, keep: char -> bool)
    ensures Filter(a + b, keep) == Filter(a, keep) + Filter(b, keep)
  {
    if a != [] {
      var head := if keep(a[0]) then [a[0]] else [];
      assert (a + b)[0] == a[0];
      assert (a + b)[1..] == a[1..] + b;
      FilterAppend(a[1..], b, keep);
      calc {
        Filter(a + b, keep);
        head + Filter(a[1..] + b, keep);
        head + (Filter(a[1..], keep) + Filter(b, keep));
        (head + Filter(a[1..], keep)) + Filter(b, keep);
      }
    } else {
      assert a + b == b;
    }
  }

  /** Two filters that agree on every character of `s` keep the same text. */
  lemma {:induction false} FilterAgree(s: string, k1: char -> bool, k2: char -> bool)
    requires forall i :: 0 <= i < |s| ==> k1(s[i]) == k2(s[i])
    ensures Filter(s, k1) == Filter(s, k2)
  {
    if s != [] {
      assert k1(s[0]) == k2(s[0]);
      FilterAgree(s[1..], k1, k2);
    }
  }

  /** Filtering with a stricter filter after a looser one is the stricter filter alone. */
  lemma {:induction false} FilterFilter(s: string, outer: char -> bool, inner: char -> bool)
    requires forall i :: 0 <= i < |s| ==> outer(s[i]) ==> inner(s[i])
    ensures Filter(Filter(s, inner), outer) == Filter(s, outer)
  {
    if s != [] {
      FilterFilter(s[1..], outer, inner);
      var head := if inner(s[0]) then [s[0]] else [];
      FilterAppend(head, Filter(s[1..], inner), outer);
    }
  }

  /** Deletes every non-digit (`replace(/[^\d]/g, '')`). */
  function KeepDigits(s: string): (r: string)
    ensures AllDigits(r)
    ensures AllDigits(s) ==> r == s
    ensures r == [] <==> forall i :: 0 <= i < |s| ==> !IsDigit(s[i])
  {
    Filter(s, IsDigit)
  }

  /** Deletes every occurrence of `c` (a global regex replace by ''). */
  function RemoveChar(s: string, c: char): (r: string)
    ensures forall i :: 0 <= i < |r| ==> r[i] != c
  {
    Filter(s, x => x != c)
  }

  lemma RemoveCharAbsent(s: string, c: char)
    requires forall i :: 0 <= i < |s| ==> s[i] != c
    ensures RemoveChar(s, c) == s
  {
  }

  lemma RemoveCharAppend(a: string, b: string, c: char)
    ensures RemoveChar(a + b, c) == RemoveChar(a, c) + RemoveChar(b, c)
  {
    FilterAppend(a, b, x => x != c);
  }

  lemma RemoveCharOnly(c: char)
    ensures RemoveChar([c], c) == []
  {
    assert [c][1..] == [];
  }

  /** Deleting `c` from `a`, one `c` and a text without `c` deletes it from `a` alone. */
  lemma RemoveCharAround(a: string, b: string, c: char)
    requires forall i :: 0 <= i < |b| ==> b[i] != c
    ensures RemoveChar(a + [c] + b, c) == RemoveChar(a, c) + b
  {
    RemoveCharAbsent(b, c);
    RemoveCharOnly(c);
    RemoveCharAppend(a, [c], c);
    RemoveCharAppend(a + [c], b, c);
  }

  /** Deleting the one `c` between two texts without `c` joins them. */
  lemma RemoveCharBetween(a: string, c: char, b: string)
    requires forall i :: 0 <= i < |a| ==> a[i] != c
    requires forall i :: 0 <= i < |b| ==> b[i] != c
    ensures RemoveChar(a + [c] + b, c) == a + b
  {
    RemoveCharAbsent(a, c);
    RemoveCharAbsent(b, c);
    RemoveCharOnly(c);
    RemoveCharAppend(a + [c], b, c);
    RemoveCharAppend(a, [c], c);
  }

  /** Replaces every occurrence of `c` by `d` (a global regex replace). */
  function ReplaceChar(s: string, c: char, d: char): (r: string)
    ensures |r| == |s|
    ensures forall i :: 0 <= i < |s| ==> r[i] == if s[i] == c then d else s[i]
  {
    if s == [] then [] else [if s[0] == c then d else s[0]] + ReplaceChar(s[1..], c, d)
  }

  // ---------------------------------------------------------------------
  // Searching

  /** `pat` occurs in `s` starting at position `j`. */
  predicate OccursAt(s: string, pat: string, j: int) {
    0 <= j && j + |pat| <= |s| && s[j..j + |pat|] == pat
  }

  /** `s.indexOf(pat)`, with `None` for -1. */
  function IndexOf(s: string, pat: string): (r: Option<nat>)
    ensures r.Some? ==> OccursAt(s, pat, r.value)
    ensures r.Some? ==> forall j :: 0 <= j < r.value ==> !OccursAt(s, pat, j)
    ensures r.None? ==> forall j :: !OccursAt(s, pat, j)
    decreases |s|
  {
    if pat <= s then Some(0)
    else if s == [] then None
    else
      assert !OccursAt(s, pat, 0) by {
        if |pat| <= |s| { assert s[0..|pat|] == s[..|pat|]; }
      }
      match IndexOf(s[1..], pat)
      case None =>
        assert forall j :: !OccursAt(s, pat, j) by {
          forall j ensures !OccursAt(s, pat, j) {
            if j >= 1 { OccursShift(s, pat, j - 1); }
          }
        }
        None
      case Some(k) =>
        OccursShift(s, pat, k);
        assert forall j :: 0 <= j < k + 1 ==> !OccursAt(s, pat, j) by {
          forall j | 0 <= j < k + 1 ensures !OccursAt(s, pat, j) {
            if j >= 1 { OccursShift(s, pat, j - 1); }
          }
        }
        Some(k + 1)
  }

  lemma OccursShift(s: string, pat: string, j: nat)
    requires s != []
    ensures OccursAt(s, pat, j + 1) <==> OccursAt(s[1..], pat, j)
  {
    if j + 1 + |pat| <= |s| {
      assert s[j + 1..j + 1 + |pat|] == s[1..][j..j + |pat|];
    }
  }

  /** The first position of `c` in `s`, or `|s|` when `c` does not occur. */
  function FindChar(s: string, c: char): (r: nat)
    ensures r <= |s|
    ensures r < |s| ==> s[r] == c
    ensures forall j :: 0 <= j < r ==> s[j] != c
  {
    if s == [] then 0 else if s[0] == c then 0 else 1 + FindChar(s[1..], c)
  }

  /** `s.lastIndexOf(c)` for a one-character pattern: -1 when absent. */
  function LastIndexOf(s: string, c: char): (r: int)
    ensures -1 <= r < |s|
    ensures r >= 0 ==> s[r] == c
    ensures forall j :: r < j < |s| ==> s[j] != c
  {
    if s == [] then -1
    else if s[|s| - 1] == c then |s| - 1
    else LastIndexOf(s[..|s| - 1], c)
  }

  // ---------------------------------------------------------------------
  // `s.replace(pat, rep)` with a string pattern: only the first occurrence

  function ReplaceFirst(s: string, pat: string, rep: string): (r: string)
  {
    match IndexOf(s, pat)
    case None => s
    case Some(i) => s[..i] + rep + s[i + |pat|..]
  }

  /** A pattern whose first character does not occur in `s` is not replaced. */
  lemma ReplaceFirstAbsent(s: string, pat: string, rep: string)
    requires pat != []
    requires forall i :: 0 <= i < |s| ==> s[i] != pat[0]
    ensures ReplaceFirst(s, pat, rep) == s
  {
    forall j | 0 <= j < |s| ensures !OccursAt(s, pat, j) {
      if j + |pat| <= |s| { assert s[j..j + |pat|][0] == s[j]; }
    }
  }

  /** Appending a suffix and then stripping its first occurrence gives the
      text back, when the suffix cannot start inside the text. */
  lemma ReplaceFirstTrailing(s: string, suffix: string)
    requires suffix == [] || forall i :: 0 <= i < |s| ==> s[i] != suffix[0]
    ensures ReplaceFirst(s + suffix, suffix, "") == s
  {
    var t := s + suffix;
    assert OccursAt(t, suffix, |s|) by { assert t[|s|..|s| + |suffix|] == suffix; }
    if suffix == [] {
      assert OccursAt(t, suffix, 0);
    } else {
      forall j | 0 <= j < |s| ensures !OccursAt(t, suffix, j) {
        if j + |suffix| <= |t| { assert t[j..j + |suffix|][0] == t[j] == s[j]; }
      }
    }
    assert t[..|s|] == s;
  }

  /** A suffix that cannot begin inside number text (`%`, or no suffix at all). */
  predicate InertSuffix(suffix: string) {
    suffix == [] || !IsNumberChar(suffix[0])
  }

  /** Stripping an inert suffix from text that holds only number characters
      changes nothing. */
  lemma StripInertSuffix(s: string, suffix: string)
    requires InertSuffix(suffix)
    requires forall i :: 0 <= i < |s| ==> IsNumberChar(s[i])
    ensures ReplaceFirst(s, suffix, "") == s
  {
    if suffix == [] {
      assert s == s + suffix;
      ReplaceFirstTrailing(s, suffix);
    } else {
      ReplaceFirstAbsent(s, suffix, "");
    }
  }

  /** Replacing a pattern by itself changes nothing. */
  lemma ReplaceFirstSame(s: string, pat: string)
    ensures ReplaceFirst(s, pat, pat) == s
  {
    match IndexOf(s, pat)
    case None =>
    case Some(i) =>
      SplitAround(s, i, i + |pat|);
  }

  lemma SplitAround(s: string, i: nat, j: nat)
    requires i <= j <= |s|
    ensures s[..i] + s[i..j] + s[j..] == s
  {
  }

  // ---------------------------------------------------------------------
  // `trim`

  /** `s.trimStart()`: the suffix of `s` left after its leading whitespace. */
  function TrimStart(s: string): (r: string)
    ensures |r| <= |s| && r == s[|s| - |r|..]
    ensures r == [] || !IsJsWhitespace(r[0])
    ensures forall i :: 0 <= i < |s| - |r| ==> IsJsWhitespace(s[i])
  {
    if s != [] && IsJsWhitespace(s[0]) then
      var t := s[1..];
      var r := TrimStart(t);
      assert r == s[|s| - |r|..] by { assert t[|t| - |r|..] == s[|s| - |r|..]; }
      assert forall i :: 0 <= i < |s| - |r| ==> IsJsWhitespace(s[i]) by {
        forall i | 1 <= i < |s| - |r| ensures IsJsWhitespace(s[i]) { assert s[i] == t[i - 1]; }
      }
      r
    else s
  }

  /** `s.trimEnd()`: the prefix of `s` left after its trailing whitespace. */
  function TrimEnd(s: string): (r: string)
    ensures |r| <= |s| && r == s[..|r|]
    ensures r == [] || !IsJsWhitespace(r[|r| - 1])
    ensures forall i :: |r| <= i < |s| ==> IsJsWhitespace(s[i])
  {
    if s != [] && IsJsWhitespace(s[|s| - 1]) then TrimEnd(s[..|s| - 1]) else s
  }

  /** Replacing every `c` by `c` changes nothing. */
  lemma ReplaceCharSame(s: string, c: char)
    ensures ReplaceChar(s, c, c) == s
  {
  }

  /** `s.trim()`. */
  function Trim(s: string): (r: string)
    ensures r == [] || (!IsJsWhitespace(r[0]) && !IsJsWhitespace(r[|r| - 1]))
  {
    TrimEnd(TrimStart(s))
  }

  /** Text with no whitespace at either end is its own trim. */
  lemma TrimUnchanged(s: string)
    requires s == [] || (!IsJsWhitespace(s[0]) && !IsJsWhitespace(s[|s| - 1]))
    ensures TrimStart(s) == s && Trim(s) == s
  {
  }

  // ---------------------------------------------------------------------
  // `split` and `join('')`

  /** `s.split(c)` for a one-character separator. */
  function Split(s: string, c: char): (parts: seq<string>)
    ensures |parts| >= 1
  {
    if s == [] then [""]
    else
      var rest := Split(s[1..], c);
      if s[0] == c then [""] + rest else [[s[0]] + rest[0]] + rest[1..]
  }

  /** Text without `c` splits into itself alone. */
  lemma {:induction false} SplitAbsent(s: string, c: char)
    requires FindChar(s, c) == |s|
    ensures Split(s, c) == [s]
  {
    if s != [] {
      SplitAbsent(s[1..], c);
      assert [s[0]] + s[1..] == s;
    }
  }

  /** `parts.join('')`. */
  function Concat(parts: seq<string>): string {
    if parts == [] then "" else parts[0] + Concat(parts[1..])
  }

  /** Splitting at the first occurrence of `c`: the first part is what comes
      before it, and the other parts are the split of what comes after it. */
  lemma {:induction false} SplitAtFirst(s: string, c: char)
    requires FindChar(s, c) < |s|
    ensures var k := FindChar(s, c); Split(s, c) == [s[..k]] + Split(s[k + 1..], c)
  {
    if s[0] != c {
      var t, k := s[1..], FindChar(s, c);
      assert FindChar(t, c) == k - 1;
      SplitAtFirst(t, c);
      var rest := Split(t, c);
      assert rest == [t[..k - 1]] + Split(t[k..], c);
      assert t[k..] == s[k + 1..];
      assert [s[0]] + t[..k - 1] == s[..k];
      SplitCons(s, c);
    }
  }

  /** A first character other than `c` joins the first part. */
  lemma SplitCons(s: string, c: char)
    requires s != [] && s[0] != c
    ensures var rest := Split(s[1..], c); Split(s, c) == [[s[0]] + rest[0]] + rest[1..]
  {
  }

  /** Joining the parts of a split loses exactly the separator characters,
      so the digits of the join are the digits of the text. */
  lemma {:induction false} SplitJoinDigits(s: string, c: char)
    requires !IsDigit(c)
    ensures KeepDigits(Concat(Split(s, c))) == KeepDigits(s)
  {
    if s != [] {
      var t := s[1..];
      var rest := Split(t, c);
      SplitJoinDigits(t, c);
      KeepDigitsCons(s);
      if s[0] == c {
        assert Split(s, c) == [""] + rest;
        ConcatCons("", rest);
        assert "" + Concat(rest) == Concat(rest);
        assert KeepDigits([s[0]]) == [];
        assert KeepDigits(s) == [] + KeepDigits(t);
      } else {
        SplitCons(s, c);
        assert rest == [rest[0]] + rest[1..];
        ConcatJoinHead(s[0], rest[0], rest[1..]);
        FilterAppend([s[0]], Concat(rest), IsDigit);
      }
    }
  }

  /** A character put before the first part comes first in the join. */
  lemma ConcatJoinHead(x: char, h: string, tail: seq<string>)
    ensures Concat([[x] + h] + tail) == [x] + Concat([h] + tail)
  {
    ConcatCons(h, tail);
    ConcatCons([x] + h, tail);
    assert ([x] + h) + Concat(tail) == [x] + (h + Concat(tail));
  }

  lemma ConcatCons(x: string, rest: seq<string>)
    ensures Concat([x] + rest) == x + Concat(rest)
  {
    assert ([x] + rest)[1..] == rest;
  }

  /** The digits of `s` are those of its first character followed by those of the rest. */
  lemma KeepDigitsCons(s: string)
    requires s != []
    ensures KeepDigits(s) == KeepDigits([s[0]]) + KeepDigits(s[1..])
  {
    assert s == [s[0]] + s[1..];
    FilterAppend([s[0]], s[1..], IsDigit);
  }
}
