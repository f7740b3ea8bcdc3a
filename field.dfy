/** `setupDecimalInput`: a text field that reformats what is typed into it,
    shows a formatted number when it loses focus and takes the formatting away
    again when it gets focus back. */
module Field {
  import opened Wrappers
  import opened Strings
  import opened Numbers
  import opened Normalizer
  import opened NumericParser
  import opened Clamping
  import opened Formatter

  /** The options of one field. `notifiesChange` and `notifiesBlur` say whether
      an `onChange` or `onBlur` callback is installed. */
  datatype Config = Config(
    min: Bound<real>,
    max: Bound<real>,
    decimals: nat,
    maxDigits: Bound<nat>,
    trimTrailingZeros: bool,
    suffix: string,
    notifiesChange: bool,
    notifiesBlur: bool)

  const MaxBill: real := 9999999.99
  const MaxPercent: real := 100.0
  const MaxPeople: real := 999.0

  /** The custom tip percentage: up to `100%`, two decimals, shown with `%`. */
  const CustomTip := Config(Bounded(0.0), Bounded(MaxPercent), 2, Bounded(3), true, "%", true, true)

  /** The bill: up to 9,999,999.99, always shown with two decimals. */
  const Bill := Config(Bounded(0.0), Bounded(MaxBill), 2, Bounded(7), false, "", true, false)

  /** The number of people: a whole number up to 999. */
  const People := Config(Bounded(0.0), Bounded(MaxPeople), 0, Bounded(3), true, "", true, false)

  /** `minimumFractionDigits` of the field's number format. */
  function MinFractionDigits(c: Config): (n: nat)
    ensures n <= c.decimals
    ensures n == 0 || n == c.decimals
    ensures n == 0 <==> c.trimTrailingZeros || c.decimals == 0
  {
    if c.trimTrailingZeros then 0 else c.decimals
  }

  /** A field that keeps trailing zeros always prints `decimals` fraction digits. */
  lemma UntrimmedFraction(x: real, c: Config)
    requires x >= 0.0 && !c.trimTrailingZeros
    ensures |PartsOf(x, MinFractionDigits(c), c.decimals).fracDigits| == c.decimals
  {
  }

  /** The bill is always shown with a point and exactly two digits after it. */
  lemma {:induction false} BillTwoDecimals(x: real)
    requires x >= 0.0
    ensures var t := Format(x, MinFractionDigits(Bill), Bill.decimals);
      |t| >= 3 && t[|t| - 3] == '.' && IsDigit(t[|t| - 2]) && IsDigit(t[|t| - 1])
  {
    var p := PartsOf(x, 2, 2);
    UntrimmedFraction(x, Bill);
    var g := Group(p.intDigits);
    assert Format(x, 2, 2) == g + ("." + p.fracDigits);
  }

  /** Options under which formatting and parsing agree: bounds a parsed number
      can clamp to without going negative, bounds the format can print
      exactly, a maximum that fits `maxDigits` integer digits, and a suffix
      that cannot be mistaken for part of a number. */
  predicate ValidConfig(c: Config) {
    Ordered(c.min, c.max) &&
    (c.min.Bounded? ==> c.min.limit >= 0.0 && Representable(c.min.limit, c.decimals)) &&
    (c.max.Bounded? ==> c.max.limit >= 0.0 && Representable(c.max.limit, c.decimals)) &&
    (c.maxDigits.Bounded? ==>
       c.maxDigits.limit >= 1 && c.max.Bounded? && c.max.limit < Pow10(c.maxDigits.limit) as real) &&
    InertSuffix(c.suffix)
  }

  lemma ConfigsValid()
    ensures ValidConfig(CustomTip) && ValidConfig(Bill) && ValidConfig(People)
  {
    CustomTipValid();
    BillValid();
    PeopleValid();
  }

  lemma CustomTipValid()
    ensures ValidConfig(CustomTip)
  {
    RepresentableOf(0.0, 2, 0);
    RepresentableOf(MaxPercent, 2, 10000);
  }

  lemma BillValid()
    ensures ValidConfig(Bill)
  {
    RepresentableOf(0.0, 2, 0);
    RepresentableOf(MaxBill, 2, 999999999);
  }

  lemma PeopleValid()
    ensures ValidConfig(People)
  {
    RepresentableOf(0.0, 0, 0);
    RepresentableOf(MaxPeople, 0, 999);
  }

  // ---------------------------------------------------------------------
  // The three handlers, as functions of the field's text

  /** `removeFormat`, run on focus: the suffix and the locale's decimal
      separator are replaced once each, then everything but digits and `.` is
      deleted. */
  function FocusText(value: string, c: Config): (r: string)
    ensures forall i :: 0 <= i < |r| ==> IsDigitOrDot(r[i])
  {
    Filter(ReplaceFirst(ReplaceFirst(value, c.suffix, ""), [EnUs.decimal], "."), IsDigitOrDot)
  }

  /** The `input` handler: the typed text normalised. */
  function InputText(value: string, c: Config): string {
    Normalize(value, c.suffix, c.maxDigits, c.decimals, EnUs)
  }

  /** `format`, run on blur: empty when the text is not a number, otherwise
      the clamped number formatted, followed by the suffix. */
  function BlurText(value: string, c: Config): (r: string)
    ensures r == [] <==> GetNumericValue(value, c.suffix, EnUs).None?
  {
    match GetNumericValue(value, c.suffix, EnUs)
    case None => ""
    case Some(n) =>
      var t := Format(Clamp(n, c.min, c.max), MinFractionDigits(c), c.decimals);
      assert |t + c.suffix| >= |t| > 0;
      t + c.suffix
  }

  /** What a callback receives from the field. */
  datatype Event = Changed(value: string) | Blurred(value: string)

  /** The callback `trigger(fn)` makes when `fn` is installed. */
  function Notify(installed: bool, e: Event): seq<Event> {
    if installed then [e] else []
  }

  /** The input element: its text, and the calls made so far to its callbacks. */
  class DecimalInput {
    const config: Config
    var value: string
    var events: seq<Event>

    constructor(config: Config, initial: string)
      ensures this.config == config && value == initial && events == []
    {
      this.config := config;
      value := initial;
      events := [];
    }

    /** The `focus` event. */
    method Focus()
      modifies this
      ensures value == FocusText(old(value), config)
      ensures events == old(events)
    {
      value := FocusText(value, config);
    }

    /** An `input` event: the browser has put `typed` into the field. */
    method Input(typed: string)
      modifies this
      ensures value == InputText(typed, config)
      ensures events == old(events) + Notify(config.notifiesChange, Changed(value))
    {
      var r := InputText(typed, config);
      value, events := r, events + Notify(config.notifiesChange, Changed(r));
    }

    /** The `blur` event. */
    method Blur()
      modifies this
      ensures value == BlurText(old(value), config)
      ensures events == old(events) + Notify(config.notifiesBlur, Blurred(value))
    {
      var r := BlurText(value, config);
      value, events := r, events + Notify(config.notifiesBlur, Blurred(r));
    }
  }

  // ---------------------------------------------------------------------
  // Blur

  /** A parsed number clamps to a value the format can print. */
  lemma ClampedNonNegative(n: real, c: Config)
    requires ValidConfig(c) && n >= 0.0
    ensures Clamp(n, c.min, c.max) >= 0.0
  {
  }

  /** The rounded clamped value stays within the bounds. */
  lemma RoundedWithin(x: real, c: Config)
    requires ValidConfig(c) && Within(x, c.min, c.max)
    ensures Within(RoundTo(x, c.decimals), c.min, c.max)
  {
    if c.min.Bounded? { RoundToBetween(x, c.min.limit, c.decimals); }
    if c.max.Bounded? { RoundToBetween(x, c.max.limit, c.decimals); }
  }

  /** After blur the field reads as the number clamped to the bounds and
      rounded to `decimals`, and that value is within the bounds. */
  lemma BlurValue(value: string, c: Config)
    requires ValidConfig(c) && GetNumericValue(value, c.suffix, EnUs).Some?
    ensures var x := Clamp(GetNumericValue(value, c.suffix, EnUs).value, c.min, c.max);
      GetNumericValue(BlurText(value, c), c.suffix, EnUs) == Some(RoundTo(x, c.decimals)) &&
      Within(RoundTo(x, c.decimals), c.min, c.max)
  {
    var x := Clamp(GetNumericValue(value, c.suffix, EnUs).value, c.min, c.max);
    ClampedNonNegative(GetNumericValue(value, c.suffix, EnUs).value, c);
    FormatRoundTrip(x, MinFractionDigits(c), c.decimals, c.suffix);
    RoundedWithin(x, c);
  }

  /** Blurring a field a second time changes nothing. */
  lemma BlurIdempotent(value: string, c: Config)
    requires ValidConfig(c)
    ensures BlurText(BlurText(value, c), c) == BlurText(value, c)
  {
    match GetNumericValue(value, c.suffix, EnUs)
    case None =>
    case Some(n) =>
      var x := Clamp(n, c.min, c.max);
      BlurValue(value, c);
      ClampedNonNegative(n, c);
      FormatRounded(x, MinFractionDigits(c), c.decimals);
  }

  // ---------------------------------------------------------------------
  // Focus

  /** Focus on number text followed by the suffix deletes the suffix and the
      grouping separators and keeps everything else in order. */
  lemma FocusNumberText(t: string, c: Config)
    requires ValidConfig(c)
    requires forall i :: 0 <= i < |t| ==> IsNumberChar(t[i])
    ensures FocusText(t + c.suffix, c) == RemoveChar(t, ',')
  {
    ReplaceFirstTrailing(t, c.suffix);
    ReplaceFirstSame(t, ".");
    FilterAgree(t, IsDigitOrDot, x => x != ',');
  }

  /** Taking the formatting off a formatted number leaves its plain digits. */
  lemma FocusFormatted(x: real, c: Config)
    requires ValidConfig(c) && x >= 0.0
    ensures var p := PartsOf(x, MinFractionDigits(c), c.decimals);
      FocusText(Format(x, MinFractionDigits(c), c.decimals) + c.suffix, c) == PlainText(p)
  {
    var p := PartsOf(x, MinFractionDigits(c), c.decimals);
    var t := Format(x, MinFractionDigits(c), c.decimals);
    assert t == GroupedText(p);
    FocusNumberText(t, c);
    UngroupText(p);
  }

  /** Focus keeps every digit after the suffix is taken out, in order,
      trailing fraction zeros included. */
  lemma FocusKeepsDigits(value: string, c: Config)
    ensures KeepDigits(FocusText(value, c)) == KeepDigits(ReplaceFirst(value, c.suffix, ""))
  {
    var s := ReplaceFirst(value, c.suffix, "");
    ReplaceFirstSame(s, ".");
    FilterFilter(s, IsDigit, IsDigitOrDot);
  }

  /** Focus keeps the number a blurred field shows. */
  lemma FocusAfterBlur(value: string, c: Config)
    requires ValidConfig(c)
    ensures var b := BlurText(value, c);
      GetNumericValue(FocusText(b, c), c.suffix, EnUs) == GetNumericValue(b, c.suffix, EnUs)
  {
    match GetNumericValue(value, c.suffix, EnUs)
    case None =>
      FocusEmpty(c);
    case Some(n) =>
      var x := Clamp(n, c.min, c.max);
      var p := PartsOf(x, MinFractionDigits(c), c.decimals);
      ClampedNonNegative(n, c);
      FocusFormatted(x, c);
      PlainTextChars(p);
      GetNumericValuePlain(PlainText(p), c.suffix);
      ParsePlainText(p);
      PartsValue(x, MinFractionDigits(c), c.decimals);
      BlurValue(value, c);
  }

  lemma FocusEmpty(c: Config)
    ensures FocusText("", c) == ""
  {
    assert ReplaceFirst("", c.suffix, "") == "" by {
      if c.suffix == [] { assert "" + c.suffix == ""; ReplaceFirstTrailing("", c.suffix); }
    }
  }

  /** Blur, focus and blur again shows what the first blur showed. */
  lemma BlurFocusBlur(value: string, c: Config)
    requires ValidConfig(c)
    ensures BlurText(FocusText(BlurText(value, c), c), c) == BlurText(value, c)
  {
    FocusAfterBlur(value, c);
    BlurIdempotent(value, c);
  }

  /** The text left by focus after a blur is text the input handler keeps as
      it is: it has at most `maxDigits` integer digits and `decimals`
      fraction digits. */
  lemma FocusAfterBlurEditing(value: string, c: Config)
    requires ValidConfig(c)
    ensures IsEditingText(FocusText(BlurText(value, c), c), '.', c.maxDigits, c.decimals)
    ensures InputText(FocusText(BlurText(value, c), c), c) == FocusText(BlurText(value, c), c)
  {
    match GetNumericValue(value, c.suffix, EnUs)
    case None =>
      FocusEmpty(c);
      EditingTextOfDigits("", '.', c.maxDigits, c.decimals);
      NormalizeEditingText("", c.suffix, c.maxDigits, c.decimals, EnUs);
    case Some(n) =>
      var x := Clamp(n, c.min, c.max);
      var p := PartsOf(x, MinFractionDigits(c), c.decimals);
      ClampedNonNegative(n, c);
      FocusFormatted(x, c);
      PlainIntDigits(x, c);
      PlainTextEditing(p, c.maxDigits, c.decimals);
      NormalizeEditingText(PlainText(p), c.suffix, c.maxDigits, c.decimals, EnUs);
  }

  lemma PlainIntDigits(x: real, c: Config)
    requires ValidConfig(c) && x >= 0.0 && Within(x, c.min, c.max)
    ensures WithinCap(|PartsOf(x, MinFractionDigits(c), c.decimals).intDigits|, c.maxDigits)
  {
    if c.maxDigits.Bounded? {
      RoundedWithin(x, c);
      IntDigitsBound(x, MinFractionDigits(c), c.decimals, c.maxDigits.limit);
    }
  }

  /** Focus leaves text produced by the input handler as it is. */
  lemma FocusEditingText(r: string, c: Config)
    requires ValidConfig(c) && IsEditingText(r, '.', c.maxDigits, c.decimals)
    ensures FocusText(r, c) == r
  {
    EditingTextChars(r, '.', c.maxDigits, c.decimals);
    StripInertSuffix(r, c.suffix);
    ReplaceFirstSame(r, ".");
  }

  // ---------------------------------------------------------------------
  // Input

  /** Typing into a field that holds text the handler produced, without
      changing it, changes nothing. */
  lemma InputIdempotent(value: string, c: Config)
    requires ValidConfig(c)
    ensures InputText(InputText(value, c), c) == InputText(value, c)
  {
    NormalizeIdempotent(value, c.suffix, c.maxDigits, c.decimals, EnUs);
  }

  /** The value `onChange` sees is the number the typed text spells, and no
      number only when nothing or only the separator is left. */
  lemma InputValue(value: string, c: Config)
    requires ValidConfig(c)
    ensures var r := InputText(value, c);
      (GetNumericValue(r, c.suffix, EnUs).None? <==> r == [] || r == ".") &&
      (r != [] && r != "." ==> GetNumericValue(r, c.suffix, EnUs) == Some(EditingValue(r, c.maxDigits, c.decimals)))
  {
    InputEditing(value, c);
    GetNumericValueEditingText(InputText(value, c), c.suffix, c.maxDigits, c.decimals);
  }

  /** What the input handler leaves has at most `maxDigits` integer digits,
      at most one `.` and at most `decimals` fraction digits. */
  lemma InputEditing(value: string, c: Config)
    ensures IsEditingText(InputText(value, c), '.', c.maxDigits, c.decimals)
  {
  }

  // ---------------------------------------------------------------------
  // Worked cases

  /** Focus on a number with one grouping separator joins the digits around it:
      the bill field showing `1,234.50` is left with `1234.50`. */
  lemma FocusGrouped(a: string, b: string, c: Config)
    requires ValidConfig(c) && AllDigits(a)
    requires forall i :: 0 <= i < |b| ==> IsDigitOrDot(b[i])
    ensures FocusText(a + "," + b + c.suffix, c) == a + b
  {
    GroupedNumberChars(a, b);
    FocusNumberText(a + [','] + b, c);
    RemoveCharBetween(a, ',', b);
  }

  lemma GroupedNumberChars(a: string, b: string)
    requires AllDigits(a)
    requires forall i :: 0 <= i < |b| ==> IsDigitOrDot(b[i])
    ensures forall i :: 0 <= i < |a + [','] + b| ==> IsNumberChar((a + [','] + b)[i])
  {
    var t := a + [','] + b;
    forall i | 0 <= i < |t| ensures IsNumberChar(t[i]) {
      if i < |a| { assert t[i] == a[i]; }
      else if i > |a| { assert t[i] == b[i - |a| - 1]; }
    }
  }

  /** Focus on a number followed by the suffix takes the suffix away: the
      custom tip field showing `12.5%` is left with `12.5`. */
  lemma FocusSuffixed(t: string, c: Config)
    requires ValidConfig(c)
    requires forall i :: 0 <= i < |t| ==> IsDigitOrDot(t[i])
    ensures FocusText(t + c.suffix, c) == t
  {
    FocusNumberText(t, c);
    RemoveCharAbsent(t, ',');
  }

  /** A custom tip of 100 or more, such as `250`, is shown as `100%` once the
      field loses focus. */
  lemma BlurTipOverMax(d: string)
    requires AllDigits(d) && d != [] && DigitsValue(d) >= 100
    ensures BlurText(d, CustomTip) == "100%"
  {
    BlurTipClamped(d);
    FormatHundred();
  }

  lemma BlurTipClamped(d: string)
    requires AllDigits(d) && d != [] && DigitsValue(d) >= 100
    ensures BlurText(d, CustomTip) == Format(100.0, 0, 2) + "%"
  {
    CustomTipValid();
    BlurDigits(d, CustomTip);
    ClampTip(DigitsValue(d) as real);
  }

  lemma FormatHundred()
    ensures Format(100.0, 0, 2) == "100"
  {
    FormatWhole(100, 2);
    Hundred();
  }

  /** Digits typed into a field are read as their value on blur. */
  lemma BlurDigits(d: string, c: Config)
    requires ValidConfig(c) && AllDigits(d) && d != []
    ensures BlurText(d, c) == Format(Clamp(DigitsValue(d) as real, c.min, c.max), MinFractionDigits(c), c.decimals) + c.suffix
  {
    GetNumericValuePlain(d, c.suffix);
    ParseFloatDigits(d);
  }

  lemma ClampTip(x: real)
    requires x >= MaxPercent
    ensures Clamp(x, CustomTip.min, CustomTip.max) == 100.0
  {
  }

  lemma Hundred()
    ensures NatToDigits(100) == "100"
  {
    assert NatToDigits(1) == "1";
    assert NatToDigits(10) == "10";
  }
}
