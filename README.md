# Tip calculator: bounded decimal input and tip engine

A model of the logic inside `js/main.js` of a browser tip calculator, with
proofs about it. The logic has two parts.

- **The decimal input controller** (`setupDecimalInput`). It serves three
  text fields: the bill, the custom tip percentage and the number of people.
  - On every `input` event, `normalize` rewrites the typed text. The result
    is digits with at most one decimal separator, at most `maxDigits` integer
    digits and at most `decimals` fraction digits.
  - On `blur`, `format` reads the number back with `getNumericValue`, clamps
    it to `[min, max]` and prints it the en-US way: grouping commas, the
    field's fraction digits and its suffix.
  - On `focus`, `removeFormat` takes that formatting off again.
- **The tip engine** (`calculateTip`, `getTipPercent`, the reset-button
  state). It reads the three fields and works in whole cents: the tip and
  the total per person.

The modules follow the program's structure:

| file | module | what it holds |
|---|---|---|
| `wrappers.dfy` | `Wrappers` | `Option`, possibly infinite bounds, the locale's separators |
| `strings.dfy` | `Strings` | the JavaScript string operations the code uses (`replace`, regex deletion, `trim`, `lastIndexOf`, `split`/`join`) |
| `numbers.dfy` | `Numbers` | digit strings and their values, `Math.round`, rounding to `d` decimals |
| `normalizer.dfy` | `Normalizer` | `normalize` |
| `parser.dfy` | `NumericParser` | `getNumericValue`, `parseFloat`, `Number`, `isInvalidNumber` |
| `clamp.dfy` | `Clamping` | `clamp` |
| `format.dfy` | `Formatter` | the `Intl.NumberFormat('en-US')` output of a field |
| `field.dfy` | `Field` | the field options, the three configured fields, and the input element as a class with focus, input and blur handlers |
| `tip.dfy` | `TipEngine` | `getInputValue`, `getTipPercent`, `calculateTip`, the reset state |

Numbers are exact reals. `None` stands for JavaScript's `null` and `NaN`.
The locale is en-US, so the group separator is `,` and the decimal
separator is `.`.

`Field.DecimalInput` is a class with:
- `value`, the text of the element;
- `events`, the calls made so far to the `onChange` and `onBlur` callbacks;
- a method for each DOM event.

Each method's contract gives the new text as a function of the old text
(`FocusText`, `InputText`, `BlurText`). Each also gives the callback call
that the event adds. The lemmas in `Field` are stated about those functions.

Choices the code makes that differ from common expectations, which the model
follows:
- `Math.round` rounds ties toward +∞, not away from zero. For the
  non-negative amounts the calculator sees, the two rules agree.
- `calculateTip` has no separate check for a zero bill. A zero bill still
  yields zero amounts, as `TipEngine.ZeroBillExample` shows.
- Numbers are clamped only on blur, never while typing. The digit cap is
  applied while typing.
- Focus keeps trailing fraction zeros: `12.50` becomes `12.50`.

## Model

| member | source | states |
|---|---|---|
| Field.CustomTipValid | js/main.js:37-48 | the custom tip field's options (0 to 100, two decimals, three digits, suffix `%`) are options under which formatting and reading agree |
| Field.BillValid | js/main.js:55-61 | the bill field's options (0 to 9999999.99, two decimals, seven digits) are consistent: the maximum fits seven integer digits and is printable with two decimals |
| Field.PeopleValid | js/main.js:63-70 | the people field's options (0 to 999, no decimals, three digits) are consistent in the same way |
| Field.ConfigsValid | js/main.js:37-70 | all three configured fields satisfy `ValidConfig` |
| Field.MinFractionDigits | js/main.js:252-264 | the format's minimum fraction digits is either 0 or `decimals`, and it is 0 exactly when trailing zeros are trimmed or `decimals` is 0 |
| Field.UntrimmedFraction | js/main.js:260-263 | a field that keeps trailing zeros prints exactly `decimals` fraction digits for every non-negative number |
| Field.BillTwoDecimals | js/main.js:55-61 | every non-negative bill is shown ending in a point followed by exactly two digits |
| Field.DecimalInput.constructor | js/main.js:196-205 | a new field holds its initial text and has made no callback calls |
| Field.DecimalInput.Focus | js/main.js:301 | focus replaces the text by `removeFormat` of it and calls no callback |
| Field.DecimalInput.Input | js/main.js:291-294 | an input event replaces the text by `normalize` of the typed text and appends one `onChange` call with it when `onChange` is installed |
| Field.DecimalInput.Blur | js/main.js:296-299 | blur replaces the text by `format()` of it and appends one `onBlur` call with the new text when `onBlur` is installed |
| Field.FocusText | js/main.js:277-282 | what focus leaves holds only digits and `.` |
| Field.BlurText | js/main.js:266-275 | blur empties the field exactly when its text does not read as a number |
| Field.InputText | js/main.js:291-294 | no contract of its own: the text is `normalize` of the typed text, so its shape is stated by `Field.InputEditing` and `Normalizer.Normalize` |
| Field.Notify | js/main.js:285-289 | `trigger` calls the callback exactly when one is installed |
| Field.BlurValue | js/main.js:266-275 | after blur the field reads as the typed number clamped to `[min, max]` and rounded to `decimals`, and that value is within the bounds |
| Field.BlurIdempotent | js/main.js:266-275 | blurring twice shows what blurring once shows |
| Field.RoundedWithin | js/main.js:207-211 | rounding a clamped value to `decimals` keeps it within bounds printable at that precision |
| Field.ClampedNonNegative | js/main.js:207-211 | a parsed number clamps to a non-negative value under the configured bounds |
| Field.FocusNumberText | js/main.js:277-282 | focus on number text followed by the suffix removes the suffix and the grouping commas and keeps every other character in order |
| Field.FocusFormatted | js/main.js:277-282 | focus on a formatted number leaves its digits and decimal point without grouping |
| Field.FocusKeepsDigits | js/main.js:277-282 | once the suffix is removed, focus keeps every digit in order, trailing fraction zeros included |
| Field.FocusAfterBlur | js/main.js:266-282 | focus after blur keeps the number the field shows |
| Field.FocusEmpty | js/main.js:277-282 | focus leaves an empty field empty |
| Field.BlurFocusBlur | js/main.js:266-301 | blur, focus and blur again shows what the first blur showed |
| Field.FocusAfterBlurEditing | js/main.js:266-301 | focus after blur leaves text within the digit limits, which the input handler keeps unchanged |
| Field.FocusEditingText | js/main.js:277-282 | focus leaves text produced by the input handler unchanged |
| Field.InputIdempotent | js/main.js:291-294 | normalising the text the input handler produced changes nothing |
| Field.InputValue | js/main.js:213-250 | after typing, the field reads as no number exactly when it is empty or a lone `.`; otherwise it reads as the number its digits spell |
| Field.InputEditing | js/main.js:213-250 | after typing, the field holds digits, at most one `.`, at most `maxDigits` integer digits and at most `decimals` fraction digits |
| Field.FocusGrouped | js/main.js:277-282 | focus on `a,b` followed by the suffix leaves `ab`, as `1,234.50` becomes `1234.50` |
| Field.FocusSuffixed | js/main.js:277-282 | focus on digits and `.` followed by the suffix leaves them as they are, as `12.5%` becomes `12.5` |
| Field.BlurTipOverMax | js/main.js:37-48 | a custom tip of 100 or more is shown as `100%` after blur |
| Field.BlurDigits | js/main.js:266-275 | typed digits are shown on blur as their value clamped and formatted |
| Normalizer.Normalize | js/main.js:213-250 | with a non-digit decimal separator, the result is digits, optionally one separator and digits, within the integer and fraction digit caps |
| Normalizer.Reshape | js/main.js:217-250 | the result of splitting and capping is digits, optionally one decimal separator and digits, within the integer and fraction digit caps |
| Normalizer.DecimalChar | js/main.js:217-223 | the chosen separator is `.` or `,`, and there is none exactly when the text holds neither |
| Normalizer.Sanitize | js/main.js:214-215 | the text `normalize` goes on to split holds only digits, `.` and `,` |
| Normalizer.CapDigits | js/main.js:232-234 | the integer part keeps its leftmost digits, at most `maxDigits`, and stays whole when it already fits |
| Normalizer.Take | js/main.js:247 | the fraction keeps its leftmost `decimals` digits |
| Normalizer.NormalizeSplit | js/main.js:217-249 | when the last `.` or `,` is a `c`, the text is split at the first `c`: the integer part is the capped digits before it, the fraction is every later digit cut to `decimals`, joined by the locale's separator |
| Normalizer.NormalizeWithoutSeparator | js/main.js:229-237 | text without `.` or `,` keeps its digits only, capped at `maxDigits` |
| Normalizer.DecimalCharLast | js/main.js:217-223 | the separator chosen is the kind of the last `.` or `,` |
| Normalizer.NormalizeEditingText | js/main.js:213-250 | text already within the digit limits is left unchanged |
| Normalizer.NormalizeIdempotent | js/main.js:213-250 | normalising twice is normalising once |
| Normalizer.NormalizeMixedSeparators | js/main.js:217-249 | `1,234.5` and `1.234,5` both become `1234.5`: an earlier separator of the other kind is dropped |
| Normalizer.NormalizeRepeatedSeparator | js/main.js:239-249 | `1.2.3` becomes `1.23`: a repeated separator splits at its first occurrence and the later digits are joined |
| Normalizer.LoneSeparator | js/main.js:225-227 | a lone `.` or `,` becomes the locale's decimal separator |
| Normalizer.TrailingSeparatorKept | js/main.js:239-249 | a typed separator is kept even with no fraction digits allowed: `12.` stays `12.` |
| Normalizer.NormalizeOutputChars | js/main.js:213-250 | whatever is typed, the result holds only digits and at most one decimal separator |
| Normalizer.SanitizeUnchanged | js/main.js:214-215 | text made only of digits, `.` and `,` is unchanged by the suffix removal, trimming and filtering |
| Clamping.Clamp | js/main.js:207-211 | below `min` gives `min`, above `max` gives `max`, within the bounds gives the number; ordered bounds always give a value within them |
| Clamping.ClampIdempotent | js/main.js:207-211 | clamping twice is clamping once |
| Clamping.ClampNearest | js/main.js:207-211 | the clamped value is the point of the range nearest to the number |
| Clamping.ClampMonotone | js/main.js:207-211 | clamping keeps the order of numbers |
| NumericParser.GetNumericValue | js/main.js:304-318 | empty text reads as `null`, and what reads as a number is not negative |
| NumericParser.Canonical | js/main.js:307-314 | the text passed to `parseFloat` has no group separator left |
| NumericParser.ParseFloat | js/main.js:316-317 | `parseFloat` finds a number exactly when the text without leading whitespace starts with a digit or `.` and a digit |
| NumericParser.NumberValue | js/main.js:154 | `Number` of blank text is 0, and any other text it reads starts with a number |
| NumericParser.NumberValueDigits | js/main.js:154 | `Number` reads a digit string as its value |
| NumericParser.ScanDecimal | js/main.js:316 | a decimal literal is found exactly at text starting with a number |
| NumericParser.LeadingDigits | js/main.js:316 | the longest digit prefix stops at the first non-digit |
| NumericParser.LiteralValue | js/main.js:316 | the literal's value lies between its integer part and the next integer |
| NumericParser.ParseFloatPoint | js/main.js:316 | `parseFloat("a.b")` is the literal value of `a.b` |
| NumericParser.ParseFloatDigits | js/main.js:316 | `parseFloat` reads a digit string as its value |
| NumericParser.ParseFloatPointPrefix | js/main.js:316 | `parseFloat` reads the longest literal prefix: `a.b` followed by text not starting with a digit reads as `a.b` |
| NumericParser.ScanPointPrefix | js/main.js:316 | the literal found in `a.b` followed by text not starting with a digit spans exactly `a.b` |
| NumericParser.ParseFloatDigitsPrefix | js/main.js:316 | digits followed by text starting with neither a digit nor `.` read as the digits |
| NumericParser.TrailingTextExample | js/main.js:316 | `parseFloat("12abc")` is 12 |
| NumericParser.SecondPointExample | js/main.js:316 | `parseFloat("1.2.3")` is 1.2 |
| NumericParser.ParseFloatNothing | js/main.js:316-317 | blank text, or text and `.` with no digit, reads as `NaN` |
| NumericParser.GetNumericValuePlain | js/main.js:304-318 | digits and `.` with no suffix reach `parseFloat` unchanged |
| NumericParser.GetNumericValueEditingText | js/main.js:304-318 | text the input handler leaves reads as `null` exactly when empty or a lone `.`, and otherwise as the value of its digits |
| NumericParser.GetNumericValueSuffixed | js/main.js:307 | a suffix written after the number is stripped before reading |
| NumericParser.CanonicalGrouped | js/main.js:307-314 | number text followed by the suffix reaches `parseFloat` with the suffix and grouping commas removed |
| NumericParser.GetNumericValueDigits | js/main.js:304-318 | digits followed by the suffix read as the number they spell |
| NumericParser.GetNumericValueBlank | js/main.js:305-317 | blank text reads as `null` |
| NumericParser.PercentExample | js/main.js:152 | `15%` in the custom tip field reads as 15 |
| NumericParser.LonePointExample | js/main.js:304-318 | a lone `.` reads as `null` |
| NumericParser.BlankExample | js/main.js:304-318 | whitespace alone reads as `null` |
| NumericParser.IsInvalidNumber | js/main.js:181-187 | no contract of its own: `null`, `undefined` and `NaN` are the one value `None`, so a reading is invalid exactly when it is `None` |
| Numbers.Round | js/main.js:116-122 | `Math.round` gives the integer within half of the number, ties going up |
| Strings.Filter | js/main.js:215 | a global regex deletion keeps only accepted characters, never more than there were, leaves text made only of them unchanged, and leaves nothing exactly when no character is accepted; with `FilterAppend` this fixes the result for every text |
| Strings.FilterAppend | js/main.js:215 | deleting characters from joined text is deleting them from each part |
| Strings.RemoveChar | js/main.js:310-311 | deleting every group separator leaves none |
| Strings.ReplaceChar | js/main.js:313-314 | replacing every decimal separator by `.` keeps the length and changes exactly those characters |
| Strings.ReplaceFirst | js/main.js:214 | no contract of its own: `replace` with a string pattern replaces its first occurrence; stated by `Strings.ReplaceFirstAbsent`, `Strings.ReplaceFirstTrailing` and `Strings.StripInertSuffix` |
| Strings.ReplaceFirstAbsent | js/main.js:214 | a pattern whose first character does not occur is not replaced |
| Strings.ReplaceFirstTrailing | js/main.js:214 | appending the suffix and stripping its first occurrence gives the text back |
| Strings.StripInertSuffix | js/main.js:214 | stripping a `%` or empty suffix from number text changes nothing |
| Strings.ReplaceFirstSame | js/main.js:280 | replacing a pattern by itself changes nothing |
| Strings.TrimStart | js/main.js:308 | `trimStart` removes exactly the leading whitespace |
| Strings.TrimEnd | js/main.js:308 | `trimEnd` removes exactly the trailing whitespace |
| Strings.Trim | js/main.js:308 | the trimmed text neither starts nor ends with whitespace |
| Strings.TrimUnchanged | js/main.js:308 | text with no whitespace at either end is its own trim |
| Strings.KeepDigits | js/main.js:230 | deleting every non-digit leaves only digits, leaves digit text unchanged, and leaves nothing exactly when the text has no digit |
| Strings.IndexOf | js/main.js:214 | the first occurrence of the pattern, as `replace(suffix, '')` finds it: the pattern occurs there and nowhere earlier, and `None` exactly when it occurs nowhere |
| Strings.LastIndexOf | js/main.js:217-218 | `lastIndexOf` gives -1 or a position holding the character, with none after it |
| Strings.Split | js/main.js:239 | `split` gives at least one part; `Strings.SplitAbsent` and `Strings.SplitAtFirst` fix every part |
| Strings.SplitAbsent | js/main.js:239 | text without the separator splits into itself alone |
| Strings.SplitAtFirst | js/main.js:239 | the first part of `split` is the text before the first separator, and the rest is the split of the text after it |
| Strings.Concat | js/main.js:240 | no contract of its own: `join('')` of the parts; `Strings.SplitJoinDigits` states what joining the split parts keeps |
| Strings.SplitJoinDigits | js/main.js:239-241 | splitting at a non-digit and joining the parts keeps every digit in order |
| Formatter.Format | js/main.js:273 | a formatted non-negative value holds only digits, `,` and `.` and is never empty |
| Formatter.Group | js/main.js:273 | grouping adds only `,` and keeps the first and last digit |
| Formatter.GroupShape | js/main.js:273 | a `,` stands exactly where a multiple of four characters remains to the end |
| Formatter.UngroupGroup | js/main.js:273 | deleting the commas of grouped digits gives the digits back |
| Formatter.TrimZeros | js/main.js:255-258 | trimming keeps a prefix of at least the minimum length, ends in no extra `0`, and keeps the fraction's value |
| Formatter.PartsOf | js/main.js:252-264 | the printed digits have no leading zero and between the minimum and maximum fraction digits, with no trailing zero beyond the minimum |
| Formatter.PartsValue | js/main.js:252-264 | the printed digits spell the value rounded to the maximum fraction digits |
| Formatter.FormatRoundTrip | js/main.js:266-275 | what `format()` writes, followed by the suffix, reads back as the value rounded to `decimals` |
| Formatter.FormatRoundTripExact | js/main.js:266-275 | a value with at most `decimals` fraction digits reads back exactly |
| Formatter.FormatRounded | js/main.js:273 | formatting depends only on the value rounded to the maximum fraction digits |
| Formatter.FormatWhole | js/main.js:255-258 | with no minimum fraction digits, a whole number prints as its grouped digits |
| Formatter.IntDigitsBound | js/main.js:59 | a rounded value below `10^k` prints with at most `k` integer digits |
| TipEngine.InputValues | js/main.js:96-102 | an empty bill or people field, or no checked radio, reads as no number, and every number read is non-negative |
| TipEngine.TipPercent | js/main.js:149-155 | no checked radio gives no number, and any percentage read is non-negative |
| TipEngine.BillCents | js/main.js:116 | the bill is taken to the nearest cent, non-negative for a non-negative bill |
| TipEngine.Percent | js/main.js:118 | the percentage of non-negative cents at a non-negative rate is non-negative |
| TipEngine.TipCents | js/main.js:118 | the tip is taken to the nearest cent of its percentage of the bill cents, non-negative when both are |
| TipEngine.Share | js/main.js:121-122 | a non-negative number of cents shared by a positive number of people is non-negative |
| TipEngine.Dollars | js/main.js:121-122 | whole cents divided by 100 are an amount with at most two decimals, worth exactly those cents |
| TipEngine.CalculateTip | js/main.js:104-125 | a missing number or zero people gives zero tip and total; both amounts are always whole cents |
| TipEngine.ResetDisabled | js/main.js:161-167 | a disabled reset button means a number is missing, so the calculator shows zero |
| TipEngine.SharesNearExact | js/main.js:116-124 | each amount is within half a cent of the exact per-person share of the rounded cents |
| TipEngine.TipWithinTotal | js/main.js:104-125 | with nothing negative, nobody's tip is negative or larger than their total |
| TipEngine.SingleDiner | js/main.js:116-124 | one person pays the whole rounded tip and the whole rounded total |
| TipEngine.ThreeWayExample | js/main.js:104-125 | an 18% tip on 24.99 shared by three is 1.50 tip and 9.83 in all each |
| TipEngine.TwoWayExample | js/main.js:104-125 | a 15% tip on 100.00 shared by two is 7.50 tip and 57.50 in all each |
| TipEngine.ZeroBillExample | js/main.js:104-125 | a 20% tip on a zero bill shared by four is zero |
| TipEngine.NoTipExample | js/main.js:104-125 | no tip on 19.99 for one person is 0 tip and 19.99 total |
| TipEngine.BlankFormDisablesReset | js/main.js:161-167 | a blank form with no radio checked disables the reset button |
| TipEngine.UndefinedSuffix | js/main.js:97-99 | reading number text without a suffix gives what reading it with an empty suffix gives |
| TipEngine.FieldRead | js/main.js:96-102 | a field without a suffix reads into the calculator as it reads itself on blur |
| TipEngine.BlurredBillRead | js/main.js:55-61 | after the bill field loses focus, the calculator reads the typed bill clamped to 0..9999999.99 and rounded to cents |
| TipEngine.BlurredPeopleRead | js/main.js:63-70 | after the people field loses focus, the calculator reads a whole number from 0 to 999 |
| TipEngine.BlurredTipRead | js/main.js:149-155 | with the custom radio checked, the calculator reads the shown percentage: the typed one clamped to 0..100 and rounded to two decimals |
| TipEngine.FixedTipRead | js/main.js:149-155 | a fixed tip radio with a digit value gives that number, and no checked radio gives no number |

## Left out

- The DOM is not modelled: querying elements, `addEventListener`, `requestAnimationFrame` focusing the custom field, and `setOutput`. The money formatter of the output boxes (lines 127-146) is left out too. The model starts from field text and ends at numbers or text.
- `clearTipSelection` and the radio `change` handlers are not modelled. The custom tip field's `onBlur` and every field's `onChange` appear only as `Field.Event` entries in `events`. Their effects, `updateTip` and clearing the radios, are not modelled.
- The form `reset` handler, its `setTimeout` and the JustValidate rule on the people field are not modelled.
- Separator discovery through `formatToParts` (lines 189-194) is not modelled. The separators are fixed to en-US's, `,` and `.`.
- The case of a locale without a group separator (an empty `groupSep`, line 191) is not modelled. It cannot occur for en-US.
- Formatter.Format: `Intl.NumberFormat` is approximated by exact en-US fixed-point printing. Ties round up, the integer part is grouped in threes with `,`, and a negative value is `-` followed by its magnitude. Browser-specific rounding of binary floats is not captured.
- Numbers are exact reals, not IEEE-754 doubles. For example `Math.round(bill * 100)` is computed without binary rounding error.
- NumericParser.ParseFloat: only literals of the form `digits[.digits]` are read. Signs, exponents, `Infinity` and hexadecimal text are not. None of them survives `normalize` or `format`.
- NumericParser.NumberValue: `Number` is modelled only for the tip radio values, with blank or `digits[.digits]` text.
- TipEngine.InputValues: `getNumericValue(x)` without a suffix calls `replace(undefined, '')`. That removes the text `undefined`, and the model does the same. `TipEngine.UndefinedSuffix` shows this reads number text as an empty suffix would.
- Formatter.Format: negative values are never formatted, since everything `getNumericValue` reads is non-negative. The model has no further properties of the negative branch.
