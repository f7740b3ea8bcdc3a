/** The calculator: reading the three fields, the tip and total per person,
    and whether the reset button is disabled. */
module TipEngine {
  import opened Wrappers
  import opened Strings
  import opened Numbers
  import opened NumericParser
  import opened Clamping
  import opened Formatter
  import opened Field

  /** The pattern `value.replace(suffix, '')` uses when `getNumericValue` is
      called without a suffix: `String(undefined)`. */
  const Undefined := "undefined"

  /** The `value` of the custom tip radio button. */
  const CustomRadioValue := "custom"

  /** `getTipPercent`: the custom field when the custom radio is checked,
      otherwise `Number` of the checked radio's value; with no radio checked
      that is `Number(undefined)`, which is NaN. */
  function TipPercent(checked: Option<string>, customText: string): (r: Option<real>)
    ensures checked.None? ==> r.None?
    ensures r.Some? ==> 0.0 <= r.value
  {
    match checked
    case None => None
    case Some(v) =>
      if v == CustomRadioValue then GetNumericValue(customText, CustomTip.suffix, EnUs)
      else NumberValue(v)
  }

  /** The numbers `getInputValue` reads; `None` stands for null or NaN. */
  datatype Inputs = Inputs(bill: Option<real>, tipPercent: Option<real>, people: Option<real>)

  function InputValues(billText: string, checked: Option<string>, customText: string, peopleText: string): (r: Inputs)
    ensures billText == [] ==> r.bill.None?
    ensures peopleText == [] ==> r.people.None?
    ensures checked.None? ==> r.tipPercent.None?
    ensures r.bill.Some? ==> 0.0 <= r.bill.value
    ensures r.tipPercent.Some? ==> 0.0 <= r.tipPercent.value
    ensures r.people.Some? ==> 0.0 <= r.people.value
  {
    Inputs(GetNumericValue(billText, Undefined, EnUs),
           TipPercent(checked, customText),
           GetNumericValue(peopleText, Undefined, EnUs))
  }

  datatype Shares = Shares(tipPerPerson: real, totalPerPerson: real)

  /** `Math.round(bill * 100)`: the bill to the nearest cent. */
  function BillCents(bill: real): (r: int)
    ensures Distance(r as real, Scale(bill, 2)) <= 0.5
    ensures bill >= 0.0 ==> r >= 0
  {
    assert bill >= 0.0 ==> Round(Scale(bill, 2)) >= 0 by {
      if bill >= 0.0 {
        ScaleMonotone(0.0, bill, 2);
        RoundMonotone(0.0, Scale(bill, 2));
      }
    }
    Round(Scale(bill, 2))
  }

  /** `Math.round(billCents * tipPercent / 100)`: the tip to the nearest cent. */
  function TipCents(billCents: int, tipPercent: real): (r: int)
    ensures Distance(r as real, Percent(billCents, tipPercent)) <= 0.5
    ensures billCents >= 0 && tipPercent >= 0.0 ==> r >= 0
  {
    assert billCents >= 0 && tipPercent >= 0.0 ==> Round(Percent(billCents, tipPercent)) >= 0 by {
      if billCents >= 0 && tipPercent >= 0.0 {
        RoundMonotone(0.0, Percent(billCents, tipPercent));
      }
    }
    Round(Percent(billCents, tipPercent))
  }

  /** `tipPercent` percent of `cents`. */
  function Percent(cents: int, tipPercent: real): (r: real)
    ensures cents >= 0 && tipPercent >= 0.0 ==> r >= 0.0
  {
    assert cents > 0 && tipPercent >= 0.0 ==> cents as real * tipPercent >= 0.0 by {
      if cents > 0 && tipPercent >= 0.0 { MulMonotone(0.0, tipPercent, cents as real); }
    }
    cents as real * tipPercent / 100.0
  }

  /** `cents / people`. */
  function Share(cents: int, people: real): (r: real)
    requires people != 0.0
    ensures cents >= 0 && people > 0.0 ==> r >= 0.0
  {
    assert cents >= 0 && people > 0.0 ==> cents as real / people >= 0.0 by {
      if cents >= 0 && people > 0.0 { DivMonotone(0.0, cents as real, people); }
    }
    cents as real / people
  }

  /** `k / 100`: whole cents as dollars. */
  function Dollars(k: int): (r: real)
    ensures Scale(r, 2) == k as real
    ensures Representable(r, 2)
  {
    RepresentableOf(k as real / 100.0, 2, k);
    k as real / 100.0
  }

  /** The result is all zero when a number is missing or there are no people. */
  predicate Incomplete(v: Inputs) {
    IsInvalidNumber(v.bill) || IsInvalidNumber(v.tipPercent) || IsInvalidNumber(v.people) ||
    v.people.value == 0.0
  }

  /** `calculateTip`: zero when a number is missing or there are no people;
      otherwise the bill and the tip are rounded to whole cents, and each
      person's share of the tip and of the total is rounded to a whole cent
      again. */
  function CalculateTip(v: Inputs): (r: Shares)
    ensures Incomplete(v) ==> r == Shares(0.0, 0.0)
    ensures Representable(r.tipPerPerson, 2) && Representable(r.totalPerPerson, 2)
  {
    if Incomplete(v) then
      RepresentableOf(0.0, 2, 0);
      Shares(0.0, 0.0)
    else
      var billCents := BillCents(v.bill.value);
      var tipCents := TipCents(billCents, v.tipPercent.value);
      var totalCents := billCents + tipCents;
      Shares(Dollars(Round(Share(tipCents, v.people.value))),
             Dollars(Round(Share(totalCents, v.people.value))))
  }

  /** `resetBtn.disabled`: no field holds a number, so the calculator shows
      zero. */
  predicate ResetDisabled(v: Inputs): (r: bool)
    ensures r ==> Incomplete(v) && CalculateTip(v) == Shares(0.0, 0.0)
  {
    IsInvalidNumber(v.bill) && IsInvalidNumber(v.tipPercent) && IsInvalidNumber(v.people)
  }

  // ---------------------------------------------------------------------
  // Properties

  /** Each amount is within half a cent of the exact share of the rounded cents. */
  lemma SharesNearExact(v: Inputs)
    requires !Incomplete(v)
    ensures var billCents := BillCents(v.bill.value);
      var tipCents := TipCents(billCents, v.tipPercent.value);
      var r := CalculateTip(v);
      Distance(r.tipPerPerson, Share(tipCents, v.people.value) / 100.0) <= 0.005 &&
      Distance(r.totalPerPerson, Share(billCents + tipCents, v.people.value) / 100.0) <= 0.005
  {
  }

  /** With nothing negative, no one's tip is negative or larger than their total. */
  lemma TipWithinTotal(v: Inputs)
    requires !Incomplete(v)
    requires v.bill.value >= 0.0 && v.tipPercent.value >= 0.0 && v.people.value > 0.0
    ensures 0.0 <= CalculateTip(v).tipPerPerson <= CalculateTip(v).totalPerPerson
  {
    var billCents := BillCents(v.bill.value);
    var tipCents := TipCents(billCents, v.tipPercent.value);
    var people := v.people.value;
    DivMonotone(tipCents as real, (billCents + tipCents) as real, people);
    RoundMonotone(0.0, Share(tipCents, people));
    RoundMonotone(Share(tipCents, people), Share(billCents + tipCents, people));
  }

  /** One person pays the whole rounded tip and the whole rounded total. */
  lemma SingleDiner(v: Inputs)
    requires !Incomplete(v) && v.people.value == 1.0
    ensures var billCents := BillCents(v.bill.value);
      var tipCents := TipCents(billCents, v.tipPercent.value);
      CalculateTip(v) == Shares(Dollars(tipCents), Dollars(billCents + tipCents))
  {
    var billCents := BillCents(v.bill.value);
    var tipCents := TipCents(billCents, v.tipPercent.value);
    RoundInteger(tipCents);
    RoundInteger(billCents + tipCents);
  }

  /** An 18% tip on 24.99 shared by three: 1.50 tip and 9.83 in all each. */
  lemma ThreeWayExample()
    ensures CalculateTip(Inputs(Some(24.99), Some(18.0), Some(3.0))) == Shares(1.5, 9.83)
  {
    assert BillCents(24.99) == 2499;
    assert TipCents(2499, 18.0) == 450;
    assert Round(Share(450, 3.0)) == 150;
    assert Round(Share(2949, 3.0)) == 983;
  }

  /** A 15% tip on 100.00 shared by two: 7.50 tip and 57.50 in all each. */
  lemma TwoWayExample()
    ensures CalculateTip(Inputs(Some(100.0), Some(15.0), Some(2.0))) == Shares(7.5, 57.5)
  {
    assert BillCents(100.0) == 10000;
    assert TipCents(10000, 15.0) == 1500;
    assert Round(Share(1500, 2.0)) == 750;
    assert Round(Share(11500, 2.0)) == 5750;
  }

  /** A zero bill gives zero for both amounts without a check of its own. */
  lemma ZeroBillExample()
    ensures CalculateTip(Inputs(Some(0.0), Some(20.0), Some(4.0))) == Shares(0.0, 0.0)
  {
    assert BillCents(0.0) == 0;
    assert TipCents(0, 20.0) == 0;
    assert Round(Share(0, 4.0)) == 0;
  }

  /** No tip for one person: the total is the bill. */
  lemma NoTipExample()
    ensures CalculateTip(Inputs(Some(19.99), Some(0.0), Some(1.0))) == Shares(0.0, 19.99)
  {
    assert BillCents(19.99) == 1999;
    assert TipCents(1999, 0.0) == 0;
    assert Round(Share(0, 1.0)) == 0;
    assert Round(Share(1999, 1.0)) == 1999;
  }

  /** A blank form disables the reset button. */
  lemma BlankFormDisablesReset(billText: string, peopleText: string)
    requires billText == [] && peopleText == []
    ensures ResetDisabled(InputValues(billText, None, "", peopleText))
  {
  }

  // ---------------------------------------------------------------------
  // Reading the fields

  /** Reading a field whose text holds only number characters without a
      suffix gives what reading it with an empty suffix gives. */
  lemma UndefinedSuffix(t: string)
    requires forall i :: 0 <= i < |t| ==> IsNumberChar(t[i])
    ensures GetNumericValue(t, Undefined, EnUs) == GetNumericValue(t, "", EnUs)
  {
    if t != [] {
      StripInertSuffix(t, Undefined);
      StripInertSuffix(t, "");
    }
  }

  /** A field without a suffix is read by the calculator as it reads itself on blur. */
  lemma FieldRead(value: string, c: Config)
    requires ValidConfig(c) && c.suffix == []
    ensures GetNumericValue(BlurText(value, c), Undefined, EnUs) == GetNumericValue(BlurText(value, c), c.suffix, EnUs)
  {
    match GetNumericValue(value, c.suffix, EnUs)
    case None =>
    case Some(n) =>
      var x := Clamp(n, c.min, c.max);
      ClampedNonNegative(n, c);
      var t := Format(x, MinFractionDigits(c), c.decimals);
      assert BlurText(value, c) == t + c.suffix;
      assert t + c.suffix == t;
      UndefinedSuffix(t);
  }

  /** After the bill field has lost focus, the calculator reads the number the
      field shows: the typed number clamped to the maximum bill and rounded to
      cents. */
  lemma BlurredBillRead(value: string)
    requires GetNumericValue(value, Bill.suffix, EnUs).Some?
    ensures var x := Clamp(GetNumericValue(value, Bill.suffix, EnUs).value, Bill.min, Bill.max);
      GetNumericValue(BlurText(value, Bill), Undefined, EnUs) == Some(RoundTo(x, 2)) &&
      0.0 <= RoundTo(x, 2) <= MaxBill
  {
    BillValid();
    BlurValue(value, Bill);
    FieldRead(value, Bill);
  }

  /** After the people field has lost focus, the calculator reads a whole
      number from 0 to 999. */
  lemma BlurredPeopleRead(value: string)
    requires GetNumericValue(value, People.suffix, EnUs).Some?
    ensures var r := GetNumericValue(BlurText(value, People), Undefined, EnUs);
      r.Some? && IsInteger(r.value) && 0.0 <= r.value <= MaxPeople
  {
    PeopleValid();
    BlurValue(value, People);
    FieldRead(value, People);
    var n := GetNumericValue(value, People.suffix, EnUs).value;
    var x := Clamp(n, People.min, People.max);
    ClampedNonNegative(n, People);
    WholeRounded(x);
  }

  lemma WholeRounded(x: real)
    requires x >= 0.0
    ensures IsInteger(RoundTo(x, 0))
  {
    RoundedScale(x, 0);
    assert Scale(RoundTo(x, 0), 0) == RoundTo(x, 0);
  }

  /** After the custom tip field has lost focus, a checked custom radio gives
      the shown percentage: the typed one clamped to 0..100 and rounded to two
      decimals. */
  lemma BlurredTipRead(value: string)
    requires GetNumericValue(value, CustomTip.suffix, EnUs).Some?
    ensures var x := Clamp(GetNumericValue(value, CustomTip.suffix, EnUs).value, CustomTip.min, CustomTip.max);
      TipPercent(Some(CustomRadioValue), BlurText(value, CustomTip)) == Some(RoundTo(x, 2)) &&
      0.0 <= RoundTo(x, 2) <= MaxPercent
  {
    CustomTipValid();
    BlurValue(value, CustomTip);
  }

  /** A fixed tip radio whose value is a digit string gives that number, and
      no checked radio gives no number. */
  lemma FixedTipRead(v: string, customText: string)
    requires AllDigits(v) && v != []
    ensures TipPercent(Some(v), customText) == Some(DigitsValue(v) as real)
    ensures TipPercent(None, customText).None?
  {
    assert v != CustomRadioValue by { assert !IsDigit(CustomRadioValue[0]); }
    NumberValueDigits(v);
  }
}
