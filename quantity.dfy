/**
 * Quantities as the list shows and re-reads them: the text `"<n> <unit>"`
 * for whole values and `"<int>,<dd> <unit>"` otherwise, the prompt answers
 * that create them, their re-parsing through the pattern
 * `^([\d.,]+)\s*([a-zA-Z]+)$`, and the unit-aware step of the + and - buttons.
 *
 * Values are exact rationals (`real`) rather than IEEE doubles; JavaScript's
 * NaN is kept as a value of its own because the display text can be re-read
 * to it.
 */
module Quantity {
  import opened Wrappers
  import opened Text

  /** A JavaScript number as this program meets it: NaN, or a (non-IEEE) value. */
  datatype JsNumber = NaN | Num(value: real)

  predicate AllDigits(s: string)
  {
    forall i :: 0 <= i < |s| ==> IsDigit(s[i])
  }

  /** The class `[\d.,]`. */
  predicate IsNumericChar(c: char)
  {
    IsDigit(c) || c == '.' || c == ','
  }

  predicate AllNumeric(s: string)
  {
    forall i :: 0 <= i < |s| ==> IsNumericChar(s[i])
  }

  function DigitValue(c: char): (d: nat)
    requires IsDigit(c)
    ensures d < 10
  {
    c as int - '0' as int
  }

  function DigitChar(d: nat): (c: char)
    requires d < 10
    ensures IsDigit(c) && DigitValue(c) == d
  {
    ('0' as int + d) as char
  }

  /** The end of the run of digits that starts at `i`. */
  function DigitRun(s: string, i: nat): (j: nat)
    requires i <= |s|
    ensures i <= j <= |s|
    ensures forall k :: i <= k < j ==> IsDigit(s[k])
    ensures j < |s| ==> !IsDigit(s[j])
    decreases |s| - i
  {
    if i < |s| && IsDigit(s[i]) then DigitRun(s, i + 1) else i
  }

  /** The value of a string of decimal digits, most significant first. */
  function DigitsValue(ds: string): nat
    requires AllDigits(ds)
  {
    if ds == [] then 0 else DigitsValue(ds[..|ds| - 1]) * 10 + DigitValue(ds[|ds| - 1])
  }

  /** The value of the digits after a decimal point: `0.d1d2...`, always in `[0, 1)`. */
  function FractionValue(frac: string): (v: real)
    requires AllDigits(frac)
    ensures 0.0 <= v < 1.0
  {
    if frac == [] then 0.0 else (DigitValue(frac[0]) as real + FractionValue(frac[1..])) / 10.0
  }

  /** The value of a decimal numeral with whole digits `whole` and fraction digits `frac`. */
  function DecimalValue(whole: string, frac: string): (v: real)
    requires AllDigits(whole) && AllDigits(frac)
    ensures DigitsValue(whole) as real <= v < DigitsValue(whole) as real + 1.0
  {
    DigitsValue(whole) as real + FractionValue(frac)
  }

  /**
   * The unsigned numeral that starts at `j`: the longest prefix of the form
   * digits [ "." digits ] holding at least one digit, if there is one.
   */
  function ParseUnsigned(s: string, j: nat): Option<real>
    requires j <= |s|
  {
    var k := DigitRun(s, j);
    var f := if k < |s| && s[k] == '.' then k + 1 else k;
    var e := DigitRun(s, f);
    if k == j && e == f then None
    else
      assert AllDigits(s[j..k]) && AllDigits(s[f..e]);
      Some(DecimalValue(s[j..k], s[f..e]))
  }

  /**
   * `parseFloat` on decimal notation: leading whitespace is skipped, an
   * optional sign is read, then the unsigned numeral after it; anything that
   * follows is ignored.  With no digit the result is NaN.
   */
  function ParseFloat(s: string): (r: JsNumber)
    ensures r.Num? && (forall i :: 0 <= i < |s| ==> s[i] != '-') ==> r.value >= 0.0
  {
    var i := SkipSpaces(s, 0);
    var signed := i < |s| && (s[i] == '+' || s[i] == '-');
    match ParseUnsigned(s, if signed then i + 1 else i)
    case None => NaN
    case Some(magnitude) => Num(if signed && s[i] == '-' then -magnitude else magnitude)
  }

  /** `s.replace(',', '.')`: the first comma, and only that one, becomes a dot. */
  function ReplaceFirstComma(s: string): (r: string)
    ensures |r| == |s|
  {
    if s == [] then []
    else if s[0] == ',' then ['.'] + s[1..]
    else [s[0]] + ReplaceFirstComma(s[1..])
  }

  /** Decimal digits of a whole number, as `Number.prototype.toString` writes them. */
  function IntToString(n: nat): (r: string)
    ensures r != [] && AllDigits(r)
    ensures n > 0 ==> r[0] != '0'
    ensures |r| > 1 ==> r[0] != '0'
  {
    if n < 10 then [DigitChar(n)] else IntToString(n / 10) + [DigitChar(n % 10)]
  }

  /** The digits `IntToString` writes are worth the number they were written for. */
  lemma {:induction false} IntToStringValue(n: nat)
    ensures DigitsValue(IntToString(n)) == n
  {
    if n >= 10 {
      var r := IntToString(n);
      assert r[..|r| - 1] == IntToString(n / 10);
      IntToStringValue(n / 10);
    }
  }

  // ---------------------------------------------------------------- formatting

  /** `v % 1 === 0`. */
  predicate IsIntegral(v: real)
  {
    v.Floor as real == v
  }

  /** `v % 1 === 0` holds for every integer, whose floor is itself (and by definition only for integers). */
  lemma IntegralIsWhole(v: real, k: int)
    ensures v == k as real ==> IsIntegral(v) && v.Floor == k
  {
  }

  /** A non-negative multiple of 0.01. */
  predicate IsHundredths(v: real)
  {
    v >= 0.0 && IsIntegral(v * 100.0)
  }

  /** The whole number of hundredths `toFixed(2)` writes for `v`: the nearest, ties going up. */
  function Hundredths(v: real): (n: nat)
    requires v >= 0.0
    ensures n as real - 0.5 <= v * 100.0 < n as real + 0.5
  {
    (v * 100.0 + 0.5).Floor
  }

  /** The two decimal digits of `c` hundredths, tens first. */
  function TwoDigits(c: nat): (ds: string)
    requires c < 100
    ensures |ds| == 2 && AllDigits(ds)
  {
    [DigitChar(c / 10), DigitChar(c % 10)]
  }

  /** The two-decimal numeral of `whole` and `cents`: digits, a comma and two digits. */
  function FixedNumeral(whole: nat, cents: nat): string
    requires cents < 100
  {
    IntToString(whole) + "," + TwoDigits(cents)
  }

  /** `v.toFixed(2).replace('.', ',')`. */
  function FixedTwo(v: real): string
    requires v >= 0.0
  {
    var n := Hundredths(v);
    FixedNumeral(n / 100, n % 100)
  }

  /** The two-decimal numeral is at least `0,00`: digits, a comma, then exactly two digits. */
  lemma FixedTwoShape(v: real)
    requires v >= 0.0
    ensures var r := FixedTwo(v); |r| >= 4 && r[|r| - 3] == ',' && AllNumeric(r)
  {
    var n := Hundredths(v);
    FixedNumeralShape(n / 100, n % 100);
  }

  /** The two-decimal numeral, its comma read as a dot, parses to `v` rounded to hundredths. */
  lemma FixedTwoValue(v: real)
    requires v >= 0.0
    ensures ParseFloat(ReplaceFirstComma(FixedTwo(v))) == Num(Hundredths(v) as real / 100.0)
  {
    var whole, cents := HundredthsSplit(Hundredths(v));
    FixedNumeralValue(whole, cents);
  }

  /** The display text of a quantity: whole values without decimals, others with two and a comma. */
  function FormatQuantity(v: real, unit: string): (text: string)
    requires v >= 0.0
    ensures exists number: string :: number != [] && AllNumeric(number) && text == number + " " + unit
  {
    var number := if IsIntegral(v) then IntToString(v.Floor) else FixedTwo(v);
    assert number != [] && AllNumeric(number) by {
      if IsIntegral(v) {
        DigitsAreNumeric(number);
      } else {
        var n := Hundredths(v);
        FixedNumeralShape(n / 100, n % 100);
      }
    }
    number + " " + unit
  }

  lemma DigitsAreNumeric(ds: string)
    requires AllDigits(ds)
    ensures AllNumeric(ds)
  {
    forall i | 0 <= i < |ds| ensures IsNumericChar(ds[i]) {
      assert IsDigit(ds[i]);
    }
  }

  /** The value the display text of `v` shows: `v` itself when whole, else `v` rounded to hundredths. */
  function Shown(v: real): real
    requires v >= 0.0
  {
    if IsIntegral(v) then v else Hundredths(v) as real / 100.0
  }

  // ---------------------------------------------------------------- re-reading the display

  /** `text` is a number part, a whitespace gap and a unit, as the pattern demands. */
  predicate Splits(text: string, number: string, gap: string, unit: string)
  {
    && text == number + gap + unit
    && number != [] && AllNumeric(number)
    && AllSpaces(gap)
    && unit != [] && AllLetters(unit)
  }

  /** The end of the run of `[\d.,]` characters that starts at `i`. */
  function NumericRun(s: string, i: nat): (j: nat)
    requires i <= |s|
    ensures i <= j <= |s|
    ensures forall k :: i <= k < j ==> IsNumericChar(s[k])
    ensures j < |s| ==> !IsNumericChar(s[j])
    decreases |s| - i
  {
    if i < |s| && IsNumericChar(s[i]) then NumericRun(s, i + 1) else i
  }

  /** `text.match(/^([\d\.,]+)\s*([a-zA-Z]+)$/)`: the two captured groups. */
  function MatchQuantity(text: string): (r: Option<(string, string)>)
    ensures r.Some? ==> exists gap :: Splits(text, r.value.0, gap, r.value.1)
  {
    var n := NumericRun(text, 0);
    var w := SkipSpaces(text, n);
    if n > 0 && w < |text| && AllLetters(text[w..]) then
      assert Splits(text, text[..n], text[n..w], text[w..]) by {
        assert text == text[..n] + text[n..w] + text[w..];
        assert AllSpaces(text[n..w]);
      }
      Some((text[..n], text[w..]))
    else
      None
  }

  /** The pattern matches every text of that shape, and captures exactly its number part and unit. */
  lemma MatchesShape(text: string, number: string, gap: string, unit: string)
    requires Splits(text, number, gap, unit)
    ensures MatchQuantity(text) == Some((number, unit))
  {
    NumberEndsAtGap(text, number, gap, unit);
    GapEndsAtUnit(text, number, gap, unit);
    assert text[..|number|] == number;
    assert text[|number| + |gap|..] == unit;
  }

  /** In a text of that shape the run of `[\d.,]` is exactly the number part. */
  lemma NumberEndsAtGap(text: string, number: string, gap: string, unit: string)
    requires Splits(text, number, gap, unit)
    ensures NumericRun(text, 0) == |number|
  {
    assert forall k :: 0 <= k < |number| ==> text[k] == number[k];
    assert !IsNumericChar(text[|number|]) by {
      if gap != [] {
        assert text[|number|] == gap[0];
        assert IsSpace(gap[0]);
      } else {
        assert text[|number|] == unit[0];
        assert IsAsciiLetter(unit[0]);
      }
    }
  }

  /** In a text of that shape the whitespace after the number part is exactly the gap. */
  lemma GapEndsAtUnit(text: string, number: string, gap: string, unit: string)
    requires Splits(text, number, gap, unit)
    ensures SkipSpaces(text, |number|) == |number| + |gap|
  {
    assert forall k :: 0 <= k < |gap| ==> text[|number| + k] == gap[k];
    assert text[|number| + |gap|] == unit[0];
    assert IsAsciiLetter(unit[0]);
  }

  /** The value and unit the click handler reads back from a display text. */
  function ParseDisplay(text: string): (r: Option<(JsNumber, string)>)
    ensures r.Some? ==> ValidUnit(r.value.1)
    ensures r.Some? && r.value.0.Num? ==> r.value.0.value >= 0.0
  {
    match MatchQuantity(text)
    case None => None
    case Some((number, unit)) =>
      NumberHasNoSign(text);
      Some((ParseFloat(ReplaceFirstComma(number)), unit))
  }

  /** The number part the pattern captures holds no minus sign, even once its comma is read as a dot. */
  lemma NumberHasNoSign(text: string)
    requires MatchQuantity(text).Some?
    ensures ValidUnit(MatchQuantity(text).value.1)
    ensures forall i :: 0 <= i < |ReplaceFirstComma(MatchQuantity(text).value.0)| ==>
              ReplaceFirstComma(MatchQuantity(text).value.0)[i] != '-'
  {
    var number := MatchQuantity(text).value.0;
    var gap :| Splits(text, number, gap, MatchQuantity(text).value.1);
    ReplaceKeepsNumeric(number);
  }

  /** Reading the first comma as a dot keeps a text within `[\d.,]`. */
  lemma {:induction false} ReplaceKeepsNumeric(s: string)
    requires AllNumeric(s)
    ensures AllNumeric(ReplaceFirstComma(s))
  {
    if s != [] && s[0] != ',' {
      ReplaceKeepsNumeric(s[1..]);
      assert ReplaceFirstComma(s) == [s[0]] + ReplaceFirstComma(s[1..]);
    }
  }

  // ---------------------------------------------------------------- stepping

  /** Half a unit for weights and volumes, one otherwise. */
  function Step(unit: string): (step: real)
    ensures step == 0.5 || step == 1.0
  {
    if unit == "kg" || unit == "L" || unit == "ml" || unit == "g" then 0.5 else 1.0
  }

  /** Which quantity button, if any, a click on an item pressed. */
  datatype Adjustment = Increase | Decrease | Keep

  /** The quantity after the step: up one step, down one step, or as it was. */
  function Stepped(q: real, unit: string, adj: Adjustment): (r: real)
    ensures adj == Increase ==> r > q
    ensures adj == Decrease ==> r < q
    ensures adj == Keep ==> r == q
    ensures r == q || r == q + Step(unit) || r == q - Step(unit)
  {
    match adj
    case Increase => q + Step(unit)
    case Decrease => q - Step(unit)
    case Keep => q
  }

  /**
   * The quantity part of a click on an item: the display text re-read, stepped
   * and re-formatted, or `None` when it is left alone and nothing is saved
   * (the pattern does not match, or a decrease starts from a value of one
   * step or less).
   */
  function AdjustText(text: string, adj: Adjustment): (r: Option<string>)
    ensures ParseDisplay(text).None? ==> r.None?
    ensures ParseDisplay(text).Some? && adj != Decrease ==> r.Some?
    ensures ParseDisplay(text).Some? && adj == Decrease ==>
              (r.Some? <==> ParseDisplay(text).value.0.Num?
                            && ParseDisplay(text).value.0.value > Step(ParseDisplay(text).value.1))
  {
    match ParseDisplay(text)
    case None => None
    case Some((number, unit)) =>
      match number
      case NaN => if adj == Decrease then None else Some("NaN " + unit)
      case Num(q) =>
        if adj == Decrease && !(q > Step(unit)) then None
        else Some(FormatQuantity(Stepped(q, unit, adj), unit))
  }

  // ---------------------------------------------------------------- prompting

  /**
   * One answer to the quantity prompt: a cancelled or blank answer means 1,
   * an answer that parses (first comma read as a dot) to a positive value
   * gives that value, anything else asks again (`None`).
   */
  function ReadAnswer(answer: Option<string>): (r: Option<real>)
    ensures r.Some? ==> r.value > 0.0
    ensures answer.None? || Trim(answer.value) == "" ==> r == Some(1.0)
    ensures answer.Some? && Trim(answer.value) != "" ==>
              r == match ParseFloat(ReplaceFirstComma(answer.value))
                   case Num(v) => if v > 0.0 then Some(v) else None
                   case NaN => None
  {
    match answer
    case None => Some(1.0)
    case Some(s) =>
      if Trim(s) == "" then Some(1.0)
      else
        match ParseFloat(ReplaceFirstComma(s))
        case NaN => None
        case Num(v) => if v > 0.0 then Some(v) else None
  }

  /** The index of the answer that ends the prompt loop, or `|answers|` when none does. */
  function FirstAccepted(answers: seq<Option<string>>): (k: nat)
    ensures k <= |answers|
    ensures forall j :: 0 <= j < k ==> ReadAnswer(answers[j]).None?
    ensures k < |answers| ==> ReadAnswer(answers[k]).Some?
  {
    if answers == [] then 0
    else if ReadAnswer(answers[0]).Some? then 0
    else 1 + FirstAccepted(answers[1..])
  }

  /** The quantity the prompt loop settles on, if the answers ever end it. */
  function ChosenQuantity(answers: seq<Option<string>>): (q: Option<real>)
    ensures q.Some? ==> q.value > 0.0
  {
    var k := FirstAccepted(answers);
    if k < |answers| then ReadAnswer(answers[k]) else None
  }

  /** The answer after a run of rejected answers, when accepted, is the one the loop settles on. */
  lemma ChosenAt(answers: seq<Option<string>>, k: nat)
    requires k < |answers| && ReadAnswer(answers[k]).Some?
    requires forall j :: 0 <= j < k ==> ReadAnswer(answers[j]).None?
    ensures FirstAccepted(answers) == k && ChosenQuantity(answers) == ReadAnswer(answers[k])
  {
  }

  /** When every answer is rejected, no quantity is chosen. */
  lemma NoneChosen(answers: seq<Option<string>>)
    requires forall j :: 0 <= j < |answers| ==> ReadAnswer(answers[j]).None?
    ensures FirstAccepted(answers) == |answers| && ChosenQuantity(answers) == None
  {
  }

  /**
   * One turn of the prompt loop: a cancelled or blank answer is accepted as
   * 1, otherwise the answer is accepted when it parses (first comma read as a
   * dot) to a positive value.
   */
  method AskOnce(input: Option<string>) returns (validQuantity: bool, quantityValue: real)
    ensures validQuantity <==> ReadAnswer(input).Some?
    ensures validQuantity ==> ReadAnswer(input) == Some(quantityValue)
  {
    validQuantity := false;
    quantityValue := 1.0;
    if input.None? || Trim(input.value) == "" {
      validQuantity := true;
    } else {
      var numericValue := ParseFloat(ReplaceFirstComma(input.value));
      if numericValue.Num? && numericValue.value > 0.0 {
        quantityValue := numericValue.value;
        validQuantity := true;
      }
    }
  }

  /**
   * The `while (!validQuantity)` loop of `addProduct`, fed from a script of
   * answers (`None` is a cancelled prompt).  It asks until an answer is
   * accepted; if the script runs out first, no quantity is chosen.
   */
  method PromptQuantity(answers: seq<Option<string>>) returns (quantity: Option<real>, asked: nat)
    ensures quantity == ChosenQuantity(answers)
    ensures quantity.Some? ==> asked == FirstAccepted(answers) + 1
    ensures quantity.None? ==> asked == FirstAccepted(answers) == |answers|
  {
    ghost var first := FirstAccepted(answers);
    var validQuantity := false;
    var quantityValue := 1.0;
    asked := 0;
    while !validQuantity && asked < |answers|
      invariant asked <= |answers|
      invariant !validQuantity ==> asked <= first
      invariant validQuantity ==> asked == first + 1 && first < |answers| && ReadAnswer(answers[first]) == Some(quantityValue)
      decreases |answers| - asked, !validQuantity
    {
      validQuantity, quantityValue := AskOnce(answers[asked]);
      if !validQuantity {
        assert asked != first;
      }
      asked := asked + 1;
    }
    quantity := if validQuantity then Some(quantityValue) else None;
  }

  // ---------------------------------------------------------------- lemmas: parsing

  /** A string without a comma is left as it is by the comma replacement. */
  lemma {:induction false} ReplaceWithoutComma(s: string)
    requires forall i :: 0 <= i < |s| ==> s[i] != ','
    ensures ReplaceFirstComma(s) == s
  {
    if s != [] {
      ReplaceWithoutComma(s[1..]);
    }
  }

  /** Only the first comma is replaced. */
  lemma {:induction false} ReplaceAtFirstComma(a: string, b: string)
    requires forall i :: 0 <= i < |a| ==> a[i] != ','
    ensures ReplaceFirstComma(a + "," + b) == a + "." + b
  {
    if a == [] {
      assert a + "," + b == [','] + b;
    } else {
      var s := a + "," + b;
      assert s[0] == a[0] && s[1..] == a[1..] + "," + b;
      ReplaceAtFirstComma(a[1..], b);
      assert ReplaceFirstComma(s) == [a[0]] + (a[1..] + "." + b);
      assert [a[0]] + (a[1..] + "." + b) == a + "." + b;
    }
  }

  /** A string of digits parses to its value. */
  lemma ParseDigits(ds: string)
    requires ds != [] && AllDigits(ds)
    ensures ParseFloat(ds) == Num(DigitsValue(ds) as real)
  {
    assert SkipSpaces(ds, 0) == 0 by { assert IsDigit(ds[0]); }
    assert DigitRun(ds, 0) == |ds|;
    assert ds[0..|ds|] == ds;
    assert ds[|ds|..|ds|] == [];
    assert ParseUnsigned(ds, 0) == Some(DecimalValue(ds, []));
    assert DecimalValue(ds, []) == DigitsValue(ds) as real;
  }

  /** Digits, a dot and digits parse to the whole part plus the fraction. */
  lemma ParseFraction(a: string, b: string)
    requires a != [] && AllDigits(a) && AllDigits(b)
    ensures ParseFloat(a + "." + b) == Num(DecimalValue(a, b))
  {
    var s := a + "." + b;
    assert SkipSpaces(s, 0) == 0 by { assert s[0] == a[0] && IsDigit(a[0]); }
    assert DigitRun(s, 0) == |a| by {
      assert forall k :: 0 <= k < |a| ==> s[k] == a[k];
      assert s[|a|] == '.';
    }
    assert DigitRun(s, |a| + 1) == |s| by {
      assert forall k :: |a| + 1 <= k < |s| ==> s[k] == b[k - |a| - 1];
    }
    assert s[0..|a|] == a;
    assert s[|a| + 1..|s|] == b;
    assert ParseUnsigned(s, 0) == Some(DecimalValue(a, b));
    assert !(s[0] == '+' || s[0] == '-');
  }

  // ---------------------------------------------------------------- lemmas: the display round trip

  /** A unit the click handler can read back: one or more ASCII letters. */
  predicate ValidUnit(unit: string)
  {
    unit != [] && AllLetters(unit)
  }

  lemma DigitsHaveNoComma(ds: string)
    requires AllDigits(ds)
    ensures forall i :: 0 <= i < |ds| ==> ds[i] != ','
  {
    forall i | 0 <= i < |ds| ensures ds[i] != ',' {
      assert IsDigit(ds[i]);
    }
  }

  /** The text of a whole value reads back as that value and unit. */
  lemma WholeTextReadsBack(k: nat, unit: string)
    requires ValidUnit(unit)
    ensures ParseDisplay(IntToString(k) + " " + unit) == Some((Num(k as real), unit))
  {
    var digits := IntToString(k);
    DigitsAreNumeric(digits);
    MatchesShape(digits + " " + unit, digits, " ", unit);
    DigitsHaveNoComma(digits);
    ReplaceWithoutComma(digits);
    ParseDigits(digits);
    IntToStringValue(k);
  }

  /** A number part, one space and a unit read back as the number part's value and the unit. */
  lemma NumberTextReadsBack(number: string, unit: string)
    requires number != [] && AllNumeric(number) && ValidUnit(unit)
    ensures ParseDisplay(number + " " + unit) == Some((ParseFloat(ReplaceFirstComma(number)), unit))
  {
    assert AllSpaces(" ");
    MatchesShape(number + " " + unit, number, " ", unit);
  }

  /** The two-decimal numeral is a non-empty run of `[\d.,]`. */
  lemma FixedNumeralShape(whole: nat, cents: nat)
    requires cents < 100
    ensures FixedNumeral(whole, cents) != [] && AllNumeric(FixedNumeral(whole, cents))
  {
    var digits := IntToString(whole);
    var decimals := TwoDigits(cents);
    var number := FixedNumeral(whole, cents);
    forall i | 0 <= i < |number| ensures IsNumericChar(number[i]) {
      if i < |digits| {
        assert number[i] == digits[i];
        assert IsDigit(digits[i]);
      } else if i > |digits| {
        assert number[i] == decimals[i - |digits| - 1];
      }
    }
  }

  /** The two-decimal numeral, its comma read as a dot, parses to `whole + cents / 100`. */
  lemma FixedNumeralValue(whole: nat, cents: nat)
    requires cents < 100
    ensures ParseFloat(ReplaceFirstComma(FixedNumeral(whole, cents))) == Num(whole as real + cents as real / 100.0)
  {
    DottedNumeral(whole, cents);
    DottedValue(whole, cents);
  }

  /** Reading the comma of the two-decimal numeral as a dot gives the same digits around a dot. */
  lemma DottedNumeral(whole: nat, cents: nat)
    requires cents < 100
    ensures ReplaceFirstComma(FixedNumeral(whole, cents)) == IntToString(whole) + "." + TwoDigits(cents)
  {
    DigitsHaveNoComma(IntToString(whole));
    ReplaceAtFirstComma(IntToString(whole), TwoDigits(cents));
  }

  /** The digits of `whole`, a dot and the two digits of `cents` parse to `whole + cents / 100`. */
  lemma DottedValue(whole: nat, cents: nat)
    requires cents < 100
    ensures ParseFloat(IntToString(whole) + "." + TwoDigits(cents)) == Num(whole as real + cents as real / 100.0)
  {
    ParseFraction(IntToString(whole), TwoDigits(cents));
    TwoDigitsValue(cents);
    IntToStringValue(whole);
  }

  /** The two-decimal text of `whole` and `cents` reads back as `whole + cents / 100` and the unit. */
  lemma NumeralReadsBack(whole: nat, cents: nat, unit: string)
    requires cents < 100
    requires ValidUnit(unit)
    ensures ParseDisplay(FixedNumeral(whole, cents) + " " + unit)
            == Some((Num(whole as real + cents as real / 100.0), unit))
  {
    FixedNumeralShape(whole, cents);
    FixedNumeralValue(whole, cents);
    NumberTextReadsBack(FixedNumeral(whole, cents), unit);
  }

  /** `n` hundredths are `n / 100` units and `n % 100` hundredths. */
  lemma HundredthsSplit(n: nat) returns (whole: nat, cents: nat)
    ensures whole == n / 100 && cents == n % 100 && cents < 100
    ensures whole as real + cents as real / 100.0 == n as real / 100.0
  {
    whole, cents := n / 100, n % 100;
    assert n == whole * 100 + cents;
  }

  /** The display text of a value that is not whole is its two-decimal numeral and the unit. */
  lemma FractionText(v: real, unit: string)
    requires v >= 0.0 && !IsIntegral(v)
    ensures FormatQuantity(v, unit) == FixedNumeral(Hundredths(v) / 100, Hundredths(v) % 100) + " " + unit
  {
  }


  /** Two decimal digits after the point are worth their number of hundredths. */
  lemma TwoDigitsValue(c: nat)
    requires c < 100
    ensures FractionValue(TwoDigits(c)) == c as real / 100.0
  {
    var decimals := TwoDigits(c);
    var units := decimals[1..];
    assert units[1..] == [];
    assert FractionValue(units) == (c % 10) as real / 10.0;
    assert c == (c / 10) * 10 + c % 10;
  }

  /**
   * Reading back the display text of any `v >= 0` gives its unit and the
   * value shown: `v` when whole, else `v` rounded to hundredths.
   */
  lemma DisplayRoundTrip(v: real, unit: string)
    requires v >= 0.0
    requires ValidUnit(unit)
    ensures ParseDisplay(FormatQuantity(v, unit)) == Some((Num(Shown(v)), unit))
  {
    if IsIntegral(v) {
      WholeDisplayRoundTrip(v, unit);
    } else {
      FractionDisplayRoundTrip(v, unit);
    }
  }

  lemma WholeDisplayRoundTrip(v: real, unit: string)
    requires v >= 0.0 && IsIntegral(v)
    requires ValidUnit(unit)
    ensures ParseDisplay(FormatQuantity(v, unit)) == Some((Num(v), unit))
  {
    var text := FormatQuantity(v, unit);
    var k: nat := v.Floor;
    assert text == IntToString(k) + " " + unit;
    WholeTextReadsBack(k, unit);
    assert ParseDisplay(text) == Some((Num(k as real), unit));
  }

  lemma FractionDisplayRoundTrip(v: real, unit: string)
    requires v >= 0.0 && !IsIntegral(v)
    requires ValidUnit(unit)
    ensures ParseDisplay(FormatQuantity(v, unit)) == Some((Num(Hundredths(v) as real / 100.0), unit))
  {
    FractionText(v, unit);
    var whole, cents := HundredthsSplit(Hundredths(v));
    NumeralReadsBack(whole, cents, unit);
  }

  /** The value shown is a multiple of 0.01, and a multiple of 0.01 is shown as itself. */
  lemma ShownIsHundredths(v: real)
    requires v >= 0.0
    ensures IsHundredths(Shown(v))
    ensures IsHundredths(v) ==> Shown(v) == v
  {
    if IsIntegral(v) {
      WholeIsHundredths(v);
    } else {
      CountedHundredths(Hundredths(v));
      if IsHundredths(v) {
        HundredthsExact(v);
      }
    }
  }

  /** The value shown is positive exactly for values of at least 0.005: smaller ones show as zero. */
  lemma ShownPositive(v: real)
    requires v >= 0.0
    ensures Shown(v) > 0.0 <==> v >= 0.005
  {
    if IsIntegral(v) {
      assert v == v.Floor as real;
    } else {
      var n := Hundredths(v);
      assert Shown(v) == n as real / 100.0;
      assert Shown(v) > 0.0 <==> n >= 1;
    }
  }

  /** A whole value is a multiple of 0.01. */
  lemma WholeIsHundredths(v: real)
    requires v >= 0.0 && IsIntegral(v)
    ensures IsHundredths(v)
  {
    var k := v.Floor;
    assert v * 100.0 == (k * 100) as real;
  }

  /** A whole number of hundredths is a multiple of 0.01. */
  lemma CountedHundredths(n: nat)
    ensures IsHundredths(n as real / 100.0)
  {
    assert (n as real / 100.0) * 100.0 == n as real;
  }

  /** Rounding a multiple of 0.01 to hundredths changes nothing. */
  lemma HundredthsExact(v: real)
    requires IsHundredths(v)
    ensures Hundredths(v) as real / 100.0 == v
  {
    var m := (v * 100.0).Floor;
    assert m as real == v * 100.0;
    assert (v * 100.0 + 0.5).Floor == m;
  }

  /** The quantity texts the list produces and keeps: a positive multiple of 0.01 with a readable unit. */
  ghost predicate Canonical(text: string)
  {
    exists v: real, unit: string :: v > 0.0 && IsHundredths(v) && ValidUnit(unit) && text == FormatQuantity(v, unit)
  }

  /**
   * A click re-reads a display text, steps it and writes the text of the
   * shown value; a decrease from a shown value of one step or less writes
   * nothing.
   */
  lemma AdjustDisplayed(v: real, unit: string, adj: Adjustment)
    requires v >= 0.0
    requires ValidUnit(unit)
    ensures AdjustText(FormatQuantity(v, unit), adj)
            == if adj == Decrease && Shown(v) <= Step(unit) then None
               else Some(FormatQuantity(Stepped(Shown(v), unit, adj), unit))
  {
    DisplayRoundTrip(v, unit);
    ShownIsHundredths(v);
  }

  /**
   * Re-formatting settles after one click: a text whose value is already a
   * multiple of 0.01 is written back unchanged by a click that presses no
   * quantity button.
   */
  lemma ReformatIdempotent(v: real, unit: string)
    requires IsHundredths(v)
    requires ValidUnit(unit)
    ensures AdjustText(FormatQuantity(v, unit), Keep) == Some(FormatQuantity(v, unit))
  {
    AdjustDisplayed(v, unit, Keep);
    ShownIsHundredths(v);
  }

  /** A canonical text is written back unchanged by a click that presses no quantity button. */
  lemma KeepRewritesCanonical(text: string)
    requires Canonical(text)
    ensures AdjustText(text, Keep) == Some(text)
  {
    var v: real, unit: string :| v > 0.0 && IsHundredths(v) && ValidUnit(unit) && text == FormatQuantity(v, unit);
    ReformatIdempotent(v, unit);
  }

  /** The + button always changes a canonical text. */
  lemma IncreaseAlwaysApplies(text: string)
    requires Canonical(text)
    ensures AdjustText(text, Increase).Some?
  {
    var v: real, unit: string :| v > 0.0 && IsHundredths(v) && ValidUnit(unit) && text == FormatQuantity(v, unit);
    AdjustDisplayed(v, unit, Increase);
  }

  /**
   * Quantities stay positive: stepping a canonical text either leaves it
   * alone or gives another canonical text.
   */
  lemma AdjustKeepsCanonical(text: string, adj: Adjustment)
    requires Canonical(text)
    ensures AdjustText(text, adj).Some? ==> Canonical(AdjustText(text, adj).value)
  {
    var v: real, unit: string :| v > 0.0 && IsHundredths(v) && ValidUnit(unit) && text == FormatQuantity(v, unit);
    AdjustDisplayed(v, unit, adj);
    ShownIsHundredths(v);
    if adj != Decrease || v > Step(unit) {
      SteppedHundredths(v, unit, adj);
    }
  }

  /** A step of 0.5 or 1 keeps a multiple of 0.01 a multiple of 0.01. */
  lemma SteppedHundredths(v: real, unit: string, adj: Adjustment)
    requires IsHundredths(v)
    requires Stepped(v, unit, adj) >= 0.0
    ensures IsHundredths(Stepped(v, unit, adj))
  {
    var m := (v * 100.0).Floor;
    var d := if Step(unit) == 0.5 then 50 else 100;
    assert Step(unit) * 100.0 == d as real;
    var w := Stepped(v, unit, adj);
    var e := match adj case Increase => m + d case Decrease => m - d case Keep => m;
    assert w * 100.0 == e as real;
    assert (e as real).Floor == e;
  }

  /** The + button and then the - button give back the text they started from. */
  lemma IncreaseThenDecrease(v: real, unit: string)
    requires v > 0.0 && IsHundredths(v) && ValidUnit(unit)
    ensures AdjustText(FormatQuantity(v, unit), Increase) == Some(FormatQuantity(v + Step(unit), unit))
    ensures AdjustText(FormatQuantity(v + Step(unit), unit), Decrease) == Some(FormatQuantity(v, unit))
  {
    var up := v + Step(unit);
    ShownIsHundredths(v);
    AdjustDisplayed(v, unit, Increase);
    SteppedHundredths(v, unit, Increase);
    ShownIsHundredths(up);
    AdjustDisplayed(up, unit, Decrease);
    assert Stepped(up, unit, Decrease) == v;
  }

  /** A canonical text reads back as a positive value. */
  lemma CanonicalIsPositive(text: string)
    requires Canonical(text)
    ensures exists q: real, unit: string :: ParseDisplay(text) == Some((Num(q), unit)) && q > 0.0
  {
    var v: real, unit: string :| v > 0.0 && IsHundredths(v) && ValidUnit(unit) && text == FormatQuantity(v, unit);
    DisplayRoundTrip(v, unit);
    ShownIsHundredths(v);
  }

  /** The text of a new item is canonical when the answer is a multiple of 0.01 and the unit is readable. */
  lemma NewQuantityCanonical(q: real, unit: string)
    requires q > 0.0 && IsHundredths(q) && ValidUnit(unit)
    ensures Canonical(FormatQuantity(q, unit))
  {
  }

  // ---------------------------------------------------------------- lemmas: answers and scenarios

  /** An answer written with a comma is read as the same answer written with a dot. */
  lemma CommaOrDot(a: string, b: string)
    requires forall i :: 0 <= i < |a| ==> a[i] != ','
    requires forall i :: 0 <= i < |b| ==> b[i] != ','
    ensures ReadAnswer(Some(a + "," + b)) == ReadAnswer(Some(a + "." + b))
  {
    var comma := a + "," + b;
    var dot := a + "." + b;
    ReplaceAtFirstComma(a, b);
    assert forall i :: 0 <= i < |dot| ==> dot[i] != ',' by {
      forall i | 0 <= i < |dot| ensures dot[i] != ',' {
        if i < |a| { assert dot[i] == a[i]; }
        else if i > |a| { assert dot[i] == b[i - |a| - 1]; }
      }
    }
    ReplaceWithoutComma(dot);
    assert !AllSpaces(comma) by { assert !IsSpace(comma[|a|]); }
    assert !AllSpaces(dot) by { assert !IsSpace(dot[|a|]); }
    TrimSpec(comma);
    TrimSpec(dot);
  }

  /** Increasing `"1,50 kg"` gives `"2 kg"`: a whole result is written without decimals. */
  lemma IncreaseToWhole()
    ensures AdjustText("1,50 kg", Increase) == Some("2 kg")
    ensures AdjustText("2 kg", Decrease) == Some("1,50 kg")
  {
    OneAndAHalfKilos();
    TwoKilos();
    IncreaseThenDecrease(1.5, "kg");
  }

  /** At one step or less a decrease does nothing: `"0,50 kg"` and `"1 un"` stay as they are. */
  lemma DecreaseStopsAtOneStep()
    ensures AdjustText("0,50 kg", Decrease) == None
    ensures AdjustText("1 un", Decrease) == None
  {
    HalfAKilo();
    OneUnit();
    DecreaseAtOneStep(0.5, "kg");
    DecreaseAtOneStep(1.0, "un");
  }

  /** A decrease from a shown value of at most one step writes nothing. */
  lemma DecreaseAtOneStep(v: real, unit: string)
    requires 0.0 <= v <= Step(unit) && IsHundredths(v) && ValidUnit(unit)
    ensures AdjustText(FormatQuantity(v, unit), Decrease) == None
  {
    AdjustDisplayed(v, unit, Decrease);
    ShownIsHundredths(v);
  }

  /** The test is on the value before the step: `"1 kg"` goes down to `"0,50 kg"`, which is one step. */
  lemma DecreaseToOneStep()
    ensures AdjustText("1 kg", Decrease) == Some("0,50 kg")
  {
    HalfAKilo();
    assert FormatQuantity(1.0, "kg") == "1 kg" by {
      assert 1.0.Floor == 1;
      assert IntToString(1) == "1";
    }
    assert IsHundredths(1.0) by { assert (1.0 * 100.0).Floor == 100; }
    AdjustDisplayed(1.0, "kg", Decrease);
    ShownIsHundredths(1.0);
    assert Stepped(1.0, "kg", Decrease) == 0.5;
  }

  lemma HalfAKilo()
    ensures FormatQuantity(0.5, "kg") == "0,50 kg"
    ensures IsHundredths(0.5) && ValidUnit("kg") && Step("kg") == 0.5
  {
    assert !IsIntegral(0.5) by { assert 0.5.Floor == 0; }
    assert Hundredths(0.5) == 50;
    assert IntToString(0) == "0";
    assert (0.5 * 100.0).Floor == 50;
  }

  lemma OneUnit()
    ensures FormatQuantity(1.0, "un") == "1 un"
    ensures IsHundredths(1.0) && ValidUnit("un") && Step("un") == 1.0
  {
    assert 1.0.Floor == 1;
    assert IntToString(1) == "1";
    assert (1.0 * 100.0).Floor == 100;
  }

  lemma OneAndAHalfKilos()
    ensures FormatQuantity(1.5, "kg") == "1,50 kg"
    ensures IsHundredths(1.5) && ValidUnit("kg") && Step("kg") == 0.5
  {
    assert !IsIntegral(1.5) by { assert 1.5.Floor == 1; }
    assert Hundredths(1.5) == 150;
    assert IntToString(1) == "1";
    assert (1.5 * 100.0).Floor == 150;
  }

  lemma TwoKilos()
    ensures FormatQuantity(2.0, "kg") == "2 kg"
  {
    assert 2.0.Floor == 2;
    assert IntToString(2) == "2";
  }

  /**
   * The answer `"0.001"` is accepted, being above zero, yet its display text
   * is `"0,00 un"`: a new item's value is positive, but the value it shows
   * is positive only for answers of at least 0.005.
   */
  lemma TinyAnswerShowsZero()
    ensures ReadAnswer(Some("0.001")) == Some(0.001)
    ensures FormatQuantity(0.001, "un") == "0,00 un"
  {
    TinyAnswerAccepted();
    TinyQuantityText();
  }

  lemma TinyAnswerAccepted()
    ensures ReadAnswer(Some("0.001")) == Some(0.001)
  {
    TinyAnswerNotBlank();
    TinyAnswerParses();
    AnswerParse("0.001");
  }

  lemma TinyAnswerNotBlank()
    ensures Trim("0.001") != []
  {
    assert !IsSpace("0.001"[0]);
    TrimSpec("0.001");
  }

  lemma TinyAnswerParses()
    ensures ParseFloat("0.001") == Num(0.001)
  {
    assert "0.001" == "0" + "." + "001";
    ParseFraction("0", "001");
    OneThousandth();
  }

  lemma TinyQuantityText()
    ensures FormatQuantity(0.001, "un") == "0,00 un"
  {
    assert !IsIntegral(0.001) by { assert 0.001.Floor == 0; }
    assert Hundredths(0.001) == 0;
    assert FixedTwo(0.001) == IntToString(0) + "," + TwoDigits(0);
    assert IntToString(0) == "0";
    assert DigitChar(0) == '0';
  }

  lemma OneThousandth()
    ensures DecimalValue("0", "001") == 0.001
  {
    assert DigitsValue("0") == 0 by { assert "0"[..0] == ""; }
    assert "001"[1..] == "01" && "01"[1..] == "1" && "1"[1..] == "";
    assert FractionValue("1") == 0.1;
    assert FractionValue("01") == 0.01;
  }

  /**
   * A display text the pattern accepts can still hold no digit: `". un"` is
   * re-read as NaN, after which the + button writes `"NaN un"` and the -
   * button does nothing.
   */
  lemma DotReadsAsNaN()
    ensures ParseDisplay(". un") == Some((NaN, "un"))
    ensures AdjustText(". un", Increase) == Some("NaN un")
    ensures AdjustText(". un", Decrease) == None
  {
    DotMatches();
    DotParsesAsNaN();
    assert ParseDisplay(". un") == Some((NaN, "un"));
    assert "NaN " + "un" == "NaN un";
  }

  lemma DotMatches()
    ensures MatchQuantity(". un") == Some((".", "un"))
  {
    assert Splits(". un", ".", " ", "un");
    MatchesShape(". un", ".", " ", "un");
  }

  lemma DotParsesAsNaN()
    ensures ParseFloat(ReplaceFirstComma(".")) == NaN
  {
    assert ReplaceFirstComma(".") == "." by { assert "."[1..] == []; }
    assert SkipSpaces(".", 0) == 0;
    assert DigitRun(".", 0) == 0;
    assert DigitRun(".", 1) == 1;
    assert ParseUnsigned(".", 0) == None;
  }

  /** A comma-free, non-blank answer is read as `parseFloat` reads it. */
  lemma AnswerParse(answer: string)
    requires Trim(answer) != []
    requires forall i :: 0 <= i < |answer| ==> answer[i] != ','
    ensures ReadAnswer(Some(answer)) == match ParseFloat(answer)
                                        case NaN => None
                                        case Num(v) => if v > 0.0 then Some(v) else None
  {
    ReplaceWithoutComma(answer);
  }
}
