/** The number that a decimal text stands for, read off its characters. */
module DecimalValue {
  import opened Keys
  import opened DigitStrings
  import opened DecimalExpansion

  type Text = seq<Byte>

  predicate Decimals(t: Text) { forall i :: 0 <= i < |t| ==> 0x30 <= t[i] <= 0x39 }

  /** Digits read from the left. */
  function DigitsValue(t: Text): int {
    if t == [] then 0 else 10 * DigitsValue(t[..|t| - 1]) + (t[|t| - 1] as int - 0x30)
  }

  /** Where the point stands; the length of the text when there is none. */
  function PointAt(t: Text): (q: nat)
    ensures q <= |t|
  {
    if t == [] || t[0] == 0x2E then 0 else 1 + PointAt(t[1..])
  }

  function UnsignedValue(t: Text): real {
    var q := PointAt(t);
    if q == |t| then DigitsValue(t) as real else DigitsValue(t[..q] + t[q + 1..]) as real / Ten(|t| - q - 1)
  }

  /** An optional minus sign, digits, and perhaps a point with digits behind it. */
  function TextValue(t: Text): real {
    if t != [] && t[0] == 0x2D then 0.0 - UnsignedValue(t[1..]) else UnsignedValue(t)
  }

  lemma {:induction false} PointBehind(whole: Text, rest: Text)
    requires Decimals(whole) && (rest != [] ==> rest[0] == 0x2E)
    ensures PointAt(whole + rest) == |whole|
  {
    if whole == [] {
      assert whole + rest == rest;
    } else {
      assert (whole + rest)[1..] == whole[1..] + rest;
      PointBehind(whole[1..], rest);
    }
  }

  lemma UnsignedLaidOut(whole: Text, frac: Text)
    requires Decimals(whole) && Decimals(frac)
    ensures var u := whole + (if |frac| > 0 then [0x2E] + frac else []);
      UnsignedValue(u) == DigitsValue(whole + frac) as real / Ten(|frac|)
  {
    hide DigitsValue;
    var rest: Text := if |frac| > 0 then [0x2E] + frac else [];
    var u := whole + rest;
    PointBehind(whole, rest);
    assert u[..|whole|] == whole;
    if |frac| > 0 {
      hide Ten;
      assert u[|whole| + 1..] == frac;
    } else {
      assert u == whole == whole + frac;
      NoShift();
    }
  }

  /** Whole digits and p digits behind a point: the digits taken together, shifted by p. */
  lemma LaidOutValue(minus: bool, whole: Text, frac: Text)
    requires Decimals(whole) && Decimals(frac) && whole != []
    ensures var t := (if minus then [0x2D] else []) + whole + (if |frac| > 0 then [0x2E] + frac else []);
      && (t[0] == 0x2D <==> minus)
      && TextValue(t) == (if minus then -1.0 else 1.0) * (DigitsValue(whole + frac) as real / Ten(|frac|))
  {
    hide DigitsValue, UnsignedValue, Ten;
    var u := whole + (if |frac| > 0 then [0x2E] + frac else []);
    var t := (if minus then [0x2D] else []) + whole + (if |frac| > 0 then [0x2E] + frac else []);
    UnsignedLaidOut(whole, frac);
    if minus { assert t[1..] == u; } else { assert t == u; }
  }

  lemma NoShift()
    ensures Ten(0) == 1.0
  {}

  lemma SixShift()
    ensures Ten(6) == 1000000.0
  {
    assert Pow10(6) == 10 * (10 * Pow10(4)) && Pow10(4) == 10 * (10 * Pow10(2)) && Pow10(2) == 10 * (10 * Pow10(0));
  }
}
