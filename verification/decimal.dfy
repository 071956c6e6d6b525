/** The exact decimal expansion in to_string_fp of ctljson.hpp, over real numbers. */
module DecimalExpansion {
  import opened Basics
  import opened DigitStrings

  function Ten(f: nat): (t: real)
    ensures t >= 1.0
  {
    Pow10(f) as real
  }

  function Two(n: nat): (t: real)
    ensures t >= 1.0
  {
    Pow2(n) as real
  }

  /** A number of the form k / 2^n: what a finite binary floating point value is. */
  ghost predicate Dyadic(x: real, n: nat) { Whole(x * Two(n)) }

  ghost predicate Whole(x: real) { exists k: nat :: IsNat(x, k) }

  predicate IsNat(x: real, k: nat) { x == k as real }

  /** The digits of x, f of them after the decimal point. */
  ghost predicate Denotes(x: real, f: nat, s: Digits) { x * Ten(f) == Num(s) as real }

  /** mstr holds the digits of mask, fm of them after the decimal point, the last of those a 5. */
  ghost predicate MaskIs(mask: real, mstr: Digits, fm: nat) {
    && Lead(mstr) && mask > 0.0 && Denotes(mask, fm, mstr)
    && (fm > 0 ==> Num(mstr) % 10 == 5)
  }

  /** Twice the mask is 2^left steps of the binary grid of width 2^-n. */
  ghost predicate Grid(mask: real, n: nat, left: nat) { 2.0 * mask * Two(n) == Two(left) }

  lemma MaskHalves(mask: real, mstr: Digits, fm: nat, mstr': Digits, borrowed: nat)
    requires MaskIs(mask, mstr, fm) && Lead(mstr') && borrowed == Num(mstr) % 2
    requires if borrowed == 0 then 2 * Num(mstr') == Num(mstr) else Num(mstr') == 5 * Num(mstr)
    ensures MaskIs(mask / 2.0, mstr', fm + borrowed)
  {
    hide Num, Pow10;
    TenMore(fm);
    hide Ten;
    HalfTimes(mask, Ten(fm), Num(mstr) as real);
    if borrowed == 1 { OddFive(Num(mstr)); }
  }

  lemma TenMore(f: nat)
    ensures Ten(f + 1) == 10.0 * Ten(f)
  {}

  lemma OddFive(n: nat)
    requires n % 2 == 1
    ensures 5 * n % 10 == 5
  {}

  lemma HalfTimes(mask: real, t: real, m: real)
    requires mask * t == m
    ensures mask / 2.0 * t == m / 2.0 && mask / 2.0 * (10.0 * t) == 5.0 * m
  {
    assert mask / 2.0 * (10.0 * t) == 10.0 * (mask / 2.0 * t);
  }

  lemma GridHalves(mask: real, n: nat, left: nat)
    requires left >= 1 && Grid(mask, n, left)
    ensures Grid(mask / 2.0, n, left - 1) && mask * Two(n) == Two(left - 1)
  {
    assert Two(left) == 2.0 * Two(left - 1);
    assert 2.0 * (mask / 2.0) * Two(n) == mask * Two(n);
    assert 2.0 * mask * Two(n) == 2.0 * (mask * Two(n));
  }

  lemma GridDoubles(mask: real, n: nat, left: nat)
    requires Grid(mask, n, left)
    ensures Grid(2.0 * mask, n, left + 1)
  {
    assert Two(left + 1) == 2.0 * Two(left);
    assert 2.0 * (2.0 * mask) * Two(n) == 2.0 * (2.0 * mask * Two(n));
  }

  /** A positive value on the grid and below twice the mask leaves the mask room to be halved. */
  lemma RoomLeft(value: real, mask: real, n: nat, left: nat)
    requires value > 0.0 && Dyadic(value, n) && Grid(mask, n, left)
    ensures value < 2.0 * mask ==> left >= 1
    ensures value < mask ==> left >= 2
  {
    var k: nat :| IsNat(value * Two(n), k);
    TwoSmall();
    Room(value, mask, Two(n), k, Two(left));
  }

  lemma Room(value: real, mask: real, t: real, k: nat, w: real)
    requires value > 0.0 && t >= 1.0 && value * t == k as real && 2.0 * mask * t == w
    ensures value < 2.0 * mask ==> w > 1.0
    ensures value < mask ==> w > 2.0
  {
    Scaled(0.0, value, t);
    if value < 2.0 * mask { Scaled(value, 2.0 * mask, t); }
    if value < mask {
      Scaled(value, mask, t);
      DoubleTimes(mask, t);
    }
  }

  lemma TwoSmall()
    ensures Two(0) == 1.0 && Two(1) == 2.0
  {}

  lemma DoubleTimes(x: real, t: real)
    ensures 2.0 * x * t == 2.0 * (x * t)
  {}

  lemma Scaled(x: real, y: real, t: real)
    requires x < y && t > 0.0
    ensures x * t < y * t
  {}

  lemma StillDyadic(value: real, mask: real, n: nat, left: nat)
    requires value >= mask && Dyadic(value, n) && left >= 1 && Grid(mask, n, left)
    ensures Dyadic(value - mask, n)
  {
    var k: nat :| IsNat(value * Two(n), k);
    GridHalves(mask, n, left);
    assert (value - mask) * Two(n) == value * Two(n) - mask * Two(n) == (k - Pow2(left - 1)) as real;
    assert (value - mask) * Two(n) >= 0.0;
    var m: nat := k - Pow2(left - 1);
    assert IsNat((value - mask) * Two(n), m);
  }

  // ---------------------------------------------------------------- the leading power of two

  /** The first two loops: the largest power of two up to value, in digits. */
  method LeadingPower(value: real, ghost n: nat)
    returns (mask: real, mstr: Digits, dppos: int, ghost fm: nat, ghost left: nat)
    requires value > 0.0 && Dyadic(value, n)
    ensures mask <= value < 2.0 * mask && MaskIs(mask, mstr, fm) && Grid(mask, n, left)
    ensures dppos == |mstr| - 1 - fm
  {
    hide Dyadic, Num, Pow10, Pow2;
    mask, mstr, dppos, fm, left := 1.0, [1], 0, 0, n + 1;
    OneIs(n);
    if value >= mask {
      while value - mask >= mask
        invariant 1.0 <= mask <= value && fm == 0 && MaskIs(mask, mstr, fm) && Grid(mask, n, left)
            && dppos == |mstr| - 1
        decreases (value - mask).Floor
      {
        var carry;
        ghost var was := mstr;
        mstr, carry := Mul2(mstr);
        dppos := dppos + carry;
        GridDoubles(mask, n, left);
        MaskDoubles(mask, was, mstr);
        mask, left := mask * 2.0, left + 1;
      }
    } else {
      while true
        invariant value < mask && MaskIs(mask, mstr, fm) && Grid(mask, n, left) && dppos == |mstr| - 1 - fm
        decreases left
      {
        var borrowed, dropped;
        ghost var was := mstr;
        RoomLeft(value, mask, n, left);
        GridHalves(mask, n, left);
        mstr, borrowed, dropped := Div2(mstr);
        MaskHalves(mask, was, fm, mstr, borrowed);
        dppos, mask := dppos - dropped, mask / 2.0;
        fm, left := fm + borrowed, left - 1;
        if value >= mask { break; }
      }
    }
  }

  lemma OneIs(n: nat)
    ensures MaskIs(1.0, [1], 0) && Grid(1.0, n, n + 1)
  {
    assert Two(n + 1) == 2.0 * Two(n);
  }

  lemma MaskDoubles(mask: real, mstr: Digits, mstr': Digits)
    requires MaskIs(mask, mstr, 0) && Lead(mstr') && Num(mstr') == 2 * Num(mstr)
    ensures MaskIs(mask * 2.0, mstr', 0)
  {}

  // ---------------------------------------------------------------- the expansion

  /** What has been taken off the value so far is in resstr, f of its digits after the decimal point; the digits
      of the mask are aligned with it once the digit owed (borrowed) has been put below. */
  ghost predicate Expanding(value0: real, value: real, mask: real, resstr: Digits, f: nat, mstr: Digits,
                            borrowed: nat, dppos: int) {
    && MaskIs(mask, mstr, f + borrowed)
    && 0.0 <= value < 2.0 * mask
    && Denotes(value0 - value, f, resstr)
    && (if resstr == [] then borrowed == 0 && value >= mask && dppos == |mstr| - 1 - f
        else Lead(resstr) && dppos == |resstr| - 1 - f && |resstr| + borrowed >= |mstr|)
    && (value == 0.0 && f > 0 ==> Num(resstr) % 10 == 5)
  }

  lemma Aligns(value0: real, value: real, mask: real, resstr: Digits, f: nat, mstr: Digits, dppos: int)
    requires Expanding(value0, value, mask, resstr, f, mstr, 1, dppos) && value > 0.0
    ensures Expanding(value0, value, mask, [0] + resstr, f + 1, mstr, 0, dppos)
  {
    hide Num, Pow10, Ten, MaskIs;
    NumPrepend(0, resstr);
    OneDigitMore(value0 - value, f, resstr);
  }

  lemma OneDigitMore(x: real, f: nat, s: Digits)
    requires Denotes(x, f, s)
    ensures Denotes(x, f + 1, [0] + s)
  {
    hide Num, Pow10, Ten;
    NumPrepend(0, s);
    TenMore(f);
    TenTimesOver(x, Ten(f));
  }

  lemma TenTimesOver(x: real, t: real)
    ensures x * (10.0 * t) == 10.0 * (x * t)
  {}

  lemma Takes(value0: real, value: real, mask: real, resstr: Digits, f: nat, mstr: Digits, dppos: int,
              resstr': Digits, carry: nat)
    requires Expanding(value0, value, mask, resstr, f, mstr, 0, dppos) && value >= mask
    requires f > 0 && resstr != [] ==> Num(resstr) % 10 == 0
    requires Num(resstr') == Num(resstr) + Num(mstr) && Lead(resstr')
    requires |resstr'| == carry + (if |resstr| >= |mstr| then |resstr| else |mstr|)
    ensures Expanding(value0, value - mask, mask, resstr', f, mstr, 0, dppos + carry) && value - mask < mask
  {
    hide Num, Pow10, Ten, Denotes;
    NumNone();
    Sum(value0 - value, mask, f, resstr, mstr, resstr');
    assert value0 - (value - mask) == value0 - value + mask;
    LastDigit(Num(resstr), Num(mstr));
  }

  lemma LastDigit(a: nat, b: nat)
    ensures a % 10 == 0 && b % 10 == 5 ==> (a + b) % 10 == 5
  {}

  lemma Sum(x: real, y: real, f: nat, s: Digits, t: Digits, u: Digits)
    requires Denotes(x, f, s) && Denotes(y, f, t) && Num(u) == Num(s) + Num(t)
    ensures Denotes(x + y, f, u)
  {
    hide Num, Pow10, Ten;
    AddTimes(x, y, Ten(f));
  }

  lemma AddTimes(x: real, y: real, t: real)
    ensures (x + y) * t == x * t + y * t
  {}

  lemma MaskShrinks(value0: real, value: real, mask: real, resstr: Digits, f: nat, mstr: Digits, dppos: int,
                    mstr': Digits, borrowed: nat, dropped: nat)
    requires Expanding(value0, value, mask, resstr, f, mstr, 0, dppos) && value < mask && resstr != []
    requires Lead(mstr') && borrowed == Num(mstr) % 2 && |mstr'| + dropped == |mstr| + borrowed
    requires if borrowed == 0 then 2 * Num(mstr') == Num(mstr) else Num(mstr') == 5 * Num(mstr)
    ensures Expanding(value0, value, mask / 2.0, resstr, f, mstr', borrowed, dppos)
    ensures f + borrowed > 0 ==> borrowed == 1
  {
    hide Num, Pow10;
    MaskHalves(mask, mstr, f, mstr', borrowed);
  }

  lemma Starts(value: real, mask: real, fm: nat, mstr: Digits, dppos: int)
    requires mask <= value < 2.0 * mask && MaskIs(mask, mstr, fm) && dppos == |mstr| - 1 - fm
    ensures Expanding(value, value, mask, [], fm, mstr, 0, dppos)
  {}

  lemma Done(value0: real, mask: real, resstr: Digits, f: nat, mstr: Digits, borrowed: nat, dppos: int)
    requires Expanding(value0, 0.0, mask, resstr, f, mstr, borrowed, dppos)
    ensures Expanded(value0, resstr, f, dppos)
  {
    hide Num, Pow10;
    assert value0 - 0.0 == value0;
  }

  /** The digit string denotes the value exactly, dppos is the exponent of its leading digit, and no digit is spare. */
  ghost predicate Expanded(value: real, resstr: Digits, f: nat, dppos: int) {
    && Lead(resstr) && dppos == |resstr| - 1 - f
    && Denotes(value, f, resstr)
    && (f > 0 ==> Num(resstr) % 10 == 5)
  }

  /** The expansion of a positive value; it ends with exactly its decimal digits. */
  method Expand(value0: real, ghost n: nat) returns (resstr: Digits, dppos: int)
    requires value0 > 0.0 && Dyadic(value0, n)
    ensures dppos < |resstr| && Expanded(value0, resstr, |resstr| - 1 - dppos, dppos)
  {
    hide Expanding, Expanded, Dyadic, Grid, MaskIs, Num, Pow10, Pow2, Lead;
    var value, mask, mstr := value0, 1.0, [1];
    ghost var fm, left, f;
    mask, mstr, dppos, fm, left := LeadingPower(value, n);
    Starts(value, mask, fm, mstr, dppos);
    resstr, f := [], fm;
    var borrowed := 0;
    var count := 11;
    while value > 0.0 && mask > 0.0 && count < 64
      invariant Expanding(value0, value, mask, resstr, f, mstr, borrowed, dppos) && borrowed <= 1 && count == 11
      invariant resstr != [] && f + borrowed > 0 ==> borrowed == 1
      invariant resstr == [] ==> value > 0.0
      invariant Dyadic(value, n) && Grid(mask, n, left)
      decreases left
    {
      Reads(value0, value, mask, resstr, f, mstr, borrowed, dppos);
      RoomLeft(value, mask, n, left);
      ghost var first := resstr == [];
      if borrowed != 0 {
        Aligns(value0, value, mask, resstr, f, mstr, dppos);
        NumPrepend(0, resstr);
        resstr, f := [0] + resstr, f + 1;
        Reads(value0, value, mask, resstr, f, mstr, 0, dppos);
      }
      if value >= mask {
        var carry;
        StillDyadic(value, mask, n, left);
        ghost var was := resstr;
        resstr, carry := Plus(resstr, mstr);
        Takes(value0, value, mask, was, f, mstr, dppos, resstr, carry);
        value, dppos := value - mask, dppos + carry;
      }
      var dropped;
      ghost var was := mstr;
      mstr, borrowed, dropped := Div2(mstr);
      MaskShrinks(value0, value, mask, resstr, f, was, dppos, mstr, borrowed, dropped);
      GridHalves(mask, n, left);
      mask, left := mask / 2.0, left - 1;
    }
    Reads(value0, value, mask, resstr, f, mstr, borrowed, dppos);
    Done(value0, mask, resstr, f, mstr, borrowed, dppos);
    ExpandedSize(value0, resstr, f, dppos);
  }

  lemma ExpandedSize(value: real, resstr: Digits, f: nat, dppos: int)
    requires Expanded(value, resstr, f, dppos)
    ensures f == |resstr| - 1 - dppos
  {}

  lemma Reads(value0: real, value: real, mask: real, resstr: Digits, f: nat, mstr: Digits, borrowed: nat, dppos: int)
    requires Expanding(value0, value, mask, resstr, f, mstr, borrowed, dppos)
    ensures 0.0 <= value < 2.0 * mask && mask > 0.0 && Lead(mstr)
    ensures if resstr == [] then borrowed == 0 && value >= mask else Lead(resstr) && |resstr| + borrowed >= |mstr|
  {}
}
