/** to_string_fp of ctljson.hpp in style 'f': rounding and layout of the exact digits. */
module DecimalText {
  import opened Keys
  import opened DigitStrings
  import opened DecimalExpansion
  import opened DecimalValue
  import JsonNumbers

  // ---------------------------------------------------------------- what is printed

  function RoundHalfUp(x: real): int { (x + 0.5).Floor }

  /** The value counted in units of its digit p after the point. */
  function Scale(x: real, p: nat): (y: real)
    ensures x >= 0.0 ==> y >= 0.0
    ensures x == 0.0 ==> y == 0.0
  {
    x * Ten(p)
  }

  /** The decimal digits of n, least significant first, at least w of them and no needless zero above. */
  function DigitsOf(n: nat, w: nat): (s: Digits)
    decreases w, n
  {
    if n == 0 && w == 0 then [] else [n % 10] + DigitsOf(n / 10, if w == 0 then 0 else w - 1)
  }

  function Chars(s: Digits): (t: Text)
    ensures |t| == |s| && forall i :: 0 <= i < |s| ==> t[i] == 0x30 + s[i] as int
  {
    seq(|s|, i requires 0 <= i < |s| => 0x30 + s[i] as int)
  }

  function Rev<T>(s: seq<T>): (r: seq<T>)
    ensures |r| == |s| && forall i :: 0 <= i < |s| ==> r[i] == s[|s| - 1 - i]
  {
    seq(|s|, i requires 0 <= i < |s| => s[|s| - 1 - i])
  }

  /** n / 10^p with exactly p digits after the point: at least one digit before it, and no point when p is 0. */
  function FixedText(minus: bool, n: nat, p: nat): Text {
    var t := Rev(Chars(DigitsOf(n, p + 1)));
    DigitsOfLong(n, p + 1);
    (if minus then [0x2D] else []) + t[..|t| - p] + (if p > 0 then [0x2E] + t[|t| - p..] else [])
  }

  lemma {:induction false} DigitsOfLong(n: nat, w: nat)
    ensures |DigitsOf(n, w)| >= w && Num(DigitsOf(n, w)) == n
    ensures |DigitsOf(n, w)| == w || Lead(DigitsOf(n, w))
    decreases w, n
  {
    if n != 0 || w != 0 {
      DigitsOfLong(n / 10, if w == 0 then 0 else w - 1);
      NumPrepend(n % 10, DigitsOf(n / 10, if w == 0 then 0 else w - 1));
    }
  }

  /** Trailing zeros after the point taken off, down to least digits. */
  function Trim(n: nat, p: nat, least: nat): (nat, nat)
  {
    if p > least && n % 10 == 0 then Trim(n / 10, p - 1, least) else (n, p)
  }

  /** Digits that denote n, with no needless zero above, are the digits of n. */
  lemma {:induction false} DigitsAre(s: Digits, w: nat)
    requires |s| == w || (|s| >= w && Lead(s))
    ensures s == DigitsOf(Num(s), w)
    decreases |s|
  {
    if s != [] {
      var rest := s[1..];
      assert s == [s[0]] + rest;
      NumPrepend(s[0], rest);
      assert Num(s) % 10 == s[0] && Num(s) / 10 == Num(rest);
      if |s| != w && rest == [] { assert Num(s) != 0; }
      if |s| != w && rest != [] { assert rest[|rest| - 1] == s[|s| - 1]; LeadPositive(s); }
      DigitsAre(rest, if w == 0 then 0 else w - 1);
    }
  }

  lemma LeadPositive(s: Digits)
    requires Lead(s)
    ensures Num(s) > 0
  {
    LeadIs(s);
  }

  // ---------------------------------------------------------------- rounding, in reals and in digits

  /** Rounding half up by integer division. */
  lemma HalfUpDivides(x: real, a: nat, h: nat)
    requires h > 0 && x * (2 * h) as real == a as real
    ensures RoundHalfUp(x) == (a + h) / (2 * h)
  {
    var d := 2 * h;
    var q := (a + h) / d;
    var r := (a + h) % d;
    assert a + h == d * q + r;
    var e := d as real;
    assert (x + 0.5) * e == (a + h) as real;
    assert (d * q) as real == e * q as real;
    Between(x + 0.5, q, e, r as real);
  }

  lemma Between(y: real, q: int, e: real, r: real)
    requires e > 0.0 && y * e == e * q as real + r && 0.0 <= r < e
    ensures y.Floor == q
  {
    var z := y - q as real;
    assert z * e == r;
    assert z >= 0.0;
    assert z < 1.0;
  }

  lemma {:induction false} TenAdd(a: nat, b: nat)
    ensures Ten(a + b) == Ten(a) * Ten(b)
  {
    Pow10Add(a, b);
  }

  /** Digits after the point beyond p: rounding them away is rounding the value at p digits. */
  lemma RoundsDown(x: real, s: Digits, f: nat, p: nat)
    requires Denotes(x, f, s) && f > p
    ensures RoundHalfUp(Scale(x, p)) == (Num(s) + 5 * Pow10(f - p - 1)) / Pow10(f - p)
  {
    hide Num, Pow10;
    var h := 5 * Pow10(f - p - 1);
    TenStep(f - p - 1);
    TenAdd(p, f - p);
    assert x * Ten(p) * Ten(f - p) == x * (Ten(p) * Ten(f - p));
    HalfUpDivides(Scale(x, p), Num(s), h);
  }

  lemma TenStep(k: nat)
    ensures Pow10(k + 1) == 10 * Pow10(k) && Ten(k + 1) == (2 * (5 * Pow10(k))) as real
  {}

  /** No more than p digits after the point: the value at p digits is whole. */
  lemma RoundsExactly(x: real, s: Digits, f: nat, p: nat)
    requires Denotes(x, f, s) && f <= p
    ensures Scale(x, p) == (Num(s) * Pow10(p - f)) as real
    ensures RoundHalfUp(Scale(x, p)) == Num(s) * Pow10(p - f)
  {
    hide Num, Pow10;
    TenAdd(f, p - f);
    assert x * Ten(f) * Ten(p - f) == x * (Ten(f) * Ten(p - f));
    assert Num(s) as real * Pow10(p - f) as real == (Num(s) * Pow10(p - f)) as real;
  }

  /** More than p digits after the point, the last of them a 5: the value at p digits is not whole. */
  lemma NotWhole(x: real, s: Digits, f: nat, p: nat)
    requires Denotes(x, f, s) && f > p && Num(s) % 10 == 5
    ensures Scale(x, p) != RoundHalfUp(Scale(x, p)) as real
  {
    hide Num, Denotes;
    var m := RoundHalfUp(Scale(x, p));
    if Scale(x, p) == m as real {
      WholeThen(x, s, f, p, m);
      assert false;
    }
  }

  lemma WholeThen(x: real, s: Digits, f: nat, p: nat, m: int)
    requires Denotes(x, f, s) && f > p && Scale(x, p) == m as real
    ensures Num(s) % 10 == 0
  {
    hide Num, Pow10;
    TenAdd(p, f - p);
    TimesOver(x, Ten(p), Ten(f - p));
    WholeTimes(m, Pow10(f - p));
    assert Num(s) as real == (m * Pow10(f - p)) as real;
    assert Num(s) == m * Pow10(f - p);
    TenStep(f - p - 1);
    assert Pow10(f - p) == 10 * Pow10(f - p - 1);
    TenOut(m, Pow10(f - p - 1));
  }

  lemma TimesOver(x: real, y: real, z: real)
    ensures x * y * z == x * (y * z)
  {}

  lemma WholeTimes(m: int, n: int)
    ensures m as real * n as real == (m * n) as real
  {}

  lemma TenOut(m: int, n: int)
    ensures m * (10 * n) == 10 * (m * n) && m * (10 * n) % 10 == 0
  {
    assert m * (10 * n) == 10 * (m * n);
  }

  // ---------------------------------------------------------------- the steps of style 'f'

  /** reverse_: the text is turned round in place. */
  method Reverse(s0: Text) returns (s: Text)
    ensures s == Rev(s0)
  {
    s := s0;
    var mid := |s| / 2;
    var i := 0;
    while i < mid
      invariant i <= mid && |s| == |s0|
      invariant forall k :: 0 <= k < i ==> s[k] == s0[|s| - 1 - k] && s[|s| - 1 - k] == s0[k]
      invariant forall k :: i <= k < |s| - i ==> s[k] == s0[k]
    {
      var j := |s| - i - 1;
      s := s[i := s[j]][j := s[i]];
      i := i + 1;
    }
  }

  /** The digit string with g digits after the point and point digits before it, no needless zero among those. */
  ghost predicate Aligned(r: Digits, g: nat, point: nat) {
    point >= 1 && |r| == g + point && (point == 1 || Lead(r))
  }

  /** The string from Expand with the digit before the point filled in, or nothing at all for 0. */
  ghost predicate Whole0(value: real, r: Digits, f: nat, point: nat) {
    if value == 0.0 then r == [] && f == 0 && point == 1
    else Denotes(value, f, r) && Aligned(r, f, point) && (f > 0 ==> Num(r) % 10 == 5)
  }

  /** Digits before the point are made explicit. */
  method FillPoint(value: real, resstr0: Digits, dppos0: int, ghost f: nat) returns (resstr: Digits, dppos: nat)
    requires if value == 0.0 then resstr0 == [] && dppos0 == 0 && f == 0 else Expanded(value, resstr0, f, dppos0)
    ensures Whole0(value, resstr, f, dppos)
  {
    hide Num, Pow10;
    resstr := resstr0;
    if dppos0 < 0 {
      NumAppend(resstr, Zeros(-dppos0));
      NumZeros(-dppos0);
      resstr := resstr + Zeros(-dppos0);
      dppos := 1;
    } else {
      dppos := dppos0 + 1;
    }
  }

  /** What rounding at p digits leaves: min(f, p) digits after the point, the rounded value, and whether it is exact. */
  ghost predicate Rounded(value: real, r: Digits, f: nat, point: nat, p: nat) {
    if value == 0.0 then r == [] && f == 0 && point == 1
    else
      && Aligned(r, if f <= p then f else p, point)
      && (f > 0 && f <= p ==> Num(r) % 10 == 5)
      && (if f <= p then RoundHalfUp(Scale(value, p)) == Num(r) * Pow10(p - f)
          && Scale(value, p) == RoundHalfUp(Scale(value, p)) as real
          else RoundHalfUp(Scale(value, p)) == Num(r) && Scale(value, p) != RoundHalfUp(Scale(value, p)) as real)
  }

  method RoundAt(value: real, resstr0: Digits, dppos0: nat, p: nat, ghost f: nat) returns (resstr: Digits, dppos: nat)
    requires Whole0(value, resstr0, f, dppos0)
    ensures Rounded(value, resstr, f, dppos, p)
  {
    hide Scale, Num, Pow10, Denotes;
    var carry;
    resstr, carry := Round(resstr0, p + dppos0 + 1);
    dppos := dppos0 + carry;
    if value != 0.0 {
      if f <= p {
        RoundsExactly(value, resstr0, f, p);
      } else {
        RoundsDown(value, resstr0, f, p);
        NotWhole(value, resstr0, f, p);
        if carry == 0 && dppos0 > 1 { LeadStays(resstr0, resstr, f - p - 1); }
        assert |resstr| == p + dppos;
        assert dppos == 1 || Lead(resstr);
        assert RoundHalfUp(Scale(value, p)) == Num(resstr);
      }
    }
  }

  lemma LeadStays(s: Digits, r: Digits, k: nat)
    requires Lead(s) && r != [] && |s| == |r| + k + 1 && Num(r) == (Num(s) + 5 * Pow10(k)) / Pow10(k + 1)
    ensures Lead(r)
  {
    hide Num;
    LeadIs(s);
    Pow10Add(|r| - 1, k + 1);
    Quotient(Num(s) + 5 * Pow10(k), Pow10(k + 1), Pow10(|r| - 1));
    LeadIs(r);
  }

  lemma Quotient(n: nat, d: nat, q: nat)
    requires d > 0 && q * d <= n
    ensures q <= n / d
  {
    var r := n - q * d;
    assert n == q * d + r;
    assert n / d == q + r / d by { Shift(r, d, q); }
  }

  lemma Shift(r: nat, d: nat, q: nat)
    requires d > 0
    ensures (q * d + r) / d == q + r / d
  {
    assert q * d + r == d * (q + r / d) + r % d;
    QuotientIs(q * d + r, d, q + r / d, r % d);
  }

  // ---------------------------------------------------------------- trailing zeros and padding

  lemma {:induction false} TrimMany(m: nat, j: nat, p: nat, least: nat)
    requires j <= p && p - j >= least
    ensures Trim(m * Pow10(j), p, least) == Trim(m, p - j, least)
    decreases j
  {
    if j > 0 {
      var n := m * Pow10(j - 1);
      assert m * Pow10(j) == 10 * n;
      TrimMany(m, j - 1, p - 1, least);
    } else {
      assert m * Pow10(0) == m;
    }
  }

  lemma {:induction false} NumZeroPrefix(r: Digits, i: nat)
    requires i <= |r| && forall k :: 0 <= k < i ==> r[k] == 0
    ensures Num(r) == Num(r[i..]) * Pow10(i)
  {
    assert r == r[..i] + r[i..];
    assert r[..i] == Zeros(i);
    NumAppend(r[..i], r[i..]);
    NumZeros(i);
  }

  /** The digits to print: n / 10^p in full, or with trailing zeros taken off. */
  function Shown(value: real, precision: int): (r: (nat, nat))
    requires value >= 0.0
  {
    var p := if precision < 0 then -precision else precision;
    var x := Scale(value, p);
    var n := RoundHalfUp(x);
    assert n >= 0;
    if precision >= 0 then (n, p) else Trim(n, p, if x == n as real then 0 else 1)
  }

  /** The digit string as it is laid out: all digits of n, p of them after the point. */
  ghost predicate LaidOut(r: Digits, point: nat, shown: (nat, nat)) {
    r == DigitsOf(shown.0, shown.1 + 1) && |r| == shown.1 + point && point >= 1
  }

  lemma Lays(r: Digits, g: nat, point: nat)
    requires Aligned(r, g, point)
    ensures LaidOut(r, point, (Num(r), g))
  {
    DigitsAre(r, g + 1);
  }

  /** Zeros below: the number at more digits after the point. */
  lemma PadBelow(r: Digits, g: nat, point: nat, p: nat)
    requires g <= p && Aligned(r, g, point)
    ensures var s := Zeros(p - g) + r; Aligned(s, p, point) && Num(s) == Num(r) * Pow10(p - g)
  {
    NumAppend(Zeros(p - g), r);
    NumZeros(p - g);
  }

  /** The loop over trailing zeros, then the cut or the padding. */
  method Fit(value: real, resstr0: Digits, dppos: nat, precision0: nat, remove0s: bool, ghost f: nat)
    returns (resstr: Digits)
    requires value >= 0.0 && Rounded(value, resstr0, f, dppos, precision0) && (remove0s ==> precision0 > 0)
    ensures LaidOut(resstr, dppos, Shown(value, if remove0s then -(precision0 as int) else precision0))
  {
    hide Num, Pow10, Rounded, LaidOut, Shown;
    resstr := resstr0;
    var precision := precision0;
    if remove0s {
      var i := 0;
      while precision > 1 && i < |resstr| && resstr[i] == 0
        invariant 0 <= i <= |resstr| && precision == precision0 - i && precision >= 1
        invariant forall k :: 0 <= k < i ==> resstr[k] == 0
      {
        precision, i := precision - 1, i + 1;
      }
      FitRemoves(value, resstr, dppos, precision0, f, i);
    } else {
      FitKeeps(value, resstr, dppos, precision0, f);
      assert Zeros(0) + resstr == resstr;
    }
    precision := precision + dppos;
    if |resstr| > precision {
      resstr := resstr[|resstr| - precision..];
    } else {
      var wantedsize := if remove0s then dppos else precision;
      if |resstr| < wantedsize {
        resstr := Zeros(wantedsize - |resstr|) + resstr;
      }
    }
  }

  lemma FitKeeps(value: real, r: Digits, point: nat, p: nat, f: nat)
    requires value >= 0.0 && Rounded(value, r, f, point, p)
    ensures |r| <= p + point && LaidOut(Zeros(p + point - |r|) + r, point, Shown(value, p))
  {
    hide Scale, Num, Pow10;
    var s := Zeros(p + point - |r|) + r;
    if value == 0.0 {
      ZeroShown(p);
      NumZeros(p + 1);
      assert s == Zeros(p + 1);
      Lays(s, p, 1);
    } else {
      var g := if f <= p then f else p;
      PadBelow(r, g, point, p);
      Lays(s, p, point);
      if f > p { OnePower(Num(r)); }
    }
  }

  /** What the loop over trailing zeros and the cut leave, in the three cases. */
  lemma FitRemoves(value: real, r: Digits, point: nat, p: nat, f: nat, i: nat)
    requires value >= 0.0 && Rounded(value, r, f, point, p) && p > 0 && i <= |r| && i < p
    requires (forall k :: 0 <= k < i ==> r[k] == 0) && (i + 1 == p || i == |r| || r[i] != 0)
    ensures var w := p - i + point;
      LaidOut(if |r| > w then r[|r| - w..] else if |r| < point then Zeros(point - |r|) + r else r,
              point, Shown(value, -(p as int)))
  {
    hide Num, Pow10, LaidOut, DigitsOf;
    if value == 0.0 {
      FitZero(p);
      assert Zeros(1) + r == Zeros(1);
    } else if f <= p {
      FitExact(value, r, point, p, f);
      LastDigitIs(r);
    } else {
      FitInexact(value, r, point, p, f, i);
      assert r[0..] == r;
    }
  }

  lemma LastDigitIs(r: Digits)
    requires r != []
    ensures Num(r) % 10 == r[0]
  {
    assert r == [r[0]] + r[1..];
    NumPrepend(r[0], r[1..]);
  }

  lemma FitZero(p: nat)
    requires p > 0
    ensures LaidOut(Zeros(1), 1, Shown(0.0, -(p as int)))
  {
    hide Scale, Num, Pow10;
    ZeroShown(p);
    TrimMany(0, p, p, 0);
    NumZeros(1);
    Lays(Zeros(1), 0, 1);
  }

  lemma FitExact(value: real, r: Digits, point: nat, p: nat, f: nat)
    requires value > 0.0 && Rounded(value, r, f, point, p) && f <= p && p > 0
    ensures LaidOut(r, point, Shown(value, -(p as int)))
  {
    hide Scale, Num, Pow10, LaidOut;
    TrimMany(Num(r), p - f, p, 0);
    Lays(r, f, point);
  }

  lemma FitInexact(value: real, r: Digits, point: nat, p: nat, f: nat, i: nat)
    requires value > 0.0 && Rounded(value, r, f, point, p) && f > p && i < p
    requires (forall k :: 0 <= k < i ==> r[k] == 0) && (i + 1 == p || r[i] != 0)
    ensures |r| == p + point && LaidOut(r[i..], point, Shown(value, -(p as int)))
  {
    hide Scale, Num, Pow10, LaidOut;
    var s := r[i..];
    NumZeroPrefix(r, i);
    TrimMany(Num(s), i, p, 1);
    LastDigitIs(s);
    Lays(s, p - i, point);
  }

  lemma OnePower(n: nat)
    ensures n * Pow10(0) == n
  {}

  lemma ZeroShown(p: nat)
    ensures RoundHalfUp(Scale(0.0, p)) == 0 && Scale(0.0, p) == 0.0
  {}

  // ---------------------------------------------------------------- the number a printed text stands for

  lemma {:induction false} RevValue(ds: Digits)
    ensures DigitsValue(Rev(Chars(ds))) == Num(ds)
  {
    if ds != [] {
      var t := Rev(Chars(ds));
      assert t[..|t| - 1] == Rev(Chars(ds[1..]));
      RevValue(ds[1..]);
    }
  }

  /** The text of n / 10^p with its sign has that value, and starts with a minus sign exactly when it has one. */
  lemma FixedValue(minus: bool, n: nat, p: nat)
    ensures var t := FixedText(minus, n, p);
      && t != [] && (t[0] == 0x2D <==> minus)
      && TextValue(t) == (if minus then -1.0 else 1.0) * (n as real / Ten(p))
  {
    hide Num, Pow10, DigitsOf, DigitsValue, TextValue, Ten;
    DigitsOfLong(n, p + 1);
    var ds := DigitsOf(n, p + 1);
    var t := Rev(Chars(ds));
    RevValue(ds);
    assert t[..|t| - p] + t[|t| - p..] == t;
    LaidOutValue(minus, t[..|t| - p], t[|t| - p..]);
  }

  /** A shown value is off by at most half a unit of the last digit that is rounded to, its sign included. */
  lemma ShownValue(minus: bool, value: real, precision: int)
    requires value >= 0.0
    ensures var p := if precision < 0 then -precision else precision;
      var (m, k) := Shown(value, precision);
      var t := FixedText(minus, m, k);
      var x := if minus then -value else value;
      && t != [] && (t[0] == 0x2D <==> minus)
      && -0.5 <= (TextValue(t) - x) * Ten(p) <= 0.5
  {
    hide FixedText, TextValue, Shown, Scale, Pow10, Ten;
    var p := if precision < 0 then -precision else precision;
    var (m, k) := Shown(value, precision);
    ShownIsNearest(value, precision);
    FixedValue(minus, m, k);
    var v := m as real / Ten(k);
    Unshifted(m, k, p);
    ScaleIs(value, p);
    var x := if minus then -value else value;
    SignedError(if minus then -1.0 else 1.0, v, value, Ten(p));
  }

  lemma ScaleIs(x: real, p: nat)
    ensures Scale(x, p) == x * Ten(p)
  {}

  lemma SignedError(sign: real, v: real, value: real, t: real)
    requires sign == 1.0 || sign == -1.0
    ensures (sign * v - sign * value) * t == sign * (v * t - value * t)
  {}

  lemma Unshifted(m: nat, k: nat, p: nat)
    requires k <= p
    ensures m as real / Ten(k) * Ten(p) == (m * Pow10(p - k)) as real
  {
    hide Pow10;
    TenAdd(k, p - k);
    var v := m as real / Ten(k);
    assert v * Ten(k) == m as real;
    TimesOver(v, Ten(k), Ten(p - k));
    WholeTimes(m, Pow10(p - k));
  }

  // ---------------------------------------------------------------- the whole function

  /** to_string_fp(value, 'f', precision), for a finite value given by its sign and magnitude. A precision of 0 or
      more prints the value rounded half up with exactly that many digits after the point; a negative one rounds
      at its absolute value and takes trailing zeros off, down to one digit if the value was not exact. */
  method ToStringF(minus: bool, value: real, precision0: int, ghost n: nat) returns (text: Text)
    requires value >= 0.0 && Dyadic(value, n)
    ensures text == FixedText(minus, Shown(value, precision0).0, Shown(value, precision0).1)
    ensures text != [] && (text[0] == 0x2D <==> minus)
    ensures var p := if precision0 < 0 then -precision0 else precision0;
      -0.5 <= (TextValue(text) - (if minus then -value else value)) * Ten(p) <= 0.5
  {
    hide Num, Pow10, Shown, DigitsOf, Rounded, Whole0, Expanded, Dyadic, LaidOut, FixedText, TextValue, Ten;
    ShownValue(minus, value, precision0);
    var precision, remove0s := precision0, false;
    if precision < 0 { precision, remove0s := -precision, true; }
    var resstr: Digits, dppos: int := [], 0;
    ghost var f: nat := 0;
    if value != 0.0 {
      resstr, dppos := Expand(value, n);
      f := |resstr| - 1 - dppos;
    }
    resstr, dppos := FillPoint(value, resstr, dppos, f);
    resstr, dppos := RoundAt(value, resstr, dppos, precision, f);
    resstr := Fit(value, resstr, dppos, precision, remove0s, f);
    text := Place(minus, resstr, dppos, Shown(value, precision0));
  }

  /** The digits become characters, the point and the sign are put in, and the text is turned round. */
  method Place(minus: bool, resstr: Digits, dppos: nat, ghost shown: (nat, nat)) returns (text: Text)
    requires LaidOut(resstr, dppos, shown)
    ensures text == FixedText(minus, shown.0, shown.1)
  {
    hide DigitsOf, Chars, Rev;
    text := Chars(resstr);
    if |text| > dppos {
      text := text[..|text| - dppos] + [0x2E] + text[|text| - dppos..];
    }
    if minus { text := text + [0x2D]; }
    Turned(minus, resstr, shown.1, dppos);
    text := Reverse(text);
  }

  lemma Turned(minus: bool, r: Digits, p: nat, point: nat)
    requires |r| == p + point && point >= 1
    ensures var t := Chars(r); var u := Rev(t);
      var v := if |t| > point then t[..p] + [0x2E] + t[p..] else t;
      Rev(if minus then v + [0x2D] else v)
          == (if minus then [0x2D] else []) + u[..|u| - p] + (if p > 0 then [0x2E] + u[|u| - p..] else [])
  {}

  // ---------------------------------------------------------------- what the text is good for

  /** Every text printed is a number of RFC 8259, section 6. */
  lemma FixedIsNumber(minus: bool, n: nat, p: nat)
    ensures JsonNumbers.IsNumber(FixedText(minus, n, p))
  {
    hide Num, Pow10, DigitsOf;
    DigitsOfLong(n, p + 1);
    var ds := DigitsOf(n, p + 1);
    PartsOf(minus, ds, p);
  }

  lemma PartsOf(minus: bool, ds: Digits, p: nat)
    requires |ds| > p && (|ds| == p + 1 || Lead(ds))
    ensures var t := Rev(Chars(ds));
      JsonNumbers.IsNumber((if minus then [0x2D] else []) + t[..|t| - p]
          + (if p > 0 then [0x2E] + t[|t| - p..] else []))
  {
    var t := Rev(Chars(ds));
    var whole, rest := t[..|t| - p], t[|t| - p..];
    assert JsonNumbers.AllDigits(t);
    assert JsonNumbers.AllDigits(rest);
    assert JsonNumbers.IsWhole(whole);
    Joins(minus, whole, rest);
  }

  lemma Joins(minus: bool, whole: Text, rest: Text)
    requires JsonNumbers.IsWhole(whole) && JsonNumbers.AllDigits(rest)
    ensures JsonNumbers.IsNumber((if minus then [0x2D] else []) + whole + (if |rest| > 0 then [0x2E] + rest else []))
  {
    hide JsonNumbers.IsWhole, JsonNumbers.AllDigits;
    var m: Text := if minus then [0x2D] else [];
    var frac: Text := if |rest| > 0 then [0x2E] + rest else [];
    assert |rest| > 0 ==> frac[1..] == rest;
    var parts := JsonNumbers.Parts(m, whole, frac, []);
    assert parts.Valid();
    assert parts.Text() == m + whole + frac;
  }

  /** Before the point there is no needless zero, and after it stand exactly p digits. */
  lemma FixedShape(minus: bool, n: nat, p: nat)
    ensures var t := FixedText(minus, n, p);
      && (p > 0 ==> |t| > p && t[|t| - 1 - p] == 0x2E)
      && (p > 0 ==> forall i :: |t| - p <= i < |t| ==> JsonNumbers.IsDigit(t[i]))
      && (p == 0 ==> forall i :: (if minus then 1 else 0) <= i < |t| ==> JsonNumbers.IsDigit(t[i]))
  {
    hide Num, Pow10, DigitsOf;
    DigitsOfLong(n, p + 1);
  }

  /** What the text of a number is made of. */
  predicate NumberBytes(t: seq<Byte>) {
    forall i :: 0 <= i < |t| ==> JsonNumbers.IsDigit(t[i]) || t[i] == 0x2D || t[i] == 0x2E
  }

  /** The text holds nothing but digits, a sign and a point. */
  lemma FixedChars(minus: bool, n: nat, p: nat)
    ensures NumberBytes(FixedText(minus, n, p))
  {
    hide DigitsOf;
    DigitsOfLong(n, p + 1);
    var t := Rev(Chars(DigitsOf(n, p + 1)));
    assert NumberBytes(t);
    assert NumberBytes(t[..|t| - p]) && NumberBytes(t[|t| - p..]);
    NumberJoins(if minus then [0x2D] else [], t[..|t| - p]);
    NumberJoins([0x2E], t[|t| - p..]);
    NumberJoins((if minus then [0x2D] else []) + t[..|t| - p], if p > 0 then [0x2E] + t[|t| - p..] else []);
  }

  lemma NumberJoins(a: seq<Byte>, b: seq<Byte>)
    requires NumberBytes(a) && NumberBytes(b)
    ensures NumberBytes(a + b)
  {}

  /** Taking trailing zeros off does not change the number. */
  lemma {:induction false} TrimKeeps(n: nat, p: nat, least: nat)
    requires least <= p
    ensures var (m, k) := Trim(n, p, least); least <= k <= p && n == m * Pow10(p - k)
    ensures var (m, k) := Trim(n, p, least); k > least ==> m % 10 != 0
    decreases p
  {
    if p > least && n % 10 == 0 {
      TrimKeeps(n / 10, p - 1, least);
      var (m, k) := Trim(n, p, least);
      assert n == 10 * (n / 10) == 10 * (m * Pow10(p - 1 - k));
    } else {
      OnePower(n);
    }
  }

  /** How many digits are shown: exactly as many as asked for; or, where zeros are taken off, none at all or no zero at
      the end, except for one digit that a value keeps which is not exact. */
  lemma ShownDigits(minus: bool, value: real, precision: int)
    requires value >= 0.0
    ensures var p := if precision < 0 then -precision else precision;
      var (m, k) := Shown(value, precision);
      var t := FixedText(minus, m, k);
      && k <= p && (precision >= 0 ==> k == p)
      && var exact := Scale(value, p) == (m * Pow10(p - k)) as real;
      && t != [] && t[|t| - 1] as int == 0x30 + m % 10
      && (precision < 0 && k > 0 && t[|t| - 1] == 0x30 ==> k == 1 && !exact)
      && (precision < 0 && k == 0 && p > 0 ==> exact)
  {
    hide Pow10, Scale, FixedText;
    var p := if precision < 0 then -precision else precision;
    var (m, k) := Shown(value, precision);
    var n := RoundHalfUp(Scale(value, p));
    FixedLast(minus, m, k);
    if precision >= 0 { OnePower(n); } else { TrimKeeps(n, p, if Scale(value, p) == n as real then 0 else 1); }
  }

  lemma FixedLast(minus: bool, n: nat, p: nat)
    ensures var t := FixedText(minus, n, p); t != [] && t[|t| - 1] as int == 0x30 + n % 10
  {
    DigitsOfLong(n, p + 1);
    var ds := DigitsOf(n, p + 1);
    assert ds[0] == n % 10;
  }

  /** The number shown is the nearest one: off by at most half a unit of the last digit rounded to, half going up. */
  lemma ShownIsNearest(value: real, precision: int)
    requires value >= 0.0
    ensures var p := if precision < 0 then -precision else precision;
      var (m, k) := Shown(value, precision);
      && k <= p && (precision >= 0 ==> k == p)
      && (m * Pow10(p - k)) as real - 0.5 <= Scale(value, p) < (m * Pow10(p - k)) as real + 0.5
  {
    hide Pow10, Scale;
    var p := if precision < 0 then -precision else precision;
    var x := Scale(value, p);
    var n := RoundHalfUp(x);
    assert x >= 0.0;
    assert n as real - 0.5 <= x < n as real + 0.5;
    if precision >= 0 {
      OnePower(n);
    } else {
      TrimKeeps(n, p, if Scale(value, p) == n as real then 0 else 1);
    }
  }
}
