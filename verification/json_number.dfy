/** Number text: the branch of parse_value_ in ctljson.hpp that reads numbers, against section 6 of RFC 8259. */
module JsonNumbers {
  import opened Keys
  import opened JsonStrings

  /** The error codes of json_error. */
  datatype Code = NoError | EcArray | EcObject | EcObjectName | EcNoColon | EcString | EcLiteral | EcNumber

  const MINUS: Byte := 0x2D
  const PLUS: Byte := 0x2B
  const DOT: Byte := 0x2E
  const ZERO: Byte := 0x30

  predicate IsDigit(b: Byte) { 0x30 <= b <= 0x39 }
  predicate IsE(b: Byte) { b == 0x45 || b == 0x65 }
  predicate AllDigits(d: Bytes) { forall i :: 0 <= i < |d| ==> IsDigit(d[i]) }

  // ---------------------------------------------------------------- the grammar

  /** The parts of a number: an optional part is the empty string. */
  datatype Parts = Parts(minus: Bytes, whole: Bytes, frac: Bytes, exp: Bytes)
  {
    predicate Valid() {
      && (minus == [] || minus == [MINUS])
      && IsWhole(whole) && (frac == [] || IsFrac(frac)) && (exp == [] || IsExp(exp))
    }
    function Text(): Bytes { minus + whole + frac + exp }
  }

  /** int = zero / ( digit1-9 *DIGIT ) */
  predicate IsWhole(t: Bytes) { AllDigits(t) && t != [] && (t[0] == ZERO ==> |t| == 1) }
  /** frac = decimal-point 1*DIGIT */
  predicate IsFrac(t: Bytes) { |t| >= 2 && t[0] == DOT && AllDigits(t[1..]) }
  /** exp = e [ minus / plus ] 1*DIGIT */
  predicate IsExp(t: Bytes) {
    && |t| >= 2 && IsE(t[0])
    && (AllDigits(t[1..]) || (|t| >= 3 && (t[1] == PLUS || t[1] == MINUS) && AllDigits(t[2..])))
  }

  ghost predicate IsNumber(t: Bytes) { exists n: Parts :: n.Valid() && n.Text() == t }

  // ---------------------------------------------------------------- the reading

  /** How far a part of the number goes, or where and how reading it fails. */
  datatype Stage = Go(pos: nat) | Stop(code: Code, pos: nat)

  function DigitsEnd(s: Bytes, i: nat): (j: nat)
    requires i <= |s|
    ensures i <= j <= |s| && AllDigits(s[i..j]) && (j < |s| ==> !IsDigit(s[j]))
    decreases |s| - i
  {
    if i < |s| && IsDigit(s[i]) then
      var j := DigitsEnd(s, i + 1);
      assert s[i..j] == [s[i]] + s[i + 1..j];
      j
    else i
  }

  function WholeEnd(s: Bytes, a: nat, minus: bool): Stage
    requires a < |s|
  {
    if s[a] == ZERO then Go(a + 1)
    else if IsDigit(s[a]) then Go(DigitsEnd(s, a))
    else Stop(if minus then EcNumber else EcLiteral, a)
  }

  function FracEnd(s: Bytes, b: nat): Stage
    requires b <= |s|
  {
    if b == |s| || s[b] != DOT then Go(b)
    else if b + 1 == |s| || !IsDigit(s[b + 1]) then Stop(EcNumber, b + 1)
    else Go(DigitsEnd(s, b + 1))
  }

  function SignEnd(s: Bytes, d: nat): (r: nat)
    requires d <= |s|
    ensures d <= r <= |s|
  {
    if d < |s| && (s[d] == PLUS || s[d] == MINUS) then d + 1 else d
  }

  function ExpEnd(s: Bytes, c: nat): Stage
    requires c <= |s|
  {
    if c == |s| || !IsE(s[c]) then Go(c)
    else
      var d := SignEnd(s, c + 1);
      if d == |s| || !IsDigit(s[d]) then Stop(EcNumber, d) else Go(DigitsEnd(s, d))
  }

  /** The whole number from position a on, after the sign. */
  function UnsignedEnd(s: Bytes, a: nat, minus: bool): (r: Stage)
    requires a < |s|
    ensures a <= r.pos <= |s| && (if r.Go? then a < r.pos else r.code != NoError)
  {
    var w := WholeEnd(s, a, minus);
    if w.Stop? then w else
    var f := FracEnd(s, w.pos);
    if f.Stop? then f else ExpEnd(s, f.pos)
  }

  method SkipDigits(s: Bytes, begin0: nat) returns (begin: nat)
    requires begin0 < |s| && IsDigit(s[begin0])
    ensures begin == DigitsEnd(s, begin0)
  {
    begin := begin0 + 1;
    while begin != |s| && IsDigit(s[begin])
      invariant begin0 < begin <= |s| && DigitsEnd(s, begin0) == DigitsEnd(s, begin)
    {
      begin := begin + 1;
    }
  }

  method ReadFraction(s: Bytes, begin0: nat) returns (ok: bool, begin: nat)
    requires begin0 <= |s|
    ensures FracEnd(s, begin0) == if ok then Go(begin) else Stop(EcNumber, begin)
    ensures ok ==> begin <= |s|
  {
    begin := begin0;
    if begin != |s| && s[begin] == DOT {
      begin := begin + 1;
      if begin == |s| || !IsDigit(s[begin]) { return false, begin; }
      begin := SkipDigits(s, begin);
    }
    ok := true;
  }

  method ReadExponent(s: Bytes, begin0: nat) returns (ok: bool, begin: nat)
    requires begin0 <= |s|
    ensures ExpEnd(s, begin0) == if ok then Go(begin) else Stop(EcNumber, begin)
  {
    begin := begin0;
    if begin != |s| && IsE(s[begin]) {
      begin := begin + 1;
      if begin == |s| { return false, begin; }
      if s[begin] == PLUS || s[begin] == MINUS { begin := begin + 1; }
      if begin == |s| || !IsDigit(s[begin]) { return false, begin; }
      begin := SkipDigits(s, begin);
    }
    ok := true;
  }

  method ReadUnsigned(s: Bytes, begin0: nat, minus: bool) returns (ecode: Code, begin: nat)
    requires begin0 < |s|
    ensures UnsignedEnd(s, begin0, minus) == if ecode == NoError then Go(begin) else Stop(ecode, begin)
    ensures begin0 <= begin <= |s| && (ecode == NoError ==> begin0 < begin)
  {
    hide FracEnd, ExpEnd;
    begin := begin0;
    if s[begin] == ZERO {
      begin := begin + 1;
    } else if 0x31 <= s[begin] <= 0x39 {
      begin := SkipDigits(s, begin);
    } else {
      return if minus then EcNumber else EcLiteral, begin;
    }
    var ok;
    ok, begin := ReadFraction(s, begin);
    if !ok { return EcNumber, begin; }
    ok, begin := ReadExponent(s, begin);
    return if ok then NoError else EcNumber, begin;
  }

  // ---------------------------------------------------------------- the reading against the grammar

  /** What is read as a number is one by the grammar. */
  lemma ReadIsNumber(s: Bytes, i: nat, minus: bool)
    requires i < |s| && (minus ==> s[i] == MINUS && i + 1 < |s|)
    ensures var a := if minus then i + 1 else i;
      UnsignedEnd(s, a, minus).Go? ==> IsNumber(s[i..UnsignedEnd(s, a, minus).pos])
  {
    hide WholeEnd, FracEnd, ExpEnd, IsWhole, IsFrac, IsExp;
    var a := if minus then i + 1 else i;
    if UnsignedEnd(s, a, minus).Go? {
      WholeReads(s, a, minus);
      var w := WholeEnd(s, a, minus).pos;
      FracReads(s, w);
      var f := FracEnd(s, w).pos;
      ExpReads(s, f);
      var e := ExpEnd(s, f).pos;
      assert UnsignedEnd(s, a, minus) == Go(e);
      PartsAre(s, i, a, w, f, e);
    }
  }

  lemma PartsAre(s: Bytes, i: nat, a: nat, w: nat, f: nat, e: nat)
    requires i <= a <= w <= f <= e <= |s| && (s[i..a] == [] || s[i..a] == [MINUS]) && IsWhole(s[a..w])
    requires (s[w..f] == [] || IsFrac(s[w..f])) && (s[f..e] == [] || IsExp(s[f..e]))
    ensures IsNumber(s[i..e])
  {
    hide IsWhole, IsFrac, IsExp, AllDigits;
    var n := Parts(s[i..a], s[a..w], s[w..f], s[f..e]);
    Adjoin(s, i, a, w);
    Adjoin(s, i, w, f);
    Adjoin(s, i, f, e);
    assert n.Valid() && n.Text() == s[i..e];
  }

  lemma Adjoin(s: Bytes, i: nat, j: nat, k: nat)
    requires i <= j <= k <= |s|
    ensures s[i..j] + s[j..k] == s[i..k]
  {}

  lemma WholeReads(s: Bytes, a: nat, minus: bool)
    requires a < |s| && WholeEnd(s, a, minus).Go?
    ensures a < WholeEnd(s, a, minus).pos <= |s| && IsWhole(s[a..WholeEnd(s, a, minus).pos])
  {}

  lemma FracReads(s: Bytes, b: nat)
    requires b <= |s| && FracEnd(s, b).Go?
    ensures var c := FracEnd(s, b).pos; b <= c <= |s| && (s[b..c] == [] || IsFrac(s[b..c]))
  {
    var c := FracEnd(s, b).pos;
    if c != b { assert s[b..c][1..] == s[b + 1..c]; }
  }

  lemma ExpReads(s: Bytes, c: nat)
    requires c <= |s| && ExpEnd(s, c).Go?
    ensures var e := ExpEnd(s, c).pos; c <= e <= |s| && (s[c..e] == [] || IsExp(s[c..e]))
  {
    var e := ExpEnd(s, c).pos;
    if e != c {
      var d := SignEnd(s, c + 1);
      assert s[c..e][1..] == s[c + 1..e];
      assert s[c..e][d - c..] == s[d..e];
    }
  }

  /** What may follow a number: the end, a comma, a closing bracket or a space. */
  predicate Stops(s: Bytes, i: nat)
    requires i <= |s|
  {
    i == |s| || s[i] in {0x2C, 0x5D, 0x7D, 0x20, 0x09, 0x0A, 0x0D}
  }

  lemma {:induction false} DigitsTo(s: Bytes, i: nat, j: nat)
    requires i <= j <= |s| && AllDigits(s[i..j]) && (j < |s| ==> !IsDigit(s[j]))
    ensures DigitsEnd(s, i) == j
    decreases j - i
  {
    if i < j {
      assert s[i..j][0] == s[i] && s[i..j][1..] == s[i + 1..j];
      DigitsTo(s, i + 1, j);
    }
  }

  lemma SlicesAre(pre: Bytes, minus: Bytes, whole: Bytes, frac: Bytes, exp: Bytes, post: Bytes)
    ensures var s, i := pre + (minus + whole + frac + exp) + post, |pre|;
      var a := i + |minus|; var b := a + |whole|; var c := b + |frac|; var e := c + |exp|;
      && s[i..a] == minus && s[a..b] == whole && s[b..c] == frac && s[c..e] == exp && s[e..] == post
      && |s| == e + |post|
  {}

  /** Every number of the grammar is read to its end when nothing follows that could go on it. */
  lemma NumberIsRead(t: Bytes, pre: Bytes, post: Bytes)
    requires IsNumber(t) && Stops(post, 0)
    ensures var s, i := pre + t + post, |pre|;
      var minus := s[i] == MINUS;
      var a := if minus then i + 1 else i;
      t != [] && a < |s| && (minus || IsDigit(s[i])) && UnsignedEnd(s, a, minus) == Go(i + |t|)
  {
    hide UnsignedEnd, IsFrac, IsExp, AllDigits;
    var n: Parts :| n.Valid() && n.Text() == t;
    var s, i := pre + t + post, |pre|;
    var a := i + |n.minus|;
    var b := a + |n.whole|;
    var c := b + |n.frac|;
    var e := c + |n.exp|;
    SlicesAre(pre, n.minus, n.whole, n.frac, n.exp, post);
    assert s[a..b][0] == s[a];
    assert e < |s| ==> s[e] == post[0];
    WholeTo(s, a, b, c, e);
    if n.minus != [] { assert s[i] == n.minus[0]; }
  }

  lemma ExpTo(s: Bytes, c: nat, e: nat)
    requires c <= e <= |s| && Stops(s, e) && (s[c..e] == [] || IsExp(s[c..e]))
    ensures ExpEnd(s, c) == Go(e) && (c < |s| ==> !IsDigit(s[c]) && s[c] != DOT)
  {
    if c < e {
      var t := s[c..e];
      assert t[0] == s[c] && t[1] == s[c + 1];
      assert t[1..] == s[c + 1..e];
      if AllDigits(t[1..]) {
        assert IsDigit(t[1..][0]);
        DigitsTo(s, c + 1, e);
      } else {
        assert t[2..] == s[c + 2..e] && IsDigit(t[2..][0]);
        DigitsTo(s, c + 2, e);
      }
    }
  }

  lemma FracTo(s: Bytes, b: nat, c: nat, e: nat)
    requires b <= c <= e <= |s| && Stops(s, e) && (s[c..e] == [] || IsExp(s[c..e]))
        && (s[b..c] == [] || IsFrac(s[b..c]))
    ensures FracEnd(s, b) == Go(c) && (b < |s| ==> !IsDigit(s[b]))
  {
    ExpTo(s, c, e);
    if b < c {
      var t := s[b..c];
      assert t[0] == s[b] && t[1..] == s[b + 1..c] && IsDigit(t[1..][0]);
      DigitsTo(s, b + 1, c);
    }
  }

  lemma WholeTo(s: Bytes, a: nat, b: nat, c: nat, e: nat)
    requires a <= b <= c <= e <= |s| && Stops(s, e) && (s[c..e] == [] || IsExp(s[c..e]))
        && (s[b..c] == [] || IsFrac(s[b..c]))
    requires IsWhole(s[a..b])
    ensures a < |s| && IsDigit(s[a]) && forall minus :: UnsignedEnd(s, a, minus) == Go(e)
  {
    hide IsFrac, IsExp;
    FracTo(s, b, c, e);
    ExpTo(s, c, e);
    assert s[a..b][0] == s[a];
    DigitsTo(s, a, b);
    forall minus ensures UnsignedEnd(s, a, minus) == Go(e) {
      assert WholeEnd(s, a, minus) == Go(b);
    }
  }
}
