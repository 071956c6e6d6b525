/** Strings kept as 16-bit units: escape_ and parse_string_ of ctljson.hpp for UTF-16. */
module Utf16Strings {
  import opened Basics
  import opened Keys
  import opened JsonStrings

  type Unit = u: int | 0 <= u < 0x1_0000
  type Units = seq<Unit>

  // ---------------------------------------------------------------- the text of a string

  /** One unit on its own: escaped, or one to three octets; a lone surrogate takes three. */
  function UnitText(u: Unit): (b: Bytes)
    ensures 1 <= |b|
  {
    if u < 0x20 then [BACKSLASH, 0x75, 0x30, 0x30, HexDigit(u / 16), HexDigit(u % 16)]
    else if u == QUOTE || u == BACKSLASH then [BACKSLASH, u]
    else Utf8(u)
  }

  /** A string: a high unit and the low unit after it together, every other unit on its own. */
  function UnitsText(t: Units): Bytes {
    if t == [] then []
    else if |t| >= 2 && IsHigh(t[0]) && IsLow(t[1]) then FourOctets(PairPoint(t[0], t[1])) + UnitsText(t[2..])
    else UnitText(t[0]) + UnitsText(t[1..])
  }

  /** What the output will be: d so far, prev the high unit whose three octets end d (or 0), t to come. */
  ghost function Coming(d: Bytes, prev: nat, t: Units): Bytes
    requires prev != 0 ==> prev < 0x1_0000 && IsHigh(prev) && 3 <= |d|
  {
    if prev != 0 && t != [] && IsLow(t[0]) then d[..|d| - 3] + FourOctets(PairPoint(prev, t[0])) + UnitsText(t[1..])
    else d + UnitsText(t)
  }

  lemma ComingStep(d: Bytes, prev: nat, t: Units)
    requires t != [] && (prev != 0 ==> prev < 0x1_0000 && IsHigh(prev) && 3 <= |d|)
    ensures prev != 0 && IsLow(t[0]) ==>
      Coming(d, prev, t) == Coming(d[..|d| - 3] + FourOctets(PairPoint(prev, t[0])), 0, t[1..])
    ensures !(prev != 0 && IsLow(t[0])) && !IsHigh(t[0]) ==> Coming(d, prev, t) == Coming(d + UnitText(t[0]), 0, t[1..])
    ensures !(prev != 0 && IsLow(t[0])) && IsHigh(t[0]) ==>
      |UnitText(t[0])| == 3 && Coming(d, prev, t) == Coming(d + UnitText(t[0]), t[0], t[1..])
  {
    hide FourOctets, PairPoint;
    if prev != 0 && IsLow(t[0]) {
    } else if |t| >= 2 && IsHigh(t[0]) && IsLow(t[1]) {
      var e := d + UnitText(t[0]);
      assert |UnitText(t[0])| == 3;
      assert e[..|e| - 3] == d;
      assert t[2..] == t[1..][1..];
      var f, r := FourOctets(PairPoint(t[0], t[1])), UnitsText(t[2..]);
      assert d + (f + r) == d + f + r;
    } else {
      var f, r := UnitText(t[0]), UnitsText(t[1..]);
      assert d + (f + r) == d + f + r;
    }
  }

  method WriteControl(d0: Bytes, ch0: Unit) returns (d: Bytes)
    requires ch0 < 0x20
    ensures d == d0 + UnitText(ch0)
  {
    var ch: nat := ch0;
    var j := |d0|;
    d := d0 + [0, 0, 0, 0, 0, 0];
    d := d[j := BACKSLASH]; j := j + 1;
    d := d[j := 0x75]; j := j + 1;
    d := d[j := 0x30]; j := j + 1;
    d := d[j := 0x30]; j := j + 1;
    d := d[j := ch / 0x10 + 0x30]; j := j + 1;
    ch := ch % 0x10;
    d := d[j := ch + (if ch < 10 then 0x30 else 0x41 - 10)];
  }

  /** A low unit after a high one turns its three octets into four in place. */
  method WritePair(d0: Bytes, ch0: Unit, prev: nat) returns (d: Bytes)
    requires prev < 0x1_0000 && IsHigh(prev) && IsLow(ch0) && 3 <= |d0|
    ensures d == d0[..|d0| - 3] + FourOctets(PairPoint(prev, ch0))
  {
    var j := |d0|;
    var ch := prev % 0x400 * 0x400 + ch0 % 0x400 + 0x1_0000;
    assert ch == PairPoint(prev, ch0);
    d := d0 + [0x80 + ch % 0x40];
    d := d[j - 3 := 0xF0 + ch / 0x4_0000];
    d := d[j - 2 := 0x80 + ch / 0x1000 % 0x40];
    d := d[j - 1 := 0x80 + ch / 0x40 % 0x40];
  }

  method WriteOctets(d0: Bytes, ch: Unit) returns (d: Bytes)
    requires ch >= 0x80
    ensures d == d0 + UnitText(ch)
  {
    var j := |d0|;
    if ch >= 0x800 {
      d := d0 + [0x80 + ch % 0x40, 0x80 + ch % 0x40, 0x80 + ch % 0x40];
      d := d[j := 0xE0 + ch / 0x1000]; j := j + 1;
      d := d[j := 0x80 + ch / 0x40 % 0x40];
    } else {
      d := d0 + [0x80 + ch % 0x40, 0x80 + ch % 0x40];
      d := d[j := 0xC0 + ch / 0x40];
    }
  }

  /** One unit onto the output. */
  method EscapeUnit(d0: Bytes, ch: Unit, prev: nat) returns (d: Bytes, prev': nat)
    requires prev != 0 ==> prev < 0x1_0000 && IsHigh(prev) && 3 <= |d0|
    ensures d == if prev != 0 && IsLow(ch) then d0[..|d0| - 3] + FourOctets(PairPoint(prev, ch)) else d0 + UnitText(ch)
    ensures prev' == if IsHigh(ch) then ch else 0
  {
    prev' := 0;
    if ch < 0x20 {
      d := WriteControl(d0, ch);
    } else if ch == QUOTE || ch == BACKSLASH {
      d := d0 + [BACKSLASH, BACKSLASH];
      d := d[|d| - 1 := ch];
    } else if ch >= 0x80 {
      if ch >= 0x800 && prev != 0 && 0xDC00 <= ch < 0xDC00 + 0x400 {
        d := WritePair(d0, ch, prev);
      } else {
        d := WriteOctets(d0, ch);
        if 0xD800 <= ch < 0xD800 + 0x400 { prev' := ch; }
      }
    } else {
      d := d0 + [ch];
    }
  }

  /** escape_ from 16-bit units. */
  method EscapeUnits(d0: Bytes, s: Units) returns (d: Bytes)
    ensures d == d0 + UnitsText(s)
  {
    hide UnitText, FourOctets, PairPoint;
    d := d0;
    var prev := 0;
    var i := 0;
    assert s[0..] == s;
    while i < |s|
      invariant i <= |s| && prev >= 0 && (prev != 0 ==> prev < 0x1_0000 && IsHigh(prev) && 3 <= |d|)
      invariant Coming(d, prev, s[i..]) == d0 + UnitsText(s)
    {
      assert s[i..][0] == s[i] && s[i..][1..] == s[i + 1..];
      ComingStep(d, prev, s[i..]);
      d, prev := EscapeUnit(d, s[i], prev);
      i := i + 1;
    }
  }

  // ---------------------------------------------------------------- reading octets

  predicate Cont(s: Bytes, i: nat) { i < |s| && 0x80 <= s[i] < 0xC0 }

  /** The units a sequence of octets stands for and how many octets it has; or where it goes wrong. */
  datatype Octets = Good(units: Units, len: nat) | Wrong(at: nat)

  function Decode(s: Bytes, i: nat): (r: Octets)
    requires i < |s| && s[i] >= 0x80
    ensures r.Good? ==> 2 <= r.len <= 4 && i + r.len <= |s|
    ensures r.Wrong? ==> i <= r.at <= |s|
  {
    var b: int := s[i];
    if b < 0xC2 || b > 0xF4 then Wrong(i)
    else if !Cont(s, i + 1) then Wrong(i + 1)
    else if b < 0xE0 then Good([b % 0x20 * 0x40 + s[i + 1] % 0x40], 2)
    else if b < 0xF0 then
      if b == 0xE0 && s[i + 1] < 0xA0 then Wrong(i + 1)
      else if !Cont(s, i + 2) then Wrong(i + 2)
      else Good([b % 0x10 * 0x1000 + (s[i + 1] as int) % 0x40 * 0x40 + s[i + 2] % 0x40], 3)
    else if (b == 0xF0 && s[i + 1] < 0x90) || (b == 0xF4 && s[i + 1] > 0x8F) then Wrong(i + 1)
    else if !Cont(s, i + 2) then Wrong(i + 2)
    else if !Cont(s, i + 3) then Wrong(i + 3)
    else
      var c := b % 8 * 0x4_0000 + (s[i + 1] as int) % 0x40 * 0x1000 + (s[i + 2] as int) % 0x40 * 0x40
          + s[i + 3] % 0x40 - 0x1_0000;
      Good([0xD800 + c / 0x400, 0xDC00 + c % 0x400], 4)
  }

  datatype Scan16 = Scan16(ok: bool, text: Units, pos: nat)

  /** Bytes taken over as units. */
  function Widen(b: Bytes): (u: Units)
    ensures |u| == |b| && forall k :: 0 <= k < |b| ==> u[k] == b[k]
  {
    seq(|b|, k requires 0 <= k < |b| => b[k])
  }

  /** The string from position i on, up to its closing quote, with what has been read so far. */
  function Unescape16(s: Bytes, i: nat, out: Units): (r: Scan16)
    requires i <= |s|
    ensures i <= r.pos <= |s|
    decreases |s| - i
  {
    if i == |s| then Scan16(false, [], i)
    else if s[i] == QUOTE then Scan16(true, out, SkipSpaces(s, i + 1))
    else if s[i] == BACKSLASH then
      if i + 1 == |s| then Scan16(false, [], |s|)
      else if Simple(s[i + 1]) >= 0 then Unescape16(s, i + 2, out + [Simple(s[i + 1])])
      else if s[i + 1] != 0x75 then Unescape16(s, i + 2, out + [BACKSLASH, s[i + 1]])
      else
        HexBelow(s, i + 2, 4, 0);
        match HexFrom(s, i + 2, 4, 0)
        case Ends => Scan16(false, [], |s|)
        case Bad(at) => Unescape16(s, at, out + Widen(s[i..at]))
        case Value(u) => Unescape16(s, i + 6, out + [u])
    else if s[i] < 0x80 then Unescape16(s, i + 1, out + [s[i]])
    else match Decode(s, i)
      case Wrong(at) => Scan16(false, [], at)
      case Good(units, len) => Unescape16(s, i + len, out + units)
  }

  /** The reading of s from begin on, with str as the text so far and s[prevbegin..begin] still to be appended. */
  function Ahead16(s: Bytes, str: Units, prevbegin: nat, begin: nat): Scan16
    requires prevbegin <= begin <= |s|
  {
    Unescape16(s, begin, str + Widen(s[prevbegin..begin]))
  }

  lemma WidenAppend(s: Bytes, str: Units, i: nat, j: nat, k: nat)
    requires i <= j <= k <= |s|
    ensures str + Widen(s[i..j]) + Widen(s[j..k]) == str + Widen(s[i..k])
  {}

  /** The run and its last unit written over; and with two units written over. */
  lemma OneWritten(s: Bytes, str: Units, i: nat, j: nat, u: Unit)
    requires i <= j < |s|
    ensures var r := str + Widen(s[i..j + 1]); |r| > 0 && r[|r| - 1 := u] == str + Widen(s[i..j]) + [u]
  {
    WidenAppend(s, str, i, j, j + 1);
  }

  lemma TwoWritten(s: Bytes, str: Units, i: nat, j: nat, u: Unit, v: Unit)
    requires i <= j < |s| - 1
    ensures var r := str + Widen(s[i..j + 2]);
      |r| > 1 && r[|r| - 2 := u][|r| - 1 := v] == str + Widen(s[i..j]) + [u, v]
  {
    WidenAppend(s, str, i, j, j + 2);
  }

  lemma Stays16(s: Bytes, str: Units, prevbegin: nat, begin: nat)
    requires prevbegin <= begin < |s|
    ensures s[begin] != QUOTE && s[begin] != BACKSLASH && s[begin] < 0x80 ==>
      Ahead16(s, str, prevbegin, begin) == Ahead16(s, str, prevbegin, begin + 1)
    ensures s[begin] == BACKSLASH && begin + 1 < |s| && Simple(s[begin + 1]) < 0 && s[begin + 1] != 0x75
      ==> Ahead16(s, str, prevbegin, begin) == Ahead16(s, str, prevbegin, begin + 2)
    ensures s[begin] == BACKSLASH && begin + 1 < |s| && s[begin + 1] == 0x75 && HexFrom(s, begin + 2, 4, 0).Bad?
      ==> Ahead16(s, str, prevbegin, begin) == Ahead16(s, str, prevbegin, HexFrom(s, begin + 2, 4, 0).at)
  {
    hide HexFrom, SkipSpaces, Decode;
    WidenAppend(s, str, prevbegin, begin, begin + 1);
    assert Widen(s[begin..begin + 1]) == [s[begin]];
    if begin + 1 < |s| {
      WidenAppend(s, str, prevbegin, begin, begin + 2);
      assert Widen(s[begin..begin + 2]) == [s[begin], s[begin + 1]];
      var h := HexFrom(s, begin + 2, 4, 0);
      if h.Bad? { WidenAppend(s, str, prevbegin, begin, h.at); }
    }
  }

  lemma Moves16(s: Bytes, str: Units, prevbegin: nat, begin: nat)
    requires prevbegin <= begin < |s|
    ensures var out := str + Widen(s[prevbegin..begin]);
      && (s[begin] == BACKSLASH && begin + 1 < |s| && Simple(s[begin + 1]) >= 0 ==>
          Ahead16(s, str, prevbegin, begin) == Ahead16(s, out + [Simple(s[begin + 1])], begin + 2, begin + 2))
      && (s[begin] == BACKSLASH && begin + 1 < |s| && s[begin + 1] == 0x75 && HexFrom(s, begin + 2, 4, 0).Value?
          && HexFrom(s, begin + 2, 4, 0).u < 0x1_0000 ==>
          Ahead16(s, str, prevbegin, begin) == Ahead16(s, out + [HexFrom(s, begin + 2, 4, 0).u], begin + 6, begin + 6))
      && (s[begin] >= 0x80 && Decode(s, begin).Good? ==>
          Ahead16(s, str, prevbegin, begin)
          == Ahead16(s, out + Decode(s, begin).units, begin + Decode(s, begin).len, begin + Decode(s, begin).len))
  {
    hide HexFrom, SkipSpaces, Decode;
    assert forall k :: 0 <= k <= |s| ==> Widen(s[k..k]) == [];
    assert forall k, t: Units :: 0 <= k <= |s| ==> t + Widen(s[k..k]) == t;
  }

  lemma Fails16(s: Bytes, str: Units, prevbegin: nat, begin: nat)
    requires prevbegin <= begin <= |s|
    ensures begin == |s| || (s[begin] == BACKSLASH && begin + 1 == |s|)
        ==> Ahead16(s, str, prevbegin, begin) == Scan16(false, [], |s|)
    ensures begin + 1 < |s| && s[begin] == BACKSLASH && s[begin + 1] == 0x75 && HexFrom(s, begin + 2, 4, 0).Ends?
      ==> Ahead16(s, str, prevbegin, begin) == Scan16(false, [], |s|)
    ensures begin < |s| && s[begin] >= 0x80 && Decode(s, begin).Wrong?
        ==> Ahead16(s, str, prevbegin, begin) == Scan16(false, [], Decode(s, begin).at)
    ensures begin < |s| && s[begin] == QUOTE ==>
      Ahead16(s, str, prevbegin, begin) == Scan16(true, str + Widen(s[prevbegin..begin]), SkipSpaces(s, begin + 1))
  {}

  lemma Starts16(s: Bytes, begin: nat)
    requires begin <= |s|
    ensures Ahead16(s, [], begin, begin) == Unescape16(s, begin, [])
  {
    assert [] + Widen(s[begin..begin]) == [];
  }

  lemma OverwriteLast(str: Units, s: Bytes, prevbegin: nat, begin: nat, v: Unit)
    requires prevbegin <= begin < |s|
    ensures var t := str + Widen(s[prevbegin..begin + 1]);
      t != [] && t[|t| - 1 := v] == str + Widen(s[prevbegin..begin]) + [v]
  {}

  /** The case of four octets, which make two units. */
  method ReadFour(str0: Units, s: Bytes, prevbegin: nat, begin0: nat) returns (good: bool, str: Units, begin: nat)
    requires prevbegin <= begin0 < |s| && 0xF0 <= s[begin0] <= 0xF4
    ensures match Decode(s, begin0)
      case Good(units, len) => good && str == str0 + Widen(s[prevbegin..begin0]) + units && begin == begin0 + len
      case Wrong(at) => !good && begin == at
  {
    hide Widen;
    str, begin, good := str0, begin0, false;
    var b: int := s[begin];
    begin := begin + 1;
    if begin != |s| && 0x80 <= s[begin] < 0xC0 {
      var second: int := s[begin];
      if 0xF090 <= b * 0x100 + second <= 0xF48F {
        begin := begin + 1;
        if begin != |s| && 0x80 <= s[begin] < 0xC0 {
          var tmpend := begin;
          var ch := b % 8 * 0x1000 + second % 0x40 * 0x40 + s[begin] as int % 0x40;
          begin := begin + 1;
          if begin != |s| && 0x80 <= s[begin] < 0xC0 {
            ch := ch * 0x40 + s[begin] as int % 0x40 - 0x1_0000;
            TwoWritten(s, str0, prevbegin, begin0, 0xD800 + ch / 0x400, 0xDC00 + ch % 0x400);
            str := str + Widen(s[prevbegin..tmpend]);
            str := str[|str| - 2 := 0xD800 + ch / 0x400];
            str := str[|str| - 1 := 0xDC00 + ch % 0x400];
            return true, str, begin + 1;
          }
        }
      }
    }
  }

  /** The branch for octets from 0x80 on: the run and all octets but as many as there are units less are appended,
      and the units written over the last of them. */
  method ReadOctets(str0: Units, s: Bytes, prevbegin: nat, begin0: nat) returns (good: bool, str: Units, begin: nat)
    requires prevbegin <= begin0 < |s| && s[begin0] >= 0x80
    ensures match Decode(s, begin0)
      case Good(units, len) => good && str == str0 + Widen(s[prevbegin..begin0]) + units && begin == begin0 + len
      case Wrong(at) => !good && begin == at
  {
    hide Widen;
    str, begin, good := str0, begin0, false;
    var b: int := s[begin];
    if b >= 0xC2 {
      if b / 0x20 % 2 == 0 {
        begin := begin + 1;
        if begin != |s| && 0x80 <= s[begin] < 0xC0 {
          OneWritten(s, str0, prevbegin, begin0, b % 0x20 * 0x40 + s[begin] as int % 0x40);
          str := str + Widen(s[prevbegin..begin]);
          str := str[|str| - 1 := b % 0x20 * 0x40 + s[begin] as int % 0x40];
          return true, str, begin + 1;
        }
      } else if b / 0x10 % 2 == 0 {
        begin := begin + 1;
        if begin != |s| && 0x80 <= s[begin] < 0xC0 {
          var tmpend := begin;
          if b * 0x100 + s[begin] as int >= 0xE0A0 {
            begin := begin + 1;
            if begin != |s| && 0x80 <= s[begin] < 0xC0 {
              OneWritten(s, str0, prevbegin, begin0,
                         b % 0x10 * 0x1000 + s[tmpend] as int % 0x40 * 0x40 + s[begin] as int % 0x40);
              str := str + Widen(s[prevbegin..tmpend]);
              str := str[|str| - 1 := b % 0x10 * 0x1000 + s[tmpend] as int % 0x40 * 0x40 + s[begin] as int % 0x40];
              return true, str, begin + 1;
            }
          }
        }
      } else if 0xF0 <= b <= 0xF4 {
        good, str, begin := ReadFour(str0, s, prevbegin, begin0);
      }
    }
  }

  /** parse_string_ into 16-bit units. */
  method ParseUnits(s: Bytes, begin0: nat) returns (ok: bool, str: Units, begin: nat)
    requires begin0 <= |s|
    ensures Scan16(ok, str, begin) == Unescape16(s, begin0, [])
  {
    hide Unescape16, HexFrom, Simple, Decode, Ahead16, SkipSpaces;
    str, begin := [], begin0;
    var prevbegin: nat := begin;
    Starts16(s, begin);
    while begin != |s|
      invariant prevbegin <= begin <= |s|
      invariant Ahead16(s, str, prevbegin, begin) == Unescape16(s, begin0, [])
      decreases |s| - begin
    {
      Fails16(s, str, prevbegin, begin);
      Stays16(s, str, prevbegin, begin);
      Moves16(s, str, prevbegin, begin);
      if s[begin] == QUOTE {
        if prevbegin != begin { str := str + Widen(s[prevbegin..begin]); }
        begin := Spaces(s, begin + 1);
        return true, str, begin;
      }
      if s[begin] == BACKSLASH {
        begin := begin + 1;
        if begin == |s| { break; }
        var nch := s[begin];
        if Simple(nch) >= 0 {
          OverwriteLast(str, s, prevbegin, begin - 1, Simple(nch));
          str := str + Widen(s[prevbegin..begin]);
          str := str[|str| - 1 := Simple(nch)];
          begin := begin + 1;
          prevbegin := begin;
        } else if nch == 0x75 {
          var upos := begin;
          var ucp;
          ucp, begin := FourHexDigits(s, begin);
          if ucp < 0x1_0000 {
            // Without four digits before the end of the text the source would read past it: here the string fails.
            if begin == |s| { break; }
            begin := begin + 1;
            OverwriteLast(str, s, prevbegin, upos - 1, ucp);
            str := str + Widen(s[prevbegin..upos]);
            str := str[|str| - 1 := ucp];
            prevbegin := begin;
          }
        } else {
          begin := begin + 1;
        }
      } else if s[begin] >= 0x80 {
        var good;
        good, str, begin := ReadOctets(str, s, prevbegin, begin);
        if !good { return false, [], begin; }
        prevbegin := begin;
      } else {
        begin := begin + 1;
      }
    }
    Fails16(s, str, prevbegin, begin);
    str := [];
    ok := false;
  }

  // ---------------------------------------------------------------- the inverse pair

  lemma UnitBack(u: Unit, s: Bytes, i: nat, out: Units)
    requires Here(s, i, UnitText(u))
    ensures Unescape16(s, i, out) == Unescape16(s, i + |UnitText(u)|, out + [u])
  {
    hide Unescape16, HexFrom, Decode, SkipSpaces, Utf8, Here;
    var t := UnitText(u);
    HereAt(s, i, t, 0);
    if u < 0x20 {
      HereAt(s, i, t, 1);
      HereAt(s, i, t, 2);
      HereAt(s, i, t, 3);
      HereAt(s, i, t, 4);
      HereAt(s, i, t, 5);
      HexReads(s, i + 2, u);
      StepEscape(s, i, out);
    } else if u == QUOTE || u == BACKSLASH {
      HereAt(s, i, t, 1);
      StepEscape(s, i, out);
    } else if u < 0x80 {
      assert t == [u] by { Utf8Short(u); }
      StepEscape(s, i, out);
    } else {
      OctetsBack(u, s, i);
      StepOctets(s, i, out);
    }
  }

  lemma StepEscape(s: Bytes, i: nat, out: Units)
    requires i < |s|
    ensures s[i] < 0x80 && s[i] != QUOTE && s[i] != BACKSLASH
        ==> Unescape16(s, i, out) == Unescape16(s, i + 1, out + [s[i]])
    ensures s[i] == BACKSLASH && i + 1 < |s| && Simple(s[i + 1]) >= 0
        ==> Unescape16(s, i, out) == Unescape16(s, i + 2, out + [Simple(s[i + 1])])
    ensures (s[i] == BACKSLASH && i + 1 < |s| && s[i + 1] == 0x75 && HexFrom(s, i + 2, 4, 0).Value?
             && HexFrom(s, i + 2, 4, 0).u < 0x1_0000) ==>
      Unescape16(s, i, out) == Unescape16(s, i + 6, out + [HexFrom(s, i + 2, 4, 0).u])
  {}

  lemma StepOctets(s: Bytes, i: nat, out: Units)
    requires i < |s| && s[i] >= 0x80 && Decode(s, i).Good?
    ensures Unescape16(s, i, out) == Unescape16(s, i + Decode(s, i).len, out + Decode(s, i).units)
  {}

  lemma OctetsBack(u: Unit, s: Bytes, i: nat)
    requires u >= 0x80 && Here(s, i, Utf8(u))
    ensures i < |s| && s[i] >= 0x80 && Decode(s, i) == Good([u], |Utf8(u)|)
  {
    hide Here;
    var t := Utf8(u);
    HereAt(s, i, t, 0);
    HereAt(s, i, t, 1);
    if u >= 0x800 {
      HereAt(s, i, t, 2);
      ThreeOctets(u);
    } else {
      TwoOctets(u);
    }
  }

  lemma TwoOctets(u: Unit)
    requires 0x80 <= u < 0x800
    ensures 0xC2 <= 0xC0 + u / 0x40 < 0xE0 && (0xC0 + u / 0x40) % 0x20 * 0x40 + (0x80 + u % 0x40) % 0x40 == u
  {}

  lemma ThreeOctets(u: Unit)
    requires 0x800 <= u
    ensures var a, b, c := 0xE0 + u / 0x1000, 0x80 + u / 0x40 % 0x40, 0x80 + u % 0x40;
      && 0xE0 <= a < 0xF0 && (a == 0xE0 ==> 0xA0 <= b)
      && a % 0x10 * 0x1000 + b % 0x40 * 0x40 + c % 0x40 == u
  {
    assert u / 0x1000 == u / 0x40 / 0x40;
  }

  lemma FourParts(c: nat)
    requires 0x1_0000 <= c <= 0x10_FFFF
    ensures var a, b, d, e := 0xF0 + c / 0x4_0000, 0x80 + c / 0x1000 % 0x40, 0x80 + c / 0x40 % 0x40, 0x80 + c % 0x40;
      && 0xF0 <= a <= 0xF4 && (a == 0xF0 ==> 0x90 <= b) && (a == 0xF4 ==> b <= 0x8F)
      && a % 8 * 0x4_0000 + b % 0x40 * 0x1000 + d % 0x40 * 0x40 + e % 0x40 == c
  {
    assert c / 0x1000 == c / 0x40 / 0x40 && c / 0x4_0000 == c / 0x1000 / 0x40;
  }

  lemma PairBack(h: Unit, l: Unit, s: Bytes, i: nat)
    requires IsHigh(h) && IsLow(l) && Here(s, i, FourOctets(PairPoint(h, l)))
    ensures i < |s| && s[i] >= 0x80 && Decode(s, i) == Good([h, l], 4)
  {
    hide Here, PairPoint;
    var c := PairPoint(h, l);
    var t := FourOctets(c);
    HereAt(s, i, t, 0);
    HereAt(s, i, t, 1);
    HereAt(s, i, t, 2);
    HereAt(s, i, t, 3);
    FourParts(c);
    HalvesAre(h, l);
  }

  lemma HalvesAre(h: Unit, l: Unit)
    requires IsHigh(h) && IsLow(l)
    ensures var c := PairPoint(h, l) - 0x1_0000; 0xD800 + c / 0x400 == h && 0xDC00 + c % 0x400 == l
  {}

  // ---------------------------------------------------------------- which octets are accepted

  /** The units that are written as two or more octets: one from 0x80 on, or a surrogate pair. */
  predicate Compound(t: Units) {
    (|t| == 1 && t[0] >= 0x80) || (|t| == 2 && IsHigh(t[0]) && IsLow(t[1]))
  }

  lemma CompoundText(t: Units)
    requires Compound(t)
    ensures UnitsText(t) == if |t| == 1 then Utf8(t[0]) else FourOctets(PairPoint(t[0], t[1]))
  {
    hide FourOctets, PairPoint, Utf8;
    assert UnitsText(t[|t|..]) == [];
  }

  /** Octets are accepted exactly when they are the text of a unit or of a pair, in no longer form. */
  lemma DecodeAccepts(s: Bytes, i: nat, t: Units)
    requires i < |s| && s[i] >= 0x80
    ensures Decode(s, i).Good? ==> Compound(Decode(s, i).units)
    ensures Compound(t) && Here(s, i, UnitsText(t)) <==> Decode(s, i) == Good(t, |UnitsText(t)|)
    ensures Decode(s, i).Good? ==> Decode(s, i).len == |UnitsText(Decode(s, i).units)|
  {
    hide UnitsText, PairPoint, FourOctets, Utf8, Here;
    if Compound(t) && Here(s, i, UnitsText(t)) {
      CompoundText(t);
      if |t| == 1 { OctetsBack(t[0], s, i); } else { PairBack(t[0], t[1], s, i); }
    }
    if Decode(s, i).Good? { DecodeSpells(s, i); }
  }

  lemma DecodeSpells(s: Bytes, i: nat)
    requires i < |s| && s[i] >= 0x80 && Decode(s, i).Good?
    ensures var r := Decode(s, i); Compound(r.units) && Here(s, i, UnitsText(r.units)) && r.len == |UnitsText(r.units)|
  {
    hide Decode, UnitsText, PairPoint, FourOctets, Utf8, IsHigh, IsLow;
    var r := Decode(s, i);
    DecodeForms(s, i);
    if r.len == 2 {
      TwoForm(s[i], s[i + 1]);
      assert s[i..i + 2] == [s[i], s[i + 1]];
    } else if r.len == 3 {
      ThreeForm(s[i], s[i + 1], s[i + 2]);
      assert s[i..i + 3] == [s[i], s[i + 1], s[i + 2]];
    } else {
      FourForm(s[i], s[i + 1], s[i + 2], s[i + 3]);
      HalvesJoin(FourPoint(s[i], s[i + 1], s[i + 2], s[i + 3]));
      assert s[i..i + 4] == [s[i], s[i + 1], s[i + 2], s[i + 3]];
    }
    CompoundText(r.units);
  }

  function TwoPoint(a: Byte, b: Byte): nat { a as nat % 0x20 * 0x40 + b % 0x40 }

  function ThreePoint(a: Byte, b: Byte, c: Byte): nat {
    a as nat % 0x10 * 0x1000 + b as nat % 0x40 * 0x40 + c % 0x40
  }

  function FourPoint(a: Byte, b: Byte, c: Byte, d: Byte): nat {
    a as nat % 8 * 0x4_0000 + b as nat % 0x40 * 0x1000 + c as nat % 0x40 * 0x40 + d % 0x40
  }

  /** The octets in each form that is accepted, and the units made of them. */
  lemma DecodeForms(s: Bytes, i: nat)
    requires i < |s| && s[i] >= 0x80 && Decode(s, i).Good?
    ensures var r := Decode(s, i);
      && 2 <= r.len <= 4 && i + r.len <= |s|
      && (r.len == 2 ==> 0xC2 <= s[i] < 0xE0 && 0x80 <= s[i + 1] < 0xC0
                         && r.units == [TwoPoint(s[i], s[i + 1])])
      && (r.len == 3 ==> 0xE0 <= s[i] < 0xF0 && 0x80 <= s[i + 1] < 0xC0 && 0x80 <= s[i + 2] < 0xC0
                         && (s[i] == 0xE0 ==> s[i + 1] >= 0xA0)
                         && r.units == [ThreePoint(s[i], s[i + 1], s[i + 2])])
    ensures var r := Decode(s, i);
      r.len == 4 ==>
        && 0xF0 <= s[i] <= 0xF4 && 0x80 <= s[i + 1] < 0xC0 && 0x80 <= s[i + 2] < 0xC0 && 0x80 <= s[i + 3] < 0xC0
        && (s[i] == 0xF0 ==> s[i + 1] >= 0x90) && (s[i] == 0xF4 ==> s[i + 1] < 0x90)
        && var p := FourPoint(s[i], s[i + 1], s[i + 2], s[i + 3]) - 0x1_0000;
           r.units == [0xD800 + p / 0x400, 0xDC00 + p % 0x400]
  {}

  lemma TwoForm(a: Byte, b: Byte)
    requires 0xC2 <= a < 0xE0 && 0x80 <= b < 0xC0
    ensures var u := TwoPoint(a, b); 0x80 <= u < 0x800 && Utf8(u) == [a, b]
  {}

  /** The last base-64 digit of a number and the number before it. */
  lemma Digit64(x: nat, y: nat)
    requires y < 0x40
    ensures (x * 0x40 + y) / 0x40 == x && (x * 0x40 + y) % 0x40 == y
  {}

  lemma Digits64(x: nat, y: nat, z: nat, w: nat)
    requires y < 0x40 && z < 0x40 && w < 0x40
    ensures var p := x * 0x4_0000 + y * 0x1000 + z * 0x40 + w;
      p / 0x4_0000 == x && p / 0x1000 % 0x40 == y && p / 0x40 % 0x40 == z && p % 0x40 == w
  {
    var p := x * 0x4_0000 + y * 0x1000 + z * 0x40 + w;
    Digit64(x, y);
    Digit64(x * 0x40 + y, z);
    Digit64((x * 0x40 + y) * 0x40 + z, w);
    FurtherDigits(p);
  }

  lemma FurtherDigits(p: nat)
    ensures p / 0x1000 == p / 0x40 / 0x40 && p / 0x4_0000 == p / 0x40 / 0x40 / 0x40
  {}

  lemma ContBits(b: Byte)
    requires 0x80 <= b < 0xC0
    ensures b % 0x40 == b - 0x80
  {}

  lemma LeadBits(b: Byte)
    ensures 0xE0 <= b < 0xF0 ==> b % 0x10 == b - 0xE0
    ensures 0xF0 <= b <= 0xF4 ==> b % 8 == b - 0xF0
  {}

  lemma ThreeForm(a: Byte, b: Byte, c: Byte)
    requires 0xE0 <= a < 0xF0 && 0x80 <= b < 0xC0 && 0x80 <= c < 0xC0 && (a == 0xE0 ==> b >= 0xA0)
    ensures var u := ThreePoint(a, b, c); 0x800 <= u < 0x1_0000 && Utf8(u) == [a, b, c]
  {
    LeadBits(a);
    ContBits(b);
    ContBits(c);
    Digits64(0, a - 0xE0, b - 0x80, c - 0x80);
  }

  lemma FourForm(a: Byte, b: Byte, c: Byte, d: Byte)
    requires 0xF0 <= a <= 0xF4 && 0x80 <= b < 0xC0 && 0x80 <= c < 0xC0 && 0x80 <= d < 0xC0
    requires (a == 0xF0 ==> b >= 0x90) && (a == 0xF4 ==> b < 0x90)
    ensures var p := FourPoint(a, b, c, d);
      0x1_0000 <= p <= 0x10_FFFF && FourOctets(p) == [a, b, c, d]
  {
    LeadBits(a);
    ContBits(b);
    ContBits(c);
    ContBits(d);
    Digits64(a - 0xF0, b - 0x80, c - 0x80, d - 0x80);
  }

  lemma HalvesJoin(p: nat)
    requires 0x1_0000 <= p <= 0x10_FFFF
    ensures var h, l := 0xD800 + (p - 0x1_0000) / 0x400, 0xDC00 + (p - 0x1_0000) % 0x400;
      IsHigh(h) && IsLow(l) && PairPoint(h, l) == p
  {}

  /** Every sequence of 16-bit units, surrogates paired or not, is read back from its text. */
  lemma {:induction false} UnitsBack(t: Units, s: Bytes, i: nat, out: Units)
    requires Here(s, i, UnitsText(t) + [QUOTE])
    ensures Unescape16(s, i, out) == Scan16(true, out + t, SkipSpaces(s, i + |UnitsText(t)| + 1))
  {
    hide UnitText, FourOctets, PairPoint, Decode, Here, Unescape16, SkipSpaces;
    if t == [] {
      Split(s, i, [], [QUOTE]);
      StepQuote(s, i, out);
      assert out + t == out;
    } else {
      var n, f := UnitsStep(t);
      Split(s, i, f, UnitsText(t[n..]) + [QUOTE]);
      if n == 2 {
        PairBack(t[0], t[1], s, i);
        StepOctets(s, i, out);
      } else {
        UnitBack(t[0], s, i, out);
      }
      UnitsBack(t[n..], s, i + |f|, out + t[..n]);
      assert out + t[..n] + t[n..] == out + t;
    }
  }

  lemma StepQuote(s: Bytes, i: nat, out: Units)
    requires i < |s| && s[i] == QUOTE
    ensures Unescape16(s, i, out) == Scan16(true, out, SkipSpaces(s, i + 1))
  {}

  lemma UnitsStep(t: Units) returns (n: nat, f: Bytes)
    requires t != []
    ensures n == (if |t| >= 2 && IsHigh(t[0]) && IsLow(t[1]) then 2 else 1)
    ensures f == if n == 2 then FourOctets(PairPoint(t[0], t[1])) else UnitText(t[0])
    ensures UnitsText(t) + [QUOTE] == f + (UnitsText(t[n..]) + [QUOTE]) && |UnitsText(t)| == |f| + |UnitsText(t[n..])|
    ensures t[..n] == if n == 2 then [t[0], t[1]] else [t[0]]
  {
    hide UnitText, FourOctets;
    n := if |t| >= 2 && IsHigh(t[0]) && IsLow(t[1]) then 2 else 1;
    f := if n == 2 then FourOctets(PairPoint(t[0], t[1])) else UnitText(t[0]);
  }

  /** Escaping and parsing a string of 16-bit units gives it back. */
  lemma UnitsRoundTrip(t: Units)
    ensures var s := UnitsText(t) + [QUOTE]; Unescape16(s, 0, []) == Scan16(true, t, |s|)
  {
    var s := UnitsText(t) + [QUOTE];
    assert s[0..|s|] == s;
    UnitsBack(t, s, 0, []);
    assert [] + t == t;
  }
}
