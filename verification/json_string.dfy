/** Strings in JSON text: escape_ and parse_string_ of ctljson.hpp for UTF-8. */
module JsonStrings {
  import opened Basics
  import opened Keys

  type Bytes = seq<Byte>

  const QUOTE: Byte := 0x22
  const BACKSLASH: Byte := 0x5C

  predicate IsSpace(b: Byte) { b == 0x20 || b == 0x09 || b == 0x0A || b == 0x0D }

  /** skip_spaces_. */
  function SkipSpaces(s: Bytes, i: nat): (j: nat)
    requires i <= |s|
    ensures i <= j <= |s|
    ensures forall k :: i <= k < j ==> IsSpace(s[k])
    ensures j < |s| ==> !IsSpace(s[j])
    decreases |s| - i
  {
    if i < |s| && IsSpace(s[i]) then SkipSpaces(s, i + 1) else i
  }

  method Spaces(s: Bytes, begin: nat) returns (r: nat)
    requires begin <= |s|
    ensures r == SkipSpaces(s, begin)
  {
    r := begin;
    while r != |s| && IsSpace(s[r])
      invariant r <= |s| && SkipSpaces(s, r) == SkipSpaces(s, begin)
    {
      r := r + 1;
    }
  }

  // ---------------------------------------------------------------- printing

  function HexDigit(n: nat): Byte
    requires n < 16
  {
    if n < 10 then 0x30 + n else 0x41 + n - 10
  }

  /** The text of one byte inside a JSON string. */
  function EscapeByte(b: Byte): Bytes {
    if b < 0x20 then [BACKSLASH, 0x75, 0x30, 0x30, HexDigit(b / 16), HexDigit(b % 16)]
    else if b == QUOTE || b == BACKSLASH then [BACKSLASH, b]
    else [b]
  }

  function Escape(s: Bytes): Bytes {
    if s == [] then [] else EscapeByte(s[0]) + Escape(s[1..])
  }

  /** escape_: the bytes are appended first, then widened where they stand. */
  method EscapeOnto(d0: Bytes, s: Bytes) returns (d: Bytes)
    ensures d == d0 + Escape(s)
  {
    hide EscapeByte, Escape;
    d := d0 + s;
    var i := |d0|;
    ghost var k := 0;
    assert s[0..] == s;
    while i < |d|
      invariant k <= |s| && |d0| <= i <= |d|
      invariant d == d[..i] + s[k..]
      invariant d[..i] + Escape(s[k..]) == d0 + Escape(s)
      decreases |s| - k
    {
      ghost var was, at := d, i;
      assert d[i] == s[k];
      d, i := EscapeHere(d, i);
      EscapeStep(was, d, at, i, s, k);
      k := k + 1;
    }
    assert d[..i] == d && s[k..] == [];
    NoEscape();
  }

  lemma NoEscape()
    ensures Escape([]) == []
  {}

  /** The byte at i is widened to its escape; the next one stands at the position returned. */
  method EscapeHere(d0: Bytes, i0: nat) returns (d: Bytes, i: nat)
    requires i0 < |d0|
    ensures d == d0[..i0] + EscapeByte(d0[i0]) + d0[i0 + 1..] && i == i0 + |EscapeByte(d0[i0])|
  {
    d, i := d0, i0;
    var ch := d[i];
    EscapeByteIs(ch);
    if ch < 0x20 {
      d := d[..i] + [0, 0, 0, 0, 0] + d[i..];
      d := d[i := BACKSLASH]; i := i + 1;
      d := d[i := 0x75]; i := i + 1;
      d := d[i := 0x30]; i := i + 1;
      d := d[i := 0x30]; i := i + 1;
      d := d[i := ch / 16 + 0x30]; i := i + 1;
      var low := ch % 16;
      d := d[i := low + (if low < 10 then 0x30 else 0x41 - 10)];
    } else if ch == QUOTE || ch == BACKSLASH {
      d := d[..i] + [BACKSLASH] + d[i..];
      i := i + 1;
    }
    i := i + 1;
  }

  lemma EscapeStep(was: Bytes, d: Bytes, at: nat, i: nat, s: Bytes, k: nat)
    requires k < |s| && at < |was| && was == was[..at] + s[k..] && was[at] == s[k]
    requires d == was[..at] + EscapeByte(s[k]) + was[at + 1..] && i == at + |EscapeByte(s[k])|
    ensures i <= |d| && d == d[..i] + s[k + 1..]
    ensures d[..i] + Escape(s[k + 1..]) == was[..at] + Escape(s[k..])
  {
    hide EscapeByte;
    var e := EscapeByte(s[k]);
    assert was[at + 1..] == s[k + 1..];
    assert d[..i] == was[..at] + e;
    assert s[k..][0] == s[k] && s[k..][1..] == s[k + 1..];
    assert was[..at] + (e + Escape(s[k + 1..])) == was[..at] + e + Escape(s[k + 1..]);
  }

  lemma EscapeByteIs(b: Byte)
    ensures b < 0x20 ==>
      EscapeByte(b) == [BACKSLASH, 0x75, 0x30, 0x30, b / 16 + 0x30, b % 16 + (if b % 16 < 10 then 0x30 else 0x41 - 10)]
    ensures b == QUOTE || b == BACKSLASH ==> EscapeByte(b) == [BACKSLASH, b]
    ensures b >= 0x20 && b != QUOTE && b != BACKSLASH ==> EscapeByte(b) == [b]
    ensures |EscapeByte(b)| >= 1
  {}

  /** Printed text never holds a bare quote or a control byte. */
  lemma {:induction false} EscapeIsClean(s: Bytes)
    ensures forall i :: 0 <= i < |Escape(s)| ==> Escape(s)[i] >= 0x20
    ensures forall i :: 0 <= i < |Escape(s)| && Escape(s)[i] == QUOTE ==> i > 0 && Escape(s)[i - 1] == BACKSLASH
  {
    if s != [] { EscapeIsClean(s[1..]); }
  }

  // ---------------------------------------------------------------- reading

  datatype Hex = Value(u: nat) | Bad(at: nat) | Ends

  function HexValue(b: Byte): (v: int)
    ensures -1 <= v < 16
  {
    var c := if b / 0x20 % 2 == 0 then b + 0x20 else b;
    if 0x30 <= b <= 0x39 then b - 0x30 else if 0x61 <= c <= 0x66 then c - 0x61 + 10 else -1
  }

  /** n more hexadecimal digits from i on; Bad tells where the first other byte is. */
  function HexFrom(s: Bytes, i: nat, n: nat, u: nat): (h: Hex)
    requires i <= |s|
    ensures h.Bad? ==> i <= h.at < |s|
    ensures h.Value? ==> i + n <= |s|
    decreases n
  {
    if n == 0 then Value(u)
    else if i == |s| then Ends
    else if HexValue(s[i]) < 0 then Bad(i)
    else HexFrom(s, i + 1, n - 1, 16 * u + HexValue(s[i]))
  }

  function Pow16(n: nat): nat { if n == 0 then 1 else 16 * Pow16(n - 1) }

  /** Four digits in all give a number of 16 bits. */
  lemma {:induction false} HexBelow(s: Bytes, i: nat, n: nat, u: nat)
    requires i <= |s| && n <= 4 && u < Pow16(4 - n)
    ensures HexFrom(s, i, n, u).Value? ==> HexFrom(s, i, n, u).u < Pow16(4) == 0x1_0000
    decreases n
  {
    assert Pow16(4) == 16 * (16 * (16 * (16 * Pow16(0))));
    if n > 0 && i < |s| && HexValue(s[i]) >= 0 { HexBelow(s, i + 1, n - 1, 16 * u + HexValue(s[i])); }
  }

  /** A code point below 0x10000 as RFC 3629 writes it. */
  function Utf8(u: nat): (b: Bytes)
    requires u < 0x1_0000
    ensures 1 <= |b| <= 3 && (u >= 0x800 ==> |b| == 3)
  {
    if u < 0x80 then [u]
    else if u < 0x800 then [0xC0 + u / 0x40, 0x80 + u % 0x40]
    else [0xE0 + u / 0x1000, 0x80 + u / 0x40 % 0x40, 0x80 + u % 0x40]
  }

  /** The code point of a surrogate pair. */
  function PairPoint(high: nat, low: nat): (c: nat)
    ensures 0x1_0000 <= c <= 0x10_FFFF
  {
    high % 0x400 * 0x400 + low % 0x400 + 0x1_0000
  }

  /** Four octets of RFC 3629, section 3. */
  function FourOctets(c: nat): (b: Bytes)
    requires 0x1_0000 <= c <= 0x10_FFFF
    ensures |b| == 4
  {
    [0xF0 + c / 0x4_0000, 0x80 + c / 0x1000 % 0x40, 0x80 + c / 0x40 % 0x40, 0x80 + c % 0x40]
  }

  /** The byte a two-character escape stands for, or -1. */
  function Simple(c: Byte): (v: int)
    ensures -1 <= v < 0x100
  {
    if c == QUOTE || c == BACKSLASH || c == 0x2F then c
    else if c == 0x62 then 0x08
    else if c == 0x66 then 0x0C
    else if c == 0x6E then 0x0A
    else if c == 0x72 then 0x0D
    else if c == 0x74 then 0x09
    else -1
  }

  predicate IsLow(u: nat) { 0xDC00 <= u <= 0xDFFF }
  predicate IsHigh(u: nat) { 0xD800 <= u < 0xDC00 }

  datatype Scan = Scan(ok: bool, text: Bytes, pos: nat)

  /** The string from position i on, up to its closing quote: out is what has been read, prev a high surrogate
      just read (or 0), and run the number of plain bytes read since the last escape. */
  function Unescape(s: Bytes, i: nat, out: Bytes, prev: nat, run: nat): (r: Scan)
    requires i <= |s| && run <= |out| && (prev != 0 ==> run + 3 <= |out|)
    ensures i <= r.pos <= |s| && (r.ok ==> i < r.pos)
    decreases |s| - i
  {
    if i == |s| then Scan(false, [], |s|)
    else if s[i] == QUOTE then Scan(true, out, SkipSpaces(s, i + 1))
    else if s[i] != BACKSLASH then Unescape(s, i + 1, out + [s[i]], prev, run + 1)
    else if i + 1 == |s| then Scan(false, [], |s|)
    else if Simple(s[i + 1]) >= 0 then Unescape(s, i + 2, out + [Simple(s[i + 1])], 0, 0)
    else if s[i + 1] != 0x75 then Unescape(s, i + 2, out + [BACKSLASH, s[i + 1]], 0, run + 2)
    else
      var h := HexFrom(s, i + 2, 4, 0);
      HexBelow(s, i + 2, 4, 0);
      match h
      case Ends => Scan(false, [], |s|)
      case Bad(at) => Unescape(s, at, out + s[i..at], 0, run + (at - i))
      case Value(u) =>
        if prev != 0 && IsLow(u) then
          Unescape(s, i + 6, out[..|out| - run - 3] + FourOctets(PairPoint(prev, u)), 0, 0)
        else
          Unescape(s, i + 6, out + Utf8(u), if IsHigh(u) then u else 0, 0)
  }

  /** parse_4hexdigits_: begin stands on the 'u'; on success it stops on the last digit. */
  method FourHexDigits(s: Bytes, begin: nat) returns (ucp: nat, pos: nat)
    requires begin < |s|
    ensures begin <= pos <= |s|
    ensures match HexFrom(s, begin + 1, 4, 0)
      case Value(u) => ucp == u < 0x1_0000 && pos == begin + 4 < |s|
      case Bad(at) => ucp == 0x1_0000 && pos == at
      case Ends => ucp < 0x1_0000 && pos == |s|
  {
    hide HexValue;
    ucp, pos := 0, begin;
    HexBelow(s, begin + 1, 4, 0);
    var i := 0;
    while i < 4
      invariant i <= 4 && pos == begin + i < |s|
      invariant HexFrom(s, pos + 1, 4 - i, ucp) == HexFrom(s, begin + 1, 4, 0)
      invariant ucp < Pow16(i)
    {
      pos := pos + 1;
      if pos == |s| { break; }
      var d := HexValue(s[pos]);
      if d < 0 { return 0x1_0000, pos; }
      ucp := 16 * ucp + d;
      i := i + 1;
    }
  }

  /** The reading of s from begin on, with str as the text so far and s[prevbegin..begin] still to be appended. */
  function Ahead(s: Bytes, str: Bytes, prevbegin: nat, begin: nat, prev: nat): Scan
    requires prevbegin <= begin <= |s| && (prev != 0 ==> 3 <= |str|)
  {
    Unescape(s, begin, str + s[prevbegin..begin], prev, begin - prevbegin)
  }

  lemma AheadPlain(s: Bytes, str: Bytes, prevbegin: nat, begin: nat, prev: nat)
    requires prevbegin <= begin < |s| && (prev != 0 ==> 3 <= |str|)
    ensures s[begin] != QUOTE && s[begin] != BACKSLASH
        ==> Ahead(s, str, prevbegin, begin, prev) == Ahead(s, str, prevbegin, begin + 1, prev)
    ensures s[begin] == BACKSLASH && begin + 1 < |s| && Simple(s[begin + 1]) < 0 && s[begin + 1] != 0x75
      ==> Ahead(s, str, prevbegin, begin, prev) == Ahead(s, str, prevbegin, begin + 2, 0)
    ensures s[begin] == BACKSLASH && begin + 1 < |s| && s[begin + 1] == 0x75 && HexFrom(s, begin + 2, 4, 0).Bad?
      ==> Ahead(s, str, prevbegin, begin, prev) == Ahead(s, str, prevbegin, HexFrom(s, begin + 2, 4, 0).at, 0)
  {
    var out := str + s[prevbegin..begin];
    assert str + s[prevbegin..begin + 1] == out + [s[begin]];
    if begin + 1 < |s| {
      assert str + s[prevbegin..begin + 2] == out + [s[begin], s[begin + 1]];
      var h := HexFrom(s, begin + 2, 4, 0);
      if h.Bad? { assert str + s[prevbegin..h.at] == out + s[begin..h.at]; }
    }
  }

  /** Appending the run with its backslash, then overwriting that backslash. */
  lemma AheadSimple(s: Bytes, str: Bytes, prevbegin: nat, begin: nat, prev: nat)
    requires prevbegin <= begin && begin + 1 < |s| && (prev != 0 ==> 3 <= |str|)
    requires s[begin] == BACKSLASH && Simple(s[begin + 1]) >= 0
    ensures var t := str + s[prevbegin..begin + 1];
      t != [] && Ahead(s, str, prevbegin, begin, prev)
          == Ahead(s, t[|t| - 1 := Simple(s[begin + 1])], begin + 2, begin + 2, 0)
  {
    var t := str + s[prevbegin..begin + 1];
    var v := Simple(s[begin + 1]);
    assert t[|t| - 1 := v] + s[begin + 2..begin + 2] == str + s[prevbegin..begin] + [v];
  }

  lemma AheadPoint(s: Bytes, str: Bytes, prevbegin: nat, begin: nat, prev: nat, u: nat)
    requires prevbegin <= begin && begin + 6 <= |s| && (prev != 0 ==> 3 <= |str|)
    requires s[begin] == BACKSLASH && s[begin + 1] == 0x75 && HexFrom(s, begin + 2, 4, 0) == Value(u) && u < 0x1_0000
    ensures prev != 0 && IsLow(u) ==>
      Ahead(s, str, prevbegin, begin, prev)
      == Ahead(s, str[..|str| - 3] + FourOctets(PairPoint(prev, u)), begin + 6, begin + 6, 0)
    ensures !(prev != 0 && IsLow(u)) ==>
      Ahead(s, str, prevbegin, begin, prev)
          == Ahead(s, str + s[prevbegin..begin] + Utf8(u), begin + 6, begin + 6, if IsHigh(u) then u else 0)
  {
    var out := str + s[prevbegin..begin];
    var run := begin - prevbegin;
    if prev != 0 && IsLow(u) {
      assert out[..|out| - run - 3] == str[..|str| - 3];
      var out := str[..|str| - 3] + FourOctets(PairPoint(prev, u));
      assert out + s[begin + 6..begin + 6] == out;
    } else {
      assert out + Utf8(u) + s[begin + 6..begin + 6] == out + Utf8(u);
    }
  }

  lemma AheadEnds(s: Bytes, str: Bytes, prevbegin: nat, begin: nat, prev: nat)
    requires prevbegin <= begin <= |s| && (prev != 0 ==> 3 <= |str|)
    ensures begin == |s| || (s[begin] == BACKSLASH && begin + 1 == |s|)
        ==> Ahead(s, str, prevbegin, begin, prev) == Scan(false, [], |s|)
    ensures begin + 1 < |s| && s[begin] == BACKSLASH && s[begin + 1] == 0x75 && HexFrom(s, begin + 2, 4, 0).Ends?
      ==> Ahead(s, str, prevbegin, begin, prev) == Scan(false, [], |s|)
    ensures begin < |s| && s[begin] == QUOTE ==>
      Ahead(s, str, prevbegin, begin, prev) == Scan(true, str + s[prevbegin..begin], SkipSpaces(s, begin + 1))
  {}

  lemma AheadStarts(s: Bytes, str: Bytes, begin: nat)
    requires begin <= |s|
    ensures Ahead(s, str, begin, begin, 0) == Unescape(s, begin, str, 0, 0)
  {
    assert str + s[begin..begin] == str;
  }

  /** The in-place writing of one \uXXXX escape: the run is appended up to enough of the escape to hold the octets,
      which then overwrite it; a low surrogate turns the three octets of its high one into four. */
  method WritePoint(str0: Bytes, s: Bytes, prevbegin: nat, upos: nat, prev: nat, ucp: nat)
    returns (str: Bytes, prev': nat)
    requires prevbegin < upos && upos + 2 <= |s| && ucp < 0x1_0000 && (prev != 0 ==> 3 <= |str0|)
    ensures str == if prev != 0 && IsLow(ucp) then str0[..|str0| - 3] + FourOctets(PairPoint(prev, ucp))
        else str0 + s[prevbegin..upos - 1] + Utf8(ucp)
    ensures prev' == (if prev == 0 || !IsLow(ucp) then if IsHigh(ucp) then ucp else 0 else 0)
        && (prev' != 0 ==> 3 <= |str|)
  {
    prev' := 0;
    if prev != 0 && 0xDC00 <= ucp <= 0xDFFF {
      str := WritePair(str0, prev, ucp);
    } else if ucp < 0x80 {
      str := str0 + s[prevbegin..upos];
      str := str[|str| - 1 := ucp];
      OverLast(str0, s, prevbegin, upos, 1);
    } else if ucp < 0x800 {
      str := str0 + s[prevbegin..upos + 1];
      str := str[|str| - 2 := ucp / 0x40 % 0x20 + 0xC0];
      str := str[|str| - 1 := ucp % 0x40 + 0x80];
      OverLast(str0, s, prevbegin, upos + 1, 2);
    } else {
      str := str0 + s[prevbegin..upos + 2];
      str := str[|str| - 3 := ucp / 0x1000 % 0x10 + 0xE0];
      str := str[|str| - 2 := ucp / 0x40 % 0x40 + 0x80];
      str := str[|str| - 1 := ucp % 0x40 + 0x80];
      OverLast(str0, s, prevbegin, upos + 2, 3);
      if ucp / 0x400 == 0x36 { prev' := ucp; }
    }
  }

  /** What stays of a run when its last n bytes are overwritten. */
  lemma OverLast(str: Bytes, s: Bytes, prevbegin: nat, end: nat, n: nat)
    requires prevbegin + n <= end <= |s|
    ensures var t := str + s[prevbegin..end]; t[..|t| - n] == str + s[prevbegin..end - n]
  {}

  /** The three octets of a high surrogate become the first of four. */
  method WritePair(str0: Bytes, prev: nat, low: nat) returns (str: Bytes)
    requires 3 <= |str0|
    ensures str == str0[..|str0| - 3] + FourOctets(PairPoint(prev, low))
  {
    var ucp := low % 0x400 + prev % 0x400 * 0x400 + 0x1_0000;
    str := str0[|str0| - 3 := ucp / 0x4_0000 % 8 + 0xF0];
    str := str[|str| - 2 := ucp / 0x1000 % 0x40 + 0x80];
    str := str[|str| - 1 := ucp / 0x40 % 0x40 + 0x80];
    str := str + [ucp % 0x40 + 0x80];
  }

  /** parse_string_: the text is gathered in runs, and escapes are written over what was appended last. */
  method ParseString(str0: Bytes, s: Bytes, begin0: nat) returns (ok: bool, str: Bytes, begin: nat)
    requires begin0 <= |s|
    ensures Scan(ok, str, begin) == Unescape(s, begin0, str0, 0, 0)
  {
    hide Unescape, HexFrom, Simple, Utf8, PairPoint, FourOctets, Ahead, SkipSpaces;
    str, begin := str0, begin0;
    var prevbegin: nat, prev: nat := begin, 0;
    AheadStarts(s, str, begin);
    while begin != |s|
      invariant prevbegin <= begin <= |s| && (prev != 0 ==> 3 <= |str|)
      invariant Ahead(s, str, prevbegin, begin, prev) == Unescape(s, begin0, str0, 0, 0)
      decreases |s| - begin
    {
      AheadEnds(s, str, prevbegin, begin, prev);
      AheadPlain(s, str, prevbegin, begin, prev);
      if s[begin] == QUOTE {
        if prevbegin != begin { str := str + s[prevbegin..begin]; }
        begin := Spaces(s, begin + 1);
        return true, str, begin;
      }
      if s[begin] == BACKSLASH {
        begin := begin + 1;
        if begin == |s| { break; }
        var nch := s[begin];
        if Simple(nch) >= 0 {
          AheadSimple(s, str, prevbegin, begin - 1, prev);
          str := str + s[prevbegin..begin];
          str := str[|str| - 1 := Simple(nch)];
          prev, begin := 0, begin + 1;
          prevbegin := begin;
        } else if nch == 0x75 {
          var upos := begin;
          var ucp;
          ucp, begin := FourHexDigits(s, begin);
          if ucp < 0x1_0000 {
            // Without four digits before the end of the text the source would read past it: here the string fails.
            if begin == |s| { break; }
            begin := begin + 1;
            AheadPoint(s, str, prevbegin, upos - 1, prev, ucp);
            str, prev := WritePoint(str, s, prevbegin, upos, prev, ucp);
            prevbegin := begin;
          } else {
            prev := 0;
          }
        } else {
          prev, begin := 0, begin + 1;
        }
      } else {
        begin := begin + 1;
      }
    }
    AheadEnds(s, str, prevbegin, begin, prev);
    str := [];
    ok := false;
  }

  // ---------------------------------------------------------------- the inverse pair

  /** One printed byte is read back as itself. */
  lemma UnescapeByte(b: Byte, pre: Bytes, rest: Bytes, out: Bytes, run: nat) returns (run': nat)
    requires run <= |out|
    ensures var s := pre + EscapeByte(b) + rest;
      run' <= |out| + 1 && Unescape(s, |pre|, out, 0, run) == Unescape(s, |pre| + |EscapeByte(b)|, out + [b], 0, run')
  {
    run' := if b < 0x20 || b == QUOTE || b == BACKSLASH then 0 else run + 1;
    hide HexFrom, Utf8, PairPoint, FourOctets, SkipSpaces;
    var s, e := pre + EscapeByte(b) + rest, EscapeByte(b);
    var i := |pre|;
    assert Here(s, i, e);
    hide Here;
    HereAt(s, i, e, 0);
    if b < 0x20 {
      HereAt(s, i, e, 1);
      HereAt(s, i, e, 2);
      HereAt(s, i, e, 3);
      HereAt(s, i, e, 4);
      HereAt(s, i, e, 5);
      HexReads(s, i + 2, b);
      Utf8Short(b);
    } else if b == QUOTE || b == BACKSLASH {
      HereAt(s, i, e, 1);
    }
  }

  lemma Utf8Short(u: nat)
    requires u < 0x80
    ensures Utf8(u) == [u]
  {}

  lemma HexReads(s: Bytes, i: nat, b: Byte)
    requires i + 4 <= |s| && b < 0x20
    requires s[i] == 0x30 && s[i + 1] == 0x30 && s[i + 2] == HexDigit(b / 16) && s[i + 3] == HexDigit(b % 16)
    ensures HexFrom(s, i, 4, 0) == Value(b)
  {
    assert HexFrom(s, i + 4, 0, b) == Value(b);
    assert HexFrom(s, i + 3, 1, b / 16) == Value(b);
    assert HexFrom(s, i + 2, 2, 0) == Value(b);
    assert HexFrom(s, i + 1, 3, 0) == Value(b);
  }

  /** Every byte string printed as a JSON string is read back, up to the spaces after the closing quote. */
  lemma {:induction false} UnescapeEscape(t: Bytes, pre: Bytes, post: Bytes, out: Bytes, run: nat)
    requires run <= |out|
    ensures var s := pre + Escape(t) + [QUOTE] + post;
      Unescape(s, |pre|, out, 0, run) == Scan(true, out + t, SkipSpaces(s, |pre| + |Escape(t)| + 1))
  {
    hide EscapeByte, HexFrom, Utf8, PairPoint, FourOctets;
    var s := pre + Escape(t) + [QUOTE] + post;
    if t == [] {
      assert s[|pre|] == QUOTE && out + t == out;
    } else {
      hide Unescape;
      var e := EscapeByte(t[0]);
      var rest := Escape(t[1..]) + [QUOTE] + post;
      assert s == pre + e + rest == (pre + e) + Escape(t[1..]) + [QUOTE] + post;
      var run' := UnescapeByte(t[0], pre, rest, out, run);
      UnescapeEscape(t[1..], pre + e, post, out + [t[0]], run');
      assert out + [t[0]] + t[1..] == out + t;
    }
  }
}
