/** How strings may be spelled in JSON text by section 7 of RFC 8259, and that each spelling is read as what it says. */
module JsonSpelling {
  import opened Basics
  import opened Keys
  import opened JsonStrings
  import opened Utf16Strings

  // ---------------------------------------------------------------- octets of a code point

  /** The table in section 3 of RFC 3629: octets in the shortest form, and the number their bits make up. */
  predicate OctetsOf(b: Bytes, c: nat) {
    || (|b| == 1 && c < 0x80 && b[0] == c)
    || (|b| == 2 && 0x80 <= c < 0x800 && 0xC0 <= b[0] < 0xE0 && 0x80 <= b[1] < 0xC0
        && c == (b[0] as int - 0xC0) * 0x40 + (b[1] as int - 0x80))
    || (|b| == 3 && 0x800 <= c < 0x1_0000 && 0xE0 <= b[0] < 0xF0 && 0x80 <= b[1] < 0xC0 && 0x80 <= b[2] < 0xC0
        && c == (b[0] as int - 0xE0) * 0x1000 + (b[1] as int - 0x80) * 0x40 + (b[2] as int - 0x80))
    || (|b| == 4 && 0x1_0000 <= c <= 0x10_FFFF && 0xF0 <= b[0] < 0xF8
        && 0x80 <= b[1] < 0xC0 && 0x80 <= b[2] < 0xC0 && 0x80 <= b[3] < 0xC0
        && c == (b[0] as int - 0xF0) * 0x4_0000 + (b[1] as int - 0x80) * 0x1000 + (b[2] as int - 0x80) * 0x40
                + (b[3] as int - 0x80))
  }

  lemma Utf8Is(u: nat)
    requires u < 0x1_0000
    ensures OctetsOf(Utf8(u), u)
  {
    Base64(u);
  }

  /** A number by its digits to base 64. */
  lemma Base64(c: nat)
    ensures c == c / 0x1000 * 0x1000 + c / 0x40 % 0x40 * 0x40 + c % 0x40
    ensures c == c / 0x4_0000 * 0x4_0000 + c / 0x1000 % 0x40 * 0x1000 + c / 0x40 % 0x40 * 0x40 + c % 0x40
  {
    FurtherDigits(c);
    var a := c / 0x40;
    var b := a / 0x40;
    assert c == 0x40 * a + c % 0x40 && a == 0x40 * b + a % 0x40 && b == 0x40 * (b / 0x40) + b % 0x40;
  }

  lemma FourOctetsIs(c: nat)
    requires 0x1_0000 <= c <= 0x10_FFFF
    ensures OctetsOf(FourOctets(c), c)
  {
    Base64(c);
  }

  /** The table leaves no choice. */
  lemma OctetsUnique(a: Bytes, b: Bytes, c: nat)
    requires OctetsOf(a, c) && OctetsOf(b, c)
    ensures a == b
  {
    OctetDigits(a, c);
    OctetDigits(b, c);
  }

  /** The octets follow from the number. */
  lemma OctetDigits(b: Bytes, c: nat)
    requires OctetsOf(b, c)
    ensures c < 0x80 ==> b == [c]
    ensures 0x80 <= c < 0x800 ==> b == [0xC0 + c / 0x40, 0x80 + c % 0x40]
    ensures 0x800 <= c < 0x1_0000 ==> b == [0xE0 + c / 0x1000, 0x80 + c / 0x40 % 0x40, 0x80 + c % 0x40]
    ensures 0x1_0000 <= c ==> |b| == 4 && b == FourOctets(c)
  {
    if |b| == 2 {
      Digit64(b[0] - 0xC0, b[1] - 0x80);
    } else if |b| == 3 {
      Digits64(0, b[0] - 0xE0, b[1] - 0x80, b[2] - 0x80);
    } else if |b| == 4 {
      Digits64(b[0] - 0xF0, b[1] - 0x80, b[2] - 0x80, b[3] - 0x80);
    }
  }

  // ---------------------------------------------------------------- spellings

  /** A piece of a string: a byte as it is, an escape of two characters, an escape by number, two of them for a
      surrogate pair, octets that make one or two units, an escape by number with digits missing, or a backslash before
      a byte that it does not escape. */
  datatype Piece =
    | Raw(b: Byte)
    | Short(letter: Byte)
    | Code(digits: Bytes)
    | Pair(high: Bytes, low: Bytes)
    | Wide(units: Units)
    | Stub(digits: Bytes)
    | Other(b: Byte)

  /** Hexadecimal digits of either case. */
  function HexCode(c: Byte): int {
    if 0x30 <= c <= 0x39 then c - 0x30
    else if 0x41 <= c <= 0x46 then c - 0x37
    else if 0x61 <= c <= 0x66 then c - 0x57
    else -1
  }

  predicate Hex4(h: Bytes) {
    |h| == 4 && HexCode(h[0]) >= 0 && HexCode(h[1]) >= 0 && HexCode(h[2]) >= 0 && HexCode(h[3]) >= 0
  }

  predicate HexAll(h: Bytes) { forall k :: 0 <= k < |h| ==> HexCode(h[k]) >= 0 }

  function Point4(h: Bytes): (u: nat)
    requires Hex4(h)
    ensures u < 0x1_0000
  {
    0x1000 * HexCode(h[0]) + 0x100 * HexCode(h[1]) + 0x10 * HexCode(h[2]) + HexCode(h[3])
  }

  /** What the letter behind a backslash stands for: quotation mark, reverse solidus, solidus, backspace, form feed,
      line feed, carriage return and tab. */
  function ShortCode(letter: Byte): int {
    if letter == 0x22 then 0x22
    else if letter == 0x5C then 0x5C
    else if letter == 0x2F then 0x2F
    else if letter == 0x62 then 0x08
    else if letter == 0x66 then 0x0C
    else if letter == 0x6E then 0x0A
    else if letter == 0x72 then 0x0D
    else if letter == 0x74 then 0x09
    else -1
  }

  function PieceText(p: Piece): (t: Bytes)
    ensures p.Raw? || p.Short? ==> t != []
  {
    match p
    case Raw(b) => [b]
    case Short(letter) => [0x5C, letter]
    case Code(h) => [0x5C, 0x75] + h
    case Pair(h, l) => [0x5C, 0x75] + h + ([0x5C, 0x75] + l)
    case Wide(t) => UnitsText(t)
    case Stub(h) => [0x5C, 0x75] + h
    case Other(b) => [0x5C, b]
  }

  function PiecesText(ps: seq<Piece>): Bytes {
    if ps == [] then [] else PieceText(ps[0]) + PiecesText(ps[1..])
  }

  /** Both halves of a surrogate pair. */
  predicate PairOk(h: Bytes, l: Bytes) {
    Hex4(h) && Hex4(l) && 0xD800 <= Point4(h) <= 0xDBFF && 0xDC00 <= Point4(l) <= 0xDFFF
  }

  /** What RFC 8259 allows in a string, with its surrogates in pairs. */
  predicate Proper(p: Piece) {
    match p
    case Raw(b) => b >= 0x20 && b != 0x22 && b != 0x5C
    case Short(letter) => ShortCode(letter) >= 0
    case Code(h) => Hex4(h) && !(0xD800 <= Point4(h) <= 0xDFFF)
    case Pair(h, l) => PairOk(h, l)
    case _ => false
  }

  /** What the parser takes: control bytes, any surrogate, and backslashes that escape nothing too. */
  predicate Readable(p: Piece) {
    match p
    case Raw(b) => b != 0x22 && b != 0x5C
    case Code(h) => Hex4(h)
    case Stub(h) => |h| < 4 && HexAll(h)
    case Other(b) => ShortCode(b) < 0 && b != 0x75
    case _ => Proper(p)
  }

  /** The bytes a piece stands for; a surrogate alone is written like any other number. */
  function PieceBytes(p: Piece): Bytes
    requires Readable(p)
  {
    match p
    case Raw(b) => [b]
    case Short(letter) => [ShortCode(letter)]
    case Code(h) => Utf8(Point4(h))
    case Pair(h, l) => FourOctets(0x1_0000 + (Point4(h) - 0xD800) * 0x400 + (Point4(l) - 0xDC00))
    case Stub(h) => [0x5C, 0x75] + h
    case Other(b) => [0x5C, b]
  }

  predicate AllReadable(ps: seq<Piece>) { forall i :: 0 <= i < |ps| ==> Readable(ps[i]) }
  predicate AllProper(ps: seq<Piece>) { forall i :: 0 <= i < |ps| ==> Proper(ps[i]) }

  function PiecesBytes(ps: seq<Piece>): Bytes
    requires AllReadable(ps)
  {
    if ps == [] then [] else PieceBytes(ps[0]) + PiecesBytes(ps[1..])
  }

  /** Where digits are missing, none follows. */
  predicate Ended(ps: seq<Piece>) {
    ps == [] || (Ended(ps[1..]) && (ps[0].Stub? ==> HexCode((PiecesText(ps[1..]) + [0x22])[0]) < 0))
  }

  // ---------------------------------------------------------------- a pair that is kept apart

  predicate IsHighCode(p: Piece) { p.Code? && Hex4(p.digits) && 0xD800 <= Point4(p.digits) <= 0xDBFF }
  predicate IsLowCode(p: Piece) { p.Code? && Hex4(p.digits) && 0xDC00 <= Point4(p.digits) <= 0xDFFF }

  /** Whether a low surrogate stands behind a high one with nothing but plain bytes in between. */
  predicate Splits(ps: seq<Piece>, waiting: bool) {
    ps != [] && ((waiting && IsLowCode(ps[0])) || Splits(ps[1..], Waits(ps[0], waiting)))
  }

  predicate Waits(p: Piece, waiting: bool) { IsHighCode(p) || (p.Raw? && waiting) }

  lemma SimpleIs(c: Byte)
    ensures Simple(c) == ShortCode(c)
  {}

  lemma HexValueIs(c: Byte)
    ensures HexValue(c) == HexCode(c)
  {}

  lemma SixLong(h: Bytes)
    requires Hex4(h)
    ensures |h| == 4 && |[0x5C, 0x75] + h| == 6
  {}

  lemma HexReads4(s: Bytes, i: nat, h: Bytes)
    requires Hex4(h) && Here(s, i, h)
    ensures i + 4 <= |s| && HexFrom(s, i, 4, 0) == Value(Point4(h))
  {
    hide HexCode, HexValue;
    HereAt(s, i, h, 0);
    HereAt(s, i, h, 1);
    HereAt(s, i, h, 2);
    HereAt(s, i, h, 3);
    HexValueIs(h[0]);
    HexValueIs(h[1]);
    HexValueIs(h[2]);
    HexValueIs(h[3]);
    var a, b, c, d := HexCode(h[0]), HexCode(h[1]), HexCode(h[2]), HexCode(h[3]);
    assert HexFrom(s, i, 4, 0) == HexFrom(s, i + 1, 3, a);
    assert HexFrom(s, i + 1, 3, a) == HexFrom(s, i + 2, 2, 16 * a + b);
    assert HexFrom(s, i + 2, 2, 16 * a + b) == HexFrom(s, i + 3, 1, 16 * (16 * a + b) + c);
  }

  // ---------------------------------------------------------------- strings kept as bytes

  /** An escape by number, wherever it stands. */
  lemma CodeRead(s: Bytes, i: nat, h: Bytes, out: Bytes, prev: nat, run: nat)
    requires Hex4(h) && Here(s, i, [0x5C, 0x75] + h) && run <= |out| && (prev != 0 ==> run + 3 <= |out|)
    ensures i + 6 <= |s|
    ensures var u := Point4(h); var next := if IsHigh(u) then u else 0;
      && (prev != 0 && IsLow(u) ==>
          Unescape(s, i, out, prev, run)
          == Unescape(s, i + 6, out[..|out| - run - 3] + FourOctets(PairPoint(prev, u)), 0, 0))
      && (!(prev != 0 && IsLow(u)) ==>
          (next != 0 ==> 3 <= |out + Utf8(u)|)
          && Unescape(s, i, out, prev, run) == Unescape(s, i + 6, out + Utf8(u), next, 0))
  {
    hide HexFrom, Here, Point4, Hex4, SkipSpaces, Utf8, FourOctets, PairPoint;
    Split(s, i, [0x5C, 0x75], h);
    HereAt(s, i, [0x5C, 0x75], 1);
    HexReads4(s, i + 2, h);
    SimpleIs(0x75);
  }

  lemma PairPointIs(h: nat, l: nat)
    requires 0xD800 <= h <= 0xDBFF && 0xDC00 <= l <= 0xDFFF
    ensures IsHigh(h) && IsLow(l) && PairPoint(h, l) == 0x1_0000 + (h - 0xD800) * 0x400 + (l - 0xDC00)
  {}

  /** A byte that is no quote and no backslash; an escape of two characters; a backslash that escapes nothing; an
      escape with digits missing. */
  lemma RawRead(s: Bytes, i: nat, b: Byte, out: Bytes, prev: nat, run: nat)
    requires b != 0x22 && b != 0x5C && Here(s, i, [b]) && run <= |out| && (prev != 0 ==> run + 3 <= |out|)
    ensures i + 1 <= |s| && Unescape(s, i, out, prev, run) == Unescape(s, i + 1, out + [b], prev, run + 1)
  {
    HereAt(s, i, [b], 0);
  }

  lemma ShortRead(s: Bytes, i: nat, c: Byte, out: Bytes, prev: nat, run: nat)
    requires ShortCode(c) >= 0 && Here(s, i, [0x5C, c]) && run <= |out| && (prev != 0 ==> run + 3 <= |out|)
    ensures i + 2 <= |s| && Unescape(s, i, out, prev, run) == Unescape(s, i + 2, out + [ShortCode(c)], 0, 0)
  {
    hide ShortCode, Simple;
    HereAt(s, i, [0x5C, c], 0);
    HereAt(s, i, [0x5C, c], 1);
    SimpleIs(c);
  }

  lemma OtherRead(s: Bytes, i: nat, c: Byte, out: Bytes, prev: nat, run: nat)
    requires ShortCode(c) < 0 && c != 0x75 && Here(s, i, [0x5C, c]) && run <= |out| && (prev != 0 ==> run + 3 <= |out|)
    ensures i + 2 <= |s| && Unescape(s, i, out, prev, run) == Unescape(s, i + 2, out + [0x5C, c], 0, run + 2)
  {
    hide ShortCode, Simple;
    HereAt(s, i, [0x5C, c], 0);
    HereAt(s, i, [0x5C, c], 1);
    SimpleIs(c);
  }

  lemma {:induction false} HexStops(s: Bytes, j: nat, h: Bytes, n: nat, u: nat)
    requires |h| < n && HexAll(h) && Here(s, j, h) && j + |h| < |s| && HexCode(s[j + |h|]) < 0
    ensures HexFrom(s, j, n, u) == Bad(j + |h|)
    decreases n
  {
    hide HexCode, HexValue, Here;
    HexValueIs(s[j]);
    if h != [] {
      HereAt(s, j, h, 0);
      assert h == [h[0]] + h[1..];
      Split(s, j, [h[0]], h[1..]);
      HexStops(s, j + 1, h[1..], n - 1, 16 * u + HexValue(s[j]));
    }
  }

  lemma StubRead(s: Bytes, i: nat, h: Bytes, out: Bytes, prev: nat, run: nat)
    requires |h| < 4 && HexAll(h) && Here(s, i, [0x5C, 0x75] + h) && run <= |out| && (prev != 0 ==> run + 3 <= |out|)
    requires i + 2 + |h| < |s| && HexCode(s[i + 2 + |h|]) < 0
    ensures Unescape(s, i, out, prev, run)
      == Unescape(s, i + 2 + |h|, out + ([0x5C, 0x75] + h), 0, run + 2 + |h|)
  {
    hide HexCode, HexAll, HexFrom, Here;
    Split(s, i, [0x5C, 0x75], h);
    HereAt(s, i, [0x5C, 0x75], 1);
    HexStops(s, i + 2, h, 4, 0);
    SimpleIs(0x75);
    TextIs(s, i, [0x5C, 0x75] + h);
  }

  lemma TextIs(s: Bytes, i: nat, t: Bytes)
    requires Here(s, i, t)
    ensures i + |t| <= |s| && s[i..i + |t|] == t
  {}

  /** One piece is read as what it stands for, unless it is a low surrogate that a high one waits for. */
  lemma PieceRead(s: Bytes, i: nat, p: Piece, out: Bytes, prev: nat, run: nat)
    returns (out': Bytes, prev': nat, run': nat)
    requires Readable(p) && Here(s, i, PieceText(p)) && run <= |out| && (prev != 0 ==> run + 3 <= |out|)
    requires var e := i + |PieceText(p)|; p.Stub? ==> e < |s| && HexCode(s[e]) < 0
    ensures i + |PieceText(p)| <= |s| && run' <= |out'| && (prev' != 0 ==> run' + 3 <= |out'|)
    ensures Unescape(s, i, out, prev, run) == Unescape(s, i + |PieceText(p)|, out', prev', run')
    ensures prev' != 0 <==> Waits(p, prev != 0)
    ensures if prev != 0 && IsLowCode(p) then |out'| < |out| + |PieceBytes(p)| else out' == out + PieceBytes(p)
  {
    hide Here, Point4, Hex4, HexAll, Utf8, FourOctets, PairPoint, ShortCode, Unescape, HexCode;
    prev', run' := 0, 0;
    match p {
      case Raw(b) =>
        RawRead(s, i, b, out, prev, run);
        out', prev', run' := out + [b], prev, run + 1;
      case Short(c) =>
        ShortRead(s, i, c, out, prev, run);
        out' := out + PieceBytes(p);
      case Code(h) =>
        var u := Point4(h);
        SixLong(h);
        CodeRead(s, i, h, out, prev, run);
        if prev != 0 && IsLow(u) {
          out' := out[..|out| - run - 3] + FourOctets(PairPoint(prev, u));
          FourLong(PairPoint(prev, u));
        } else {
          out', prev' := out + Utf8(u), if IsHigh(u) then u else 0;
        }
      case Pair(h, l) =>
        SixLong(h);
        SixLong(l);
        Split(s, i, [0x5C, 0x75] + h, [0x5C, 0x75] + l);
        PairRead(s, i, h, l, out, prev, run);
        out' := out + PieceBytes(p);
      case Stub(h) =>
        StubRead(s, i, h, out, prev, run);
        TextIs(s, i, PieceText(p));
        out', run' := out + PieceBytes(p), run + 2 + |h|;
      case Other(c) =>
        OtherRead(s, i, c, out, prev, run);
        out', run' := out + [0x5C, c], run + 2;
    }
  }

  lemma FourLong(c: nat)
    requires 0x1_0000 <= c <= 0x10_FFFF
    ensures |FourOctets(c)| == 4
  {}

  lemma PairRead(s: Bytes, i: nat, h: Bytes, l: Bytes, out: Bytes, prev: nat, run: nat)
    requires PairOk(h, l) && run <= |out| && (prev != 0 ==> run + 3 <= |out|)
    requires Here(s, i, [0x5C, 0x75] + h) && Here(s, i + 6, [0x5C, 0x75] + l)
    ensures i + 12 <= |s|
    ensures Unescape(s, i, out, prev, run)
      == Unescape(s, i + 12, out + FourOctets(0x1_0000 + (Point4(h) - 0xD800) * 0x400 + (Point4(l) - 0xDC00)), 0, 0)
  {
    hide HexFrom, Here, Hex4, Point4, SkipSpaces, FourOctets, PairPoint, Unescape;
    var u, v := Point4(h), Point4(l);
    PairPointIs(u, v);
    CodeRead(s, i, h, out, prev, run);
    var mid := out + Utf8(u);
    assert |Utf8(u)| == 3;
    CodeRead(s, i + 6, l, mid, u, 0);
    assert mid[..|mid| - 3] == out;
  }

  lemma QuoteEnds(s: Bytes, i: nat, out: Bytes, prev: nat, run: nat)
    requires i < |s| && s[i] == 0x22 && run <= |out| && (prev != 0 ==> run + 3 <= |out|)
    ensures Unescape(s, i, out, prev, run) == Scan(true, out, SkipSpaces(s, i + 1))
  {}

  lemma {:induction false} SpellingScan(s: Bytes, i: nat, ps: seq<Piece>, out: Bytes, prev: nat, run: nat)
    requires AllReadable(ps) && Ended(ps) && Here(s, i, PiecesText(ps) + [0x22])
    requires run <= |out| && (prev != 0 ==> run + 3 <= |out|)
    ensures i + |PiecesText(ps)| + 1 <= |s|
    ensures var r := Unescape(s, i, out, prev, run);
      && r.ok && r.pos == SkipSpaces(s, i + |PiecesText(ps)| + 1)
      && |r.text| <= |out| + |PiecesBytes(ps)|
      && if Splits(ps, prev != 0) then |r.text| < |out| + |PiecesBytes(ps)| else r.text == out + PiecesBytes(ps)
    decreases |ps|
  {
    hide PieceText, PieceBytes, Readable, Here, SkipSpaces, Unescape, Waits, HexCode, IsLowCode;
    if ps == [] {
      assert [] + [0x22] == [0x22];
      HereAt(s, i, [0x22], 0);
      QuoteEnds(s, i, out, prev, run);
      assert out + [] == out;
    } else {
      var t, rest := PieceText(ps[0]), PiecesText(ps[1..]) + [0x22];
      Assoc(t, PiecesText(ps[1..]), [0x22]);
      Split(s, i, t, rest);
      var out', prev', run' := PieceRead(s, i, ps[0], out, prev, run);
      SpellingScan(s, i + |t|, ps[1..], out', prev', run');
      Assoc(out, PieceBytes(ps[0]), PiecesBytes(ps[1..]));
    }
  }

  /** A spelling between quotes is read, and as the bytes it stands for if and only if no pair is kept apart. */
  lemma SpellingRead(s: Bytes, i: nat, ps: seq<Piece>)
    requires AllReadable(ps) && Ended(ps) && Here(s, i, PiecesText(ps) + [0x22])
    ensures i + |PiecesText(ps)| + 1 <= |s|
    ensures var r := Unescape(s, i, [], 0, 0);
      && r.ok && r.pos == SkipSpaces(s, i + |PiecesText(ps)| + 1)
      && (r.text == PiecesBytes(ps) <==> !Splits(ps, false))
  {
    hide PiecesText, PiecesBytes, AllReadable, Here, SkipSpaces, Unescape, Splits, Ended;
    SpellingScan(s, i, ps, [], 0, 0);
    assert [] + PiecesBytes(ps) == PiecesBytes(ps);
  }

  /** By RFC 8259 with surrogates in pairs none is. */
  lemma {:induction false} ProperWhole(ps: seq<Piece>, waiting: bool)
    requires AllProper(ps)
    ensures AllReadable(ps) && Ended(ps) && !Splits(ps, waiting)
    ensures ps != [] ==> PiecesBytes(ps) != []
    decreases |ps|
  {
    hide PieceText, HexCode, ShortCode, Utf8, FourOctets;
    forall k | 0 <= k < |ps| ensures Readable(ps[k]) { assert Proper(ps[k]); }
    if ps != [] {
      assert Proper(ps[0]);
      ProperWhole(ps[1..], Waits(ps[0], waiting));
      SomeBytes(ps[0]);
    }
  }

  lemma SomeBytes(p: Piece)
    requires Proper(p)
    ensures PieceBytes(p) != []
  {
    hide Hex4, Point4, ShortCode;
    if p.Pair? { FourLong(0x1_0000 + (Point4(p.high) - 0xD800) * 0x400 + (Point4(p.low) - 0xDC00)); }
  }

  lemma ThreeTexts(p: Piece, q: Piece, r: Piece)
    ensures PiecesText([p, q, r]) == PieceText(p) + (PieceText(q) + PieceText(r))
  {
    hide PieceText;
    assert [p, q, r][1..] == [q, r] && [q, r][1..] == [r] && [r][1..] == [];
    assert PiecesText([r]) == PieceText(r) + PiecesText([]) == PieceText(r);
  }

  /** The smallest such case: the plain byte is lost. */
  lemma PairAcross(s: Bytes, h: Bytes, b: Byte, l: Bytes)
    requires PairOk(h, l) && b != 0x22 && b != 0x5C
    requires Here(s, 0, PiecesText([Code(h), Raw(b), Code(l)]) + [0x22])
    ensures Unescape(s, 0, [], 0, 0).text
      == FourOctets(0x1_0000 + (Point4(h) - 0xD800) * 0x400 + (Point4(l) - 0xDC00))
  {
    hide HexFrom, Here, Hex4, Point4, SkipSpaces, FourOctets, PairPoint, Unescape;
    var u, v := Point4(h), Point4(l);
    SixLong(h);
    SixLong(l);
    PairPointIs(u, v);
    var ps := [Code(h), Raw(b), Code(l)];
    ThreeTexts(Code(h), Raw(b), Code(l));
    assert PiecesText(ps) + [0x22] == ([0x5C, 0x75] + h) + ([b] + (([0x5C, 0x75] + l) + [0x22]));
    Split(s, 0, [0x5C, 0x75] + h, [b] + (([0x5C, 0x75] + l) + [0x22]));
    Split(s, 6, [b], ([0x5C, 0x75] + l) + [0x22]);
    Split(s, 7, [0x5C, 0x75] + l, [0x22]);
    CodeRead(s, 0, h, [], 0, 0);
    var mid: Bytes := [] + Utf8(u);
    RawRead(s, 6, b, mid, u, 0);
    CodeRead(s, 7, l, mid + [b], u, 1);
    assert (mid + [b])[..0] == [];
    QuoteEnds(s, 13, [] + FourOctets(PairPoint(u, v)), 0, 0);
  }

  // ---------------------------------------------------------------- every accepted string is spelled that way

  lemma {:induction false} HexRead(s: Bytes, j: nat, n: nat, u: nat)
    requires j <= |s|
    ensures var x := HexFrom(s, j, n, u);
      && (x.Value? ==> j + n <= |s| && HexAll(s[j..j + n]))
      && (x.Bad? ==> x.at - j < n && HexAll(s[j..x.at]) && HexCode(s[x.at]) < 0)
    decreases n
  {
    hide HexCode, HexValue;
    if n > 0 && j < |s| {
      HexValueIs(s[j]);
      if HexValue(s[j]) >= 0 {
        HexRead(s, j + 1, n - 1, 16 * u + HexValue(s[j]));
        var x := HexFrom(s, j, n, u);
        if x.Value? { HexMore(s, j, j + n); }
        if x.Bad? { HexMore(s, j, x.at); }
      }
    }
  }

  lemma HexMore(s: Bytes, j: nat, e: nat)
    requires j < e <= |s| && HexCode(s[j]) >= 0 && HexAll(s[j + 1..e])
    ensures HexAll(s[j..e])
  {
    hide HexCode;
    assert s[j..e] == [s[j]] + s[j + 1..e];
  }

  lemma Preceded(s: Bytes, i: nat, p: Piece, ps: seq<Piece>)
    requires Readable(p) && AllReadable(ps) && Ended(ps) && Here(s, i, PieceText(p))
    requires var e := i + |PieceText(p)|; Here(s, e, PiecesText(ps) + [0x22]) && (p.Stub? ==> HexCode(s[e]) < 0)
    ensures AllReadable([p] + ps) && Ended([p] + ps) && Here(s, i, PiecesText([p] + ps) + [0x22])
  {
    hide PieceText, Readable, HexCode;
    var all := [p] + ps;
    assert all[0] == p && all[1..] == ps;
    var t, rest := PieceText(p), PiecesText(ps) + [0x22];
    HereAt(s, i + |t|, rest, 0);
    Assoc(t, PiecesText(ps), [0x22]);
    assert s[i..i + |t| + |rest|] == s[i..i + |t|] + s[i + |t|..i + |t| + |rest|];
  }

  /** The piece that is read first. */
  lemma PieceAt(s: Bytes, i: nat, out: Bytes, prev: nat, run: nat)
    returns (p: Piece, out': Bytes, prev': nat, run': nat)
    requires i < |s| && s[i] != 0x22 && run <= |out| && (prev != 0 ==> run + 3 <= |out|)
    requires Unescape(s, i, out, prev, run).ok
    ensures Readable(p) && PieceText(p) != [] && Here(s, i, PieceText(p)) && run' <= |out'|
    ensures i + |PieceText(p)| <= |s| && (prev' != 0 ==> run' + 3 <= |out'|)
    ensures Unescape(s, i, out, prev, run) == Unescape(s, i + |PieceText(p)|, out', prev', run')
    ensures p.Stub? ==> i + |PieceText(p)| < |s| && HexCode(s[i + |PieceText(p)|]) < 0
  {
    hide Unescape, HexCode, ShortCode, HexAll, Here;
    prev', run' := 0, 0;
    if s[i] != 0x5C {
      p, prev', run' := Raw(s[i]), prev, run + 1;
      PieceHere(s, i, i + 1);
      assert s[i..i + 1] == [s[i]];
      RawRead(s, i, s[i], out, prev, run);
      out' := out + PieceBytes(p);
    } else {
      NextThere(s, i, out, prev, run);
      PieceHere(s, i, i + 2);
      assert s[i..i + 2] == [0x5C, s[i + 1]];
      if ShortCode(s[i + 1]) >= 0 {
        p := Short(s[i + 1]);
        ShortRead(s, i, s[i + 1], out, prev, run);
        out' := out + PieceBytes(p);
      } else if s[i + 1] != 0x75 {
        p, run' := Other(s[i + 1]), run + 2;
        OtherRead(s, i, s[i + 1], out, prev, run);
        out' := out + PieceBytes(p);
      } else {
        p, out', prev', run' := EscapeAt(s, i, out, prev, run);
      }
    }
  }

  lemma NextThere(s: Bytes, i: nat, out: Bytes, prev: nat, run: nat)
    requires i < |s| && s[i] == 0x5C && run <= |out| && (prev != 0 ==> run + 3 <= |out|)
    requires Unescape(s, i, out, prev, run).ok
    ensures i + 1 < |s|
  {}

  lemma PieceHere(s: Bytes, i: nat, e: nat)
    requires i <= e <= |s|
    ensures Here(s, i, s[i..e])
  {}

  lemma EscapeAt(s: Bytes, i: nat, out: Bytes, prev: nat, run: nat)
    returns (p: Piece, out': Bytes, prev': nat, run': nat)
    requires i + 1 < |s| && s[i] == 0x5C && s[i + 1] == 0x75 && run <= |out| && (prev != 0 ==> run + 3 <= |out|)
    requires Unescape(s, i, out, prev, run).ok
    ensures Readable(p) && PieceText(p) != [] && Here(s, i, PieceText(p)) && run' <= |out'|
    ensures i + |PieceText(p)| <= |s| && (prev' != 0 ==> run' + 3 <= |out'|)
    ensures Unescape(s, i, out, prev, run) == Unescape(s, i + |PieceText(p)|, out', prev', run')
    ensures p.Stub? ==> i + |PieceText(p)| < |s| && HexCode(s[i + |PieceText(p)|]) < 0
  {
    hide Unescape, Utf8, FourOctets, PairPoint, HexFrom, HexCode, Here, Point4, Hex4, HexAll;
    HexThere(s, i, out, prev, run);
    HexRead(s, i + 2, 4, 0);
    var x := HexFrom(s, i + 2, 4, 0);
    var e := if x.Bad? then x.at else i + 6;
    var h := s[i + 2..e];
    assert s[i..e] == [0x5C, 0x75] + h;
    PieceHere(s, i, e);
    prev', run' := 0, 0;
    if x.Bad? {
      p, run' := Stub(h), run + 2 + |h|;
      StubRead(s, i, h, out, prev, run);
      out' := out + PieceBytes(p);
    } else {
      FourAre(h);
      p := Code(h);
      CodeRead(s, i, h, out, prev, run);
      var u := Point4(h);
      if prev != 0 && IsLow(u) {
        out' := out[..|out| - run - 3] + FourOctets(PairPoint(prev, u));
      } else {
        out', prev' := out + Utf8(u), if IsHigh(u) then u else 0;
      }
    }
  }

  lemma HexThere(s: Bytes, i: nat, out: Bytes, prev: nat, run: nat)
    requires i + 1 < |s| && s[i] == 0x5C && s[i + 1] == 0x75 && run <= |out| && (prev != 0 ==> run + 3 <= |out|)
    requires Unescape(s, i, out, prev, run).ok
    ensures !HexFrom(s, i + 2, 4, 0).Ends?
  {
    hide HexFrom, SkipSpaces, Utf8, FourOctets, PairPoint;
  }

  lemma FourAre(h: Bytes)
    requires |h| == 4 && HexAll(h)
    ensures Hex4(h)
  {
    hide HexCode;
  }

  lemma {:induction false} SpellingOf(s: Bytes, i: nat, out: Bytes, prev: nat, run: nat) returns (ps: seq<Piece>)
    requires i <= |s| && run <= |out| && (prev != 0 ==> run + 3 <= |out|) && Unescape(s, i, out, prev, run).ok
    ensures AllReadable(ps) && Ended(ps) && Here(s, i, PiecesText(ps) + [0x22])
    decreases |s| - i
  {
    hide Unescape, HexCode, AllReadable, Ended, PiecesText, PieceText, Readable, Here;
    SomeLeft(s, i, out, prev, run);
    ps := [];
    if s[i] == 0x22 {
      NoPieces();
      PieceHere(s, i, i + 1);
      assert s[i..i + 1] == [0x22];
    } else {
      var p, out', prev', run' := PieceAt(s, i, out, prev, run);
      ps := SpellingOf(s, i + |PieceText(p)|, out', prev', run');
      Preceded(s, i, p, ps);
      ps := [p] + ps;
    }
  }

  lemma SomeLeft(s: Bytes, i: nat, out: Bytes, prev: nat, run: nat)
    requires i <= |s| && run <= |out| && (prev != 0 ==> run + 3 <= |out|) && Unescape(s, i, out, prev, run).ok
    ensures i < |s|
  {}

  lemma NoPieces()
    ensures AllReadable([]) && Ended([]) && PiecesText([]) + [0x22] == [0x22]
  {}

  /** A string is accepted if and only if it is spelled in pieces up to a quotation mark. */
  lemma StringAccepted(s: Bytes, i: nat)
    requires i <= |s|
    ensures Unescape(s, i, [], 0, 0).ok
      <==> exists ps :: AllReadable(ps) && Ended(ps) && Here(s, i, PiecesText(ps) + [0x22])
  {
    hide Unescape, AllReadable, Ended, PiecesText, Here;
    if Unescape(s, i, [], 0, 0).ok {
      var ps := SpellingOf(s, i, [], 0, 0);
    }
    forall ps | AllReadable(ps) && Ended(ps) && Here(s, i, PiecesText(ps) + [0x22])
      ensures Unescape(s, i, [], 0, 0).ok
    {
      SpellingRead(s, i, ps);
    }
  }

  // ---------------------------------------------------------------- strings kept as 16-bit units

  predicate UnitReadable(p: Piece) {
    match p
    case Raw(b) => b < 0x80 && b != 0x22 && b != 0x5C
    case Short(letter) => ShortCode(letter) >= 0
    case Code(h) => Hex4(h)
    case Pair(h, l) => PairOk(h, l)
    case Wide(t) => Compound(t)
    case Stub(h) => |h| < 4 && HexAll(h)
    case Other(b) => b < 0x80 && ShortCode(b) < 0 && b != 0x75
  }

  function PieceUnits(p: Piece): Units
    requires UnitReadable(p)
  {
    match p
    case Raw(b) => [b]
    case Short(letter) => [ShortCode(letter)]
    case Code(h) => [Point4(h)]
    case Pair(h, l) => [Point4(h), Point4(l)]
    case Wide(t) => t
    case Stub(h) => Widen([0x5C, 0x75] + h)
    case Other(b) => [0x5C, b]
  }

  predicate AllUnitReadable(ps: seq<Piece>) { forall i :: 0 <= i < |ps| ==> UnitReadable(ps[i]) }

  function PiecesUnits(ps: seq<Piece>): Units
    requires AllUnitReadable(ps)
  {
    if ps == [] then [] else PieceUnits(ps[0]) + PiecesUnits(ps[1..])
  }

  /** The octets of one unit or of a pair are those of the table. */
  lemma WideIs(t: Units)
    requires Compound(t)
    ensures |t| == 1 ==> OctetsOf(UnitsText(t), t[0])
    ensures |t| == 2 ==> OctetsOf(UnitsText(t), 0x1_0000 + (t[0] as int - 0xD800) * 0x400 + (t[1] as int - 0xDC00))
  {
    hide UnitsText, Utf8, FourOctets, OctetsOf, PairPoint;
    CompoundText(t);
    if |t| == 1 {
      Utf8Is(t[0]);
    } else {
      PairPointIs(t[0], t[1]);
      FourOctetsIs(PairPoint(t[0], t[1]));
    }
  }

  lemma CodeRead16(s: Bytes, i: nat, h: Bytes, out: Units)
    requires Hex4(h) && Here(s, i, [0x5C, 0x75] + h)
    ensures i + 6 <= |s| && Unescape16(s, i, out) == Unescape16(s, i + 6, out + [Point4(h)])
  {
    hide HexFrom, Here, Point4, Hex4, SkipSpaces, Decode;
    Split(s, i, [0x5C, 0x75], h);
    HereAt(s, i, [0x5C, 0x75], 1);
    HexReads4(s, i + 2, h);
    SimpleIs(0x75);
  }

  lemma RawRead16(s: Bytes, i: nat, b: Byte, out: Units)
    requires b < 0x80 && b != 0x22 && b != 0x5C && Here(s, i, [b])
    ensures i + 1 <= |s| && Unescape16(s, i, out) == Unescape16(s, i + 1, out + [b])
  {
    HereAt(s, i, [b], 0);
  }

  /** A backslash and a byte that begins no number. */
  lemma PlainRead16(s: Bytes, i: nat, c: Byte, out: Units)
    requires (ShortCode(c) >= 0 || c != 0x75) && Here(s, i, [0x5C, c])
    ensures i + 2 <= |s|
    ensures Unescape16(s, i, out)
      == Unescape16(s, i + 2, if ShortCode(c) >= 0 then out + [ShortCode(c)] else out + [0x5C, c])
  {
    hide Simple, SkipSpaces, Decode;
    HereAt(s, i, [0x5C, c], 0);
    HereAt(s, i, [0x5C, c], 1);
    SimpleIs(c);
  }

  lemma PieceRead16(s: Bytes, i: nat, p: Piece, out: Units)
    requires UnitReadable(p) && Here(s, i, PieceText(p))
    requires var e := i + |PieceText(p)|; p.Stub? ==> e < |s| && HexCode(s[e]) < 0
    ensures i + |PieceText(p)| <= |s|
    ensures Unescape16(s, i, out) == Unescape16(s, i + |PieceText(p)|, out + PieceUnits(p))
  {
    hide Unescape16, HexCode, HexAll, Here, Point4, Hex4, ShortCode, UnitsText, Widen;
    match p {
      case Raw(b) =>
        RawRead16(s, i, b, out);
      case Short(c) =>
        PlainRead16(s, i, c, out);
      case Code(h) =>
        SixLong(h);
        CodeRead16(s, i, h, out);
      case Pair(h, l) =>
        SixLong(h);
        SixLong(l);
        Split(s, i, [0x5C, 0x75] + h, [0x5C, 0x75] + l);
        CodeRead16(s, i, h, out);
        CodeRead16(s, i + 6, l, out + [Point4(h)]);
        assert out + [Point4(h)] + [Point4(l)] == out + [Point4(h), Point4(l)];
      case Wide(t) =>
        WideRead16(s, i, t, out);
      case Stub(h) =>
        StubRead16(s, i, h, out);
      case Other(c) =>
        PlainRead16(s, i, c, out);
    }
  }

  lemma StubRead16(s: Bytes, i: nat, h: Bytes, out: Units)
    requires |h| < 4 && HexAll(h) && Here(s, i, [0x5C, 0x75] + h)
    requires i + 2 + |h| < |s| && HexCode(s[i + 2 + |h|]) < 0
    ensures Unescape16(s, i, out) == Unescape16(s, i + 2 + |h|, out + Widen([0x5C, 0x75] + h))
  {
    hide HexCode, HexAll, HexFrom, Here, Decode, Widen, SkipSpaces;
    Split(s, i, [0x5C, 0x75], h);
    HereAt(s, i, [0x5C, 0x75], 1);
    HexStops(s, i + 2, h, 4, 0);
    SimpleIs(0x75);
    TextIs(s, i, [0x5C, 0x75] + h);
  }

  lemma WideRead16(s: Bytes, i: nat, t: Units, out: Units)
    requires Compound(t) && Here(s, i, UnitsText(t))
    ensures i + |UnitsText(t)| <= |s| && Unescape16(s, i, out) == Unescape16(s, i + |UnitsText(t)|, out + t)
  {
    hide Decode, UnitsText, SkipSpaces, HexFrom;
    WideStart(t);
    HereAt(s, i, UnitsText(t), 0);
    DecodeAccepts(s, i, t);
  }

  lemma WideStart(t: Units)
    requires Compound(t)
    ensures UnitsText(t) != [] && UnitsText(t)[0] >= 0x80
  {
    hide UnitsText;
    WideIs(t);
  }

  lemma QuoteEnds16(s: Bytes, i: nat, out: Units)
    requires i < |s| && s[i] == 0x22
    ensures Unescape16(s, i, out) == Scan16(true, out, SkipSpaces(s, i + 1))
  {}

  /** Every spelling between quotes is read as the units it stands for. */
  lemma {:induction false} SpellingRead16(s: Bytes, i: nat, ps: seq<Piece>, out: Units)
    requires AllUnitReadable(ps) && Ended(ps) && Here(s, i, PiecesText(ps) + [0x22])
    ensures i + |PiecesText(ps)| + 1 <= |s|
    ensures Unescape16(s, i, out)
      == Scan16(true, out + PiecesUnits(ps), SkipSpaces(s, i + |PiecesText(ps)| + 1))
    decreases |ps|
  {
    hide PieceText, PieceUnits, UnitReadable, Here, SkipSpaces, Unescape16, HexCode;
    if ps == [] {
      assert [] + [0x22] == [0x22];
      HereAt(s, i, [0x22], 0);
      QuoteEnds16(s, i, out);
      assert out + [] == out;
    } else {
      var t, rest := PieceText(ps[0]), PiecesText(ps[1..]) + [0x22];
      Assoc(t, PiecesText(ps[1..]), [0x22]);
      Split(s, i, t, rest);
      PieceRead16(s, i, ps[0], out);
      SpellingRead16(s, i + |t|, ps[1..], out + PieceUnits(ps[0]));
      Assoc(out, PieceUnits(ps[0]), PiecesUnits(ps[1..]));
    }
  }
}
