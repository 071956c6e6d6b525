/** The grammar of RFC 8259 in its octets, apart from printer and parser: what is printed belongs to it, and which of
    its texts are accepted. */
module JsonGrammar {
  import opened Basics
  import opened Keys
  import opened JsonStrings
  import opened JsonNumbers
  import opened JsonObjects
  import opened JsonText
  import opened JsonSpelling
  import opened Utf16Strings
  import opened JsonRoundTrip

  // ---------------------------------------------------------------- sections 2 to 6

  /** Insignificant whitespace. */
  predicate Blank(w: Bytes) { forall i :: 0 <= i < |w| ==> w[i] in {0x20, 0x09, 0x0A, 0x0D} }

  predicate Figures(t: Bytes) { forall i :: 0 <= i < |t| ==> 0x30 <= t[i] <= 0x39 }

  /** The parts of a number: mark is E or e when there is an exponent. */
  datatype Numeral = Numeral(minus: bool, whole: Bytes, frac: Bytes, mark: Option<Byte>, sign: Bytes, exp: Bytes)

  predicate NumeralOk(n: Numeral) {
    && Figures(n.whole) && n.whole != [] && (n.whole[0] == 0x30 ==> |n.whole| == 1)
    && Figures(n.frac)
    && (n.mark.Some? ==>
        n.mark.value in {0x45, 0x65} && n.sign in {[], [0x2B], [0x2D]} && Figures(n.exp) && n.exp != [])
  }

  function NumeralText(n: Numeral): Bytes {
    (if n.minus then [0x2D] else []) + n.whole + (if n.frac == [] then [] else [0x2E] + n.frac)
    + (if n.mark.None? then [] else [n.mark.value] + n.sign + n.exp)
  }

  /** A text of the grammar. An element or a member has whitespace behind it, and behind the comma that follows it. */
  datatype Doc =
    | NullDoc
    | TrueDoc
    | FalseDoc
    | NumberDoc(n: Numeral)
    | StringDoc(ps: seq<Piece>)
    | ArrayDoc(lead: Bytes, items: seq<Item>)
    | ObjectDoc(lead: Bytes, fields: seq<Field>)
  datatype Item = Item(v: Doc, after: Bytes, next: Bytes)
  datatype Field = Field(key: seq<Piece>, before: Bytes, behind: Bytes, item: Item)

  function DocText(d: Doc): Bytes
    decreases d
  {
    match d
    case NullDoc => [0x6E, 0x75, 0x6C, 0x6C]
    case TrueDoc => [0x74, 0x72, 0x75, 0x65]
    case FalseDoc => [0x66, 0x61, 0x6C, 0x73, 0x65]
    case NumberDoc(n) => NumeralText(n)
    case StringDoc(ps) => SpellingText(ps)
    case ArrayDoc(lead, items) => [0x5B] + lead + (ItemsText(items) + [0x5D])
    case ObjectDoc(lead, fields) => [0x7B] + lead + (FieldsText(fields) + [0x7D])
  }

  function SpellingText(ps: seq<Piece>): Bytes { [0x22] + (PiecesText(ps) + [0x22]) }

  function ItemText(e: Item): Bytes
    decreases e
  {
    DocText(e.v) + e.after
  }

  function ItemsText(es: seq<Item>): Bytes
    decreases es
  {
    if es == [] then [] else ItemText(es[0]) + (if |es| == 1 then [] else [0x2C] + es[0].next + ItemsText(es[1..]))
  }

  function FieldText(f: Field): Bytes
    decreases f
  {
    SpellingText(f.key) + f.before + ([0x3A] + f.behind + ItemText(f.item))
  }

  function FieldsText(fs: seq<Field>): Bytes
    decreases fs
  {
    if fs == [] then []
    else FieldText(fs[0]) + (if |fs| == 1 then [] else [0x2C] + fs[0].item.next + FieldsText(fs[1..]))
  }

  predicate DocOk(d: Doc)
    decreases d
  {
    match d
    case NumberDoc(n) => NumeralOk(n)
    case StringDoc(ps) => AllProper(ps)
    case ArrayDoc(lead, items) => Blank(lead) && ItemsOk(items)
    case ObjectDoc(lead, fields) => Blank(lead) && FieldsOk(fields)
    case _ => true
  }

  predicate ItemOk(e: Item)
    decreases e
  {
    DocOk(e.v) && Blank(e.after) && Blank(e.next)
  }

  predicate ItemsOk(es: seq<Item>)
    decreases es
  {
    es == [] || (ItemOk(es[0]) && ItemsOk(es[1..]))
  }

  predicate FieldOk(f: Field)
    decreases f
  {
    AllProper(f.key) && Blank(f.before) && Blank(f.behind) && ItemOk(f.item)
  }

  predicate FieldsOk(fs: seq<Field>)
    decreases fs
  {
    fs == [] || (FieldOk(fs[0]) && FieldsOk(fs[1..]))
  }

  // ---------------------------------------------------------------- what a text stands for

  function StringBytes(ps: seq<Piece>): Bytes { if AllReadable(ps) then PiecesBytes(ps) else [] }

  /** Of equal names the last counts, at the place of the first. */
  function DocValue(d: Doc): Json
    decreases d
  {
    match d
    case NullDoc => Null
    case TrueDoc => Bool(true)
    case FalseDoc => Bool(false)
    case NumberDoc(n) => Number(NumeralText(n))
    case StringDoc(ps) => Str(StringBytes(ps))
    case ArrayDoc(_, items) => Array(ItemsValue(items))
    case ObjectDoc(_, fields) => Object(FieldsValue(fields, []))
  }

  function ItemsValue(es: seq<Item>): seq<Json>
    decreases es
  {
    if es == [] then [] else [DocValue(es[0].v)] + ItemsValue(es[1..])
  }

  function FieldsValue(fs: seq<Field>, ms: Members): Members
    decreases fs
  {
    if fs == [] then ms
    else FieldsValue(fs[1..], Put(ms, StringBytes(fs[0].key), DocValue(fs[0].item.v)))
  }

  predicate IsWord(d: Doc) { d.NullDoc? || d.TrueDoc? || d.FalseDoc? }

  /** The two things that the parser does not take: an empty name, and whitespace directly behind null, true or false
      inside brackets. */
  predicate Taken(d: Doc)
    decreases d
  {
    match d
    case ArrayDoc(_, items) => ItemsTaken(items)
    case ObjectDoc(_, fields) => FieldsTaken(fields)
    case _ => true
  }

  predicate ItemTaken(e: Item)
    decreases e
  {
    Taken(e.v) && (IsWord(e.v) ==> e.after == [])
  }

  predicate ItemsTaken(es: seq<Item>)
    decreases es
  {
    es == [] || (ItemTaken(es[0]) && ItemsTaken(es[1..]))
  }

  predicate FieldTaken(f: Field)
    decreases f
  {
    f.key != [] && ItemTaken(f.item)
  }

  predicate FieldsTaken(fs: seq<Field>)
    decreases fs
  {
    fs == [] || (FieldTaken(fs[0]) && FieldsTaken(fs[1..]))
  }

  // ---------------------------------------------------------------- leaves

  lemma BlankIs(w: Bytes, k: nat)
    requires Blank(w) && k < |w|
    ensures IsSpace(w[k])
  {}

  /** A byte that is no whitespace of the grammar is no space to the parser. */
  predicate Visible(s: Bytes, j: nat) { j <= |s| && (j < |s| ==> s[j] !in {0x20, 0x09, 0x0A, 0x0D}) }

  lemma {:induction false} SkipsBlank(s: Bytes, i: nat, w: Bytes)
    requires Blank(w) && Here(s, i, w) && Visible(s, i + |w|)
    ensures i <= |s| && SkipSpaces(s, i) == i + |w|
    decreases |w|
  {
    hide Here;
    if w == [] {
      VisibleStays(s, i);
    } else {
      var rest := w[1..];
      assert w == [w[0]] + rest;
      HereAt(s, i, w, 0);
      Split(s, i, [w[0]], rest);
      BlankIs(w, 0);
      SkipsBlank(s, i + 1, rest);
    }
  }

  lemma VisibleStays(s: Bytes, i: nat)
    requires Visible(s, i)
    ensures SkipSpaces(s, i) == i
  {}

  lemma NumeralIs(n: Numeral)
    requires NumeralOk(n)
    ensures IsNumber(NumeralText(n)) && NumeralText(n) != []
    ensures NumeralText(n)[0] == 0x2D || 0x30 <= NumeralText(n)[0] <= 0x39
  {
    hide IsExp, IsFrac, IsWhole;
    var minus: Bytes := if n.minus then [0x2D] else [];
    var frac: Bytes := if n.frac == [] then [] else [0x2E] + n.frac;
    var exp: Bytes := if n.mark.None? then [] else [n.mark.value] + n.sign + n.exp;
    WholeIs(n.whole);
    if n.frac != [] { FracIs(n.frac); }
    if n.mark.Some? { ExpIs(n.mark.value, n.sign, n.exp); }
    var parts := Parts(minus, n.whole, frac, exp);
    assert parts.Valid() && parts.Text() == NumeralText(n);
    assert NumeralText(n)[0] == if n.minus then 0x2D else n.whole[0];
  }

  lemma WholeIs(t: Bytes)
    requires Figures(t) && t != [] && (t[0] == 0x30 ==> |t| == 1)
    ensures IsWhole(t)
  {}

  lemma FracIs(t: Bytes)
    requires Figures(t) && t != []
    ensures IsFrac([0x2E] + t)
  {
    assert ([0x2E] + t)[1..] == t;
  }

  lemma ExpIs(mark: Byte, sign: Bytes, t: Bytes)
    requires mark in {0x45, 0x65} && sign in {[], [0x2B], [0x2D]} && Figures(t) && t != []
    ensures IsExp([mark] + sign + t)
  {
    var e := [mark] + sign + t;
    if sign == [] { assert e[1..] == t; } else { assert e[2..] == t && e[1] == sign[0]; }
  }

  lemma WordRead(s: Bytes, i: nat, d: Doc)
    requires IsWord(d) && Here(s, i, DocText(d))
    ensures i < |s| && ValueAt(s, i) == Parsed(NoError, i + |DocText(d)|, DocValue(d))
  {
    hide MatchEnd, NumberAt, Here;
    HereAt(s, i, DocText(d), 0);
    LiteralBack(s, i, DocText(d));
  }

  lemma NumeralRead(s: Bytes, i: nat, n: Numeral, after: Bytes)
    requires NumeralOk(n) && Blank(after) && Here(s, i, NumeralText(n) + after)
    requires Closes(s, i + |NumeralText(n)| + |after|)
    ensures i < |s| && ValueAt(s, i) == Parsed(NoError, i + |NumeralText(n)| + |after|, Number(NumeralText(n)))
  {
    hide UnsignedEnd, IsNumber, Here, NumeralText;
    var t := NumeralText(n);
    var e := i + |t|;
    NumeralIs(n);
    Split(s, i, t, after);
    HereAt(s, i, t, 0);
    if after != [] { HereAt(s, e, after, 0); BlankIs(after, 0); }
    InsideIs(s, i, t);
    var pre, post := s[..i], s[e..];
    Surrounded(s, i, t);
    assert e < |s| ==> post[0] == s[e];
    NumberIsRead(t, pre, post);
    SkipsBlank(s, e, after);
  }

  lemma InsideIs(s: Bytes, i: nat, t: Bytes)
    requires Here(s, i, t)
    ensures i + |t| <= |s| && s[i..i + |t|] == t
  {}

  /** A string with whitespace behind it, up to the next byte. */
  lemma SpellingBack(s: Bytes, i: nat, ps: seq<Piece>, after: Bytes)
    requires AllProper(ps) && Blank(after) && Here(s, i, SpellingText(ps) + after)
    requires Visible(s, i + |SpellingText(ps)| + |after|)
    ensures i < |s| && s[i] == 0x22
    ensures Unescape(s, i + 1, [], 0, 0) == Scan(true, StringBytes(ps), i + |SpellingText(ps)| + |after|)
  {
    hide Here, PiecesText, PiecesBytes, Unescape, SkipSpaces, Blank, Visible, AllProper, AllReadable, Ended;
    hide Splits;
    ProperWhole(ps, false);
    var rest := PiecesText(ps) + [0x22];
    Split(s, i, SpellingText(ps), after);
    Split(s, i, [0x22], rest);
    SpellingRead(s, i + 1, ps);
    SkipsBlank(s, i + |SpellingText(ps)|, after);
  }

  /** Where a value inside a text ends: at its end, or before a comma or a closing bracket. */
  predicate Closes(s: Bytes, e: nat) { e <= |s| && (e < |s| ==> s[e] in {0x2C, 0x5D, 0x7D}) }

  /** The first byte of a value. */
  lemma DocHead(d: Doc)
    requires DocOk(d)
    ensures DocText(d) != []
    ensures DocText(d)[0] !in {0x20, 0x09, 0x0A, 0x0D, 0x2C, 0x5D, 0x7D}
  {
    if d.NumberDoc? { hide NumeralText; NumeralIs(d.n); }
  }

  /** No value starts with whitespace. */
  lemma BlankRefused(s: Bytes, i: nat)
    requires i < |s| && s[i] in {0x20, 0x09, 0x0A, 0x0D}
    ensures ValueAt(s, i).code == EcLiteral
  {}

  // ---------------------------------------------------------------- accepted, and only then

  /** A value of the grammar, with the whitespace behind it, is read as what it stands for if it is taken, and refused
      if not. */
  lemma {:induction false} DocRead(s: Bytes, i: nat, d: Doc, after: Bytes)
    requires DocOk(d) && Blank(after) && Here(s, i, DocText(d) + after) && Closes(s, i + |DocText(d)| + |after|)
    ensures i < |s|
    ensures Taken(d) ==>
      ValueAt(s, i) == Parsed(NoError, i + |DocText(d)| + (if IsWord(d) then 0 else |after|), DocValue(d))
    ensures !Taken(d) ==> ValueAt(s, i).code != NoError
    decreases d, 1
  {
    hide Here, ItemsText, FieldsText, ElemsAt, MembersAt, ValueAt, Unescape, NumeralText, NumeralOk, AllProper;
    match d {
      case NumberDoc(n) => NumeralRead(s, i, n, after);
      case StringDoc(ps) =>
        SpellingBack(s, i, ps, after);
        StringStarts(s, i);
      case ArrayDoc(lead, items) =>
        var body := ItemsText(items) + [0x5D];
        ItemsHead(items);
        BracketRead(s, i, 0x5B, lead, body, after);
        Assoc(ItemsText(items), [0x5D], after);
        ItemsRead(s, i + 1 + |lead|, items, after, []);
        assert [] + ItemsValue(items) == ItemsValue(items);
      case ObjectDoc(lead, fields) =>
        var body := FieldsText(fields) + [0x7D];
        FieldsHead(fields);
        BracketRead(s, i, 0x7B, lead, body, after);
        FieldsRead(s, i + 1 + |lead|, fields, after, []);
      case _ =>
        Split(s, i, DocText(d), after);
        WordRead(s, i, d);
    }
  }

  /** An opening bracket, the whitespace behind it, and what stands inside. */
  lemma BracketRead(s: Bytes, i: nat, bracket: Byte, lead: Bytes, body: Bytes, after: Bytes)
    requires Here(s, i, [bracket] + lead + body + after) && Blank(lead)
    requires body != [] && body[0] !in {0x20, 0x09, 0x0A, 0x0D}
    ensures i < |s| && s[i] == bracket && SkipSpaces(s, i + 1) == i + 1 + |lead|
    ensures Here(s, i + 1 + |lead|, body + after)
    ensures bracket == 0x5B ==> ValueAt(s, i) == ElemsAt(s, i + 1 + |lead|, [])
    ensures bracket == 0x7B ==> ValueAt(s, i) == MembersAt(s, i + 1 + |lead|, [])
  {
    hide Here, ValueAt, ElemsAt, MembersAt, SkipSpaces, Blank;
    var inside := body + after;
    BracketText([bracket], lead, body, after);
    assert inside[0] == body[0];
    Split(s, i, [bracket], lead + inside);
    Split(s, i + 1, lead, inside);
    HereAt(s, i + 1 + |lead|, inside, 0);
    SkipsBlank(s, i + 1, lead);
    BracketIs(s, i);
  }

  lemma BracketText(a: Bytes, b: Bytes, c: Bytes, d: Bytes)
    ensures a + b + c + d == a + (b + (c + d))
  {
    Assoc(a + b, c, d);
    Assoc(a, b, c + d);
  }

  lemma BracketIs(s: Bytes, i: nat)
    requires i < |s|
    ensures s[i] == 0x5B ==> ValueAt(s, i) == ElemsAt(s, SkipSpaces(s, i + 1), [])
    ensures s[i] == 0x7B ==> ValueAt(s, i) == MembersAt(s, SkipSpaces(s, i + 1), [])
  {
    hide ElemsAt, MembersAt, SkipSpaces, StringAt, LiteralAt, NumberAt;
  }

  lemma StringStarts(s: Bytes, i: nat)
    requires i < |s| && s[i] == 0x22
    ensures ValueAt(s, i) == StringAt(s, i)
  {}

  lemma ItemsHead(es: seq<Item>)
    requires ItemsOk(es)
    ensures (ItemsText(es) + [0x5D])[0] !in {0x20, 0x09, 0x0A, 0x0D}
  {
    hide DocText;
    if es != [] { DocHead(es[0].v); }
  }

  lemma FieldsHead(fs: seq<Field>)
    ensures (FieldsText(fs) + [0x7D])[0] in {0x22, 0x7D}
  {}

  /** Where the first text of a list ends and the rest begins: behind a comma and whitespace, or at once. */
  lemma FirstOf(s: Bytes, i: nat, t: Bytes, last: bool, w: Bytes, rest: Bytes) returns (next: nat)
    requires rest != [] && Here(s, i, if last then t + rest else t + ([0x2C] + w + rest))
    requires rest[0] !in {0x20, 0x09, 0x0A, 0x0D}
    ensures Here(s, i, t) && Here(s, next, rest)
    ensures var p := i + |t|; p < |s| && (if last then s[p] == rest[0] && next == p
      else s[p] == 0x2C && Here(s, p + 1, w) && next == p + 1 + |w| && Visible(s, next))
  {
    hide Here;
    var p := i + |t|;
    if last {
      Split(s, i, t, rest);
      next := p;
    } else {
      Split(s, i, t, [0x2C] + w + rest);
      Split(s, p, [0x2C] + w, rest);
      Split(s, p, [0x2C], w);
      next := p + 1 + |w|;
    }
    HereAt(s, next, rest, 0);
  }

  lemma ListText(t: Bytes, sep: Bytes, list: Bytes, close: Bytes, after: Bytes)
    ensures t + (sep + list) + close + after == t + (sep + (list + close + after))
  {
    Assoc(t, sep + list, close);
    Assoc(t, sep + list + close, after);
    Assoc(sep, list, close);
    Assoc(sep, list + close, after);
  }

  lemma ItemsSplit(s: Bytes, i: nat, es: seq<Item>, after: Bytes) returns (next: nat)
    requires es != [] && ItemsOk(es) && Here(s, i, ItemsText(es) + [0x5D] + after)
    ensures Here(s, i, ItemText(es[0])) && Here(s, next, ItemsText(es[1..]) + [0x5D] + after)
    ensures var p := i + |ItemText(es[0])|; p < |s| && (if |es| == 1 then s[p] == 0x5D && next == p
      else s[p] == 0x2C && Here(s, p + 1, es[0].next) && next == p + 1 + |es[0].next| && Visible(s, next))
    ensures next + |ItemsText(es[1..])| == i + |ItemsText(es)|
  {
    hide Here, ItemText, Visible;
    var t, rest := ItemText(es[0]), ItemsText(es[1..]);
    ItemsHead(es[1..]);
    assert (rest + [0x5D] + after)[0] == (rest + [0x5D])[0];
    if |es| == 1 {
      assert es[1..] == [];
      ListText(t, [], rest, [0x5D], after);
    } else {
      ListText(t, [0x2C] + es[0].next, rest, [0x5D], after);
    }
    assert [] + (rest + [0x5D] + after) == rest + [0x5D] + after;
    next := FirstOf(s, i, t, |es| == 1, es[0].next, rest + [0x5D] + after);
  }

  lemma {:induction false} ItemsRead(s: Bytes, i: nat, es: seq<Item>, after: Bytes, acc: seq<Json>)
    requires ItemsOk(es) && Blank(after) && Here(s, i, ItemsText(es) + [0x5D] + after)
    requires Closes(s, i + |ItemsText(es)| + 1 + |after|)
    ensures i <= |s|
    ensures ItemsTaken(es) ==>
      ElemsAt(s, i, acc) == Parsed(NoError, i + |ItemsText(es)| + 1 + |after|, Array(acc + ItemsValue(es)))
    ensures !ItemsTaken(es) ==> ElemsAt(s, i, acc).code != NoError
    decreases es, 0
  {
    hide Here, DocText, ValueAt, ElemsAt, ItemOk, Taken, DocValue, SkipSpaces;
    if es == [] {
      assert [] + [0x5D] + after == [0x5D] + after;
      Split(s, i, [0x5D], after);
      SkipsBlank(s, i + 1, after);
      ElemsEnd(s, i, acc);
      assert acc + [] == acc;
    } else {
      var next := ItemsSplit(s, i, es, after);
      ItemRead(s, i, es[0], acc);
      var p := i + |ItemText(es[0])|;
      if ItemTaken(es[0]) {
        ItemBlank(es[0]);
        NextStarts(s, p, es[0].next, next, |es| == 1);
        ItemsRead(s, next, es[1..], after, acc + [DocValue(es[0].v)]);
        Assoc(acc, [DocValue(es[0].v)], ItemsValue(es[1..]));
      }
    }
  }

  lemma ItemBlank(e: Item)
    requires ItemOk(e)
    ensures Blank(e.next)
  {}

  /** Behind the comma, if there is one, the whitespace is skipped. */
  lemma NextStarts(s: Bytes, p: nat, w: Bytes, next: nat, last: bool)
    requires p < |s| && Blank(w)
    requires if last then s[p] != 0x2C && next == p
      else s[p] == 0x2C && Here(s, p + 1, w) && next == p + 1 + |w| && Visible(s, next)
    ensures AfterComma(s, p) == next
  {
    if !last { SkipsBlank(s, p + 1, w); }
  }

  /** One element: then the loop goes on, or stops with an error. */
  lemma ItemRead(s: Bytes, i: nat, e: Item, acc: seq<Json>)
    requires ItemOk(e) && Here(s, i, ItemText(e)) && i + |ItemText(e)| < |s| && s[i + |ItemText(e)|] in {0x2C, 0x5D}
    ensures ItemTaken(e) ==>
      ElemsAt(s, i, acc) == ElemsAt(s, AfterComma(s, i + |ItemText(e)|), acc + [DocValue(e.v)])
    ensures !ItemTaken(e) ==> ElemsAt(s, i, acc).code != NoError
    decreases e, 2
  {
    hide Here, DocText, ValueAt, ElemsAt, DocOk, Taken, DocValue, SkipSpaces;
    var t := DocText(e.v);
    DocHead(e.v);
    Split(s, i, t, e.after);
    HereAt(s, i, t, 0);
    DocRead(s, i, e.v, e.after);
    if !Taken(e.v) {
      ElemsFail(s, i, acc);
    } else {
      ElemsStep(s, i, acc, ValueAt(s, i));
      if IsWord(e.v) && e.after != [] {
        HereAt(s, i + |t|, e.after, 0);
        BlankRefused(s, i + |t|);
        ElemsFail(s, i + |t|, acc + [DocValue(e.v)]);
      }
    }
  }

  lemma ElemsFail(s: Bytes, i: nat, acc: seq<Json>)
    requires i < |s| && s[i] != 0x5D && ValueAt(s, i).code != NoError
    ensures ElemsAt(s, i, acc).code != NoError
  {
    hide ValueAt;
  }

  lemma FieldsSplit(s: Bytes, i: nat, fs: seq<Field>, after: Bytes) returns (next: nat)
    requires fs != [] && Here(s, i, FieldsText(fs) + [0x7D] + after)
    ensures Here(s, i, FieldText(fs[0])) && Here(s, next, FieldsText(fs[1..]) + [0x7D] + after)
    ensures var p := i + |FieldText(fs[0])|; p < |s| && (if |fs| == 1 then s[p] == 0x7D && next == p
      else s[p] == 0x2C && Here(s, p + 1, fs[0].item.next) && next == p + 1 + |fs[0].item.next| && Visible(s, next))
    ensures next + |FieldsText(fs[1..])| == i + |FieldsText(fs)|
  {
    hide Here, FieldText, Visible;
    var t, rest := FieldText(fs[0]), FieldsText(fs[1..]);
    FieldsHead(fs[1..]);
    assert (rest + [0x7D] + after)[0] == (rest + [0x7D])[0];
    if |fs| == 1 {
      assert fs[1..] == [];
      ListText(t, [], rest, [0x7D], after);
    } else {
      ListText(t, [0x2C] + fs[0].item.next, rest, [0x7D], after);
    }
    assert [] + (rest + [0x7D] + after) == rest + [0x7D] + after;
    next := FirstOf(s, i, t, |fs| == 1, fs[0].item.next, rest + [0x7D] + after);
  }

  lemma {:induction false} FieldsRead(s: Bytes, i: nat, fs: seq<Field>, after: Bytes, acc: Members)
    requires FieldsOk(fs) && Blank(after) && Here(s, i, FieldsText(fs) + [0x7D] + after)
    requires Closes(s, i + |FieldsText(fs)| + 1 + |after|)
    ensures i <= |s|
    ensures FieldsTaken(fs) ==>
      MembersAt(s, i, acc) == Parsed(NoError, i + |FieldsText(fs)| + 1 + |after|, Object(FieldsValue(fs, acc)))
    ensures !FieldsTaken(fs) ==> MembersAt(s, i, acc).code != NoError
    decreases fs, 0
  {
    hide Here, FieldText, ValueAt, MembersAt, FieldOk, FieldTaken, DocValue, SkipSpaces, StringBytes, Put;
    if fs == [] {
      assert [] + [0x7D] + after == [0x7D] + after;
      Split(s, i, [0x7D], after);
      SkipsBlank(s, i + 1, after);
      MembersEnd(s, i, acc);
    } else {
      var next := FieldsSplit(s, i, fs, after);
      FieldRead(s, i, fs[0], acc);
      var p := i + |FieldText(fs[0])|;
      FieldBlank(fs[0]);
      if FieldTaken(fs[0]) {
        NextStarts(s, p, fs[0].item.next, next, |fs| == 1);
        FieldsRead(s, next, fs[1..], after, Put(acc, StringBytes(fs[0].key), DocValue(fs[0].item.v)));
      }
    }
  }

  lemma FieldBlank(f: Field)
    requires FieldOk(f)
    ensures Blank(f.item.next)
  {}

  /** The name of a member, up to its value. */
  lemma NameRead(s: Bytes, i: nat, f: Field) returns (j: nat)
    requires FieldOk(f) && Here(s, i, FieldText(f))
    ensures i < |s| && s[i] == 0x22 && Here(s, j, ItemText(f.item))
    ensures j + |ItemText(f.item)| == i + |FieldText(f)| <= |s|
    ensures var k := Unescape(s, i + 1, [], 0, 0);
      && k.text == StringBytes(f.key) && k.pos < |s| && s[k.pos] == 0x3A && SkipSpaces(s, k.pos + 1) == j
  {
    hide Here, DocText, SkipSpaces, SpellingText, StringBytes, Unescape, DocOk;
    var e := f.item;
    var k := SpellingText(f.key) + f.before;
    var c := i + |k|;
    j := c + 1 + |f.behind|;
    Split(s, i, k, [0x3A] + f.behind + ItemText(e));
    Split(s, c, [0x3A] + f.behind, ItemText(e));
    Split(s, c, [0x3A], f.behind);
    SpellingBack(s, i, f.key, f.before);
    DocHead(e.v);
    HereAt(s, j, ItemText(e), 0);
    SkipsBlank(s, c + 1, f.behind);
    InsideIs(s, j, ItemText(e));
  }

  /** One member: then the loop goes on, or stops with an error. */
  lemma FieldRead(s: Bytes, i: nat, f: Field, acc: Members)
    requires FieldOk(f) && Here(s, i, FieldText(f)) && i + |FieldText(f)| < |s| && s[i + |FieldText(f)|] in {0x2C, 0x7D}
    ensures FieldTaken(f) ==>
      MembersAt(s, i, acc)
      == MembersAt(s, AfterComma(s, i + |FieldText(f)|), Put(acc, StringBytes(f.key), DocValue(f.item.v)))
    ensures !FieldTaken(f) ==> MembersAt(s, i, acc).code != NoError
    decreases f, 2
  {
    hide Here, DocText, FieldText, ValueAt, MembersAt, DocOk, Taken, DocValue, SkipSpaces, Put, StringBytes, Unescape;
    hide AfterComma;
    var e := f.item;
    var t := DocText(e.v);
    var j := NameRead(s, i, f);
    KeyBytes(f.key);
    assert ItemTaken(e) <==> Taken(e.v) && (IsWord(e.v) ==> e.after == []);
    if f.key == [] {
      MembersNoName(s, i, acc);
    } else {
      Split(s, j, t, e.after);
      DocRead(s, j, e.v, e.after);
      if !Taken(e.v) {
        MembersFail(s, i, acc, Unescape(s, i + 1, [], 0, 0));
      } else {
        var k, r := Unescape(s, i + 1, [], 0, 0), ValueAt(s, j);
        MembersStep(s, i, acc, k, r);
        if IsWord(e.v) && e.after != [] {
          BlankIs(e.after, 0);
          HereAt(s, j + |t|, e.after, 0);
          MembersStray(s, j + |t|, Put(acc, StringBytes(f.key), DocValue(e.v)));
        }
      }
    }
  }

  lemma KeyBytes(ps: seq<Piece>)
    requires AllProper(ps)
    ensures StringBytes(ps) == [] <==> ps == []
  {
    ProperWhole(ps, false);
  }

  lemma MembersNoName(s: Bytes, i: nat, acc: Members)
    requires i < |s| && s[i] == 0x22 && Unescape(s, i + 1, [], 0, 0).text == []
    ensures MembersAt(s, i, acc).code == EcObjectName
  {
    hide Unescape, ValueAt;
  }

  lemma MembersFail(s: Bytes, i: nat, acc: Members, k: Scan)
    requires i < |s| && s[i] == 0x22 && k == Unescape(s, i + 1, [], 0, 0) && k.text != []
    requires k.pos < |s| && s[k.pos] == 0x3A && ValueAt(s, SkipSpaces(s, k.pos + 1)).code != NoError
    ensures MembersAt(s, i, acc).code != NoError
  {
    hide Unescape, ValueAt, SkipSpaces, Put;
  }

  /** Whitespace left over behind a word: the loop finds no name there. */
  lemma MembersStray(s: Bytes, p: nat, ms: Members)
    requires p < |s| && s[p] in {0x20, 0x09, 0x0A, 0x0D}
    ensures AfterComma(s, p) == p && MembersAt(s, p, ms).code == EcObject
  {}

  /** Which texts of RFC 8259 are accepted: all but those with an empty name, or with whitespace directly behind null,
      true or false inside brackets. What is read is what the text stands for. */
  lemma GrammarAccepted(before: Bytes, d: Doc, after: Bytes)
    requires Blank(before) && DocOk(d) && Blank(after)
    ensures var r := ParseText(before + DocText(d) + after);
      (r.code == NoError <==> Taken(d)) && (Taken(d) ==> r.value == DocValue(d))
  {
    hide DocText, ValueAt, Taken, DocOk, SkipSpaces, DocValue;
    var t := DocText(d) + after;
    var s := before + DocText(d) + after;
    assert s == before + t;
    DocHead(d);
    assert Here(s, 0, before) && Here(s, |before|, t);
    assert s[|before|] == DocText(d)[0];
    SkipsBlank(s, 0, before);
    DocRead(s, |before|, d, after);
  }

  /** More than the grammar is taken: a comma may be missing, or stand behind the last element. */
  lemma MissingComma(s: Bytes)
    requires s == [0x5B, 0x5B, 0x5D, 0x5B, 0x5D, 0x5D]
    ensures ParseText(s) == Parsed(NoError, 6, Array([Array([]), Array([])]))
  {
    hide ValueAt, ElemsAt, SkipSpaces, ParseText;
    NoneSkipped(s, 1);
    EmptyInside(s, 1, []);
    assert [] + [Array([])] == [Array([])];
    EmptyInside(s, 3, [Array([])]);
    assert [Array([])] + [Array([])] == [Array([]), Array([])];
    ElemsEnd(s, 5, [Array([]), Array([])]);
    VisibleStays(s, 6);
  }

  lemma TrailingComma(s: Bytes)
    requires s == [0x5B, 0x5B, 0x5D, 0x2C, 0x5D]
    ensures ParseText(s) == Parsed(NoError, 5, Array([Array([])]))
  {
    hide ValueAt, ElemsAt, SkipSpaces, ParseText;
    NoneSkipped(s, 1);
    EmptyInside(s, 1, []);
    assert [] + [Array([])] == [Array([])];
    VisibleStays(s, 4);
    ElemsEnd(s, 4, [Array([])]);
    VisibleStays(s, 5);
  }

  lemma NoneSkipped(s: Bytes, i: nat)
    requires i < |s| && s[0] == s[i] == 0x5B
    ensures ParseText(s) == ValueAt(s, 0) && (i == 1 ==> ValueAt(s, 0) == ElemsAt(s, 1, []))
  {
    hide ElemsAt;
  }

  lemma EmptyInside(s: Bytes, i: nat, acc: seq<Json>)
    requires i + 2 < |s| && s[i] == 0x5B && s[i + 1] == 0x5D && Visible(s, i + 2)
    ensures ElemsAt(s, i, acc) == ElemsAt(s, AfterComma(s, i + 2), acc + [Array([])])
  {
    hide ValueAt, ElemsAt, AfterComma;
    EmptyArray(s, i);
    ElemsStep(s, i, acc, ValueAt(s, i));
  }

  lemma EmptyArray(s: Bytes, i: nat)
    requires i + 1 < |s| && s[i] == 0x5B && s[i + 1] == 0x5D && Visible(s, i + 2)
    ensures ValueAt(s, i) == Parsed(NoError, i + 2, Array([]))
  {}

  // ---------------------------------------------------------------- what is printed

  /** No whitespace outside strings, and strings spelled byte by byte in one way. */
  predicate Compact(d: Doc)
    decreases d
  {
    match d
    case StringDoc(ps) => Plainest(ps)
    case ArrayDoc(lead, items) => lead == [] && ItemsCompact(items)
    case ObjectDoc(lead, fields) => lead == [] && FieldsCompact(fields)
    case _ => true
  }

  predicate ItemsCompact(es: seq<Item>)
    decreases es
  {
    forall k :: 0 <= k < |es| ==> es[k].after == [] && es[k].next == [] && Compact(es[k].v)
  }

  predicate FieldsCompact(fs: seq<Field>)
    decreases fs
  {
    forall k :: 0 <= k < |fs| ==>
      && Plainest(fs[k].key) && fs[k].before == [] && fs[k].behind == []
      && fs[k].item.after == [] && fs[k].item.next == [] && Compact(fs[k].item.v)
  }

  /** Control bytes by number, quotation mark and reverse solidus behind a reverse solidus, all else as it is. */
  predicate Plainest(ps: seq<Piece>) {
    forall i :: 0 <= i < |ps| ==> match ps[i]
      case Raw(b) => b >= 0x20 && b != 0x22 && b != 0x5C
      case Short(b) => b == 0x22 || b == 0x5C
      case Code(h) => Hex4(h) && Point4(h) < 0x20
      case _ => false
  }

  /** A byte of a string as the printer spells it. */
  function PieceOf(b: Byte): Piece {
    if b < 0x20 then Code([0x30, 0x30, 0x30 + b / 16, if b % 16 < 10 then 0x30 + b % 16 else 0x41 + b % 16 - 10])
    else if b == 0x22 || b == 0x5C then Short(b)
    else Raw(b)
  }

  function PiecesOf(t: Bytes): (ps: seq<Piece>)
    ensures |ps| == |t| && forall i :: 0 <= i < |t| ==> ps[i] == PieceOf(t[i])
  {
    seq(|t|, i requires 0 <= i < |t| => PieceOf(t[i]))
  }

  lemma PieceOfIs(b: Byte)
    ensures Proper(PieceOf(b)) && PieceBytes(PieceOf(b)) == [b] && PieceText(PieceOf(b)) == EscapeByte(b)
    ensures Plainest([PieceOf(b)])
  {
    EscapeByteIs(b);
  }

  lemma {:induction false} PiecesOfIs(t: Bytes)
    ensures AllProper(PiecesOf(t)) && PiecesText(PiecesOf(t)) == Escape(t) && StringBytes(PiecesOf(t)) == t
    ensures Plainest(PiecesOf(t))
  {
    hide PieceOf, PieceText, PieceBytes, EscapeByte, Proper, Hex4, Point4;
    forall i | 0 <= i < |t| ensures Proper(PiecesOf(t)[i]) && Plainest([PiecesOf(t)[i]]) { PieceOfIs(t[i]); }
    PlainestAll(PiecesOf(t));
    ProperWhole(PiecesOf(t), false);
    if t != [] {
      PieceOfIs(t[0]);
      PiecesOfIs(t[1..]);
      ProperWhole(PiecesOf(t[1..]), false);
      assert PiecesOf(t)[1..] == PiecesOf(t[1..]);
      assert t == [t[0]] + t[1..];
    }
  }

  lemma PlainestAll(ps: seq<Piece>)
    requires forall i :: 0 <= i < |ps| ==> Plainest([ps[i]])
    ensures Plainest(ps)
  {
    hide Hex4, Point4;
    forall i | 0 <= i < |ps| ensures Plainest([ps[i]]) && [ps[i]][0] == ps[i] {}
  }

  lemma UnitOfIs(b: Byte)
    requires b < 0x80
    ensures UnitReadable(PieceOf(b)) && PieceUnits(PieceOf(b)) == [b] && PieceText(PieceOf(b)) == UnitText(b)
  {
    PieceOfIs(b);
  }

  /** A string kept as units is printed in pieces of that form, and in octets of the table from 0x80 on. */
  lemma {:induction false} UnitsSpelled(t: Units) returns (ps: seq<Piece>)
    ensures AllUnitReadable(ps) && Ended(ps) && PiecesText(ps) == UnitsText(t) && PiecesUnits(ps) == t
    ensures forall i :: 0 <= i < |ps| ==> ps[i].Wide? || Plainest([ps[i]])
    decreases |t|
  {
    hide Plainest, UnitText, UnitReadable, PieceText, PieceUnits, AllUnitReadable, Ended, PiecesText;
    hide PiecesUnits, UnitsText;
    if t == [] {
      ps := [];
      NoneSpelled();
    } else {
      var n := if |t| >= 2 && IsHigh(t[0]) && IsLow(t[1]) then 2 else 1;
      var p := UnitsPiece(t, n);
      var rest := UnitsSpelled(t[n..]);
      SpelledMore(p, rest);
      ps := [p] + rest;
      assert t == t[..n] + t[n..];
    }
  }

  lemma NoneSpelled()
    ensures AllUnitReadable([]) && Ended([]) && PiecesText([]) == UnitsText([]) && PiecesUnits([]) == []
  {}

  lemma UnitsPiece(t: Units, n: nat) returns (p: Piece)
    requires t != [] && n == if |t| >= 2 && IsHigh(t[0]) && IsLow(t[1]) then 2 else 1
    ensures UnitReadable(p) && !p.Stub? && n <= |t| && PieceUnits(p) == t[..n] && (p.Wide? || Plainest([p]))
    ensures UnitsText(t) == PieceText(p) + UnitsText(t[n..])
  {
    hide PieceOf, Plainest, UnitText, UnitsText, IsHigh, IsLow;
    UnitsFirst(t, n);
    if t[0] < 0x80 {
      p := PieceOf(t[0]);
      PieceOfIs(t[0]);
      UnitOfIs(t[0]);
      NoHigh(t[0]);
      assert t[..1] == [t[0]];
    } else {
      p := Wide(t[..n]);
    }
  }

  lemma NoHigh(u: Unit)
    requires u < 0x80
    ensures !IsHigh(u)
  {}

  lemma SpelledMore(p: Piece, rest: seq<Piece>)
    requires UnitReadable(p) && !p.Stub? && AllUnitReadable(rest) && Ended(rest)
    ensures AllUnitReadable([p] + rest) && Ended([p] + rest)
    ensures PiecesText([p] + rest) == PieceText(p) + PiecesText(rest)
    ensures PiecesUnits([p] + rest) == PieceUnits(p) + PiecesUnits(rest)
  {
    hide PieceText, PieceUnits, UnitReadable, HexCode;
    var ps := [p] + rest;
    assert ps[0] == p && ps[1..] == rest;
  }

  lemma UnitsFirst(t: Units, n: nat)
    requires t != [] && n == if |t| >= 2 && IsHigh(t[0]) && IsLow(t[1]) then 2 else 1
    ensures n <= |t| && UnitsText(t) == (if t[0] < 0x80 then UnitText(t[0]) else UnitsText(t[..n])) + UnitsText(t[n..])
    ensures t[0] >= 0x80 ==> Compound(t[..n])
  {
    if t[0] >= 0x80 { CompoundText(t[..n]); }
  }

  lemma NumeralOf(t: Bytes) returns (n: Numeral)
    requires IsNumber(t)
    ensures NumeralOk(n) && NumeralText(n) == t
  {
    var p: Parts :| p.Valid() && p.Text() == t;
    var frac: Bytes := if p.frac == [] then [] else p.frac[1..];
    assert p.frac != [] ==> p.frac == [0x2E] + frac;
    var mark, sign, exp := ExpOf(p.exp);
    n := Numeral(p.minus != [], p.whole, frac, mark, sign, exp);
    assert p.minus == if n.minus then [0x2D] else [];
  }

  lemma ExpOf(t: Bytes) returns (mark: Option<Byte>, sign: Bytes, exp: Bytes)
    requires t == [] || IsExp(t)
    ensures mark.None? <==> t == []
    ensures mark.Some? ==> mark.value in {0x45, 0x65} && sign in {[], [0x2B], [0x2D]} && Figures(exp) && exp != []
    ensures mark.Some? ==> t == [mark.value] + sign + exp
  {
    mark, sign, exp := None, [], [];
    if t != [] {
      mark := Some(t[0]);
      if AllDigits(t[1..]) {
        exp := t[1..];
      } else {
        sign, exp := [t[1]], t[2..];
      }
    }
  }

  /** Every printed text belongs to the grammar, in its compact form, is taken, and stands for the value. */
  lemma {:induction false} PrintedIsJson(v: Json) returns (d: Doc)
    requires Printable(v)
    ensures DocOk(d) && Taken(d) && Compact(d) && DocText(d) == Text(v) && DocValue(d) == v
    decreases v, 1
  {
    hide ItemsText, FieldsText, ElemsText, MembersText, PiecesText, Escape, NumeralText, NumeralOk, StringBytes;
    hide AllProper, Plainest;
    match v {
      case Null => d := NullDoc;
      case Bool(b) => d := if b then TrueDoc else FalseDoc;
      case Number(t) =>
        var n := NumeralOf(t);
        d := NumberDoc(n);
      case Str(t) =>
        PiecesOfIs(t);
        d := StringDoc(PiecesOf(t));
        Assoc([0x22], Escape(t), [0x22]);
      case Array(elems) =>
        var items := PrintedItems(elems);
        d := ArrayDoc([], items);
        assert [0x5B] + [] + (ItemsText(items) + [0x5D]) == [0x5B] + ItemsText(items) + [0x5D];
      case Object(members) =>
        assert [] + members == members;
        var fields := PrintedFields(members, []);
        d := ObjectDoc([], fields);
        assert [0x7B] + [] + (FieldsText(fields) + [0x7D]) == [0x7B] + FieldsText(fields) + [0x7D];
    }
  }

  lemma {:induction false} PrintedItems(vs: seq<Json>) returns (es: seq<Item>)
    requires AllPrintable(vs)
    ensures |es| == |vs| && ItemsOk(es) && ItemsTaken(es) && ItemsCompact(es)
    ensures ItemsText(es) == ElemsText(vs) && ItemsValue(es) == vs
    decreases vs, 0
  {
    hide DocText, Text, DocOk, Taken, DocValue, Printable, Compact;
    es := [];
    if vs != [] {
      var d := PrintedIsJson(vs[0]);
      var rest := PrintedItems(vs[1..]);
      var e := Item(d, [], []);
      es := [e] + rest;
      assert es[1..] == rest && DocText(d) + [] == DocText(d);
      assert [0x2C] + [] + ItemsText(rest) == [0x2C] + ItemsText(rest);
    }
  }

  lemma {:induction false} PrintedFields(ms: Members, acc: Members) returns (fs: seq<Field>)
    requires AllMembers(ms) && DistinctKeys(acc + ms)
    ensures |fs| == |ms| && FieldsOk(fs) && FieldsTaken(fs) && FieldsCompact(fs) && FieldsText(fs) == MembersText(ms)
    ensures FieldsValue(fs, acc) == acc + ms
    decreases ms, 0
  {
    hide FieldText, MemberText, FieldOk, FieldTaken, DocValue, Printable, DistinctKeys, Put, StringBytes;
    hide Compact, Plainest;
    fs := [];
    if ms != [] {
      var f := PrintedField(ms[0]);
      PutNext(acc, ms);
      var rest := PrintedFields(ms[1..], acc + [ms[0]]);
      fs := [f] + rest;
      assert fs[1..] == rest;
      assert [0x2C] + [] + FieldsText(rest) == [0x2C] + FieldsText(rest);
    } else {
      assert acc + [] == acc;
    }
  }

  lemma PrintedField(m: (Key, Json)) returns (f: Field)
    requires PrintableMember(m)
    ensures FieldOk(f) && FieldTaken(f) && FieldsCompact([f]) && FieldText(f) == MemberText(m) && f.item.next == []
    ensures StringBytes(f.key) == m.0 && DocValue(f.item.v) == m.1
    decreases m, 2
  {
    hide DocText, Text, DocOk, Taken, DocValue, Printable, PiecesText, Escape, StringBytes, AllProper;
    hide Compact, Plainest;
    var d := PrintedIsJson(m.1);
    PiecesOfIs(m.0);
    f := Field(PiecesOf(m.0), [], [], Item(d, [], []));
    assert SpellingText(f.key) == Quoted(m.0) by { Assoc([0x22], Escape(m.0), [0x22]); }
    assert SpellingText(f.key) + [] + ([0x3A] + [] + (DocText(d) + [])) == Quoted(m.0) + [0x3A] + Text(m.1);
  }
}
