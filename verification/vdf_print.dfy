/** stringify_object of vdf_text.cpp, and reading its text again. */
module VdfPrint {
  import opened Basics
  import opened Keys
  import opened VdfText
  import opened VdfTokens
  import DecimalText
  import DecimalValue

  // ---------------------------------------------------------------- arrangements

  /** A tree with the members of every object in some order, as a loop over a hash map meets them. */
  datatype Entry = Entry(key: Text, item: Item)
  datatype Item = Leaf(text: Text) | Sub(entries: seq<Entry>)

  function Pad(indent: nat): (p: Text)
    ensures |p| == indent
  {
    seq(indent, i => 0x09)
  }

  /** What is printed for members in a given order. */
  function EntriesText(es: seq<Entry>, indent: nat): Text
    decreases es
  {
    if es == [] then [] else EntryText(es[0], indent) + EntriesText(es[1..], indent)
  }

  function EntryText(e: Entry, indent: nat): Text
    decreases e
  {
    match e.item
    case Leaf(text) => Pad(indent) + [0x22] + e.key + [0x22, 0x20, 0x22] + text + [0x22, 0x0A]
    case Sub(entries) =>
      Pad(indent) + [0x22] + e.key + [0x22, 0x0A] + Pad(indent) + [0x7B, 0x0A]
      + EntriesText(entries, indent + 1) + Pad(indent) + [0x7D, 0x0A]
  }

  /** The object the entries stand for; of equal keys the last counts. */
  function Meaning(es: seq<Entry>, m: map<Text, Value>): map<Text, Value>
    decreases es
  {
    if es == [] then m else Meaning(es[1..], m[es[0].key := ItemValue(es[0].item)])
  }

  function ItemValue(item: Item): Value
    decreases item
  {
    match item
    case Leaf(text) => Str(text)
    case Sub(entries) => Obj(Meaning(entries, map[]))
  }

  /** std::to_string of an integer. */
  function IntText(i: int): Text {
    DecimalText.FixedText(i < 0, if i < 0 then -i else i, 0)
  }

  /** std::to_string of a float: six digits after the point. */
  function FloatText(v: Value): Text
    requires v.Float? || v.NonFinite?
  {
    if v.Float? then DecimalText.FixedText(v.negative, v.millionths, 6)
    else (if v.negative then [0x2D] else []) + (if v.nan then [0x6E, 0x61, 0x6E] else [0x69, 0x6E, 0x66])
  }

  /** The text of an integer stands for it. */
  lemma IntTextValue(i: int)
    ensures DecimalValue.TextValue(IntText(i)) == i as real
    ensures IntText(i) != [] && (IntText(i)[0] == 0x2D <==> i < 0)
  {
    hide DecimalText.FixedText, DecimalValue.TextValue;
    DecimalText.FixedValue(i < 0, if i < 0 then -i else i, 0);
    DecimalValue.NoShift();
  }

  /** The text of a finite float stands for its millionths. */
  lemma FloatTextValue(v: Value)
    requires v.Float?
    ensures DecimalValue.TextValue(FloatText(v))
      == (if v.negative then -1.0 else 1.0) * (v.millionths as real / 1000000.0)
    ensures FloatText(v) != [] && (FloatText(v)[0] == 0x2D <==> v.negative)
  {
    hide DecimalText.FixedText, DecimalValue.TextValue;
    DecimalText.FixedValue(v.negative, v.millionths, 6);
    DecimalValue.SixShift();
  }

  /** The tree with numbers replaced by their decimal text. */
  function Flat(v: Value): Value
    decreases v
  {
    match v
    case Str(s) => v
    case Int(i) => Str(IntText(i))
    case Float(_, _) => Str(FloatText(v))
    case NonFinite(_, _) => Str(FloatText(v))
    case Obj(m) => Obj(map k | k in m :: Flat(m[k]))
  }

  /** No quote and no backslash. */
  predicate Plain(t: Text) { 0x22 !in t && 0x5C !in t }

  predicate PlainTree(v: Value)
    decreases v
  {
    match v
    case Str(s) => Plain(s)
    case Int(_) => true
    case Float(_, _) => true
    case NonFinite(_, _) => true
    case Obj(m) => forall k :: k in m ==> Plain(k) && PlainTree(m[k])
  }

  predicate PlainEntries(es: seq<Entry>)
    decreases es
  {
    es == [] || (PlainEntry(es[0]) && PlainEntries(es[1..]))
  }

  predicate PlainEntry(e: Entry)
    decreases e
  {
    Plain(e.key) && match e.item case Leaf(text) => Plain(text) case Sub(entries) => PlainEntries(entries)
  }

  /** Different keys in every object. */
  predicate Distinct(es: seq<Entry>)
    decreases es
  {
    es == [] || (NoKey(es[1..], es[0].key) && DistinctEntry(es[0]) && Distinct(es[1..]))
  }

  predicate DistinctEntry(e: Entry)
    decreases e
  {
    e.item.Sub? ==> Distinct(e.item.entries)
  }

  predicate NoKey(es: seq<Entry>, k: Text) { forall i :: 0 <= i < |es| ==> es[i].key != k }

  // ---------------------------------------------------------------- the printer

  lemma {:induction false} EntriesAppend(es: seq<Entry>, e: Entry, indent: nat, m: map<Text, Value>)
    ensures EntriesText(es + [e], indent) == EntriesText(es, indent) + EntryText(e, indent)
    ensures Meaning(es + [e], m) == Meaning(es, m)[e.key := ItemValue(e.item)]
    ensures PlainEntries(es + [e]) <==> PlainEntries(es) && PlainEntry(e)
    ensures Distinct(es) && NoKey(es, e.key) && DistinctEntry(e) ==> Distinct(es + [e])
    decreases |es|
  {
    hide EntryText, ItemValue, PlainEntry, DistinctEntry;
    if es == [] {
      assert es + [e] == [e] && [e][1..] == [];
    } else {
      assert (es + [e])[1..] == es[1..] + [e];
      EntriesAppend(es[1..], e, indent, m[es[0].key := ItemValue(es[0].item)]);
    }
  }

  lemma NumberPlain(minus: bool, n: nat, p: nat)
    ensures Plain(DecimalText.FixedText(minus, n, p))
  {
    hide DecimalText.FixedText;
    DecimalText.FixedChars(minus, n, p);
    var t := DecimalText.FixedText(minus, n, p);
    forall i | 0 <= i < |t| ensures t[i] != QUOTE && t[i] != BACKSLASH {}
  }

  lemma FloatPlain(v: Value)
    requires v.Float? || v.NonFinite?
    ensures Plain(FloatText(v))
  {
    hide DecimalText.FixedText;
    if v.Float? { NumberPlain(v.negative, v.millionths, 6); }
  }

  /** One round of the loop of stringify_object. */
  method PrintMember(key: Text, val: Value, out0: Text, indent: nat) returns (out: Text, ghost e: Entry)
    ensures out == out0 + EntryText(e, indent) && e.key == key && ItemValue(e.item) == Flat(val)
    ensures PlainEntry(e) <==> Plain(key) && PlainTree(val)
    ensures DistinctEntry(e)
    decreases val, 1
  {
    hide EntriesText, FloatText, Meaning, PlainEntries, Plain, Flat, DecimalText.FixedText;
    var pad := Pad(indent);
    FlatIs(val);
    match val {
      case Obj(_) =>
        out := out0 + (pad + [QUOTE] + key + [QUOTE, NEWLINE]);
        out := out + (pad + [OPEN, NEWLINE]);
        ghost var sub;
        out, sub := Stringify(val, out, indent + 1);
        out := out + (pad + [CLOSE, NEWLINE]);
        e := Entry(key, Sub(sub));
        Pieces(out0, pad + [QUOTE] + key + [QUOTE, NEWLINE], pad, EntriesText(sub, indent + 1));
      case Str(s) =>
        out := out0 + (pad + [QUOTE] + key + [QUOTE, 0x20, QUOTE] + s + [QUOTE, NEWLINE]);
        e := Entry(key, Leaf(s));
      case Int(i) =>
        out := out0 + (pad + [QUOTE] + key + [QUOTE, 0x20, QUOTE] + IntText(i) + [QUOTE, NEWLINE]);
        e := Entry(key, Leaf(IntText(i)));
        NumberPlain(i < 0, if i < 0 then -i else i, 0);
      case _ =>
        out := out0 + (pad + [QUOTE] + key + [QUOTE, 0x20, QUOTE] + FloatText(val) + [QUOTE, NEWLINE]);
        e := Entry(key, Leaf(FloatText(val)));
        FloatPlain(val);
    }
  }

  lemma Pieces(out0: Text, head: Text, pad: Text, body: Text)
    ensures out0 + head + (pad + [OPEN, NEWLINE]) + body + (pad + [CLOSE, NEWLINE])
      == out0 + (head + pad + [OPEN, NEWLINE] + body + pad + [CLOSE, NEWLINE])
  {}

  lemma FlatIs(v: Value)
    ensures v.Str? ==> Flat(v) == v
    ensures v.Int? ==> Flat(v) == Str(IntText(v.i))
    ensures v.Float? || v.NonFinite? ==> Flat(v) == Str(FloatText(v))
    ensures v.Obj? ==> Flat(v) == Obj(map k | k in v.m :: Flat(v.m[k]))
  {}

  /** stringify_object: the loop takes the members in any order. The entries returned tell which one it was. */
  method Stringify(v: Value, out0: Text, indent: nat) returns (out: Text, ghost es: seq<Entry>)
    requires v.Obj?
    ensures out == out0 + EntriesText(es, indent)
    ensures Obj(Meaning(es, map[])) == Flat(v)
    ensures PlainEntries(es) <==> PlainTree(v)
    ensures Distinct(es)
    decreases v, 0
  {
    hide EntryText, PlainEntry, Flat, PlainTree, ItemValue, Plain, FlatMembers, PlainMembers;
    out, es := out0, [];
    var rest := v.m.Keys;
    MembersAll(v);
    while rest != {}
      invariant rest <= v.m.Keys && out == out0 + EntriesText(es, indent)
      invariant Meaning(es, map[]) == FlatMembers(v, v.m.Keys - rest)
      invariant PlainEntries(es) <==> PlainMembers(v, v.m.Keys - rest)
      invariant Distinct(es) && forall i :: 0 <= i < |es| ==> es[i].key !in rest
      decreases |rest|
    {
      var key :| key in rest;
      assert v.m[key] < v;
      ghost var e;
      out, e := PrintMember(key, v.m[key], out, indent);
      EntriesAppend(es, e, indent, map[]);
      MembersMore(v, rest, key);
      Assoc(out0, EntriesText(es, indent), EntryText(e, indent));
      es := es + [e];
      rest := rest - {key};
    }
    assert v.m.Keys - rest == v.m.Keys;
  }

  /** Some of the members, with numbers as text; and whether they are plain. */
  ghost function FlatMembers(v: Value, ks: set<Text>): map<Text, Value>
    requires v.Obj? && ks <= v.m.Keys
  {
    map k | k in ks :: Flat(v.m[k])
  }

  ghost predicate PlainMembers(v: Value, ks: set<Text>)
    requires v.Obj? && ks <= v.m.Keys
  {
    forall k :: k in ks ==> Plain(k) && PlainTree(v.m[k])
  }

  lemma MembersAll(v: Value)
    requires v.Obj?
    ensures Flat(v) == Obj(FlatMembers(v, v.m.Keys)) && (PlainTree(v) <==> PlainMembers(v, v.m.Keys))
    ensures FlatMembers(v, v.m.Keys - v.m.Keys) == map[] && PlainMembers(v, v.m.Keys - v.m.Keys)
  {}

  lemma MembersMore(v: Value, rest: set<Text>, key: Text)
    requires v.Obj? && key in rest && rest <= v.m.Keys
    ensures FlatMembers(v, v.m.Keys - (rest - {key})) == FlatMembers(v, v.m.Keys - rest)[key := Flat(v.m[key])]
    ensures PlainMembers(v, v.m.Keys - (rest - {key}))
        <==> PlainMembers(v, v.m.Keys - rest) && Plain(key) && PlainTree(v.m[key])
  {
    assert v.m.Keys - (rest - {key}) == v.m.Keys - rest + {key};
  }

  // ---------------------------------------------------------------- the printed text as tokens

  function TokensOf(es: seq<Entry>): seq<Token>
    decreases es
  {
    if es == [] then [] else EntryTokens(es[0]) + TokensOf(es[1..])
  }

  function EntryTokens(e: Entry): (r: seq<Token>)
    ensures |r| >= 2
    decreases e
  {
    match e.item
    case Leaf(text) => [Word(e.key), Word(text)]
    case Sub(entries) => [Word(e.key), OpenBrace] + TokensOf(entries) + [CloseBrace]
  }

  const NL: Gap := [Space(NEWLINE)]
  const BLANK: Gap := [Space(0x20)]

  function Tabs(indent: nat): (g: Gap)
    ensures |g| == indent && forall i :: 0 <= i < indent ==> g[i] == Space(TAB)
  {
    seq(indent, i => Space(TAB))
  }

  /** The printed entries with their gaps: before is what precedes the first token, the second result what follows the
      last. */
  function Spread(es: seq<Entry>, indent: nat, before: Gap): (seq<Spaced>, Gap)
    decreases es
  {
    if es == [] then ([], before)
    else
      var (a, g) := SpreadEntry(es[0], indent, before);
      var (b, g') := Spread(es[1..], indent, g);
      (a + b, g')
  }

  function SpreadEntry(e: Entry, indent: nat, before: Gap): (seq<Spaced>, Gap)
    decreases e
  {
    match e.item
    case Leaf(text) => ([Spaced(before + Tabs(indent), Word(e.key)), Spaced(BLANK, Word(text))], NL)
    case Sub(entries) =>
      var (ts, g) := Spread(entries, indent + 1, NL);
      ([Spaced(before + Tabs(indent), Word(e.key)), Spaced(NL + Tabs(indent), OpenBrace)] + ts
          + [Spaced(g + Tabs(indent), CloseBrace)], NL)
  }

  /** Tokens and the gaps before them. */
  function Body(ts: seq<Spaced>): Text {
    if ts == [] then [] else GapText(ts[0].gap) + TokenText(ts[0].tok) + Body(ts[1..])
  }

  lemma {:induction false} BodyAppend(a: seq<Spaced>, b: seq<Spaced>)
    ensures Body(a + b) == Body(a) + Body(b)
    decreases |a|
  {
    hide GapText, TokenText;
    if a == [] {
      assert a + b == b;
    } else {
      assert (a + b)[1..] == a[1..] + b;
      BodyAppend(a[1..], b);
    }
  }

  lemma {:induction false} RenderIsBody(ts: seq<Spaced>, last: Gap)
    ensures Render(ts, last) == Body(ts) + GapText(last)
    decreases |ts|
  {
    hide GapText, TokenText;
    if ts != [] { RenderIsBody(ts[1..], last); }
  }

  lemma {:induction false} GapAppend(a: Gap, b: Gap)
    ensures GapText(a + b) == GapText(a) + GapText(b)
    decreases |a|
  {
    if a == [] {
      assert a + b == b;
    } else {
      assert (a + b)[1..] == a[1..] + b;
      GapAppend(a[1..], b);
    }
  }

  lemma {:induction false} TabsText(indent: nat)
    ensures GapText(Tabs(indent)) == Pad(indent)
  {
    if indent > 0 {
      assert Tabs(indent)[1..] == Tabs(indent - 1);
      TabsText(indent - 1);
      assert Pad(indent) == [TAB] + Pad(indent - 1);
    }
  }

  lemma SmallGaps()
    ensures GapText(NL) == [NEWLINE] && GapText(BLANK) == [0x20]
  {
    assert NL[1..] == [] && BLANK[1..] == [];
  }

  lemma BodyTwo(a: Spaced, b: Spaced)
    ensures Body([a, b]) == GapText(a.gap) + TokenText(a.tok) + GapText(b.gap) + TokenText(b.tok)
  {
    hide GapText, TokenText;
    assert [a, b][1..] == [b];
    BodyOne(b);
  }

  lemma BodyOne(a: Spaced)
    ensures Body([a]) == GapText(a.gap) + TokenText(a.tok)
  {
    hide GapText, TokenText;
    assert [a][1..] == [];
  }

  lemma {:induction false} SpreadText(es: seq<Entry>, indent: nat, before: Gap)
    ensures var (ts, after) := Spread(es, indent, before);
      Body(ts) + GapText(after) == GapText(before) + EntriesText(es, indent)
    decreases es
  {
    hide EntryText, SpreadEntry, GapText;
    if es == [] {
      assert [] + GapText(before) == GapText(before) + [];
    } else {
      var (a, g) := SpreadEntry(es[0], indent, before);
      var (b, g') := Spread(es[1..], indent, g);
      SpreadEntryText(es[0], indent, before);
      SpreadText(es[1..], indent, g);
      BodyAppend(a, b);
      Exchange(Body(a), Body(b), GapText(g'), GapText(g), EntriesText(es[1..], indent));
      Assoc(GapText(before), EntryText(es[0], indent), EntriesText(es[1..], indent));
    }
  }

  lemma Exchange(a: Text, b: Text, g': Text, g: Text, t: Text)
    requires b + g' == g + t
    ensures a + b + g' == a + g + t
  {
    Assoc(a, b, g');
    Assoc(a, g, t);
  }

  lemma {:induction false} SpreadEntryText(e: Entry, indent: nat, before: Gap)
    ensures var (ts, after) := SpreadEntry(e, indent, before);
      Body(ts) + GapText(after) == GapText(before) + EntryText(e, indent)
    decreases e
  {
    hide GapText, Spread, EntriesText;
    SmallGaps();
    TabsText(indent);
    GapAppend(before, Tabs(indent));
    var pad, g0 := Pad(indent), GapText(before);
    match e.item {
      case Leaf(text) =>
        BodyTwo(Spaced(before + Tabs(indent), Word(e.key)), Spaced(BLANK, Word(text)));
        LeafPieces(g0, pad, e.key, text);
      case Sub(entries) =>
        var (ts, g) := Spread(entries, indent + 1, NL);
        SpreadText(entries, indent + 1, NL);
        var k, o, c := Spaced(before + Tabs(indent), Word(e.key)), Spaced(NL + Tabs(indent), OpenBrace),
            Spaced(g + Tabs(indent), CloseBrace);
        GapAppend(NL, Tabs(indent));
        GapAppend(g, Tabs(indent));
        BodyTwo(k, o);
        BodyOne(c);
        BodyAppend([k, o] + ts, [c]);
        BodyAppend([k, o], ts);
        SubPieces(g0, pad, e.key, Body(ts), GapText(g), EntriesText(entries, indent + 1));
    }
  }

  lemma LeafPieces(g0: Text, pad: Text, key: Text, text: Text)
    ensures g0 + pad + TokenText(Word(key)) + [0x20] + TokenText(Word(text)) + [NEWLINE]
      == g0 + (pad + [QUOTE] + key + [QUOTE, 0x20, QUOTE] + text + [QUOTE, NEWLINE])
  {
    WordOnto(g0 + pad, key);
    var a := g0 + pad + [QUOTE] + key + [QUOTE];
    WordOnto(a + [0x20], text);
    Three(g0 + pad + [QUOTE] + key, QUOTE, 0x20, QUOTE);
    var b := pad + [QUOTE] + key;
    Assoc(g0, pad + [QUOTE], key);
    Assoc(g0, pad, [QUOTE]);
    Assoc(g0, b, [QUOTE, 0x20, QUOTE]);
    Assoc(g0, b + [QUOTE, 0x20, QUOTE], text);
    Assoc(g0, b + [QUOTE, 0x20, QUOTE] + text, [QUOTE, NEWLINE]);
    Two(g0 + b + [QUOTE, 0x20, QUOTE] + text, QUOTE, NEWLINE);
  }

  lemma WordOnto(a: Text, w: Text)
    ensures a + TokenText(Word(w)) == a + [QUOTE] + w + [QUOTE]
  {
    Assoc(a, [QUOTE] + w, [QUOTE]);
    Assoc(a, [QUOTE], w);
  }

  lemma Two(a: Text, x: Byte, y: Byte)
    ensures a + [x, y] == a + [x] + [y]
  {}

  lemma Three(a: Text, x: Byte, y: Byte, z: Byte)
    ensures a + [x, y, z] == a + [x] + [y] + [z]
  {}

  lemma SubPieces(g0: Text, pad: Text, key: Text, body: Text, g: Text, t: Text)
    requires body + g == [NEWLINE] + t
    ensures g0 + pad + TokenText(Word(key)) + ([NEWLINE] + pad) + TokenText(OpenBrace) + body
        + (g + pad + TokenText(CloseBrace)) + [NEWLINE]
      == g0 + (pad + [QUOTE] + key + [QUOTE, NEWLINE] + pad + [OPEN, NEWLINE] + t + pad + [CLOSE, NEWLINE])
  {
    var a := g0 + pad + [QUOTE] + key + [QUOTE, NEWLINE] + pad + [OPEN];
    assert g0 + pad + TokenText(Word(key)) + ([NEWLINE] + pad) + TokenText(OpenBrace) == a;
    var z := pad + [CLOSE, NEWLINE];
    assert a + body + (g + pad + TokenText(CloseBrace)) + [NEWLINE] == a + (body + g) + z;
    assert a + ([NEWLINE] + t) + z
        == g0 + (pad + [QUOTE] + key + [QUOTE, NEWLINE] + pad + [OPEN, NEWLINE] + t + pad + [CLOSE, NEWLINE]);
  }

  lemma TokensAppend(a: seq<Spaced>, b: seq<Spaced>)
    ensures Tokens(a + b) == Tokens(a) + Tokens(b)
  {}

  lemma {:induction false} PlainWord(t: Text)
    requires Plain(t)
    ensures Complete(t) && Decode(t) == t
    decreases |t|
  {
    if t != [] {
      assert t[0] in t;
      assert forall b :: b in t[1..] ==> b in t;
      PlainWord(t[1..]);
    }
  }

  lemma WellAppend(a: seq<Spaced>, b: seq<Spaced>)
    requires WellSpaced(a) && WellSpaced(b)
    ensures WellSpaced(a + b)
  {}

  lemma {:induction false} SpreadWell(es: seq<Entry>, indent: nat, before: Gap)
    requires PlainEntries(es) && GapOk(before)
    ensures var (ts, after) := Spread(es, indent, before); WellSpaced(ts) && GapOk(after) && Tokens(ts) == TokensOf(es)
    decreases es
  {
    hide SpreadEntry, EntryTokens, WellSpaced, GapOk, PlainEntry;
    if es == [] {
      NoTokens(before);
    } else {
      var (a, g) := SpreadEntry(es[0], indent, before);
      SpreadEntryWell(es[0], indent, before);
      SpreadWell(es[1..], indent, g);
      var (b, g') := Spread(es[1..], indent, g);
      TokensAppend(a, b);
      WellAppend(a, b);
    }
  }

  lemma NoTokens(g: Gap)
    ensures WellSpaced([]) && Tokens([]) == []
  {}

  lemma {:induction false} SpreadEntryWell(e: Entry, indent: nat, before: Gap)
    requires PlainEntry(e) && GapOk(before)
    ensures var (ts, after) := SpreadEntry(e, indent, before);
      WellSpaced(ts) && GapOk(after) && Tokens(ts) == EntryTokens(e)
    decreases e
  {
    hide Spread, TokensOf, PlainEntries, Complete;
    PlainWord(e.key);
    match e.item {
      case Leaf(text) =>
        PlainWord(text);
      case Sub(entries) =>
        SpreadWell(entries, indent + 1, NL);
        var (ts, g) := Spread(entries, indent + 1, NL);
        var k, o, c := Spaced(before + Tabs(indent), Word(e.key)), Spaced(NL + Tabs(indent), OpenBrace),
            Spaced(g + Tabs(indent), CloseBrace);
        WellAppend([k, o], ts);
        WellAppend([k, o] + ts, [c]);
        TokensAppend([k, o], ts);
        TokensAppend([k, o] + ts, [c]);
        assert Tokens([k, o]) == [Word(e.key), OpenBrace] && Tokens([c]) == [CloseBrace];
    }
  }

  // ---------------------------------------------------------------- the tokens read back

  predicate TokensAt(toks: seq<Token>, k: nat, es: seq<Token>) { k + |es| <= |toks| && toks[k..k + |es|] == es }

  lemma TokensSplit(toks: seq<Token>, k: nat, a: seq<Token>, b: seq<Token>)
    requires TokensAt(toks, k, a + b)
    ensures TokensAt(toks, k, a) && TokensAt(toks, k + |a|, b)
    ensures a != [] ==> toks[k] == a[0]
  {
    var t := toks[k..k + |a + b|];
    assert t[..|a|] == a && t[|a|..] == b;
    assert toks[k..k + |a|] == t[..|a|] && toks[k + |a|..k + |a| + |b|] == t[|a|..];
    assert a != [] ==> t[0] == a[0];
  }

  /** Reading the tokens of entries goes on behind them, with the entries put into the object. */
  lemma {:induction false} EntriesBack(toks: seq<Token>, k: nat, es: seq<Entry>, m: map<Text, Value>)
    requires AllComplete(toks) && PlainEntries(es) && TokensAt(toks, k, TokensOf(es))
    ensures ObjectOf(toks, k, m) == ObjectOf(toks, k + |TokensOf(es)|, Meaning(es, m))
    ensures RootOf(toks, k, m) == RootOf(toks, k + |TokensOf(es)|, Meaning(es, m))
    decreases es, 0
  {
    hide EntryTokens, TokensAt, MemberOf, PlainEntry, ItemValue, AllComplete;
    TokensInside(toks, k, TokensOf(es));
    if es != [] {
      TokensSplit(toks, k, EntryTokens(es[0]), TokensOf(es[1..]));
      EntryBack(toks, k, es[0], m);
      EntriesBack(toks, k + |EntryTokens(es[0])|, es[1..], m[es[0].key := ItemValue(es[0].item)]);
    }
  }

  lemma TokensInside(toks: seq<Token>, k: nat, es: seq<Token>)
    requires TokensAt(toks, k, es)
    ensures k + |es| <= |toks|
  {}

  lemma {:induction false} EntryBack(toks: seq<Token>, k: nat, e: Entry, m: map<Text, Value>)
    requires AllComplete(toks) && PlainEntry(e) && TokensAt(toks, k, EntryTokens(e))
    ensures k < |toks| && toks[k].Word?
    ensures MemberOf(toks, k, m) == Done(m[e.key := ItemValue(e.item)], k + |EntryTokens(e)|)
    decreases e, 0
  {
    hide TokensAt, PlainEntries, TokensOf, MemberOf;
    PlainWord(e.key);
    match e.item {
      case Leaf(text) => LeafBack(toks, k, e.key, text, m);
      case Sub(entries) => SubBack(toks, k, e.key, entries, m);
    }
  }

  lemma LeafBack(toks: seq<Token>, k: nat, key: Text, text: Text, m: map<Text, Value>)
    requires AllComplete(toks) && Plain(key) && Plain(text) && TokensAt(toks, k, EntryTokens(Entry(key, Leaf(text))))
    ensures k < |toks| && toks[k].Word?
    ensures MemberOf(toks, k, m) == Done(m[key := Str(text)], k + 2)
  {
    var ts := EntryTokens(Entry(key, Leaf(text)));
    assert toks[k] == ts[0] && toks[k + 1] == ts[1] by {
      assert toks[k..k + 2][0] == toks[k] && toks[k..k + 2][1] == toks[k + 1];
    }
    PlainWord(key);
    PlainWord(text);
  }

  lemma {:induction false} SubBack(toks: seq<Token>, k: nat, key: Text, entries: seq<Entry>, m: map<Text, Value>)
    requires AllComplete(toks) && Plain(key) && PlainEntries(entries)
        && TokensAt(toks, k, EntryTokens(Entry(key, Sub(entries))))
    ensures k < |toks| && toks[k].Word?
    ensures MemberOf(toks, k, m)
        == Done(m[key := Obj(Meaning(entries, map[]))], k + |EntryTokens(Entry(key, Sub(entries)))|)
    decreases entries, 1
  {
    hide TokensAt, PlainEntries, TokensOf, ObjectOf, Meaning, Plain;
    var inner := TokensOf(entries);
    SubTokens(toks, k, key, entries);
    EntriesBack(toks, k + 2, entries, map[]);
    ObjectEnds(toks, k + 2 + |inner|, Meaning(entries, map[]));
    PlainWord(key);
  }

  lemma SubTokens(toks: seq<Token>, k: nat, key: Text, entries: seq<Entry>)
    requires TokensAt(toks, k, EntryTokens(Entry(key, Sub(entries))))
    ensures var inner := TokensOf(entries);
      && |EntryTokens(Entry(key, Sub(entries)))| == |inner| + 3 && k + 3 + |inner| <= |toks|
      && toks[k] == Word(key) && toks[k + 1] == OpenBrace && toks[k + 2 + |inner|] == CloseBrace
      && TokensAt(toks, k + 2, inner)
  {
    hide TokensAt, TokensOf;
    var inner := TokensOf(entries);
    assert EntryTokens(Entry(key, Sub(entries))) == [Word(key), OpenBrace] + (inner + [CloseBrace]);
    TokensInside(toks, k, EntryTokens(Entry(key, Sub(entries))));
    TokensSplit(toks, k, [Word(key), OpenBrace], inner + [CloseBrace]);
    SecondToken(toks, k, Word(key), OpenBrace);
    TokensSplit(toks, k + 2, inner, [CloseBrace]);
    assert [CloseBrace] + [] == [CloseBrace];
    TokensSplit(toks, k + 2 + |inner|, [CloseBrace], []);
  }

  lemma ObjectEnds(toks: seq<Token>, k: nat, m: map<Text, Value>)
    requires AllComplete(toks) && k < |toks| && toks[k] == CloseBrace
    ensures ObjectOf(toks, k, m) == Done(m, k + 1)
  {}

  lemma SecondToken(toks: seq<Token>, k: nat, a: Token, b: Token)
    requires TokensAt(toks, k, [a, b])
    ensures k + 2 <= |toks| && toks[k] == a && toks[k + 1] == b
  {
    assert toks[k..k + 2][0] == toks[k] && toks[k..k + 2][1] == toks[k + 1];
  }

  /** The text of plain entries, in any order and at any depth, parses to the object they stand for. */
  lemma PrintedParses(es: seq<Entry>)
    requires PlainEntries(es)
    ensures var s := EntriesText(es, 0); RootAt(s, 0, map[]) == Ok(Meaning(es, map[]), |s|)
  {
    hide Spread, Render, Body, RootAt, RootOf, TokensOf, Meaning, EntriesText, PlainEntries, Complete;
    var s := EntriesText(es, 0);
    var (ts, after) := Spread(es, 0, []);
    SpreadText(es, 0, []);
    SpreadWell(es, 0, []);
    RenderIsBody(ts, after);
    assert GapText([]) + s == s;
    var toks := Tokens(ts);
    assert toks[0..0 + |TokensOf(es)|] == TokensOf(es);
    EntriesBack(toks, 0, es, map[]);
    AtEnd(toks, Meaning(es, map[]));
    Whole(ts, after);
    RootLink(s, 0, ts, after, 0, map[]);
  }

  lemma AtEnd(toks: seq<Token>, m: map<Text, Value>)
    requires AllComplete(toks)
    ensures RootOf(toks, |toks|, m) == Done(m, |toks|)
  {}
}
