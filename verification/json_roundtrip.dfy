/** Printing a JSON value and reading the text again. */
module JsonRoundTrip {
  import opened Basics
  import opened Keys
  import opened JsonStrings
  import opened JsonNumbers
  import opened JsonObjects
  import opened JsonText
  import DecimalText

  type Members = seq<(Key, Json)>

  predicate DistinctKeys(ms: Members) { forall i, j :: 0 <= i < j < |ms| ==> ms[i].0 != ms[j].0 }

  /** The values whose text is JSON by RFC 8259: numbers by its section 6, non-empty distinct keys, all assigned. */
  ghost predicate Printable(v: Json)
    decreases v
  {
    match v
    case Unassigned => false
    case Null => true
    case Bool(_) => true
    case Number(digits) => IsNumber(digits)
    case Str(_) => true
    case Array(elems) => AllPrintable(elems)
    case Object(members) => DistinctKeys(members) && AllMembers(members)
  }

  ghost predicate AllPrintable(es: seq<Json>)
    decreases es
  {
    es == [] || (Printable(es[0]) && AllPrintable(es[1..]))
  }

  ghost predicate PrintableMember(m: (Key, Json))
    decreases m
  {
    m.0 != [] && Printable(m.1)
  }

  ghost predicate AllMembers(ms: Members)
    decreases ms
  {
    ms == [] || (PrintableMember(ms[0]) && AllMembers(ms[1..]))
  }

  /** Where a value may end: at the end of the text, or before a comma or a closing bracket. */
  predicate StopsAt(s: Bytes, i: nat) { i <= |s| && (i == |s| || s[i] == 0x2C || s[i] == 0x5D || s[i] == 0x7D) }

  // ---------------------------------------------------------------- from the value to the text and back

  /** The first byte of a printed value is no space and closes nothing. */
  lemma Head(v: Json)
    requires Printable(v)
    ensures Text(v) != []
    ensures var b := Text(v)[0]; !IsSpace(b) && b != CLOSE_ARRAY && b != CLOSE_OBJECT && b != COMMA
  {
    if v.Number? { NumberIsRead(v.digits, [], []); assert [] + v.digits + [] == v.digits; }
  }

  lemma SpacesStay(s: Bytes, i: nat)
    requires i <= |s| && (i < |s| ==> !IsSpace(s[i]))
    ensures SkipSpaces(s, i) == i
  {}

  lemma StringBack(s: Bytes, i: nat, t: Bytes)
    requires Here(s, i, Quoted(t)) && (i + |Quoted(t)| < |s| ==> !IsSpace(s[i + |Quoted(t)|]))
    ensures s[i] == QUOTE && Unescape(s, i + 1, [], 0, 0) == Scan(true, t, i + |Quoted(t)|)
  {
    hide Unescape, Escape, SkipSpaces;
    var e := i + |Quoted(t)|;
    Split(s, i, [QUOTE], Escape(t) + [QUOTE]);
    assert Quoted(t) == [QUOTE] + (Escape(t) + [QUOTE]);
    var pre, post := s[..i + 1], s[e..];
    Surrounded(s, i + 1, Escape(t) + [QUOTE]);
    assert s == pre + Escape(t) + [QUOTE] + post;
    UnescapeEscape(t, pre, post, [], 0);
    assert [] + t == t;
    SpacesStay(s, e);
  }

  lemma {:induction false} LiteralBack(s: Bytes, i: nat, word: Bytes)
    requires Here(s, i, word)
    ensures MatchEnd(s, i, word) == i + |word|
    decreases |word|
  {
    if word != [] {
      assert word == [word[0]] + word[1..];
      Split(s, i, [word[0]], word[1..]);
      LiteralBack(s, i + 1, word[1..]);
    }
  }

  lemma NumberBack(s: Bytes, i: nat, t: Bytes)
    requires IsNumber(t) && Here(s, i, t) && StopsAt(s, i + |t|)
    ensures i < |s| && (s[i] == MINUS || IsDigit(s[i])) && NumberAt(s, i) == Parsed(NoError, i + |t|, Number(t))
  {
    hide UnsignedEnd, IsNumber;
    var e := i + |t|;
    var pre, post := s[..i], s[e..];
    Surrounded(s, i, t);
    assert e < |s| ==> post[0] == s[e];
    NumberIsRead(t, pre, post);
    SpacesStay(s, e);
  }

  lemma LeafBack(s: Bytes, i: nat, v: Json)
    requires Printable(v) && !v.Array? && !v.Object? && Here(s, i, Text(v)) && StopsAt(s, i + |Text(v)|)
    ensures ValueAt(s, i) == Parsed(NoError, i + |Text(v)|, v)
  {
    hide Unescape, MatchEnd, NumberAt, IsNumber, Quoted, Here;
    Head(v);
    HereAt(s, i, Text(v), 0);
    match v {
      case Null => LiteralBack(s, i, NULL);
      case Bool(b) => LiteralBack(s, i, if b then TRUE else FALSE);
      case Str(text) => StringBack(s, i, text);
      case Number(digits) => NumberBack(s, i, digits);
      case _ =>
    }
  }

  /** Every printable value is read back from its text, wherever that stands, up to what may follow it. */
  lemma {:induction false} ValueBack(s: Bytes, i: nat, v: Json)
    requires Printable(v) && Here(s, i, Text(v)) && StopsAt(s, i + |Text(v)|)
    ensures ValueAt(s, i) == Parsed(NoError, i + |Text(v)|, v)
    decreases v, 1
  {
    hide ElemsText, MembersText, ElemsAt, MembersAt, Here, AllPrintable, AllMembers;
    match v {
      case Array(elems) =>
        var t := ElemsText(elems) + [CLOSE_ARRAY];
        assert Text(v) == [OPEN_ARRAY] + t;
        Split(s, i, [OPEN_ARRAY], t);
        ElemsHead(elems);
        HereAt(s, i + 1, t, 0);
        SpacesStay(s, i + 1);
        ElemsBack(s, i + 1, elems, []);
        assert [] + elems == elems;
      case Object(members) =>
        var t := MembersText(members) + [CLOSE_OBJECT];
        assert Text(v) == [OPEN_OBJECT] + t;
        Split(s, i, [OPEN_OBJECT], t);
        MembersHead(members);
        HereAt(s, i + 1, t, 0);
        SpacesStay(s, i + 1);
        assert [] + members == members;
        MembersBack(s, i + 1, members, []);
      case _ => LeafBack(s, i, v);
    }
  }

  lemma ElemsHead(es: seq<Json>)
    requires AllPrintable(es)
    ensures !IsSpace((ElemsText(es) + [CLOSE_ARRAY])[0])
  {
    if es != [] { Head(es[0]); }
  }

  lemma MembersHead(ms: Members)
    ensures (MembersText(ms) + [CLOSE_OBJECT])[0] == if ms == [] then CLOSE_OBJECT else QUOTE
  {}

  /** Where the first of a list ends and the rest begins. */
  lemma ElemsParts(s: Bytes, i: nat, es: seq<Json>) returns (next: nat)
    requires es != [] && Here(s, i, ElemsText(es) + [CLOSE_ARRAY])
    ensures Here(s, i, Text(es[0])) && Here(s, next, ElemsText(es[1..]) + [CLOSE_ARRAY])
    ensures var p := i + |Text(es[0])|;
      && p < |s| && s[p] == (if |es| == 1 then CLOSE_ARRAY else COMMA) && next == (if |es| == 1 then p else p + 1) < |s|
    ensures next + |ElemsText(es[1..])| == i + |ElemsText(es)|
    ensures s[next] == (ElemsText(es[1..]) + [CLOSE_ARRAY])[0]
  {
    hide Here, Text;
    var t := Text(es[0]);
    var rest := ElemsText(es[1..]) + [CLOSE_ARRAY];
    var sep: Bytes := if |es| == 1 then [] else [COMMA];
    assert ElemsText(es) + [CLOSE_ARRAY] == t + (sep + rest) by { if |es| == 1 { assert es[1..] == []; } }
    Split(s, i, t, sep + rest);
    Split(s, i + |t|, sep, rest);
    HereAt(s, i + |t|, sep + rest, 0);
    next := i + |t| + |sep|;
    HereAt(s, next, rest, 0);
    if |es| == 1 { assert es[1..] == []; }
  }

  lemma {:induction false} ElemsBack(s: Bytes, i: nat, es: seq<Json>, acc: seq<Json>)
    requires AllPrintable(es) && Here(s, i, ElemsText(es) + [CLOSE_ARRAY]) && StopsAt(s, i + |ElemsText(es)| + 1)
    ensures ElemsAt(s, i, acc) == Parsed(NoError, i + |ElemsText(es)| + 1, Array(acc + es))
    decreases es, 0
  {
    hide Here, Text, ValueAt, Printable, ElemsAt, SkipSpaces;
    if es == [] {
      Split(s, i, [], [CLOSE_ARRAY]);
      SpacesStay(s, i + 1);
      ElemsEnd(s, i, acc);
      assert acc + es == acc;
    } else {
      var next := ElemsParts(s, i, es);
      ElemBack(s, i, es[0], acc);
      ElemsHead(es[1..]);
      SpacesStay(s, next);
      ElemsBack(s, next, es[1..], acc + [es[0]]);
      assert acc + [es[0]] + es[1..] == acc + es;
    }
  }

  lemma ElemsEnd(s: Bytes, i: nat, acc: seq<Json>)
    requires i < |s| && s[i] == CLOSE_ARRAY
    ensures ElemsAt(s, i, acc) == Parsed(NoError, SkipSpaces(s, i + 1), Array(acc))
  {
    hide SkipSpaces, ValueAt;
  }

  /** One element: its value, then the loop goes on. */
  lemma ElemBack(s: Bytes, i: nat, e: Json, acc: seq<Json>)
    requires Printable(e) && Here(s, i, Text(e)) && StopsAt(s, i + |Text(e)|)
    ensures ElemsAt(s, i, acc) == ElemsAt(s, AfterComma(s, i + |Text(e)|), acc + [e])
    decreases e, 2
  {
    hide Here, Text, ValueAt, Printable, ElemsAt, AfterComma;
    Head(e);
    HereAt(s, i, Text(e), 0);
    ValueBack(s, i, e);
    ElemsStep(s, i, acc, ValueAt(s, i));
  }

  /** One round of the loop over elements that goes well. */
  lemma ElemsStep(s: Bytes, i: nat, acc: seq<Json>, r: Parsed)
    requires i < |s| && s[i] != CLOSE_ARRAY && r == ValueAt(s, i) && r.code == NoError
    ensures r.pos <= |s| && ElemsAt(s, i, acc) == ElemsAt(s, AfterComma(s, r.pos), acc + [r.value])
  {
    hide ValueAt, AfterComma;
  }

  lemma {:induction false} PutNew(ms: Members, k: Key, v: Json)
    requires forall i :: 0 <= i < |ms| ==> ms[i].0 != k
    ensures Put(ms, k, v) == ms + [(k, v)]
  {
    if ms != [] { PutNew(ms[1..], k, v); }
  }

  lemma PutNext(acc: Members, ms: Members)
    requires ms != [] && DistinctKeys(acc + ms)
    ensures Put(acc, ms[0].0, ms[0].1) == acc + [ms[0]] && acc + [ms[0]] + ms[1..] == acc + ms
  {
    assert (acc + ms)[|acc|] == ms[0];
    forall j | 0 <= j < |acc| ensures acc[j].0 != ms[0].0 { assert (acc + ms)[j] == acc[j]; }
    PutNew(acc, ms[0].0, ms[0].1);
  }

  /** Where the first of a list ends and the rest begins. */
  lemma MembersParts(s: Bytes, i: nat, ms: Members) returns (next: nat)
    requires ms != [] && Here(s, i, MembersText(ms) + [CLOSE_OBJECT])
    ensures Here(s, i, MemberText(ms[0])) && Here(s, next, MembersText(ms[1..]) + [CLOSE_OBJECT])
    ensures var p := i + |MemberText(ms[0])|;
      && p < |s| && s[p] == (if |ms| == 1 then CLOSE_OBJECT else COMMA)
          && next == (if |ms| == 1 then p else p + 1) < |s|
    ensures next + |MembersText(ms[1..])| == i + |MembersText(ms)|
    ensures s[next] == (MembersText(ms[1..]) + [CLOSE_OBJECT])[0]
  {
    hide Here, MemberText;
    var t := MemberText(ms[0]);
    var rest := MembersText(ms[1..]) + [CLOSE_OBJECT];
    var sep: Bytes := if |ms| == 1 then [] else [COMMA];
    assert MembersText(ms) + [CLOSE_OBJECT] == t + (sep + rest) by { if |ms| == 1 { assert ms[1..] == []; } }
    Split(s, i, t, sep + rest);
    Split(s, i + |t|, sep, rest);
    HereAt(s, i + |t|, sep + rest, 0);
    next := i + |t| + |sep|;
    HereAt(s, next, rest, 0);
    if |ms| == 1 { assert ms[1..] == []; }
  }

  lemma {:induction false} MembersBack(s: Bytes, i: nat, ms: Members, acc: Members)
    requires AllMembers(ms) && DistinctKeys(acc + ms)
    requires Here(s, i, MembersText(ms) + [CLOSE_OBJECT]) && StopsAt(s, i + |MembersText(ms)| + 1)
    ensures MembersAt(s, i, acc) == Parsed(NoError, i + |MembersText(ms)| + 1, Object(acc + ms))
    decreases ms, 0
  {
    hide Here, MemberText, ValueAt, Printable, DistinctKeys, Put, MembersAt, SkipSpaces;
    if ms == [] {
      Split(s, i, [], [CLOSE_OBJECT]);
      SpacesStay(s, i + 1);
      MembersEnd(s, i, acc);
      assert acc + ms == acc;
    } else {
      var next := MembersParts(s, i, ms);
      MemberBack(s, i, ms[0], acc);
      MembersHead(ms[1..]);
      SpacesStay(s, next);
      PutNext(acc, ms);
      MembersBack(s, next, ms[1..], acc + [ms[0]]);
    }
  }

  lemma MembersEnd(s: Bytes, i: nat, acc: Members)
    requires i < |s| && s[i] == CLOSE_OBJECT
    ensures MembersAt(s, i, acc) == Parsed(NoError, SkipSpaces(s, i + 1), Object(acc))
  {
    hide SkipSpaces, ValueAt, Unescape;
  }

  /** One member: its key, the colon and its value, then the loop goes on. */
  lemma MemberBack(s: Bytes, i: nat, m: (Key, Json), acc: Members)
    requires PrintableMember(m) && Here(s, i, MemberText(m)) && StopsAt(s, i + |MemberText(m)|)
    ensures MembersAt(s, i, acc) == MembersAt(s, AfterComma(s, i + |MemberText(m)|), Put(acc, m.0, m.1))
    decreases m, 0
  {
    hide Here, Text, ValueAt, Printable, Put, Quoted, Unescape, MembersAt, AfterComma, SkipSpaces;
    var k, v := m.0, m.1;
    var p := i + |Quoted(k)|;
    assert MemberText(m) == Quoted(k) + ([COLON] + Text(v));
    Split(s, i, Quoted(k), [COLON] + Text(v));
    Split(s, p, [COLON], Text(v));
    StringBack(s, i, k);
    Head(v);
    HereAt(s, p + 1, Text(v), 0);
    SpacesStay(s, p + 1);
    ValueBack(s, p + 1, v);
    MembersStep(s, i, acc, Unescape(s, i + 1, [], 0, 0), ValueAt(s, SkipSpaces(s, p + 1)));
  }

  /** One round of the loop over members that goes well. */
  lemma MembersStep(s: Bytes, i: nat, acc: Members, k: Scan, r: Parsed)
    requires i < |s| && s[i] == QUOTE && k == Unescape(s, i + 1, [], 0, 0)
    requires k.text != [] && k.pos < |s| && s[k.pos] == COLON
    requires r == ValueAt(s, SkipSpaces(s, k.pos + 1)) && r.code == NoError
    ensures r.pos <= |s| && MembersAt(s, i, acc) == MembersAt(s, AfterComma(s, r.pos), Put(acc, k.text, r.value))
  {
    hide ValueAt, Put, Unescape, AfterComma, SkipSpaces;
  }

  /** The round trip: printing any printable tree and parsing the text gives the same tree, key order included. */
  lemma RoundTrip(v: Json)
    requires Printable(v)
    ensures ParseText(Text(v)) == Parsed(NoError, |Text(v)|, v)
  {
    hide ValueAt, Text, Printable, SkipSpaces;
    Head(v);
    SpacesStay(Text(v), 0);
    assert Text(v)[0..0 + |Text(v)|] == Text(v);
    ValueBack(Text(v), 0, v);
  }

  // ---------------------------------------------------------------- from any text to a value

  lemma {:induction false} AllPrintableAppend(es: seq<Json>, e: Json)
    requires AllPrintable(es) && Printable(e)
    ensures AllPrintable(es + [e])
  {
    if es == [] {
      assert es + [e] == [e] && [e][1..] == [];
    } else {
      assert (es + [e])[1..] == es[1..] + [e];
      AllPrintableAppend(es[1..], e);
    }
  }

  lemma {:induction false} PutPrintable(ms: Members, k: Key, v: Json)
    requires AllMembers(ms) && k != [] && Printable(v)
    ensures AllMembers(Put(ms, k, v))
  {
    if ms == [] {
      assert Put(ms, k, v)[1..] == [];
    } else if ms[0].0 == k {
      assert Put(ms, k, v)[1..] == ms[1..];
    } else {
      PutPrintable(ms[1..], k, v);
      assert Put(ms, k, v)[1..] == Put(ms[1..], k, v);
    }
  }

  /** A key is there after Put exactly when it was before or is the one put. */
  lemma {:induction false} PutKeys(ms: Members, k: Key, v: Json, other: Key)
    requires other != k && NoKey(ms, other)
    ensures NoKey(Put(ms, k, v), other)
  {
    if ms != [] && ms[0].0 != k {
      assert NoKey(ms[1..], other);
      PutKeys(ms[1..], k, v, other);
    }
  }

  predicate NoKey(ms: Members, k: Key) { forall i :: 0 <= i < |ms| ==> ms[i].0 != k }

  lemma FirstDistinct(m: (Key, Json), rest: Members)
    ensures DistinctKeys([m] + rest) <==> NoKey(rest, m.0) && DistinctKeys(rest)
  {
    var r := [m] + rest;
    forall i | 0 <= i < |rest| ensures DistinctKeys(r) ==> rest[i].0 != m.0 {
      assert r[i + 1] == rest[i] && r[0] == m;
    }
    forall i, j | 0 <= i < j < |rest| ensures DistinctKeys(r) ==> rest[i].0 != rest[j].0 {
      assert r[i + 1] == rest[i] && r[j + 1] == rest[j];
    }
    assert forall i :: 0 < i < |r| ==> r[i] == rest[i - 1];
  }

  lemma {:induction false} PutDistinct(ms: Members, k: Key, v: Json)
    requires DistinctKeys(ms)
    ensures DistinctKeys(Put(ms, k, v))
  {
    hide DistinctKeys, NoKey;
    if ms == [] {
      NoneDistinct((k, v));
    } else {
      assert ms == [ms[0]] + ms[1..];
      FirstDistinct(ms[0], ms[1..]);
      if ms[0].0 == k {
        FirstDistinct((k, v), ms[1..]);
      } else {
        PutDistinct(ms[1..], k, v);
        PutKeys(ms[1..], k, v, ms[0].0);
        FirstDistinct(ms[0], Put(ms[1..], k, v));
      }
    }
  }

  lemma NoneDistinct(m: (Key, Json))
    ensures DistinctKeys([m])
  {}

  /** Texts in which the parser finds no value and yet reports no error: nothing at all, or a minus sign alone. */
  predicate Nothing(s: Bytes, i: nat) { i == |s| || (i + 1 == |s| && s[i] == MINUS) }

  /** What reading without an error leaves in the node: a printable value, or nothing, just for the texts above. */
  predicate Sound(s: Bytes, i: nat, r: Parsed) {
    && (Nothing(s, i) ==> r == Parsed(NoError, |s|, Unassigned))
    && (r.code == NoError && r.value == Unassigned ==> Nothing(s, i))
  }

  lemma NumberSound(s: Bytes, i: nat)
    requires i < |s|
    ensures Sound(s, i, NumberAt(s, i))
    ensures var r := NumberAt(s, i); r.code == NoError && r.value != Unassigned ==> Printable(r.value)
  {
    hide UnsignedEnd, IsNumber;
    var minus := s[i] == MINUS;
    if !(minus && i + 1 == |s|) { ReadIsNumber(s, i, minus); }
  }

  lemma {:induction false} ValueSound(s: Bytes, i: nat)
    requires i <= |s|
    ensures Sound(s, i, ValueAt(s, i))
    ensures var r := ValueAt(s, i); r.code == NoError && r.value != Unassigned ==> Printable(r.value)
    decreases |s| - i, 0
  {
    hide NumberAt, Unescape, MatchEnd, ElemsAt, MembersAt, IsNumber;
    if i < |s| {
      if s[i] == OPEN_ARRAY {
        ElemsSound(s, SkipSpaces(s, i + 1), []);
      } else if s[i] == OPEN_OBJECT {
        MembersSound(s, SkipSpaces(s, i + 1), []);
      } else {
        NumberSound(s, i);
      }
    }
  }

  lemma {:induction false} ElemsSound(s: Bytes, i: nat, es: seq<Json>)
    requires i <= |s| && AllPrintable(es)
    ensures var r := ElemsAt(s, i, es); r.value.Array? && (r.code == NoError ==> Printable(r.value))
    decreases |s| - i, 1
  {
    hide ValueAt, SkipSpaces, AllPrintable;
    if i < |s| && s[i] != CLOSE_ARRAY {
      ValueSound(s, i);
      var r := ValueAt(s, i);
      if r.code == NoError {
        if r.value == Unassigned {
          assert ElemsAt(s, |s|, es + [r.value]).code == EcArray;
        } else {
          AllPrintableAppend(es, r.value);
          ElemsSound(s, AfterComma(s, r.pos), es + [r.value]);
        }
      }
    }
  }

  lemma {:induction false} MembersSound(s: Bytes, i: nat, ms: Members)
    requires i <= |s| && AllMembers(ms) && DistinctKeys(ms)
    ensures var r := MembersAt(s, i, ms); r.value.Object? && (r.code == NoError ==> Printable(r.value))
    decreases |s| - i, 1
  {
    hide ValueAt, SkipSpaces, AllMembers, DistinctKeys, Unescape, Put;
    if i < |s| && s[i] == QUOTE {
      var k := Unescape(s, i + 1, [], 0, 0);
      if k.text != [] && k.pos < |s| && s[k.pos] == COLON {
        var at := SkipSpaces(s, k.pos + 1);
        ValueSound(s, at);
        var r := ValueAt(s, at);
        if r.code == NoError {
          if r.value == Unassigned {
            assert MembersAt(s, |s|, Put(ms, k.text, r.value)).code == EcObject;
          } else {
            PutPrintable(ms, k.text, r.value);
            PutDistinct(ms, k.text, r.value);
            MembersSound(s, AfterComma(s, r.pos), Put(ms, k.text, r.value));
          }
        }
      }
    }
  }

  /** An accepted text leaves no value exactly when it is blank or a lone minus sign after spaces. */
  lemma AcceptsNothing(s: Bytes)
    ensures ParseText(s).code == NoError && ParseText(s).value == Unassigned <==> Nothing(s, SkipSpaces(s, 0))
  {
    hide ValueAt, SkipSpaces;
    ValueSound(s, SkipSpaces(s, 0));
  }

  /** Whatever text is accepted with a value, duplicate keys, stray spaces, escapes and missing commas included:
      printing the value and parsing again gives that value. */
  lemma Normalizes(s: Bytes)
    requires ParseText(s).code == NoError && ParseText(s).value != Unassigned
    ensures var v := ParseText(s).value; Printable(v) && ParseText(Text(v)) == Parsed(NoError, |Text(v)|, v)
  {
    hide ValueAt, SkipSpaces;
    ValueSound(s, SkipSpaces(s, 0));
    RoundTrip(ParseText(s).value);
  }

  /** Whatever number set_num is given, its text is kept by printing and parsing. */
  lemma NumbersSetRoundTrip(minus: bool, value: real, precision: int)
    requires value >= 0.0
    ensures var shown := DecimalText.Shown(value, precision);
      var v := Number(DecimalText.FixedText(minus, shown.0, shown.1));
      Printable(v) && ParseText(Text(v)) == Parsed(NoError, |Text(v)|, v)
  {
    hide ParseText, DecimalText.FixedText, DecimalText.Shown, IsNumber;
    var shown := DecimalText.Shown(value, precision);
    DecimalText.FixedIsNumber(minus, shown.0, shown.1);
    RoundTrip(Number(DecimalText.FixedText(minus, shown.0, shown.1)));
  }

  /** Different printable values have different texts. */
  lemma Distinguishes(v: Json, w: Json)
    requires Printable(v) && Printable(w) && Text(v) == Text(w)
    ensures v == w
  {
    hide ParseText, Text, Printable;
    RoundTrip(v);
    RoundTrip(w);
  }
}
