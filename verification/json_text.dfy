/** JSON values as text: parse_value_ and value_to_string_ of ctljson.hpp. */
module JsonText {
  import opened Basics
  import opened Keys
  import opened JsonStrings
  import opened JsonNumbers
  import opened JsonObjects
  import OrderBuffer

  /** A value as a caller sees it; the members of an object stand in the order of its keys. */
  datatype Json =
    | Unassigned
    | Null
    | Bool(b: bool)
    | Number(digits: Bytes)
    | Str(text: Bytes)
    | Array(elems: seq<Json>)
    | Object(members: seq<(Key, Json)>)

  const COMMA: Byte := 0x2C
  const COLON: Byte := 0x3A
  const OPEN_ARRAY: Byte := 0x5B
  const CLOSE_ARRAY: Byte := 0x5D
  const OPEN_OBJECT: Byte := 0x7B
  const CLOSE_OBJECT: Byte := 0x7D

  const TRUE: Bytes := [0x74, 0x72, 0x75, 0x65]
  const FALSE: Bytes := [0x66, 0x61, 0x6C, 0x73, 0x65]
  const NULL: Bytes := [0x6E, 0x75, 0x6C, 0x6C]

  // ---------------------------------------------------------------- the printed form

  /** The compact text of a value. */
  function Text(v: Json): (t: Bytes)
    ensures t == [] ==> v.Number?
    decreases v
  {
    match v
    case Unassigned => NULL
    case Null => NULL
    case Bool(b) => if b then TRUE else FALSE
    case Number(digits) => digits
    case Str(text) => Quoted(text)
    case Array(elems) => [OPEN_ARRAY] + ElemsText(elems) + [CLOSE_ARRAY]
    case Object(members) => [OPEN_OBJECT] + MembersText(members) + [CLOSE_OBJECT]
  }

  function Quoted(s: Bytes): Bytes { [QUOTE] + Escape(s) + [QUOTE] }

  /** Elements between commas, none after the last. */
  function ElemsText(es: seq<Json>): Bytes
    decreases es
  {
    if es == [] then [] else Text(es[0]) + (if |es| == 1 then [] else [COMMA] + ElemsText(es[1..]))
  }

  function MemberText(m: (Key, Json)): Bytes
    decreases m
  {
    Quoted(m.0) + [COLON] + Text(m.1)
  }

  function MembersText(ms: seq<(Key, Json)>): Bytes
    decreases ms
  {
    if ms == [] then [] else MemberText(ms[0]) + (if |ms| == 1 then [] else [COMMA] + MembersText(ms[1..]))
  }

  // ---------------------------------------------------------------- the reading

  /** Where reading a value stops, with which code, and what is in the node then. */
  datatype Parsed = Parsed(code: Code, pos: nat, value: Json)

  /** The end of the common prefix of a word and the text from i on. */
  function MatchEnd(s: Bytes, i: nat, word: Bytes): (j: nat)
    requires i <= |s|
    ensures i <= j <= |s| && j <= i + |word| && s[i..j] == word[..j - i]
    decreases |word|
  {
    if word == [] || i == |s| || s[i] != word[0] then i
    else
      var j := MatchEnd(s, i + 1, word[1..]);
      assert s[i..j] == [s[i]] + s[i + 1..j] && word[..j - i] == [word[0]] + word[1..][..j - i - 1];
      j
  }

  function LiteralAt(s: Bytes, i: nat, word: Bytes, v: Json): Parsed
    requires i <= |s|
  {
    var j := MatchEnd(s, i, word);
    if j == i + |word| then Parsed(NoError, j, v) else Parsed(EcLiteral, j, Unassigned)
  }

  function NumberAt(s: Bytes, i: nat): Parsed
    requires i < |s|
  {
    var minus := s[i] == MINUS;
    var a := if minus then i + 1 else i;
    if a == |s| then Parsed(NoError, a, Unassigned)
    else match UnsignedEnd(s, a, minus)
      case Go(e) => Parsed(NoError, SkipSpaces(s, e), Number(s[i..e]))
      case Stop(code, e) => Parsed(code, e, Unassigned)
  }

  function StringAt(s: Bytes, i: nat): Parsed
    requires i < |s|
  {
    var r := Unescape(s, i + 1, [], 0, 0);
    if r.ok then Parsed(NoError, r.pos, Str(r.text)) else Parsed(EcString, r.pos, Unassigned)
  }

  /** A comma after an element may be missing, and one after the last is let pass. */
  function AfterComma(s: Bytes, p: nat): (q: nat)
    requires p <= |s|
    ensures p <= q <= |s|
  {
    if p < |s| && s[p] == COMMA then SkipSpaces(s, p + 1) else p
  }

  function ValueAt(s: Bytes, i: nat): (r: Parsed)
    requires i <= |s|
    ensures i <= r.pos <= |s| && (r.code == NoError && i < |s| ==> i < r.pos)
    decreases |s| - i, 0
  {
    if i == |s| then Parsed(NoError, i, Unassigned)
    else if s[i] == OPEN_ARRAY then ElemsAt(s, SkipSpaces(s, i + 1), [])
    else if s[i] == OPEN_OBJECT then MembersAt(s, SkipSpaces(s, i + 1), [])
    else if s[i] == QUOTE then StringAt(s, i)
    else if s[i] == TRUE[0] then LiteralAt(s, i, TRUE, Bool(true))
    else if s[i] == FALSE[0] then LiteralAt(s, i, FALSE, Bool(false))
    else if s[i] == NULL[0] then LiteralAt(s, i, NULL, Null)
    else NumberAt(s, i)
  }

  /** The loop over the elements of an array, with those read so far. */
  function ElemsAt(s: Bytes, i: nat, es: seq<Json>): (r: Parsed)
    requires i <= |s|
    ensures i <= r.pos <= |s|
    decreases |s| - i, 1
  {
    if i == |s| then Parsed(EcArray, i, Array(es))
    else if s[i] == CLOSE_ARRAY then Parsed(NoError, SkipSpaces(s, i + 1), Array(es))
    else
      var r := ValueAt(s, i);
      if r.code != NoError then Parsed(r.code, r.pos, Array(es + [r.value]))
      else ElemsAt(s, AfterComma(s, r.pos), es + [r.value])
  }

  /** The loop over the members of an object, with those read so far. */
  function MembersAt(s: Bytes, i: nat, ms: seq<(Key, Json)>): (r: Parsed)
    requires i <= |s|
    ensures i <= r.pos <= |s|
    decreases |s| - i, 1
  {
    if i == |s| then Parsed(EcObject, i, Object(ms))
    else if s[i] == CLOSE_OBJECT then Parsed(NoError, SkipSpaces(s, i + 1), Object(ms))
    else if s[i] != QUOTE then Parsed(EcObject, i, Object(ms))
    else
      var k := Unescape(s, i + 1, [], 0, 0);
      if k.text == [] then Parsed(EcObjectName, k.pos, Object(ms))
      else if k.pos == |s| || s[k.pos] != COLON then Parsed(EcNoColon, k.pos, Object(Put(ms, k.text, Unassigned)))
      else
        var r := ValueAt(s, SkipSpaces(s, k.pos + 1));
        var ms' := Put(ms, k.text, r.value);
        if r.code != NoError then Parsed(r.code, r.pos, Object(ms'))
        else MembersAt(s, AfterComma(s, r.pos), ms')
  }

  /** parse: leading spaces are skipped; what follows the value is not looked at. */
  function ParseText(s: Bytes): Parsed { ValueAt(s, SkipSpaces(s, 0)) }

  // ---------------------------------------------------------------- methods: printing

  /** All elements, each followed by a comma: what the loops write before the last comma is overwritten. */
  function Listed(es: seq<Json>): Bytes {
    if es == [] then [] else Listed(es[..|es| - 1]) + Text(es[|es| - 1]) + [COMMA]
  }

  function ListedMembers(ms: seq<(Key, Json)>): Bytes {
    if ms == [] then [] else ListedMembers(ms[..|ms| - 1]) + MemberText(ms[|ms| - 1]) + [COMMA]
  }

  lemma {:induction false} ElemsTextAppend(es: seq<Json>, e: Json)
    ensures ElemsText(es + [e]) == ElemsText(es) + (if es == [] then [] else [COMMA]) + Text(e)
  {
    hide Text;
    if es == [] {
      assert es + [e] == [e];
    } else {
      var rest := es[1..];
      assert (es + [e])[0] == es[0] && (es + [e])[1..] == rest + [e];
      ElemsTextAppend(rest, e);
      CommaBetween(Text(es[0]), ElemsText(rest), Text(e));
      if |es| == 1 { assert rest == []; }
    }
  }

  lemma {:induction false} MembersTextAppend(ms: seq<(Key, Json)>, m: (Key, Json))
    ensures MembersText(ms + [m]) == MembersText(ms) + (if ms == [] then [] else [COMMA]) + MemberText(m)
  {
    hide MemberText;
    if ms == [] {
      assert ms + [m] == [m];
    } else {
      var rest := ms[1..];
      assert (ms + [m])[0] == ms[0] && (ms + [m])[1..] == rest + [m];
      MembersTextAppend(rest, m);
      CommaBetween(MemberText(ms[0]), MembersText(rest), MemberText(m));
      if |ms| == 1 { assert rest == []; }
    }
  }

  lemma CommaBetween(a: Bytes, b: Bytes, c: Bytes)
    ensures a + ([COMMA] + (b + [COMMA] + c)) == a + ([COMMA] + b) + [COMMA] + c
    ensures a + ([COMMA] + ([] + [] + c)) == a + [] + [COMMA] + c
  {}

  lemma {:induction false} ListedIs(es: seq<Json>)
    ensures Listed(es) == ElemsText(es) + (if es == [] then [] else [COMMA])
  {
    if es != [] {
      var n := |es| - 1;
      ListedIs(es[..n]);
      assert es == es[..n] + [es[n]];
      ElemsTextAppend(es[..n], es[n]);
    }
  }

  lemma {:induction false} ListedMembersIs(ms: seq<(Key, Json)>)
    ensures ListedMembers(ms) == MembersText(ms) + (if ms == [] then [] else [COMMA])
  {
    if ms != [] {
      var n := |ms| - 1;
      ListedMembersIs(ms[..n]);
      assert ms == ms[..n] + [ms[n]];
      MembersTextAppend(ms[..n], ms[n]);
    }
  }

  /** value_to_string_. */
  method PrintOnto(out0: Bytes, v: Json) returns (out: Bytes)
    ensures out == out0 + Text(v)
    decreases v, 1
  {
    hide ElemsText, MembersText, Escape;
    match v {
      case Unassigned => out := out0 + NULL;
      case Null => out := out0 + NULL;
      case Bool(b) => out := out0 + if b then TRUE else FALSE;
      case Number(digits) => out := out0 + digits;
      case Str(text) =>
        out := EscapeOnto(out0 + [QUOTE], text);
        out := out + [QUOTE];
      case Array(elems) =>
        out := PrintElems(out0 + [OPEN_ARRAY], elems);
        ArrayText(out0, elems);
      case Object(members) =>
        out := PrintMembers(out0 + [OPEN_OBJECT], members);
        ObjectText(out0, members);
    }
  }

  method PrintElems(out0: Bytes, elems: seq<Json>) returns (out: Bytes)
    ensures out == out0 + (ElemsText(elems) + [CLOSE_ARRAY])
    decreases elems, 0
  {
    hide Text, ElemsText;
    out := out0;
    var i := 0;
    while i < |elems|
      invariant i <= |elems| && out == out0 + Listed(elems[..i])
    {
      assert elems[..i + 1][..i] == elems[..i];
      out := PrintOnto(out, elems[i]);
      out := out + [COMMA];
      i := i + 1;
    }
    assert elems[..i] == elems;
    ListedIs(elems);
    if |out| != |out0| {
      out := out[|out| - 1 := CLOSE_ARRAY];
    } else {
      EmptyList();
      out := out + [CLOSE_ARRAY];
    }
  }

  method PrintMembers(out0: Bytes, members: seq<(Key, Json)>) returns (out: Bytes)
    ensures out == out0 + (MembersText(members) + [CLOSE_OBJECT])
    decreases members, 0
  {
    hide Text, MembersText, MemberText;
    out := out0;
    var i := 0;
    while i < |members|
      invariant i <= |members| && out == out0 + ListedMembers(members[..i])
    {
      assert members[..i + 1][..i] == members[..i];
      out := PrintMember(out, members[i]);
      out := out + [COMMA];
      i := i + 1;
    }
    assert members[..i] == members;
    ObjectCloses(out0, members);
    if |out| != |out0| {
      out := out[|out| - 1 := CLOSE_OBJECT];
    } else {
      out := out + [CLOSE_OBJECT];
    }
  }

  method PrintMember(out0: Bytes, member: (Key, Json)) returns (out: Bytes)
    ensures out == out0 + MemberText(member)
    decreases member, 0
  {
    out := EscapeOnto(out0 + [QUOTE], member.0);
    out := out + [QUOTE, COLON];
    out := PrintOnto(out, member.1);
  }

  /** One round of the loop over the order buffer: the key there, looked up in the tree, and what is printed for it. */
  method PrintNext(out0: Bytes, j: JsonObject<Json>, pos0: nat, ghost n: nat) returns (out: Bytes, pos: nat)
    requires j.Valid() && n < |OrderBuffer.Reached(j.keys)| && pos0 == |OrderBuffer.Encode(j.keys[..n])|
    ensures pos == |OrderBuffer.Encode(j.keys[..n + 1])|
    ensures j.keys[n] in j.objmap.contents
    ensures out == out0 + MemberText((j.keys[n], j.objmap.contents[j.keys[n]])) + [COMMA]
  {
    hide MemberText, OrderBuffer.Reached, OrderBuffer.Encode, j.objmap.Valid;
    var it;
    it, pos := j.MemberAt(pos0, n);
    out := out0;
    if it != null {
      out := PrintMember(out, (it.key, it.value));
      out := out + [COMMA];
    }
  }

  lemma ListedMore(start: Bytes, ms: seq<(Key, Json)>, n: nat)
    requires n < |ms|
    ensures start + ListedMembers(ms[..n + 1]) == start + ListedMembers(ms[..n]) + MemberText(ms[n]) + [COMMA]
  {
    hide MemberText;
    assert ms[..n + 1][..n] == ms[..n];
    Assoc(start, ListedMembers(ms[..n]) + MemberText(ms[n]), [COMMA]);
    Assoc(start, ListedMembers(ms[..n]), MemberText(ms[n]));
  }

  /** The object case of value_to_string_ on the object itself: one loop over the order buffer, each key looked up in
      the tree. */
  method PrintObject(out0: Bytes, j: JsonObject<Json>) returns (out: Bytes)
    requires j.Valid()
    ensures out == out0 + Text(Object(Entries(OrderBuffer.Reached(j.keys), j.objmap.contents)))
  {
    hide Text, MembersText, MemberText, ListedMembers, j.objmap.Valid;
    hide OrderBuffer.Reached, OrderBuffer.Encode, OrderBuffer.NoDup, OrderBuffer.Short;
    ghost var ms := Entries(OrderBuffer.Reached(j.keys), j.objmap.contents);
    out := out0 + [OPEN_OBJECT];
    var base := |out|;
    var pos := 0;
    ghost var n := 0;
    ghost var start := out;
    PrintStarts(j, start, ms);
    while pos + OrderBuffer.KEYLEN_SIZE < |j.order|
      invariant n <= |ms| && pos == |OrderBuffer.Encode(j.keys[..n])| && out == start + ListedMembers(ms[..n])
      decreases |ms| - n
    {
      OrderBuffer.ReachedGuard(j.keys, n);
      ListedMore(start, ms, n);
      out, pos := PrintNext(out, j, pos, n);
      n := n + 1;
    }
    OrderBuffer.ReachedGuard(j.keys, n);
    assert ms[..n] == ms;
    ObjectCloses(start, ms);
    ObjectText(out0, ms);
    out := if |out| != base then out[|out| - 1 := CLOSE_OBJECT] else out + [CLOSE_OBJECT];
  }

  lemma PrintStarts(j: JsonObject<Json>, start: Bytes, ms: seq<(Key, Json)>)
    requires j.Valid()
    ensures j.order == OrderBuffer.Encode(j.keys) && |OrderBuffer.Encode(j.keys[..0])| == 0
    ensures start + ListedMembers(ms[..0]) == start
  {}

  /** The bracket goes over the comma after the last member, or behind the opening bracket. */
  lemma ObjectCloses(start: Bytes, ms: seq<(Key, Json)>)
    ensures var out := start + ListedMembers(ms);
      (if |out| != |start| then out[|out| - 1 := CLOSE_OBJECT] else out + [CLOSE_OBJECT])
      == start + (MembersText(ms) + [CLOSE_OBJECT])
  {
    hide Text, MembersText, MemberText;
    ListedMembersIs(ms);
    EmptyList();
  }

  lemma ArrayText(out0: Bytes, es: seq<Json>)
    ensures out0 + [OPEN_ARRAY] + (ElemsText(es) + [CLOSE_ARRAY]) == out0 + Text(Array(es))
  {
    hide ElemsText;
    assert Text(Array(es)) == [OPEN_ARRAY] + (ElemsText(es) + [CLOSE_ARRAY]);
  }

  lemma ObjectText(out0: Bytes, ms: seq<(Key, Json)>)
    ensures out0 + [OPEN_OBJECT] + (MembersText(ms) + [CLOSE_OBJECT]) == out0 + Text(Object(ms))
  {
    hide MembersText;
    assert Text(Object(ms)) == [OPEN_OBJECT] + (MembersText(ms) + [CLOSE_OBJECT]);
  }

  lemma EmptyList()
    ensures ElemsText([]) == [] && MembersText([]) == []
  {}
}
