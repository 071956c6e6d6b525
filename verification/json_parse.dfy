/** parse_value_ of ctljson.hpp as it runs: loops that advance begin, and objects filled in place. */
module JsonParse {
  import opened Keys
  import opened JsonStrings
  import opened JsonNumbers
  import opened JsonObjects
  import opened JsonText
  import opened RbShape
  import opened OB = OrderBuffer

  // ---------------------------------------------------------------- keys stay short

  /** A string is never longer than its text. */
  lemma {:induction false} UnescapeShrinks(s: seq<Byte>, i: nat, out: seq<Byte>, prev: nat, run: nat)
    requires i <= |s| && run <= |out| && (prev != 0 ==> run + 3 <= |out|)
    ensures var r := Unescape(s, i, out, prev, run); |r.text| <= |out| + (r.pos - i)
    decreases |s| - i, 1
  {
    hide Utf8, PairPoint, FourOctets, HexFrom, Simple, SkipSpaces;
    if i < |s| && s[i] != QUOTE {
      if s[i] != BACKSLASH {
        UnescapeShrinks(s, i + 1, out + [s[i]], prev, run + 1);
      } else if i + 1 < |s| {
        if Simple(s[i + 1]) >= 0 {
          UnescapeShrinks(s, i + 2, out + [Simple(s[i + 1])], 0, 0);
        } else if s[i + 1] != 0x75 {
          UnescapeShrinks(s, i + 2, out + [BACKSLASH, s[i + 1]], 0, run + 2);
        } else {
          HexShrinks(s, i, out, prev, run);
        }
      }
    }
  }

  /** The case of an escape by number, which takes six bytes for at most four. */
  lemma {:induction false} HexShrinks(s: seq<Byte>, i: nat, out: seq<Byte>, prev: nat, run: nat)
    requires i + 1 < |s| && s[i] == BACKSLASH && s[i + 1] == 0x75 && Simple(s[i + 1]) < 0
    requires run <= |out| && (prev != 0 ==> run + 3 <= |out|)
    ensures var r := Unescape(s, i, out, prev, run); |r.text| <= |out| + (r.pos - i)
    decreases |s| - i, 0
  {
    hide Utf8, PairPoint, FourOctets, HexFrom, Simple, SkipSpaces;
    HexBelow(s, i + 2, 4, 0);
    match HexFrom(s, i + 2, 4, 0)
    case Ends =>
    case Bad(at) => UnescapeShrinks(s, at, out + s[i..at], 0, run + (at - i));
    case Value(u) =>
      if prev != 0 && IsLow(u) {
        UnescapeShrinks(s, i + 6, out[..|out| - run - 3] + FourOctets(PairPoint(prev, u)), 0, 0);
      } else {
        UnescapeShrinks(s, i + 6, out + Utf8(u), if IsHigh(u) then u else 0, 0);
      }
  }

  /** No string in the text has 2^32 bytes or more, so every key fits the order buffer. */
  ghost predicate ShortStrings(s: seq<Byte>) {
    forall i :: 0 <= i < |s| && s[i] == QUOTE ==> |Unescape(s, i + 1, [], 0, 0).text| < TWO_32
  }

  lemma ShortText(s: seq<Byte>)
    requires |s| < TWO_32
    ensures ShortStrings(s)
  {
    hide Unescape;
    forall i | 0 <= i < |s| && s[i] == QUOTE ensures |Unescape(s, i + 1, [], 0, 0).text| < TWO_32 {
      UnescapeShrinks(s, i + 1, [], 0, 0);
    }
  }

  // ---------------------------------------------------------------- members and the object that holds them

  ghost predicate Holds(j: JsonObject<Json>, ms: seq<(Key, Json)>)
    reads j, j.objmap, j.objmap.nodes
  {
    j.Valid() && Filled(j.keys) && Entries(j.keys, j.objmap.contents) == ms && j.objmap.blank == Unassigned
  }

  lemma PutTwice(ms: seq<(Key, Json)>, k: Key, u: Json, v: Json)
    ensures Put(Put(ms, k, u), k, v) == Put(ms, k, v)
  {
    if ms != [] && ms[0].0 != k { PutTwice(ms[1..], k, u, v); }
  }

  // ---------------------------------------------------------------- the parser

  method ReadLiteral(s: seq<Byte>, begin0: nat, word: seq<Byte>, v0: Json) returns (ecode: Code, begin: nat, v: Json)
    requires begin0 < |s| && word != [] && s[begin0] == word[0]
    ensures Parsed(ecode, begin, v) == LiteralAt(s, begin0, word, v0)
  {
    begin := begin0;
    var i := 0;
    assert word[0..] == word;
    while i < |word|
      invariant i <= |word| && begin == begin0 + i <= |s|
      invariant MatchEnd(s, begin, word[i..]) == MatchEnd(s, begin0, word)
    {
      assert word[i..] != [] && word[i..][0] == word[i] && word[i..][1..] == word[i + 1..];
      if begin == |s| || s[begin] != word[i] { return EcLiteral, begin, Unassigned; }
      begin, i := begin + 1, i + 1;
    }
    return NoError, begin, v0;
  }

  method ReadNumber(s: seq<Byte>, begin0: nat) returns (ecode: Code, begin: nat, v: Json)
    requires begin0 < |s|
    ensures Parsed(ecode, begin, v) == NumberAt(s, begin0)
  {
    hide UnsignedEnd;
    begin, v := begin0, Unassigned;
    var minus := s[begin] == MINUS;
    if minus { begin := begin + 1; }
    if begin == |s| { return NoError, begin, v; }
    ecode, begin := ReadUnsigned(s, begin, minus);
    if ecode == NoError {
      v := Number(s[begin0..begin]);
      begin := Spaces(s, begin);
    }
  }

  method ReadValue(s: seq<Byte>, begin0: nat) returns (ecode: Code, begin: nat, v: Json)
    requires begin0 <= |s| && ShortStrings(s)
    ensures Parsed(ecode, begin, v) == ValueAt(s, begin0)
    decreases |s| - begin0, 0
  {
    hide ElemsAt, MembersAt, LiteralAt, NumberAt, Unescape, SkipSpaces;
    begin := begin0;
    if begin == |s| { return NoError, begin, Unassigned; }
    if s[begin] == OPEN_ARRAY {
      begin := Spaces(s, begin + 1);
      ecode, begin, v := ReadElems(s, begin);
    } else if s[begin] == OPEN_OBJECT {
      begin := Spaces(s, begin + 1);
      ecode, begin, v := ReadMembers(s, begin);
    } else if s[begin] == QUOTE {
      var ok, text;
      ok, text, begin := ParseString([], s, begin + 1);
      return if ok then NoError else EcString, begin, if ok then Str(text) else Unassigned;
    } else if s[begin] == TRUE[0] {
      ecode, begin, v := ReadLiteral(s, begin, TRUE, Bool(true));
    } else if s[begin] == FALSE[0] {
      ecode, begin, v := ReadLiteral(s, begin, FALSE, Bool(false));
    } else if s[begin] == NULL[0] {
      ecode, begin, v := ReadLiteral(s, begin, NULL, Null);
    } else {
      ecode, begin, v := ReadNumber(s, begin);
    }
  }

  method ReadElems(s: seq<Byte>, begin0: nat) returns (ecode: Code, begin: nat, v: Json)
    requires begin0 <= |s| && ShortStrings(s)
    ensures Parsed(ecode, begin, v) == ElemsAt(s, begin0, [])
    decreases |s| - begin0, 1
  {
    hide ValueAt, SkipSpaces;
    begin := begin0;
    var elems: seq<Json> := [];
    while true
      invariant begin0 <= begin <= |s| && ElemsAt(s, begin, elems) == ElemsAt(s, begin0, [])
      decreases |s| - begin
    {
      if begin == |s| { return EcArray, begin, Array(elems); }
      if s[begin] == CLOSE_ARRAY {
        begin := Spaces(s, begin + 1);
        return NoError, begin, Array(elems);
      }
      ecode, begin, v := ReadValue(s, begin);
      elems := elems + [v];
      if ecode != NoError { return ecode, begin, Array(elems); }
      if begin != |s| && s[begin] == COMMA { begin := Spaces(s, begin + 1); }
    }
  }

  method ReadMembers(s: seq<Byte>, begin0: nat) returns (ecode: Code, begin: nat, v: Json)
    requires begin0 <= |s| && ShortStrings(s)
    ensures Parsed(ecode, begin, v) == MembersAt(s, begin0, [])
    decreases |s| - begin0, 1
  {
    hide ValueAt, SkipSpaces, Unescape, Lists, Entries, Put, Encode;
    begin := begin0;
    var j := new JsonObject<Json>(Unassigned);
    hide j.objmap.Valid;
    ghost var ms := Entries(j.keys, j.objmap.contents);
    NoEntries(j.keys, j.objmap.contents);
    while true
      invariant fresh(j) && fresh(j.objmap) && fresh(j.objmap.nodes) && Holds(j, ms)
      invariant begin0 <= begin <= |s| && MembersAt(s, begin, ms) == MembersAt(s, begin0, [])
      decreases |s| - begin
    {
      if begin == |s| || (s[begin] != CLOSE_OBJECT && s[begin] != QUOTE) {
        var members := TakeMembers(j, ms);
        return EcObject, begin, Object(members);
      }
      if s[begin] == CLOSE_OBJECT {
        begin := Spaces(s, begin + 1);
        var members := TakeMembers(j, ms);
        return NoError, begin, Object(members);
      }
      ecode, begin, ms := ReadMember(j, s, begin, ms);
      if ecode != NoError {
        var members := TakeMembers(j, ms);
        return ecode, begin, Object(members);
      }
    }
  }

  /** The members of a parsed object; none has an empty key, so all are reached. */
  method TakeMembers(j: JsonObject<Json>, ghost ms: seq<(Key, Json)>) returns (members: seq<(Key, Json)>)
    requires Holds(j, ms)
    ensures members == ms
  {
    hide j.objmap.Valid, Encode;
    members := j.Members();
  }

  method TakeSlot(j: JsonObject<Json>, key: Key, ghost ms: seq<(Key, Json)>) returns (n: Node<Json>)
    requires Holds(j, ms) && Storable(key) && key != []
    modifies j, j.objmap, j.objmap.nodes
    ensures Holds(j, Put(ms, key, Unassigned)) && fresh(j.objmap.nodes - old(j.objmap.nodes))
    ensures n in j.objmap.nodes && n.key == key
  {
    hide Lists, Entries, Put, Encode, j.objmap.Valid, j.Valid;
    PutEntriesIn(j, key, Unassigned);
    n := j.Slot(key);
  }

  method FillSlot(j: JsonObject<Json>, n: Node<Json>, v: Json, ghost ms: seq<(Key, Json)>)
    requires Holds(j, ms) && n in j.objmap.nodes
    modifies n`value, j.objmap`contents
    ensures Holds(j, Put(ms, n.key, v))
  {
    hide Entries, Put, Encode, j.objmap.Valid;
    PutEntriesIn(j, n.key, v);
    j.NodeKey(n);
    j.Fill(n, v);
  }

  /** The reading of members, one round further. */
  lemma MembersRound(s: seq<Byte>, i: nat, ms: seq<(Key, Json)>)
    requires i < |s| && s[i] == QUOTE
    ensures var k := Unescape(s, i + 1, [], 0, 0);
      MembersAt(s, i, ms) ==
      if k.text == [] then Parsed(EcObjectName, k.pos, Object(ms))
      else if k.pos == |s| || s[k.pos] != COLON then Parsed(EcNoColon, k.pos, Object(Put(ms, k.text, Unassigned)))
      else
        var r := ValueAt(s, SkipSpaces(s, k.pos + 1));
        var ms' := Put(ms, k.text, r.value);
        if r.code != NoError then Parsed(r.code, r.pos, Object(ms')) else MembersAt(s, AfterComma(s, r.pos), ms')
  {
    hide Unescape, ValueAt, SkipSpaces, Put;
  }

  /** One round of the loop over members: the key, its slot, the colon, the value, and a comma if there is one. */
  method ReadMember(j: JsonObject<Json>, s: seq<Byte>, begin0: nat, ghost ms: seq<(Key, Json)>)
    returns (ecode: Code, begin: nat, ghost ms': seq<(Key, Json)>)
    requires begin0 < |s| && s[begin0] == QUOTE && ShortStrings(s) && Holds(j, ms)
    modifies j, j.objmap, j.objmap.nodes
    ensures Holds(j, ms') && fresh(j.objmap.nodes - old(j.objmap.nodes))
    ensures begin0 < begin <= |s|
    ensures MembersAt(s, begin0, ms) == if ecode == NoError then MembersAt(s, begin, ms')
        else Parsed(ecode, begin, Object(ms'))
    decreases |s| - begin0, 0
  {
    hide ValueAt, SkipSpaces, Unescape, Put, Holds, MembersAt;
    MembersRound(s, begin0, ms);
    var closed, key;
    closed, key, begin := ParseString([], s, begin0 + 1);
    ms' := ms;
    if key == [] { return EcObjectName, begin, ms'; }
    var newnode := TakeSlot(j, key, ms);
    ms' := Put(ms, key, Unassigned);
    if begin == |s| || s[begin] != COLON { return EcNoColon, begin, ms'; }
    begin := Spaces(s, begin + 1);
    var v;
    ecode, begin, v := ReadValue(s, begin);
    FillSlot(j, newnode, v, ms');
    PutTwice(ms, key, Unassigned, v);
    ms' := Put(ms, key, v);
    if ecode != NoError { return ecode, begin, ms'; }
    if begin != |s| && s[begin] == COMMA { begin := Spaces(s, begin + 1); }
  }

  lemma NoEntries(keys: seq<Key>, m: map<Key, Json>)
    requires keys == []
    ensures Entries(keys, m) == []
  {}

  lemma PutEntriesIn(j: JsonObject<Json>, key: Key, v: Json)
    requires j.Valid()
    ensures forall k :: k in KeyPut(j.keys, key) ==> k in j.objmap.contents[key := v]
    ensures Entries(KeyPut(j.keys, key), j.objmap.contents[key := v]) == Put(Entries(j.keys, j.objmap.contents), key, v)
    ensures key in j.keys ==> KeyPut(j.keys, key) == j.keys
    ensures forall k :: k in j.keys ==> k in j.objmap.contents
  {
    hide j.objmap.Valid;
    PutEntries(j.keys, j.objmap.contents, key, v);
  }

  /** parse: the position of an error is reported, and 0 on success. */
  method Parse(s: seq<Byte>) returns (ok: bool, code: Code, pos: nat, v: Json)
    requires ShortStrings(s)
    ensures var r := ParseText(s);
      ok == (r.code == NoError) && code == r.code && v == r.value && pos == if ok then 0 else r.pos
  {
    hide ValueAt, SkipSpaces;
    var begin := Spaces(s, 0);
    code, begin, v := ReadValue(s, begin);
    ok := code == NoError;
    pos := if ok then 0 else begin;
  }
}
