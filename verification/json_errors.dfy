/** What each error of parse says about the text at the position it reports. */
module JsonErrors {
  import opened Keys
  import opened JsonStrings
  import opened JsonNumbers
  import opened JsonObjects
  import opened JsonText

  predicate EndsOrNot(s: Bytes, p: nat, bytes: set<int>) { p <= |s| && (p < |s| ==> s[p] !in bytes) }

  /** A word that is begun at i and broken off at p. */
  predicate Broken(s: Bytes, i: nat, p: nat, word: Bytes) {
    i < p <= |s| && p - i < |word| && s[i..p] == word[..p - i] && (p < |s| ==> s[p] != word[p - i])
  }

  predicate NoDigit(s: Bytes, p: nat) { p <= |s| && (p < |s| ==> !(0x30 <= s[p] <= 0x39)) }

  /** A name that turned out empty. */
  ghost predicate EmptyName(s: Bytes, i: nat, p: nat) {
    i < |s| && s[i] == 0x22 && Unescape(s, i + 1, [], 0, 0).text == [] && Unescape(s, i + 1, [], 0, 0).pos == p
  }

  ghost predicate Tells(s: Bytes, code: Code, p: nat) {
    match code
    case NoError => true
    case EcArray => p == |s|
    case EcObject => EndsOrNot(s, p, {0x22, 0x7D})
    case EcObjectName => exists i :: EmptyName(s, i, p)
    case EcNoColon => EndsOrNot(s, p, {0x3A})
    case EcString => p == |s|
    case EcLiteral =>
      || (p < |s| && s[p] !in {0x5B, 0x7B, 0x22, 0x74, 0x66, 0x6E, 0x2D} && NoDigit(s, p))
      || (exists i :: Broken(s, i, p, [0x74, 0x72, 0x75, 0x65]))
      || (exists i :: Broken(s, i, p, [0x66, 0x61, 0x6C, 0x73, 0x65]))
      || (exists i :: Broken(s, i, p, [0x6E, 0x75, 0x6C, 0x6C]))
    case EcNumber => NoDigit(s, p)
  }

  lemma {:induction false} StringEnds(s: Bytes, i: nat, out: Bytes, prev: nat, run: nat)
    requires i <= |s| && run <= |out| && (prev != 0 ==> run + 3 <= |out|)
    ensures var r := Unescape(s, i, out, prev, run); r.ok || (r.text == [] && r.pos == |s|)
    decreases |s| - i
  {
    hide Utf8, FourOctets, PairPoint, HexFrom, Simple, SkipSpaces;
    if i < |s| && s[i] != QUOTE {
      if s[i] != BACKSLASH {
        StringEnds(s, i + 1, out + [s[i]], prev, run + 1);
      } else if i + 1 < |s| {
        if Simple(s[i + 1]) >= 0 {
          StringEnds(s, i + 2, out + [Simple(s[i + 1])], 0, 0);
        } else if s[i + 1] != 0x75 {
          StringEnds(s, i + 2, out + [BACKSLASH, s[i + 1]], 0, run + 2);
        } else {
          HexBelow(s, i + 2, 4, 0);
          match HexFrom(s, i + 2, 4, 0)
          case Ends =>
          case Bad(at) => StringEnds(s, at, out + s[i..at], 0, run + (at - i));
          case Value(u) =>
            if prev != 0 && IsLow(u) {
              StringEnds(s, i + 6, out[..|out| - run - 3] + FourOctets(PairPoint(prev, u)), 0, 0);
            } else {
              StringEnds(s, i + 6, out + Utf8(u), if IsHigh(u) then u else 0, 0);
            }
        }
      }
    }
  }

  lemma {:induction false} MatchStops(s: Bytes, i: nat, word: Bytes)
    requires i <= |s|
    ensures var j := MatchEnd(s, i, word); j - i < |word| && j < |s| ==> s[j] != word[j - i]
    decreases |word|
  {
    if word != [] && i < |s| && s[i] == word[0] {
      MatchStops(s, i + 1, word[1..]);
    }
  }

  lemma LiteralTells(s: Bytes, i: nat, word: Bytes, v: Json)
    requires i < |s| && word != [] && s[i] == word[0]
    ensures var r := LiteralAt(s, i, word, v);
      r.code == NoError || (r.code == EcLiteral && Broken(s, i, r.pos, word))
  {
    MatchStops(s, i, word);
  }

  lemma NumberTells(s: Bytes, i: nat)
    requires i < |s| && s[i] !in {0x5B, 0x7B, 0x22, 0x74, 0x66, 0x6E}
    ensures var r := NumberAt(s, i); Tells(s, r.code, r.pos)
  {
    hide DigitsEnd, SkipSpaces;
  }

  /** Each code names what stands at the position, wherever reading a value starts. */
  lemma {:induction false} ErrorTells(s: Bytes, i: nat)
    requires i <= |s|
    ensures var r := ValueAt(s, i); Tells(s, r.code, r.pos)
    decreases |s| - i, 0
  {
    hide Unescape, LiteralAt, NumberAt, ElemsAt, MembersAt, SkipSpaces;
    if i < |s| {
      if s[i] == OPEN_ARRAY {
        ElemsTell(s, SkipSpaces(s, i + 1), []);
      } else if s[i] == OPEN_OBJECT {
        MembersTell(s, SkipSpaces(s, i + 1), []);
      } else if s[i] == QUOTE {
        StringEnds(s, i + 1, [], 0, 0);
      } else if s[i] == TRUE[0] {
        LiteralTells(s, i, TRUE, Bool(true));
      } else if s[i] == FALSE[0] {
        LiteralTells(s, i, FALSE, Bool(false));
      } else if s[i] == NULL[0] {
        LiteralTells(s, i, NULL, Null);
      } else {
        NumberTells(s, i);
      }
    }
  }

  lemma {:induction false} ElemsTell(s: Bytes, i: nat, es: seq<Json>)
    requires i <= |s|
    ensures var r := ElemsAt(s, i, es); Tells(s, r.code, r.pos)
    decreases |s| - i, 1
  {
    hide ValueAt, SkipSpaces;
    if i < |s| && s[i] != CLOSE_ARRAY {
      ErrorTells(s, i);
      var r := ValueAt(s, i);
      if r.code == NoError { ElemsTell(s, AfterComma(s, r.pos), es + [r.value]); }
    }
  }

  lemma {:induction false} MembersTell(s: Bytes, i: nat, ms: seq<(Key, Json)>)
    requires i <= |s|
    ensures var r := MembersAt(s, i, ms); Tells(s, r.code, r.pos)
    decreases |s| - i, 1
  {
    hide ValueAt, SkipSpaces, Unescape, Put;
    if i < |s| && s[i] == QUOTE {
      var k := Unescape(s, i + 1, [], 0, 0);
      if k.text == [] {
        assert EmptyName(s, i, k.pos);
      } else if k.pos < |s| && s[k.pos] == COLON {
        var j := SkipSpaces(s, k.pos + 1);
        ErrorTells(s, j);
        var r := ValueAt(s, j);
        if r.code == NoError { MembersTell(s, AfterComma(s, r.pos), Put(ms, k.text, r.value)); }
      }
    }
  }
}
