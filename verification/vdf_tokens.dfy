/** VDF text as tokens with spaces and comments between them: what the parser of vdf_text.cpp makes of it. */
module VdfTokens {
  import opened Basics
  import opened Keys
  import opened VdfText

  // ---------------------------------------------------------------- tokens and gaps

  /** A quoted word as it stands between its quotes, or a brace. */
  datatype Token = Word(raw: Text) | OpenBrace | CloseBrace

  /** A space, or a comment up to its newline. */
  datatype Piece = Space(b: Byte) | Comment(body: Text)
  {
    predicate Valid() { if Space? then b == 0x20 || 0x09 <= b <= 0x0D else 0x0A !in body }
    function Chars(): Text { if Space? then [b] else [0x2F, 0x2F] + body + [0x0A] }
  }

  type Gap = seq<Piece>

  /** A token and what stands before it. */
  datatype Spaced = Spaced(gap: Gap, tok: Token)

  predicate GapOk(g: Gap) { forall i :: 0 <= i < |g| ==> g[i].Valid() }

  /** Words are complete: no bare quote inside, no backslash at the end. */
  predicate Complete(raw: Text) {
    raw == []
    || (if raw[0] == 0x5C then |raw| >= 2 && Complete(raw[2..]) else raw[0] != 0x22 && Complete(raw[1..]))
  }

  /** A backslash makes n a newline and t a tab, and leaves any other byte as it is. */
  function Decode(raw: Text): Text
    requires Complete(raw)
  {
    if raw == [] then []
    else if raw[0] == 0x5C && raw[1] == 0x6E then [0x0A] + Decode(raw[2..])
    else if raw[0] == 0x5C && raw[1] == 0x74 then [0x09] + Decode(raw[2..])
    else if raw[0] == 0x5C then [raw[1]] + Decode(raw[2..])
    else [raw[0]] + Decode(raw[1..])
  }

  predicate WellSpaced(ts: seq<Spaced>) {
    forall i :: 0 <= i < |ts| ==> GapOk(ts[i].gap) && (ts[i].tok.Word? ==> Complete(ts[i].tok.raw))
  }

  function GapText(g: Gap): Text { if g == [] then [] else g[0].Chars() + GapText(g[1..]) }

  function TokenText(t: Token): (r: Text)
    ensures |r| >= 1
  {
    match t
    case Word(raw) => [0x22] + raw + [0x22]
    case OpenBrace => [0x7B]
    case CloseBrace => [0x7D]
  }

  /** The whole text: every token behind its gap, and a last gap. */
  function Render(ts: seq<Spaced>, last: Gap): Text {
    if ts == [] then GapText(last) else GapText(ts[0].gap) + (TokenText(ts[0].tok) + Render(ts[1..], last))
  }

  function Tokens(ts: seq<Spaced>): (r: seq<Token>)
    ensures |r| == |ts| && forall i :: 0 <= i < |ts| ==> r[i] == ts[i].tok
  {
    seq(|ts|, i requires 0 <= i < |ts| => ts[i].tok)
  }

  // ---------------------------------------------------------------- the grammar on tokens

  datatype Outcome = Done(m: map<Text, Value>, next: nat) | Fails | Ends

  predicate AllComplete(toks: seq<Token>) { forall i :: 0 <= i < |toks| && toks[i].Word? ==> Complete(toks[i].raw) }

  function MemberOf(toks: seq<Token>, k: nat, m: map<Text, Value>): (r: Outcome)
    requires k <= |toks| && AllComplete(toks)
    ensures r.Done? ==> k < r.next <= |toks|
    decreases |toks| - k, 0
  {
    if k == |toks| then Ends
    else if !toks[k].Word? then Fails
    else if k + 1 == |toks| then Ends
    else match toks[k + 1]
      case CloseBrace => Fails
      case Word(raw) => Done(m[Decode(toks[k].raw) := Str(Decode(raw))], k + 2)
      case OpenBrace =>
        var sub := ObjectOf(toks, k + 2, map[]);
        if sub.Done? then Done(m[Decode(toks[k].raw) := Obj(sub.m)], sub.next) else sub
  }

  function ObjectOf(toks: seq<Token>, k: nat, m: map<Text, Value>): (r: Outcome)
    requires k <= |toks| && AllComplete(toks)
    ensures r.Done? ==> k < r.next <= |toks|
    decreases |toks| - k, 1
  {
    if k == |toks| then Ends
    else if toks[k].CloseBrace? then Done(m, k + 1)
    else
      var r := MemberOf(toks, k, m);
      if r.Done? then ObjectOf(toks, r.next, r.m) else r
  }

  function RootOf(toks: seq<Token>, k: nat, m: map<Text, Value>): Outcome
    requires k <= |toks| && AllComplete(toks)
    decreases |toks| - k
  {
    if k == |toks| then Done(m, k)
    else
      var r := MemberOf(toks, k, m);
      if r.Done? then RootOf(toks, r.next, r.m) else r
  }

  // ---------------------------------------------------------------- bytes against tokens

  predicate Follows(s: Text, i: nat, t: Text) { i <= |s| && s[i..] == t }

  lemma Advance(s: Text, i: nat, a: Text, b: Text)
    requires Follows(s, i, a + b)
    ensures Follows(s, i + |a|, b)
    ensures a != [] ==> i < |s| && s[i] == a[0]
  {
    var t := s[i..];
    assert t[|a|..] == b && s[i + |a|..] == t[|a|..];
    assert a != [] ==> t[0] == a[0];
  }

  lemma {:induction false} LineEndAt(s: Text, i: nat, body: Text, rest: Text)
    requires NEWLINE !in body && Follows(s, i, body + ([NEWLINE] + rest))
    ensures LineEnd(s, i) == i + |body|
    decreases |body|
  {
    if body == [] {
      Advance(s, i, [NEWLINE], rest);
      assert [] + ([NEWLINE] + rest) == [NEWLINE] + rest;
    } else {
      assert body + ([NEWLINE] + rest) == [body[0]] + (body[1..] + ([NEWLINE] + rest));
      Advance(s, i, [body[0]], body[1..] + ([NEWLINE] + rest));
      LineEndAt(s, i + 1, body[1..], rest);
    }
  }

  lemma SkipsPiece(s: Text, i: nat, p: Piece, more: Text)
    requires p.Valid() && Follows(s, i, p.Chars() + more)
    ensures i + |p.Chars()| <= |s| && SkipWs(s, i) == SkipWs(s, i + |p.Chars()|)
    ensures Follows(s, i + |p.Chars()|, more)
  {
    hide LineEnd, Follows;
    Advance(s, i, p.Chars(), more);
    if p.Comment? {
      hide SkipWs;
      SkipsComment(s, i, p.body, more);
    }
    InsideText(s, i + |p.Chars()|, more);
  }

  lemma InsideText(s: Text, i: nat, t: Text)
    requires Follows(s, i, t)
    ensures i <= |s|
  {}

  lemma SkipsComment(s: Text, i: nat, body: Text, more: Text)
    requires NEWLINE !in body && Follows(s, i, [SLASH, SLASH] + body + [NEWLINE] + more)
    ensures i + 3 + |body| <= |s| && SkipWs(s, i) == SkipWs(s, i + 3 + |body|)
  {
    hide SkipWs, LineEnd, Follows;
    var tail := [NEWLINE] + more;
    Assoc([SLASH, SLASH] + body, [NEWLINE], more);
    Assoc([SLASH, SLASH], body, tail);
    assert [SLASH, SLASH] == [SLASH] + [SLASH];
    Assoc([SLASH], [SLASH], body + tail);
    Advance(s, i, [SLASH], [SLASH] + (body + tail));
    Advance(s, i + 1, [SLASH], body + tail);
    LineEndAt(s, i + 2, body, more);
    Advance(s, i + 2, body, tail);
    Advance(s, i + 2 + |body|, [NEWLINE], more);
    SkipsTo(s, i, i + 2 + |body|);
  }

  lemma SkipsTo(s: Text, i: nat, e: nat)
    requires CommentAt(s, i) && LineEnd(s, i + 2) == e < |s| && s[e] == NEWLINE
    ensures SkipWs(s, i) == SkipWs(s, e + 1)
  {
    assert SkipWs(s, e) == SkipWs(s, e + 1);
  }

  /** A gap is skipped whole, up to the token or the end behind it. */
  lemma {:induction false} SkipsGap(s: Text, i: nat, g: Gap, rest: Text)
    requires GapOk(g) && Follows(s, i, GapText(g) + rest)
    requires rest != [] ==> !IsSpace(rest[0]) && rest[0] != SLASH
    ensures SkipWs(s, i) == i + |GapText(g)|
    decreases |g|
  {
    hide SkipWs, Follows, GapOk;
    if g == [] {
      assert [] + rest == rest;
      SkipsNone(s, i, rest);
    } else {
      var c, more := g[0].Chars(), GapText(g[1..]) + rest;
      GapFirst(g, rest);
      SkipsPiece(s, i, g[0], more);
      SkipsGap(s, i + |c|, g[1..], rest);
    }
  }

  lemma GapFirst(g: Gap, rest: Text)
    requires g != [] && GapOk(g)
    ensures g[0].Valid() && GapOk(g[1..]) && |GapText(g)| == |g[0].Chars()| + |GapText(g[1..])|
    ensures GapText(g) + rest == g[0].Chars() + (GapText(g[1..]) + rest)
  {
    Assoc(g[0].Chars(), GapText(g[1..]), rest);
  }

  lemma SkipsNone(s: Text, i: nat, rest: Text)
    requires Follows(s, i, rest) && (rest != [] ==> !IsSpace(rest[0]) && rest[0] != SLASH)
    ensures SkipWs(s, i) == i
  {
    if rest != [] { assert s[i..][0] == s[i]; }
  }

  lemma QuotedNext(s: Text, i: nat, out: Text)
    requires i < |s|
    ensures s[i] == 0x5C && i + 1 < |s| ==> Quoted(s, i, out) == Quoted(s, i + 2, out + [Unescaped(s[i + 1])])
    ensures s[i] != 0x5C && s[i] != 0x22 ==> Quoted(s, i, out) == Quoted(s, i + 1, out + [s[i]])
  {
    hide Unescaped;
  }

  /** Complete text between quotes is read as its decoding, whatever follows. */
  lemma {:induction false} ReadsOn(s: Text, i: nat, raw: Text, rest: Text, out: Text)
    requires Complete(raw) && Follows(s, i, raw + rest)
    ensures i + |raw| <= |s| && Follows(s, i + |raw|, rest)
    ensures Quoted(s, i, out) == Quoted(s, i + |raw|, out + Decode(raw))
    decreases |raw|
  {
    hide Follows, Quoted;
    Advance(s, i, raw, rest);
    InsideText(s, i + |raw|, rest);
    if raw == [] {
      assert out + [] == out;
    } else if raw[0] == 0x5C {
      var more := raw[2..] + rest;
      assert raw + rest == [raw[0]] + ([raw[1]] + more);
      Advance(s, i, [raw[0]], [raw[1]] + more);
      Advance(s, i + 1, [raw[1]], more);
      QuotedNext(s, i, out);
      ReadsOn(s, i + 2, raw[2..], rest, out + [Unescaped(raw[1])]);
      Assoc(out, [Unescaped(raw[1])], Decode(raw[2..]));
    } else {
      var more := raw[1..] + rest;
      assert raw + rest == [raw[0]] + more;
      Advance(s, i, [raw[0]], more);
      QuotedNext(s, i, out);
      ReadsOn(s, i + 1, raw[1..], rest, out + [raw[0]]);
      Assoc(out, [raw[0]], Decode(raw[1..]));
    }
  }

  lemma ReadsWord(s: Text, i: nat, raw: Text, rest: Text, out: Text)
    requires Complete(raw) && Follows(s, i, raw + ([0x22] + rest))
    ensures Quoted(s, i, out) == Ok(out + Decode(raw), i + |raw| + 1)
  {
    hide Follows, Complete, Decode;
    ReadsOn(s, i, raw, [0x22] + rest, out);
    Advance(s, i + |raw|, [0x22], rest);
  }

  /** A string that is not closed ends with the text; a backslash at the very end reads past it. */
  lemma OpenWord(s: Text, i: nat, raw: Text, out: Text)
    requires Complete(raw)
    ensures Follows(s, i, raw) ==> Quoted(s, i, out) == Ok(out + Decode(raw), |s|)
    ensures Follows(s, i, raw + [0x5C]) ==> Quoted(s, i, out) == Overrun
  {
    hide Complete, Decode;
    if Follows(s, i, raw) {
      assert raw + [] == raw;
      ReadsOn(s, i, raw, [], out);
    }
    if Follows(s, i, raw + [0x5C]) {
      ReadsOn(s, i, raw, [0x5C], out);
      assert s[i + |raw|..][0] == s[i + |raw|];
    }
  }

  /** From i on, the text is that of the tokens from k on. */
  predicate On(s: Text, i: nat, ts: seq<Spaced>, last: Gap, k: nat) {
    k <= |ts| && Follows(s, i, Render(ts[k..], last))
  }

  /** Behind the gap stands the next token, or the text is at its end. */
  lemma NextToken(s: Text, i: nat, ts: seq<Spaced>, last: Gap, k: nat) returns (j: nat)
    requires WellSpaced(ts) && GapOk(last) && On(s, i, ts, last, k)
    ensures j == SkipWs(s, i) && SkipWs(s, j) == j && (j == |s| <==> k == |ts|)
    ensures k < |ts| ==> var t := TokenText(ts[k].tok);
      s[j] == t[0] && Follows(s, j, t + Render(ts[k + 1..], last)) && On(s, j + |t|, ts, last, k + 1)
  {
    hide SkipWs, Follows, Render, GapText, TokenText, Complete;
    EndOf(s, i, Render(ts[k..], last));
    j := SkipWs(s, i);
    if k == |ts| {
      RenderNone(last);
      assert GapText(last) + [] == GapText(last);
      SkipsGap(s, i, last, []);
      EndOf(s, i, GapText(last));
    } else {
      var t, rest := TokenText(ts[k].tok), Render(ts[k + 1..], last);
      RenderFirst(ts[k..], last);
      assert ts[k..][1..] == ts[k + 1..];
      SkipsGap(s, i, ts[k].gap, t + rest);
      Advance(s, i, GapText(ts[k].gap), t + rest);
      Advance(s, j, t, rest);
      EndOf(s, j, t + rest);
      assert (t + rest)[0] == t[0];
    }
    SkipsOnce(s, i);
  }

  lemma EndOf(s: Text, i: nat, t: Text)
    requires Follows(s, i, t)
    ensures i + |t| == |s| && (t != [] ==> s[i] == t[0])
  {
    if t != [] { assert s[i..][0] == s[i]; }
  }

  lemma SkipsOnce(s: Text, i: nat)
    requires i <= |s|
    ensures SkipWs(s, SkipWs(s, i)) == SkipWs(s, i)
  {}

  lemma RenderNone(last: Gap)
    ensures Render([], last) == GapText(last)
  {}

  lemma RenderFirst(ts: seq<Spaced>, last: Gap)
    requires ts != []
    ensures Render(ts, last) == GapText(ts[0].gap) + (TokenText(ts[0].tok) + Render(ts[1..], last))
    ensures var b := (TokenText(ts[0].tok) + Render(ts[1..], last))[0]; !IsSpace(b) && b != SLASH
  {}

  lemma StringLink(s: Text, i: nat, ts: seq<Spaced>, last: Gap, k: nat) returns (e: nat)
    requires WellSpaced(ts) && GapOk(last) && On(s, i, ts, last, k)
    ensures k == |ts| ==> StringAt(s, i) == Overrun
    ensures k < |ts| && !ts[k].tok.Word? ==> StringAt(s, i) == Throws
    ensures k < |ts| && ts[k].tok.Word? ==> StringAt(s, i) == Ok(Decode(ts[k].tok.raw), e) && On(s, e, ts, last, k + 1)
  {
    hide SkipWs, Follows, Render, Quoted, Complete, Decode;
    var j := NextToken(s, i, ts, last, k);
    e := 0;
    if k < |ts| && ts[k].tok.Word? {
      e := j + |TokenText(ts[k].tok)|;
      WordLink(s, j, ts[k].tok.raw, Render(ts[k + 1..], last));
    }
  }

  lemma WordLink(s: Text, j: nat, raw: Text, rest: Text)
    requires Complete(raw) && Follows(s, j, TokenText(Word(raw)) + rest)
    ensures j < |s| && Quoted(s, j + 1, []) == Ok(Decode(raw), j + |raw| + 2)
  {
    hide Follows, Quoted, Complete, Decode;
    assert TokenText(Word(raw)) + rest == [QUOTE] + (raw + ([QUOTE] + rest));
    Advance(s, j, [QUOTE], raw + ([QUOTE] + rest));
    ReadsWord(s, j + 1, raw, rest, []);
    assert [] + Decode(raw) == Decode(raw);
  }

  // ---------------------------------------------------------------- parsing text is parsing tokens

  /** The same outcome on bytes and on tokens, at the same place. */
  ghost predicate Same(s: Text, ts: seq<Spaced>, last: Gap, r: Result<map<Text, Value>>, t: Outcome) {
    match t
    case Done(m, next) => r.Ok? && r.value == m && On(s, r.pos, ts, last, next)
    case Fails => r == Throws
    case Ends => r == Overrun
  }

  lemma BehindGap(s: Text, i: nat, m: map<Text, Value>)
    requires i <= |s|
    ensures StringAt(s, SkipWs(s, i)) == StringAt(s, i) && MemberAt(s, SkipWs(s, i), m) == MemberAt(s, i, m)
  {
    assert SkipWs(s, SkipWs(s, i)) == SkipWs(s, i);
  }

  lemma {:induction false} MemberLink(s: Text, i: nat, ts: seq<Spaced>, last: Gap, k: nat, m: map<Text, Value>)
    requires WellSpaced(ts) && GapOk(last) && On(s, i, ts, last, k)
    ensures i <= |s| && Same(s, ts, last, MemberAt(s, i, m), MemberOf(Tokens(ts), k, m))
    decreases |ts| - k, 0
  {
    hide SkipWs, StringAt, ObjectAt, ObjectOf, On, Complete, Decode, Render;
    OnInside(s, i, ts, last, k);
    var e := StringLink(s, i, ts, last, k);
    if k < |ts| && ts[k].tok.Word? {
      OnInside(s, e, ts, last, k + 1);
      var j := NextToken(s, e, ts, last, k + 1);
      if k + 1 < |ts| {
        var e' := StringLink(s, e, ts, last, k + 1);
        BehindGap(s, e, m);
        if ts[k + 1].tok.OpenBrace? { ObjectLink(s, j + 1, ts, last, k + 2, map[]); }
      }
    }
  }

  lemma OnInside(s: Text, i: nat, ts: seq<Spaced>, last: Gap, k: nat)
    requires On(s, i, ts, last, k)
    ensures i <= |s| && k <= |ts|
  {}

  lemma {:induction false} ObjectLink(s: Text, i: nat, ts: seq<Spaced>, last: Gap, k: nat, m: map<Text, Value>)
    requires WellSpaced(ts) && GapOk(last) && On(s, i, ts, last, k)
    ensures i <= |s| && Same(s, ts, last, ObjectAt(s, i, m), ObjectOf(Tokens(ts), k, m))
    decreases |ts| - k, 1
  {
    hide SkipWs, StringAt, MemberAt, MemberOf, On, Complete, Decode, Render;
    OnInside(s, i, ts, last, k);
    var j := NextToken(s, i, ts, last, k);
    if k < |ts| && !ts[k].tok.CloseBrace? {
      BehindGap(s, i, m);
      MemberLink(s, i, ts, last, k, m);
      var t := MemberOf(Tokens(ts), k, m);
      if t.Done? { ObjectLink(s, MemberAt(s, i, m).pos, ts, last, t.next, t.m); }
    }
  }

  lemma {:induction false} RootLink(s: Text, i: nat, ts: seq<Spaced>, last: Gap, k: nat, m: map<Text, Value>)
    requires WellSpaced(ts) && GapOk(last) && On(s, i, ts, last, k)
    ensures i <= |s| && match RootOf(Tokens(ts), k, m)
      case Done(m', _) => RootAt(s, i, m) == Ok(m', |s|)
      case Fails => RootAt(s, i, m) == Throws
      case Ends => RootAt(s, i, m) == Overrun
    decreases |ts| - k
  {
    hide SkipWs, StringAt, MemberAt, MemberOf, On, Complete, Decode, Render;
    OnInside(s, i, ts, last, k);
    var j := NextToken(s, i, ts, last, k);
    if k < |ts| {
      BehindGap(s, i, m);
      MemberLink(s, i, ts, last, k, m);
      var t := MemberOf(Tokens(ts), k, m);
      if t.Done? { RootLink(s, MemberAt(s, i, m).pos, ts, last, t.next, t.m); }
    }
  }

  /** Spaces and comments between tokens never change the outcome: texts with the same tokens parse alike. */
  lemma GapsDoNotMatter(ts: seq<Spaced>, last: Gap, ts': seq<Spaced>, last': Gap)
    requires WellSpaced(ts) && GapOk(last) && WellSpaced(ts') && GapOk(last') && Tokens(ts) == Tokens(ts')
    ensures var r, r' := RootAt(Render(ts, last), 0, map[]), RootAt(Render(ts', last'), 0, map[]);
      if r.Ok? then r'.Ok? && r'.value == r.value else r' == r
  {
    hide RootAt, RootOf, Complete;
    Whole(ts, last);
    Whole(ts', last');
    RootLink(Render(ts, last), 0, ts, last, 0, map[]);
    RootLink(Render(ts', last'), 0, ts', last', 0, map[]);
  }

  lemma Whole(ts: seq<Spaced>, last: Gap)
    ensures On(Render(ts, last), 0, ts, last, 0)
  {
    assert ts[0..] == ts;
    assert Render(ts, last)[0..] == Render(ts, last);
  }
}
