/** Which trees survive stringify_object and parse of vdf_text.cpp: a count of backslashes decides. */
module VdfExact {
  import opened Keys
  import opened VdfText
  import opened VdfTokens
  import opened VdfPrint

  // ---------------------------------------------------------------- counting in texts and trees

  /** q for each quote and b for each backslash. */
  function Count(t: Text, q: nat, b: nat): nat {
    if t == [] then 0
    else (if t[0] == QUOTE then q else if t[0] == BACKSLASH then b else 0) + Count(t[1..], q, b)
  }

  /** The backslashes in a text from i on. */
  function Slashes(s: Text, i: nat): nat
    requires i <= |s|
    decreases |s| - i
  {
    if i == |s| then 0 else (if s[i] == BACKSLASH then 1 else 0) + Slashes(s, i + 1)
  }

  lemma {:induction false} CountAppend(s: Text, t: Text, q: nat, b: nat)
    ensures Count(s + t, q, b) == Count(s, q, b) + Count(t, q, b)
  {
    if s == [] {
      assert s + t == t;
    } else {
      assert (s + t)[1..] == s[1..] + t;
      CountAppend(s[1..], t, q, b);
    }
  }

  lemma CountOne(c: Byte, q: nat, b: nat)
    ensures Count([c], q, b) == if c == QUOTE then q else if c == BACKSLASH then b else 0
  {
    assert [c][1..] == [];
  }

  lemma {:induction false} SlashesCounted(s: Text, i: nat)
    requires i <= |s|
    ensures Slashes(s, i) == Count(s[i..], 0, 1)
    decreases |s| - i
  {
    if i < |s| {
      SlashesCounted(s, i + 1);
      assert s[i..][1..] == s[i + 1..];
    }
  }

  /** An escape needs a backslash for each quote and two for each backslash; only plain texts need no more than they
      hold. */
  lemma {:induction false} PlainCount(t: Text)
    ensures Count(t, 1, 2) >= Count(t, 0, 1)
    ensures Count(t, 1, 2) == Count(t, 0, 1) <==> Plain(t)
  {
    if t != [] {
      PlainCount(t[1..]);
      assert t == [t[0]] + t[1..];
      assert Plain(t) <==> t[0] != QUOTE && t[0] != BACKSLASH && Plain(t[1..]);
    }
  }

  /** The count over all keys and strings of a tree. */
  ghost function TreeCount(v: Value, q: nat, b: nat): nat
    decreases v, 1, 0
  {
    match v
    case Str(s) => Count(s, q, b)
    case Obj(m) => KeysCount(v, m.Keys, q, b)
    case _ => 0
  }

  ghost function OneCount(v: Value, k: Text, q: nat, b: nat): nat
    requires v.Obj? && k in v.m
    decreases v, 0, 0
  {
    Count(k, q, b) + TreeCount(v.m[k], q, b)
  }

  /** The count over some of the members. */
  ghost function KeysCount(v: Value, ks: set<Text>, q: nat, b: nat): nat
    requires v.Obj? && ks <= v.m.Keys
    decreases v, 0, |ks| + 1
  {
    if ks == {} then 0
    else
      var k :| k in ks;
      OneCount(v, k, q, b) + KeysCount(v, ks - {k}, q, b)
  }

  /** Any member may be counted first. */
  lemma {:induction false} KeysCountAny(v: Value, ks: set<Text>, k: Text, q: nat, b: nat)
    requires v.Obj? && ks <= v.m.Keys && k in ks
    ensures KeysCount(v, ks, q, b) == OneCount(v, k, q, b) + KeysCount(v, ks - {k}, q, b)
    decreases |ks|
  {
    hide TreeCount, OneCount;
    var c :| c in ks && KeysCount(v, ks, q, b) == OneCount(v, c, q, b) + KeysCount(v, ks - {c}, q, b);
    if c != k {
      KeysCountAny(v, ks - {c}, k, q, b);
      KeysCountAny(v, ks - {k}, c, q, b);
      assert ks - {c} - {k} == ks - {k} - {c};
    }
  }

  lemma {:induction false} KeysCountSame(v: Value, v': Value, ks: set<Text>, q: nat, b: nat)
    requires v.Obj? && v'.Obj? && ks <= v.m.Keys && ks <= v'.m.Keys
    requires forall k :: k in ks ==> v.m[k] == v'.m[k]
    ensures KeysCount(v, ks, q, b) == KeysCount(v', ks, q, b)
    decreases |ks|
  {
    hide TreeCount;
    if ks != {} {
      var k :| k in ks;
      KeysCountAny(v, ks, k, q, b);
      KeysCountAny(v', ks, k, q, b);
      KeysCountSame(v, v', ks - {k}, q, b);
    }
  }

  lemma ObjCount(m: map<Text, Value>, q: nat, b: nat)
    ensures TreeCount(Obj(m), q, b) == KeysCount(Obj(m), m.Keys, q, b)
    ensures TreeCount(Obj(map[]), q, b) == 0
  {
    var none: map<Text, Value> := map[];
    assert none.Keys == {};
  }

  /** A member set adds its own count, and takes away that of the one it replaces. */
  lemma PutCount(m: map<Text, Value>, k: Text, x: Value, q: nat, b: nat)
    ensures var one := Count(k, q, b) + TreeCount(x, q, b);
      && TreeCount(Obj(m[k := x]), q, b) <= TreeCount(Obj(m), q, b) + one
      && (k !in m ==> TreeCount(Obj(m[k := x]), q, b) == TreeCount(Obj(m), q, b) + one)
  {
    hide KeysCount, TreeCount;
    var v, v' := Obj(m), Obj(m[k := x]);
    var rest := m.Keys - {k};
    ObjCount(m, q, b);
    ObjCount(m[k := x], q, b);
    KeysCountAny(v', m[k := x].Keys, k, q, b);
    assert m[k := x].Keys - {k} == rest;
    KeysCountSame(v, v', rest, q, b);
    if k in m { KeysCountAny(v, m.Keys, k, q, b); } else { assert rest == m.Keys; }
  }

  // ---------------------------------------------------------------- the parser: what it reads costs backslashes

  lemma {:induction false} SlashesFall(s: Text, i: nat, j: nat)
    requires i <= j <= |s|
    ensures Slashes(s, j) <= Slashes(s, i)
    decreases j - i
  {
    if i < j { SlashesFall(s, i + 1, j); }
  }

  lemma MoreCount(out: Text, c: Byte)
    ensures Count(out + [c], 1, 2) == Count(out, 1, 2) + if c == QUOTE then 1 else if c == BACKSLASH then 2 else 0
  {
    CountAppend(out, [c], 1, 2);
    CountOne(c, 1, 2);
  }

  /** Each quote read costs a backslash, and each backslash read costs two. */
  lemma {:induction false} QuotedCosts(s: Text, i: nat, out: Text)
    requires i <= |s|
    ensures var r := Quoted(s, i, out);
      r.Ok? ==> Count(r.value, 1, 2) + Slashes(s, r.pos) <= Count(out, 1, 2) + Slashes(s, i)
    decreases |s| - i
  {
    hide Count;
    if i < |s| && s[i] != QUOTE {
      if s[i] != BACKSLASH {
        MoreCount(out, s[i]);
        QuotedCosts(s, i + 1, out + [s[i]]);
      } else if i + 1 < |s| {
        MoreCount(out, Unescaped(s[i + 1]));
        QuotedCosts(s, i + 2, out + [Unescaped(s[i + 1])]);
      }
    }
  }

  lemma StringCosts(s: Text, i: nat)
    requires i <= |s|
    ensures var r := StringAt(s, i); r.Ok? ==> Count(r.value, 1, 2) + Slashes(s, r.pos) <= Slashes(s, i)
  {
    hide Quoted, SkipWs, Slashes;
    var j := SkipWs(s, i);
    SlashesFall(s, i, j);
    if j < |s| {
      SlashesFall(s, j, j + 1);
      QuotedCosts(s, j + 1, []);
    }
  }

  lemma {:induction false} MemberCosts(s: Text, i: nat, m: map<Text, Value>)
    requires i <= |s|
    ensures var r := MemberAt(s, i, m);
      r.Ok? ==> TreeCount(Obj(r.value), 1, 2) + Slashes(s, r.pos) <= TreeCount(Obj(m), 1, 2) + Slashes(s, i)
    decreases |s| - i, 0
  {
    hide StringAt, SkipWs, Slashes, ObjectAt, KeysCount, Count;
    StringCosts(s, i);
    var key := StringAt(s, i);
    if key.Ok? {
      var j := SkipWs(s, key.pos);
      SlashesFall(s, key.pos, j);
      if j < |s| && s[j] == OPEN {
        SlashesFall(s, j, j + 1);
        ObjectCosts(s, j + 1, map[]);
        var sub := ObjectAt(s, j + 1, map[]);
        ObjCount(map[], 1, 2);
        if sub.Ok? { PutCount(m, key.value, Obj(sub.value), 1, 2); }
      } else if j < |s| {
        StringCosts(s, j);
        var val := StringAt(s, j);
        if val.Ok? { PutCount(m, key.value, Str(val.value), 1, 2); }
      }
    }
  }

  lemma {:induction false} ObjectCosts(s: Text, i: nat, m: map<Text, Value>)
    requires i <= |s|
    ensures var r := ObjectAt(s, i, m);
      r.Ok? ==> TreeCount(Obj(r.value), 1, 2) + Slashes(s, r.pos) <= TreeCount(Obj(m), 1, 2) + Slashes(s, i)
    decreases |s| - i, 1
  {
    hide MemberAt, SkipWs, Slashes, TreeCount;
    var j := SkipWs(s, i);
    SlashesFall(s, i, j);
    if j < |s| && s[j] == CLOSE {
      SlashesFall(s, j, j + 1);
    } else if j < |s| {
      MemberCosts(s, j, m);
      var r := MemberAt(s, j, m);
      if r.Ok? { ObjectCosts(s, r.pos, r.value); }
    }
  }

  /** What is read from a whole text needs no more backslashes for its quotes and backslashes than the text has. */
  lemma {:induction false} RootCosts(s: Text, i: nat, m: map<Text, Value>)
    requires i <= |s|
    ensures var r := RootAt(s, i, m);
      r.Ok? ==> TreeCount(Obj(r.value), 1, 2) <= TreeCount(Obj(m), 1, 2) + Slashes(s, i)
    decreases |s| - i
  {
    hide MemberAt, SkipWs, Slashes, TreeCount;
    var j := SkipWs(s, i);
    SlashesFall(s, i, j);
    if j < |s| {
      MemberCosts(s, j, m);
      var r := MemberAt(s, j, m);
      if r.Ok? { RootCosts(s, r.pos, r.value); }
    }
  }

  // ---------------------------------------------------------------- the printer: it adds no backslash

  function EntriesCount(es: seq<Entry>, q: nat, b: nat): nat
    decreases es
  {
    if es == [] then 0 else EntryCount(es[0], q, b) + EntriesCount(es[1..], q, b)
  }

  function EntryCount(e: Entry, q: nat, b: nat): nat
    decreases e
  {
    Count(e.key, q, b)
    + match e.item case Leaf(text) => Count(text, q, b) case Sub(entries) => EntriesCount(entries, q, b)
  }

  lemma {:induction false} TabsCount(indent: nat)
    ensures Count(Pad(indent), 0, 1) == 0
  {
    if indent > 0 {
      assert Pad(indent)[1..] == Pad(indent - 1);
      TabsCount(indent - 1);
    }
  }

  lemma LayoutCount()
    ensures Count([QUOTE], 0, 1) == Count([QUOTE, 0x20, QUOTE], 0, 1) == Count([QUOTE, NEWLINE], 0, 1) == 0
    ensures Count([OPEN, NEWLINE], 0, 1) == Count([CLOSE, NEWLINE], 0, 1) == 0
  {
    CountOne(QUOTE, 0, 1);
    CountOne(NEWLINE, 0, 1);
    CountOne(OPEN, 0, 1);
    CountOne(CLOSE, 0, 1);
    CountOne(0x20, 0, 1);
    CountAppend([QUOTE], [NEWLINE], 0, 1);
    CountAppend([OPEN], [NEWLINE], 0, 1);
    CountAppend([CLOSE], [NEWLINE], 0, 1);
    CountAppend([QUOTE], [0x20], 0, 1);
    CountAppend([QUOTE] + [0x20], [QUOTE], 0, 1);
    assert [QUOTE] + [NEWLINE] == [QUOTE, NEWLINE] && [OPEN] + [NEWLINE] == [OPEN, NEWLINE];
    assert [CLOSE] + [NEWLINE] == [CLOSE, NEWLINE] && [QUOTE] + [0x20] + [QUOTE] == [QUOTE, 0x20, QUOTE];
  }

  lemma {:induction false} PrintedSlashes(es: seq<Entry>, indent: nat)
    ensures Count(EntriesText(es, indent), 0, 1) == EntriesCount(es, 0, 1)
    decreases es
  {
    hide EntryText, EntryCount;
    if es != [] {
      EntrySlashes(es[0], indent);
      PrintedSlashes(es[1..], indent);
      CountAppend(EntryText(es[0], indent), EntriesText(es[1..], indent), 0, 1);
    }
  }

  lemma {:induction false} EntrySlashes(e: Entry, indent: nat)
    ensures Count(EntryText(e, indent), 0, 1) == EntryCount(e, 0, 1)
    decreases e
  {
    hide Count, EntriesText, EntriesCount;
    var pad := Pad(indent);
    TabsCount(indent);
    LayoutCount();
    var a := pad + [QUOTE] + e.key;
    CountAppend(pad, [QUOTE], 0, 1);
    CountAppend(pad + [QUOTE], e.key, 0, 1);
    match e.item {
      case Leaf(text) =>
        CountAppend(a, [QUOTE, 0x20, QUOTE], 0, 1);
        CountAppend(a + [QUOTE, 0x20, QUOTE], text, 0, 1);
        CountAppend(a + [QUOTE, 0x20, QUOTE] + text, [QUOTE, NEWLINE], 0, 1);
      case Sub(entries) =>
        PrintedSlashes(entries, indent + 1);
        var h := a + [QUOTE, NEWLINE] + pad + [OPEN, NEWLINE];
        CountAppend(a, [QUOTE, NEWLINE], 0, 1);
        CountAppend(a + [QUOTE, NEWLINE], pad, 0, 1);
        CountAppend(a + [QUOTE, NEWLINE] + pad, [OPEN, NEWLINE], 0, 1);
        CountAppend(h, EntriesText(entries, indent + 1), 0, 1);
        CountAppend(h + EntriesText(entries, indent + 1), pad, 0, 1);
        CountAppend(h + EntriesText(entries, indent + 1) + pad, [CLOSE, NEWLINE], 0, 1);
    }
  }

  // ---------------------------------------------------------------- entries against the object they stand for

  /** With different keys in every object, nothing is overwritten: the counts agree. */
  lemma {:induction false} MeaningCount(es: seq<Entry>, m: map<Text, Value>, q: nat, b: nat)
    requires Distinct(es) && forall i :: 0 <= i < |es| ==> es[i].key !in m
    ensures TreeCount(Obj(Meaning(es, m)), q, b) == TreeCount(Obj(m), q, b) + EntriesCount(es, q, b)
    decreases es
  {
    hide TreeCount, EntryCount, ItemValue, DistinctEntry;
    if es != [] {
      var e := es[0];
      var m' := m[e.key := ItemValue(e.item)];
      ItemCount(e, q, b);
      PutCount(m, e.key, ItemValue(e.item), q, b);
      assert forall i :: 0 <= i < |es[1..]| ==> es[1..][i].key == es[i + 1].key;
      MeaningCount(es[1..], m', q, b);
    }
  }

  lemma {:induction false} ItemCount(e: Entry, q: nat, b: nat)
    requires DistinctEntry(e)
    ensures EntryCount(e, q, b) == Count(e.key, q, b) + TreeCount(ItemValue(e.item), q, b)
    decreases e
  {
    hide Count, KeysCount, Meaning, EntriesCount, Distinct;
    if e.item.Sub? {
      ObjCount(map[], q, b);
      MeaningCount(e.item.entries, map[], q, b);
    }
  }

  lemma {:induction false} PlainEntriesCount(es: seq<Entry>)
    ensures EntriesCount(es, 1, 2) >= EntriesCount(es, 0, 1)
    ensures EntriesCount(es, 1, 2) == EntriesCount(es, 0, 1) <==> PlainEntries(es)
    decreases es
  {
    hide EntryCount, PlainEntry;
    if es != [] {
      PlainEntryCount(es[0]);
      PlainEntriesCount(es[1..]);
    }
  }

  lemma {:induction false} PlainEntryCount(e: Entry)
    ensures EntryCount(e, 1, 2) >= EntryCount(e, 0, 1)
    ensures EntryCount(e, 1, 2) == EntryCount(e, 0, 1) <==> PlainEntry(e)
    decreases e
  {
    hide Count, Plain, EntriesCount, PlainEntries;
    PlainCount(e.key);
    match e.item {
      case Leaf(text) => PlainCount(text);
      case Sub(entries) => PlainEntriesCount(entries);
    }
  }

  // ---------------------------------------------------------------- exactly the plain trees survive

  /** A string printed between quotes is read back as itself, up to its closing quote, exactly when it is plain,
      whatever follows: the printer does not escape. */
  lemma PlainIsNeeded(t: Text, post: Text)
    ensures Quoted(t + [QUOTE] + post, 0, []) == Ok(t, |t| + 1) <==> Plain(t)
  {
    hide Plain, Quoted, Slashes, Count;
    var s := t + [QUOTE] + post;
    if Plain(t) {
      PlainWord(t);
      assert s == t + ([QUOTE] + post) && s[0..] == s && [] + t == t;
      ReadsWord(s, 0, t, post, []);
    }
    if Quoted(s, 0, []) == Ok(t, |t| + 1) {
      QuotedCosts(s, 0, []);
      SlashesCounted(s, 0);
      SlashesCounted(s, |t| + 1);
      assert s[0..] == s && s[|t| + 1..] == post;
      CountAppend(t + [QUOTE], post, 0, 1);
      CountAppend(t, [QUOTE], 0, 1);
      LayoutCount();
      NoCount();
      PlainCount(t);
    }
  }

  lemma NoCount()
    ensures Count([], 1, 2) == 0
  {}

  /** The text of entries parses to what they stand for exactly when all keys and strings in them are plain. */
  lemma PrintedParsesOnly(es: seq<Entry>)
    requires Distinct(es)
    ensures var s := EntriesText(es, 0);
      RootAt(s, 0, map[]) == Ok(Meaning(es, map[]), |s|) <==> PlainEntries(es)
  {
    hide RootAt, Meaning, EntriesText, PlainEntries, Slashes, Count, EntriesCount, TreeCount, Distinct;
    var s := EntriesText(es, 0);
    if PlainEntries(es) { PrintedParses(es); }
    if RootAt(s, 0, map[]) == Ok(Meaning(es, map[]), |s|) {
      RootCosts(s, 0, map[]);
      ObjCount(map[], 1, 2);
      MeaningCount(es, map[], 1, 2);
      SlashesCounted(s, 0);
      assert s[0..] == s;
      PrintedSlashes(es, 0);
      PlainEntriesCount(es);
    }
  }

  /** Printing a tree, in whatever order its maps are met, and parsing the text: the tree comes back, with numbers as
      text, exactly when it is plain. */
  method PrintAndParse(v: Value) returns (out: Text, r: Result<map<Text, Value>>)
    requires v.Obj?
    ensures RootAt(out, 0, map[]) == r
    ensures (r.Ok? && Obj(r.value) == Flat(v)) <==> PlainTree(v)
  {
    hide EntriesText, Meaning, Flat, PlainTree, PlainEntries, RootAt, Distinct;
    ghost var es;
    out, es := Stringify(v, [], 0);
    assert [] + EntriesText(es, 0) == EntriesText(es, 0);
    PrintedParsesOnly(es);
    EndsThere(out);
    var parser := new TextParser(out);
    r := parser.Parse();
  }

  lemma EndsThere(s: Text)
    ensures RootAt(s, 0, map[]).Ok? ==> RootAt(s, 0, map[]).pos == |s|
  {}
}
