/** Which buffers the parser of vdf_bin.cpp takes: encodings, with anything behind their end byte, or cut off at the
    very end with end bytes missing. */
module VdfBinExact {
  import opened Basics
  import opened Keys
  import opened OrderBuffer
  import opened VdfBin

  // ---------------------------------------------------------------- encodings that break off

  /** The last member is an object, whose last member is one, and so on, d times. */
  predicate Nests(es: seq<Entry>, d: nat)
    decreases es
  {
    d == 0
    || (es != []
        && if |es| == 1 then es[0].item.Sub? && Nests(es[0].item.entries, d - 1) else Nests(es[1..], d))
  }

  /** The encoding without the end bytes of the d objects that are last, each in the one before. */
  function OpenText(es: seq<Entry>, d: nat): Bytes
    requires Nests(es, d)
    decreases es
  {
    if d == 0 then EncodeEntries(es)
    else if |es| == 1 then [0x00] + es[0].key + [0] + OpenText(es[0].item.entries, d - 1)
    else EncodeEntry(es[0]) + OpenText(es[1..], d)
  }

  /** The buffer from i on starts with a complete encoding, or is one that breaks off. */
  ghost predicate Holds(b: Bytes, i: nat, es: seq<Entry>, closed: bool, d: nat) {
    && i <= |b| && Encodable(es)
    && if closed then Here(b, i, EncodeEntries(es) + [0x08]) else Nests(es, d) && b[i..] == OpenText(es, d)
  }

  // ---------------------------------------------------------------- every such buffer is taken

  lemma {:induction false} OpenTaken(b: Bytes, i: nat, es: seq<Entry>, d: nat, m: map<Bytes, Value>)
    requires Encodable(es) && Nests(es, d) && i <= |b| && b[i..] == OpenText(es, d)
    ensures ObjectAt(b, i, m) == Ok(Meaning(es, m), |b|)
    decreases es
  {
    hide ObjectAt, ValueAt, CString, EncodeEntry, EncodableEntry, ItemValue;
    if d == 0 {
      OpenBack(b, i, es, m);
    } else if |es| == 1 {
      LastTaken(b, i, es[0], d - 1, m);
      assert es[1..] == [];
    } else {
      var t, rest := EncodeEntry(es[0]), OpenText(es[1..], d);
      Ahead(b, i, t, rest);
      EntryBack(b, i, es[0], m);
      OpenTaken(b, i + |t|, es[1..], d, m[es[0].key := ItemValue(es[0].item)]);
    }
  }

  lemma Ahead(b: Bytes, i: nat, t: Bytes, rest: Bytes)
    requires i <= |b| && b[i..] == t + rest
    ensures Here(b, i, t) && i + |t| <= |b| && b[i + |t|..] == rest
  {
    assert b[i..][..|t|] == t && b[i..][|t|..] == rest;
    assert b[i..i + |t|] == b[i..][..|t|];
  }

  /** An object as the last member, cut off inside. */
  lemma {:induction false} LastTaken(b: Bytes, i: nat, e: Entry, d: nat, m: map<Bytes, Value>)
    requires EncodableEntry(e) && e.item.Sub? && Nests(e.item.entries, d)
    requires i <= |b| && b[i..] == [0x00] + e.key + [0] + OpenText(e.item.entries, d)
    ensures ObjectAt(b, i, m) == Ok(m[e.key := ItemValue(e.item)], |b|)
    decreases e
  {
    hide ObjectAt, ValueAt, CString, OpenText, Here;
    var sub := e.item.entries;
    var head := [0x00] + e.key + [0];
    Ahead(b, i, head, OpenText(sub, d));
    assert head == [0x00] + (e.key + [0]);
    Split(b, i, [0x00], e.key + [0]);
    CStringBack(b, i + 1, e.key, []);
    assert [] + e.key == e.key;
    var j := i + |head|;
    OpenTaken(b, j, sub, d, map[]);
    ObjectValue(b, j);
    EntryRead(b, i, CString(b, i + 1, []), ValueAt(b, j, 0x00), m);
    AtEnd(b, m[e.key := ItemValue(e.item)]);
  }

  lemma ObjectValue(b: Bytes, i: nat)
    requires i <= |b|
    ensures var r := ObjectAt(b, i, map[]); r.Ok? ==> ValueAt(b, i, 0x00) == Ok(Obj(r.value), r.pos)
  {
    hide ObjectAt;
  }

  lemma AtEnd(b: Bytes, m: map<Bytes, Value>)
    ensures ObjectAt(b, |b|, m) == Ok(m, |b|)
  {}

  // ---------------------------------------------------------------- and nothing else is

  lemma {:induction false} StringOf(b: Bytes, i: nat, acc: Bytes) returns (s: Bytes)
    requires i <= |b| && CString(b, i, acc).Ok?
    ensures NulFree(s) && Here(b, i, s + [0]) && CString(b, i, acc) == Ok(acc + s, i + |s| + 1)
    decreases |b| - i
  {
    if b[i] == 0 {
      s := [];
      assert acc + [] == acc && s + [0] == [b[i]];
    } else {
      var rest := StringOf(b, i + 1, acc + [b[i]]);
      s := [b[i]] + rest;
      Assoc(acc, [b[i]], rest);
      Joined(b, i, rest + [0]);
      Assoc([b[i]], rest, [0]);
    }
  }

  lemma Joined(b: Bytes, i: nat, t: Bytes)
    requires i < |b| && Here(b, i + 1, t)
    ensures Here(b, i, [b[i]] + t)
  {
    assert b[i..i + 1 + |t|] == [b[i]] + b[i + 1..i + 1 + |t|];
  }

  lemma Follows(b: Bytes, i: nat, s: Bytes, t: Bytes)
    requires Here(b, i, s) && Here(b, i + |s|, t)
    ensures Here(b, i, s + t)
  {
    assert b[i..i + |s| + |t|] == b[i..i + |s|] + b[i + |s|..i + |s| + |t|];
  }

  /** A value that is read and is no object is the value of an item that stands there. */
  lemma LeafOf(b: Bytes, i: nat, kind: Byte) returns (item: Item)
    requires i <= |b| && kind != 0x00 && ValueAt(b, i, kind).Ok?
    ensures !item.Sub? && Kind(item) == kind && EncodableEntry(Entry([], item)) && Here(b, i, Payload(item))
    ensures ValueAt(b, i, kind) == Ok(ItemValue(item), i + |Payload(item)|)
  {
    hide CString, ObjectAt, GetKeyLen, Le32, Word32, Here;
    if kind == 0x01 {
      var s := StringOf(b, i, []);
      assert [] + s == s;
      item := StrItem(s);
    } else if kind == 0x02 {
      var u := WordOf(b, i);
      item := IntItem(Signed(u));
    } else if kind == 0x03 {
      var u := WordOf(b, i);
      item := FloatItem(u);
    } else {
      var u := TwoWordsOf(b, i);
      item := UInt64Item(u);
    }
  }

  lemma WordOf(b: Bytes, i: nat) returns (u: nat)
    requires i + 4 <= |b|
    ensures u == GetKeyLen(b, i) < TWO_32 && |Le32(u)| == 4 && Here(b, i, Le32(u))
    ensures -TWO_31 <= Signed(u) < TWO_31 && Signed(u) % TWO_32 == u
  {
    hide GetKeyLen, Le32, Word32, Signed;
    WordSpells(b, i);
    u := GetKeyLen(b, i);
    SignedBack(u);
  }

  lemma TwoWordsOf(b: Bytes, i: nat) returns (u: nat)
    requires i + 8 <= |b|
    ensures u == GetKeyLen(b, i) + TWO_32 * GetKeyLen(b, i + 4) < TWO_64
    ensures |Le32(u % TWO_32)| == |Le32(u / TWO_32)| == 4 && Here(b, i, Le32(u % TWO_32) + Le32(u / TWO_32))
  {
    hide GetKeyLen, Le32, Word32, Signed, Here;
    var low := WordOf(b, i);
    var high := WordOf(b, i + 4);
    TwoWords(low, high);
    Follows(b, i, Le32(low), Le32(high));
    u := low + TWO_32 * high;
  }

  /** Whatever is taken is an encoding: complete, or broken off. */
  lemma {:induction false} TakenHolds(b: Bytes, i: nat, m: map<Bytes, Value>)
    returns (es: seq<Entry>, closed: bool, d: nat)
    requires i <= |b| && ObjectAt(b, i, m).Ok?
    ensures Holds(b, i, es, closed, d)
    ensures ObjectAt(b, i, m) == Ok(Meaning(es, m), if closed then i + |EncodeEntries(es)| + 1 else |b|)
    decreases |b| - i, 2
  {
    hide ValueAt, CString, Payload, ItemValue, Kind, EncodableEntry;
    es, closed, d := [], false, 0;
    if i < |b| && b[i] == 0x08 {
      closed := true;
      assert [] + [0x08] == [b[i]];
    } else if i < |b| {
      hide ObjectAt, EncodeEntry;
      RoundOk(b, i, m);
      var key, val := CString(b, i + 1, []), ValueAt(b, CString(b, i + 1, []).pos, b[i]);
      EntryRead(b, i, key, val, m);
      es, closed, d := MemberHolds(b, i, m);
    }
  }

  lemma RoundOk(b: Bytes, i: nat, m: map<Bytes, Value>)
    requires i < |b| && b[i] != 0x08 && ObjectAt(b, i, m).Ok?
    ensures CString(b, i + 1, []).Ok? && ValueAt(b, CString(b, i + 1, []).pos, b[i]).Ok?
  {
    hide CString, ValueAt;
  }

  lemma {:induction false} MemberHolds(b: Bytes, i: nat, m: map<Bytes, Value>)
    returns (es: seq<Entry>, closed: bool, d: nat)
    requires i < |b| && b[i] != 0x08 && ObjectAt(b, i, m).Ok?
    requires CString(b, i + 1, []).Ok? && ValueAt(b, CString(b, i + 1, []).pos, b[i]).Ok?
    ensures Holds(b, i, es, closed, d)
    ensures ObjectAt(b, i, m) == Ok(Meaning(es, m), if closed then i + |EncodeEntries(es)| + 1 else |b|)
    decreases |b| - i, 1
  {
    hide ValueAt, CString, Payload, ItemValue, Kind, EncodableEntry, EncodeEntry, ObjectAt, Holds;
    var key := StringOf(b, i + 1, []);
    assert [] + key == key;
    var j := i + 2 + |key|;
    var val := ValueAt(b, j, b[i]);
    EntryRead(b, i, CString(b, i + 1, []), val, m);
    if b[i] == 0x00 {
      ObjectIs(b, j);
      var sub, inside, deep := TakenHolds(b, j, map[]);
      if inside {
        var e := Entry(key, Sub(sub));
        SubClosed(b, i, e, deep);
        es, closed, d := RestHolds(b, i, e, val.pos, m);
      } else {
        es, closed, d := [Entry(key, Sub(sub))], false, deep + 1;
        AtEnd(b, m[key := ItemValue(Sub(sub))]);
        SubOpen(b, i, key, sub, deep, m);
      }
    } else {
      var item := LeafOf(b, j, b[i]);
      var e := Entry(key, item);
      LeafClosed(b, i, e);
      es, closed, d := RestHolds(b, i, e, val.pos, m);
    }
  }

  lemma ObjectIs(b: Bytes, i: nat)
    requires i <= |b| && ValueAt(b, i, 0x00).Ok?
    ensures ObjectAt(b, i, map[]).Ok?
    ensures ValueAt(b, i, 0x00) == Ok(Obj(ObjectAt(b, i, map[]).value), ObjectAt(b, i, map[]).pos)
  {
    hide ObjectAt;
  }

  lemma LeafClosed(b: Bytes, i: nat, e: Entry)
    requires NulFree(e.key) && !e.item.Sub? && EncodableEntry(Entry([], e.item))
    requires i < |b| && b[i] == Kind(e.item) && Here(b, i + 1, e.key + [0]) && Here(b, i + 2 + |e.key|, Payload(e.item))
    ensures EncodableEntry(e) && Here(b, i, EncodeEntry(e)) && |EncodeEntry(e)| == 2 + |e.key| + |Payload(e.item)|
  {
    hide Payload, Here, Kind;
    EntryJoins(b, i, e);
  }

  lemma EntryJoins(b: Bytes, i: nat, e: Entry)
    requires i < |b| && b[i] == Kind(e.item) && Here(b, i + 1, e.key + [0]) && Here(b, i + 2 + |e.key|, Payload(e.item))
    ensures Here(b, i, EncodeEntry(e)) && |EncodeEntry(e)| == 2 + |e.key| + |Payload(e.item)|
  {
    hide Payload, Here, Kind;
    Joined(b, i, e.key + [0]);
    Assoc([b[i]], e.key, [0]);
    Follows(b, i, [b[i]] + e.key + [0], Payload(e.item));
  }

  lemma SubClosed(b: Bytes, i: nat, e: Entry, d: nat)
    requires NulFree(e.key) && e.item.Sub? && Holds(b, i + 2 + |e.key|, e.item.entries, true, d)
    requires i < |b| && b[i] == 0x00 && Here(b, i + 1, e.key + [0])
    ensures EncodableEntry(e) && Here(b, i, EncodeEntry(e))
    ensures |EncodeEntry(e)| == 2 + |e.key| + |EncodeEntries(e.item.entries)| + 1
    ensures ItemValue(e.item) == Obj(Meaning(e.item.entries, map[]))
  {
    hide EncodeEntries, Here;
    EntryJoins(b, i, e);
  }

  lemma SubOpen(b: Bytes, i: nat, key: Bytes, sub: seq<Entry>, d: nat, m: map<Bytes, Value>)
    requires NulFree(key) && Holds(b, i + 2 + |key|, sub, false, d)
    requires i < |b| && b[i] == 0x00 && Here(b, i + 1, key + [0])
    ensures Holds(b, i, [Entry(key, Sub(sub))], false, d + 1)
    ensures Meaning([Entry(key, Sub(sub))], m) == m[key := Obj(Meaning(sub, map[]))]
    ensures ItemValue(Sub(sub)) == Obj(Meaning(sub, map[]))
  {
    hide EncodeEntries;
    var es := [Entry(key, Sub(sub))];
    assert es[1..] == [];
    Joined(b, i, key + [0]);
    Assoc([b[i]], key, [0]);
    var head := [0x00] + key + [0];
    assert b[i..] == b[i..i + |head|] + b[i + |head|..];
    assert Nests(es, d + 1) && OpenText(es, d + 1) == head + OpenText(sub, d);
    assert EncodableEntry(es[0]) && Encodable(es);
    assert b[i..i + |head|] == head && b[i + |head|..] == OpenText(sub, d);
  }

  /** A complete member, and what stands behind it. */
  lemma {:induction false} RestHolds(b: Bytes, i: nat, e: Entry, next: nat, m: map<Bytes, Value>)
    returns (es: seq<Entry>, closed: bool, d: nat)
    requires EncodableEntry(e) && Here(b, i, EncodeEntry(e)) && next == i + |EncodeEntry(e)| > i
    requires ObjectAt(b, i, m).Ok?
    requires next <= |b| && ObjectAt(b, i, m) == ObjectAt(b, next, m[e.key := ItemValue(e.item)])
    ensures Holds(b, i, es, closed, d)
    ensures ObjectAt(b, i, m) == Ok(Meaning(es, m), if closed then i + |EncodeEntries(es)| + 1 else |b|)
    decreases |b| - i, 0
  {
    hide ItemValue, EncodableEntry, EncodeEntry, ObjectAt, Holds;
    var m' := m[e.key := ItemValue(e.item)];
    var rest;
    rest, closed, d := TakenHolds(b, next, m');
    es := [e] + rest;
    assert es[1..] == rest;
    HoldsMore(b, i, e, rest, closed, d);
  }

  lemma HoldsMore(b: Bytes, i: nat, e: Entry, rest: seq<Entry>, closed: bool, d: nat)
    requires EncodableEntry(e) && Here(b, i, EncodeEntry(e))
    requires Holds(b, i + |EncodeEntry(e)|, rest, closed, d)
    ensures Holds(b, i, [e] + rest, closed, d)
    ensures EncodeEntries([e] + rest) == EncodeEntry(e) + EncodeEntries(rest)
  {
    hide EncodeEntry, EncodableEntry;
    var es := [e] + rest;
    assert es[0] == e && es[1..] == rest;
    var t := EncodeEntry(e);
    if closed {
      Assoc(t, EncodeEntries(rest), [0x08]);
      Follows(b, i, t, EncodeEntries(rest) + [0x08]);
    } else {
      assert b[i..] == b[i..i + |t|] + b[i + |t|..];
    }
  }

  /** A buffer is taken if and only if it starts with a complete encoding or is one whose last end bytes are missing;
      what is read is what the encoding stands for. */
  lemma TakenExactly(b: Bytes)
    ensures ObjectAt(b, 0, map[]).Ok? <==> exists es, closed, d: nat :: Holds(b, 0, es, closed, d)
    ensures forall es, closed, d: nat :: Holds(b, 0, es, closed, d) ==>
      ObjectAt(b, 0, map[]) == Ok(Meaning(es, map[]), if closed then |EncodeEntries(es)| + 1 else |b|)
  {
    hide ObjectAt, Holds, Meaning, EncodeEntries;
    if ObjectAt(b, 0, map[]).Ok? {
      var es, closed, d := TakenHolds(b, 0, map[]);
    }
    forall es, closed, d: nat | Holds(b, 0, es, closed, d)
      ensures ObjectAt(b, 0, map[]) == Ok(Meaning(es, map[]), if closed then |EncodeEntries(es)| + 1 else |b|)
    {
      HoldsTaken(b, 0, es, closed, d, map[]);
    }
  }

  lemma HoldsTaken(b: Bytes, i: nat, es: seq<Entry>, closed: bool, d: nat, m: map<Bytes, Value>)
    requires Holds(b, i, es, closed, d)
    ensures ObjectAt(b, i, m) == Ok(Meaning(es, m), if closed then i + |EncodeEntries(es)| + 1 else |b|)
  {
    hide ObjectAt, Meaning, EncodeEntries, OpenText;
    if closed { EntriesBack(b, i, es, m); } else { OpenTaken(b, i, es, d, m); }
  }
}
