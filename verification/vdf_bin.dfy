/** The binary form of VDF: the recursive parser of vdf_bin.cpp. */
module VdfBin {
  import opened Basics
  import opened Keys
  import opened OrderBuffer

  /** A node; a float is kept as its 32-bit pattern. */
  datatype Value = Str(s: Bytes) | Int32(i: int) | Float(bits: nat) | UInt64(u: nat) | Obj(m: map<Bytes, Value>)

  const BIN_OBJECT: Byte := 0x00
  const BIN_STRING: Byte := 0x01
  const BIN_INT32: Byte := 0x02
  const BIN_FLOAT: Byte := 0x03
  const BIN_UINT64: Byte := 0x07
  const BIN_END: Byte := 0x08

  const TWO_31 := 0x8000_0000
  const TWO_64 := 0x1_0000_0000_0000_0000

  /** A value and the position behind it, or the exception. */
  datatype Result<T> = Ok(value: T, pos: nat) | Throws

  // ---------------------------------------------------------------- the readers

  /** The bytes up to the next NUL. */
  function CString(b: Bytes, i: nat, s: Bytes): (r: Result<Bytes>)
    requires i <= |b|
    ensures r.Ok? ==> i < r.pos <= |b|
    decreases |b| - i
  {
    if i == |b| then Throws else if b[i] == 0 then Ok(s, i + 1) else CString(b, i + 1, s + [b[i]])
  }

  /** Two's complement of 32 bits. */
  function Signed(u: nat): int { if u < TWO_31 then u else u - TWO_32 }

  function Low32(b: Bytes, i: nat): (r: Result<nat>)
    requires i <= |b|
    ensures r.Ok? ==> i < r.pos <= |b|
  {
    if i + 4 > |b| then Throws else Ok(GetKeyLen(b, i), i + 4)
  }

  function Low64(b: Bytes, i: nat): (r: Result<nat>)
    requires i <= |b|
    ensures r.Ok? ==> i < r.pos <= |b|
  {
    if i + 8 > |b| then Throws else Ok(GetKeyLen(b, i) + TWO_32 * GetKeyLen(b, i + 4), i + 8)
  }

  /** The value of a member of the given type. */
  function ValueAt(b: Bytes, i: nat, kind: Byte): (r: Result<Value>)
    requires i <= |b|
    ensures r.Ok? ==> i <= r.pos <= |b|
    decreases |b| - i, 1
  {
    if kind == BIN_OBJECT then
      var r := ObjectAt(b, i, map[]);
      if r.Ok? then Ok(Obj(r.value), r.pos) else Throws
    else if kind == BIN_STRING then
      var r := CString(b, i, []);
      if r.Ok? then Ok(Str(r.value), r.pos) else Throws
    else if kind == BIN_INT32 then
      var r := Low32(b, i);
      if r.Ok? then Ok(Int32(Signed(r.value)), r.pos) else Throws
    else if kind == BIN_FLOAT then
      var r := Low32(b, i);
      if r.Ok? then Ok(Float(r.value), r.pos) else Throws
    else if kind == BIN_UINT64 then
      var r := Low64(b, i);
      if r.Ok? then Ok(UInt64(r.value), r.pos) else Throws
    else Throws
  }

  /** The loop of parse_object: it ends at the end byte, or at the end of the buffer. */
  function ObjectAt(b: Bytes, i: nat, m: map<Bytes, Value>): (r: Result<map<Bytes, Value>>)
    requires i <= |b|
    ensures r.Ok? ==> i <= r.pos <= |b|
    decreases |b| - i, 0
  {
    if i == |b| then Ok(m, i)
    else if b[i] == BIN_END then Ok(m, i + 1)
    else
      var key := CString(b, i + 1, []);
      if key.Throws? then Throws else
      var val := ValueAt(b, key.pos, b[i]);
      if val.Throws? then Throws else ObjectAt(b, val.pos, m[key.value := val.value])
  }

  method ReadCString(data: Bytes, pos0: nat) returns (ok: bool, s: Bytes, pos: nat)
    requires pos0 <= |data|
    ensures CString(data, pos0, []) == (if ok then Ok(s, pos) else Throws)
  {
    s, pos := [], pos0;
    while pos < |data| && data[pos] != 0
      invariant pos0 <= pos <= |data| && CString(data, pos, s) == CString(data, pos0, [])
    {
      s := s + [data[pos]];
      pos := pos + 1;
    }
    if pos >= |data| { return false, s, pos; }
    pos := pos + 1;
    ok := true;
  }

  method ReadInt32(data: Bytes, pos0: nat) returns (ok: bool, v: int, pos: nat)
    requires pos0 <= |data|
    ensures ok <==> pos0 + 4 <= |data|
    ensures ok ==> pos == pos0 + 4 && v == Signed(GetKeyLen(data, pos0))
    ensures ok ==> -0x8000_0000 <= v < 0x8000_0000 && Le32(v % TWO_32) == data[pos0..pos]
    ensures ok ==> v % 0x1_0000_0000 == Word32(data[pos0], data[pos0 + 1], data[pos0 + 2], data[pos0 + 3])
  {
    hide Le32, GetKeyLen, Word32;
    if pos0 + 4 > |data| { return false, 0, pos0; }
    WordSpells(data, pos0);
    var u := GetKeyLen(data, pos0);
    SignedBack(u);
    return true, if u < TWO_31 then u else u - TWO_32, pos0 + 4;
  }

  /** A number is given back by the low 32 bits of its two's complement. */
  lemma SignedBack(u: nat)
    requires u < TWO_32
    ensures -TWO_31 <= Signed(u) < TWO_31 && Signed(u) % TWO_32 == u
  {}

  /** Four bytes are the encoding of the number read from them. */
  lemma WordSpells(b: Bytes, i: nat)
    requires i + 4 <= |b|
    ensures GetKeyLen(b, i) < TWO_32 && Le32(GetKeyLen(b, i)) == b[i..i + 4]
    ensures GetKeyLen(b, i) == Word32(b[i], b[i + 1], b[i + 2], b[i + 3])
  {
    hide Le32;
    BytesOf(b[i], b[i + 1], b[i + 2], b[i + 3]);
  }

  lemma BytesOf(a: Byte, b: Byte, c: Byte, d: Byte)
    ensures Le32(a + 0x100 * b + 0x1_0000 * c + 0x100_0000 * d) == [a, b, c, d]
  {
    hide Le32;
    var h: nat := c + 0x100 * d;
    var g: nat := b + 0x100 * h;
    var n: nat := a + 0x100 * g;
    assert n == a + 0x100 * b + 0x1_0000 * c + 0x100_0000 * d;
    LastByte(g, a);
    LastByte(h, b);
    LastByte(d, c);
    LastByte(0, d);
    Le32Steps(n);
  }

  lemma LastByte(q: nat, r: Byte)
    ensures (r + 0x100 * q) / 0x100 == q && (r + 0x100 * q) % 0x100 == r
  {}

  lemma Le32Steps(n: nat)
    ensures var n1 := n / 0x100; var n2 := n1 / 0x100; var n3 := n2 / 0x100;
      Le32(n) == [n % 0x100, n1 % 0x100, n2 % 0x100, n3 % 0x100]
  {
    FurtherBytes(n);
  }

  lemma TwoWords(low: nat, high: nat)
    requires low < TWO_32 && high < TWO_32
    ensures var v := low + TWO_32 * high; v % TWO_32 == low && v / TWO_32 == high && v < TWO_64
  {}

  method ReadFloat(data: Bytes, pos0: nat) returns (ok: bool, bits: nat, pos: nat)
    requires pos0 <= |data|
    ensures Low32(data, pos0) == (if ok then Ok(bits, pos) else Throws)
    ensures ok <==> pos0 + 4 <= |data|
    ensures ok ==> pos == pos0 + 4 && bits < TWO_32 && Le32(bits) == data[pos0..pos]
    ensures ok ==> bits == Word32(data[pos0], data[pos0 + 1], data[pos0 + 2], data[pos0 + 3])
  {
    hide Le32, GetKeyLen, Word32;
    if pos0 + 4 > |data| { return false, 0, pos0; }
    WordSpells(data, pos0);
    return true, GetKeyLen(data, pos0), pos0 + 4;
  }

  method ReadUInt64(data: Bytes, pos0: nat) returns (ok: bool, v: nat, pos: nat)
    requires pos0 <= |data|
    ensures Low64(data, pos0) == (if ok then Ok(v, pos) else Throws)
    ensures ok <==> pos0 + 8 <= |data|
    ensures ok ==> pos == pos0 + 8 && v < TWO_64 && Le32(v % TWO_32) + Le32(v / TWO_32) == data[pos0..pos]
    ensures ok ==>
      v == Word32(data[pos0], data[pos0 + 1], data[pos0 + 2], data[pos0 + 3])
      + 0x1_0000_0000 * Word32(data[pos0 + 4], data[pos0 + 5], data[pos0 + 6], data[pos0 + 7])
  {
    hide Le32, GetKeyLen, Word32;
    if pos0 + 8 > |data| { return false, 0, pos0; }
    WordSpells(data, pos0);
    WordSpells(data, pos0 + 4);
    assert data[pos0..pos0 + 4] + data[pos0 + 4..pos0 + 8] == data[pos0..pos0 + 8];
    TwoWords(GetKeyLen(data, pos0), GetKeyLen(data, pos0 + 4));
    return true, GetKeyLen(data, pos0) + TWO_32 * GetKeyLen(data, pos0 + 4), pos0 + 8;
  }

  /** parse_object: for every buffer it ends, with the position inside the buffer. */
  method ParseObject(data: Bytes, pos0: nat) returns (ok: bool, obj: map<Bytes, Value>, pos: nat)
    requires pos0 <= |data|
    ensures ObjectAt(data, pos0, map[]) == (if ok then Ok(obj, pos) else Throws)
    ensures ok ==> pos0 <= pos <= |data|
    decreases |data| - pos0, 0
  {
    hide CString, ValueAt, Low32, Low64;
    obj, pos := map[], pos0;
    while pos < |data|
      invariant pos0 <= pos <= |data| && ObjectAt(data, pos, obj) == ObjectAt(data, pos0, map[])
      decreases |data| - pos
    {
      var kind := data[pos];
      pos := pos + 1;
      if kind == BIN_END { return true, obj, pos; }
      var ok0, key;
      ok0, key, pos := ReadCString(data, pos);
      if !ok0 { return false, obj, pos; }
      var val;
      ok0, val, pos := ReadValue(data, pos, kind);
      if !ok0 { return false, obj, pos; }
      obj := obj[key := val];
    }
    ok := true;
  }

  /** The switch over the type byte. */
  method ReadValue(data: Bytes, pos0: nat, kind: Byte) returns (ok: bool, v: Value, pos: nat)
    requires pos0 <= |data|
    ensures ValueAt(data, pos0, kind) == (if ok then Ok(v, pos) else Throws)
    decreases |data| - pos0, 1
  {
    hide ObjectAt, CString;
    v := Str([]);
    if kind == BIN_OBJECT {
      var obj;
      ok, obj, pos := ParseObject(data, pos0);
      v := Obj(obj);
    } else if kind == BIN_STRING {
      var s;
      ok, s, pos := ReadCString(data, pos0);
      v := Str(s);
    } else if kind == BIN_INT32 {
      var i;
      ok, i, pos := ReadInt32(data, pos0);
      v := Int32(i);
    } else if kind == BIN_FLOAT {
      var bits;
      ok, bits, pos := ReadFloat(data, pos0);
      v := Float(bits);
    } else if kind == BIN_UINT64 {
      var u;
      ok, u, pos := ReadUInt64(data, pos0);
      v := UInt64(u);
    } else {
      ok, pos := false, pos0;
    }
  }

  // ---------------------------------------------------------------- the encoding and its reading

  /** Members in the order they stand in the buffer, equal keys allowed. */
  datatype Entry = Entry(key: Bytes, item: Item)
  datatype Item =
    | StrItem(s: Bytes)
    | IntItem(i: int)
    | FloatItem(bits: nat)
    | UInt64Item(u: nat)
    | Sub(entries: seq<Entry>)

  function Kind(item: Item): (k: Byte)
    ensures k != BIN_END
  {
    match item
    case StrItem(_) => 0x01
    case IntItem(_) => 0x02
    case FloatItem(_) => 0x03
    case UInt64Item(_) => 0x07
    case Sub(_) => 0x00
  }

  function EncodeEntries(es: seq<Entry>): Bytes
    decreases es
  {
    if es == [] then [] else EncodeEntry(es[0]) + EncodeEntries(es[1..])
  }

  function EncodeEntry(e: Entry): Bytes
    decreases e
  {
    [Kind(e.item)] + e.key + [0] + Payload(e.item)
  }

  function Payload(item: Item): Bytes
    decreases item
  {
    match item
    case StrItem(s) => s + [0]
    case IntItem(i) => Le32(i % TWO_32)
    case FloatItem(bits) => Le32(bits)
    case UInt64Item(u) => Le32(u % TWO_32) + Le32(u / TWO_32)
    case Sub(entries) => EncodeEntries(entries) + [0x08]
  }

  predicate NulFree(s: Bytes) { forall k :: 0 <= k < |s| ==> s[k] != 0 }

  predicate Encodable(es: seq<Entry>)
    decreases es
  {
    es == [] || (EncodableEntry(es[0]) && Encodable(es[1..]))
  }

  predicate EncodableEntry(e: Entry)
    decreases e
  {
    && NulFree(e.key)
    && match e.item
      case StrItem(s) => NulFree(s)
      case IntItem(i) => -TWO_31 <= i < TWO_31
      case FloatItem(bits) => bits < TWO_32
      case UInt64Item(u) => u < TWO_64
      case Sub(entries) => Encodable(entries)
  }

  /** The object that entries stand for; of equal keys the last counts. */
  function Meaning(es: seq<Entry>, m: map<Bytes, Value>): map<Bytes, Value>
    decreases es
  {
    if es == [] then m else Meaning(es[1..], m[es[0].key := ItemValue(es[0].item)])
  }

  function ItemValue(item: Item): Value
    decreases item
  {
    match item
    case StrItem(s) => Str(s)
    case IntItem(i) => Int32(i)
    case FloatItem(bits) => Float(bits)
    case UInt64Item(u) => UInt64(u)
    case Sub(entries) => Obj(Meaning(entries, map[]))
  }

  lemma {:induction false} CStringBack(b: Bytes, i: nat, s: Bytes, acc: Bytes)
    requires NulFree(s) && Here(b, i, s + [0])
    ensures i <= |b| && CString(b, i, acc) == Ok(acc + s, i + |s| + 1)
    decreases |s|
  {
    if s == [] {
      assert [] + [0] == [0];
      HereAt(b, i, [0], 0);
      assert acc + [] == acc;
    } else {
      assert s + [0] == [s[0]] + (s[1..] + [0]);
      Split(b, i, [s[0]], s[1..] + [0]);
      CStringBack(b, i + 1, s[1..], acc + [b[i]]);
      assert acc + [s[0]] + s[1..] == acc + s;
    }
  }

  lemma WordBack(b: Bytes, i: nat, n: nat)
    requires n < TWO_32 && Here(b, i, Le32(n))
    ensures i + 4 <= |b| && GetKeyLen(b, i) == n
  {
    Le32Decodes(n, b[..i], b[i + 4..]);
    assert b == b[..i] + Le32(n) + b[i + 4..];
  }

  lemma {:induction false} ItemBack(b: Bytes, i: nat, e: Entry)
    requires EncodableEntry(e) && Here(b, i, Payload(e.item))
    ensures i <= |b| && ValueAt(b, i, Kind(e.item)) == Ok(ItemValue(e.item), i + |Payload(e.item)|)
    decreases e, 0
  {
    hide ObjectAt, Here, GetKeyLen, Le32, CString, NulFree, Encodable;
    match e.item {
      case StrItem(s) => CStringBack(b, i, s, []); assert [] + s == s;
      case IntItem(n) => WordBack(b, i, n % TWO_32);
      case FloatItem(bits) => WordBack(b, i, bits);
      case UInt64Item(u) =>
        Split(b, i, Le32(u % TWO_32), Le32(u / TWO_32));
        WordBack(b, i, u % TWO_32);
        WordBack(b, i + 4, u / TWO_32);
      case Sub(entries) =>
        EntriesBack(b, i, entries, map[]);
    }
  }

  /** Encoded entries with their end byte are read up to just behind it, last duplicate winning. */
  lemma {:induction false} EntriesBack(b: Bytes, i: nat, es: seq<Entry>, m: map<Bytes, Value>)
    requires Encodable(es) && Here(b, i, EncodeEntries(es) + [0x08])
    ensures i <= |b| && ObjectAt(b, i, m) == Ok(Meaning(es, m), i + |EncodeEntries(es)| + 1)
    decreases es, 1
  {
    hide Here, ObjectAt, ValueAt, CString, EncodeEntry, EncodableEntry, ItemValue;
    if es == [] {
      Split(b, i, [], [BIN_END]);
      EndRead(b, i, m);
    } else {
      var rest := EncodeEntries(es[1..]) + [0x08];
      Assoc(EncodeEntry(es[0]), EncodeEntries(es[1..]), [BIN_END]);
      Split(b, i, EncodeEntry(es[0]), rest);
      EntryBack(b, i, es[0], m);
      EntriesBack(b, i + |EncodeEntry(es[0])|, es[1..], m[es[0].key := ItemValue(es[0].item)]);
    }
  }

  lemma EndRead(b: Bytes, i: nat, m: map<Bytes, Value>)
    requires i < |b| && b[i] == BIN_END
    ensures ObjectAt(b, i, m) == Ok(m, i + 1)
  {}

  lemma {:induction false} EntryBack(b: Bytes, i: nat, e: Entry, m: map<Bytes, Value>)
    requires EncodableEntry(e) && Here(b, i, EncodeEntry(e))
    ensures i + |EncodeEntry(e)| <= |b|
    ensures ObjectAt(b, i, m) == ObjectAt(b, i + |EncodeEntry(e)|, m[e.key := ItemValue(e.item)])
    decreases e, 1
  {
    hide Here, ValueAt, CString, Payload, ItemValue, Kind, ObjectAt, NulFree, Encodable;
    var p := Payload(e.item);
    assert EncodeEntry(e) == [Kind(e.item)] + ((e.key + [0]) + p);
    Split(b, i, [Kind(e.item)], (e.key + [0]) + p);
    Split(b, i + 1, e.key + [0], p);
    CStringBack(b, i + 1, e.key, []);
    assert [] + e.key == e.key;
    ItemBack(b, i + 2 + |e.key|, e);
    EntryRead(b, i, CString(b, i + 1, []), ValueAt(b, i + 2 + |e.key|, b[i]), m);
  }

  lemma EntryRead(b: Bytes, i: nat, key: Result<Bytes>, val: Result<Value>, m: map<Bytes, Value>)
    requires i < |b| && b[i] != BIN_END && key == CString(b, i + 1, []) && key.Ok?
    requires val == ValueAt(b, key.pos, b[i]) && val.Ok?
    ensures val.pos <= |b| && ObjectAt(b, i, m) == ObjectAt(b, val.pos, m[key.value := val.value])
  {
    hide CString, ValueAt;
  }

  /** The encoding of any tree parses to that tree; at the top the end byte may be missing. */
  lemma Decodes(es: seq<Entry>)
    requires Encodable(es)
    ensures ObjectAt(EncodeEntries(es) + [0x08], 0, map[]) == Ok(Meaning(es, map[]), |EncodeEntries(es)| + 1)
    ensures ObjectAt(EncodeEntries(es), 0, map[]) == Ok(Meaning(es, map[]), |EncodeEntries(es)|)
  {
    var b := EncodeEntries(es) + [0x08];
    assert b[0..0 + |b|] == b;
    EntriesBack(b, 0, es, map[]);
    var c := EncodeEntries(es);
    assert c[0..0 + |c|] == c;
    OpenBack(c, 0, es, map[]);
  }

  lemma {:induction false} OpenBack(b: Bytes, i: nat, es: seq<Entry>, m: map<Bytes, Value>)
    requires Encodable(es) && Here(b, i, EncodeEntries(es)) && i + |EncodeEntries(es)| == |b|
    ensures ObjectAt(b, i, m) == Ok(Meaning(es, m), |b|)
    decreases |es|
  {
    hide Here, ValueAt, CString, EncodeEntry, EncodableEntry, ItemValue;
    if es != [] {
      Split(b, i, EncodeEntry(es[0]), EncodeEntries(es[1..]));
      EntryBack(b, i, es[0], m);
      OpenBack(b, i + |EncodeEntry(es[0])|, es[1..], m[es[0].key := ItemValue(es[0].item)]);
    }
  }
}
