/** The `order` buffer of a JSON object in ctljson.hpp: length-prefixed keys, one after another. */
module OrderBuffer {
  import opened Basics
  import opened Keys

  const TWO_32 := 0x1_0000_0000
  /** keylen_size for one-byte characters. */
  const KEYLEN_SIZE := 4

  type Bytes = seq<Byte>

  function Le32(n: nat): (b: Bytes)
    ensures |b| == KEYLEN_SIZE
  {
    [n % 0x100, n / 0x100 % 0x100, n / 0x1_0000 % 0x100, n / 0x100_0000 % 0x100]
  }

  /** get_keylen_: the four bytes at pos as a little-endian number. */
  function GetKeyLen(b: Bytes, pos: nat): nat
    requires pos + KEYLEN_SIZE <= |b|
  {
    b[pos] as nat + 0x100 * b[pos + 1] as nat + 0x1_0000 * b[pos + 2] as nat + 0x100_0000 * b[pos + 3] as nat
  }

  /** append_keyinfo_: the length cut to 32 bits, then the key. */
  function Record(key: Key): Bytes { Le32(|key|) + key }

  function Encode(keys: seq<Key>): Bytes {
    if keys == [] then [] else Record(keys[0]) + Encode(keys[1..])
  }

  predicate Short(keys: seq<Key>) { forall i :: 0 <= i < |keys| ==> |keys[i]| < TWO_32 }
  predicate Filled(keys: seq<Key>) { forall i :: 0 <= i < |keys| ==> keys[i] != [] }
  predicate NoDup<T(==)>(s: seq<T>) { forall i, j :: 0 <= i < j < |s| ==> s[i] != s[j] }

  /** nestring::erase: a run of bytes is taken out, cut at the end of the string. */
  function Cut(b: Bytes, pos: nat, len: nat): Bytes {
    if pos >= |b| then b else if |b| - pos > len then b[..pos] + b[pos + len..] else b[..pos]
  }

  // ---------------------------------------------------------------- list operations

  function Without<T(==)>(s: seq<T>, x: T): (r: seq<T>)
    ensures x !in r
  {
    if s == [] then [] else if s[0] == x then Without(s[1..], x) else [s[0]] + Without(s[1..], x)
  }

  /** x placed immediately before the first occurrence of y. */
  function PlaceBefore<T(==)>(s: seq<T>, y: T, x: T): seq<T> {
    if s == [] then [] else if s[0] == y then [x] + s else [s[0]] + PlaceBefore(s[1..], y, x)
  }

  /** An empty key that is the last: the record of no key follows it, and most walks stop before it. */
  predicate Unreached(keys: seq<Key>, key: Key) { key == [] && keys != [] && keys[|keys| - 1] == [] }

  /** The keys that those walks get to. */
  function Reached(keys: seq<Key>): (r: seq<Key>)
    ensures r <= keys
  {
    if Unreached(keys, []) then keys[..|keys| - 1] else keys
  }

  /** The keys that are left when such a walk has looked for one and taken it out. */
  function Removed(keys: seq<Key>, key: Key): seq<Key> { if Unreached(keys, key) then keys else Without(keys, key) }

  /** What a walk over the buffer for one key removes: the loops stop before a trailing empty key. */
  function WalkRemoves(keys: seq<Key>, key: Key): seq<Key> {
    if keys == [] || keys == [[]] then keys
    else if keys[0] == key then keys[1..]
    else [keys[0]] + WalkRemoves(keys[1..], key)
  }

  // ---------------------------------------------------------------- decoding

  lemma Le32Decodes(n: nat, pre: Bytes, rest: Bytes)
    requires n < TWO_32
    ensures GetKeyLen(pre + Le32(n) + rest, |pre|) == n
  {
    var b := pre + Le32(n) + rest;
    assert b[|pre|] == Le32(n)[0] && b[|pre| + 1] == Le32(n)[1] && b[|pre| + 2] == Le32(n)[2]
        && b[|pre| + 3] == Le32(n)[3];
    Digits256(n);
  }

  lemma Digits256(n: nat)
    requires n < TWO_32
    ensures n % 0x100 + 0x100 * (n / 0x100 % 0x100) + 0x1_0000 * (n / 0x1_0000 % 0x100)
        + 0x100_0000 * (n / 0x100_0000 % 0x100) == n
  {
    var n1 := n / 0x100;
    var n2 := n1 / 0x100;
    var n3 := n2 / 0x100;
    FurtherBytes(n);
    assert n == 0x100 * n1 + n % 0x100 && n1 == 0x100 * n2 + n1 % 0x100 && n2 == 0x100 * n3 + n2 % 0x100;
    assert n3 % 0x100 == n3;
  }

  lemma FurtherBytes(n: nat)
    ensures n / 0x1_0000 == n / 0x100 / 0x100 && n / 0x100_0000 == n / 0x100 / 0x100 / 0x100
  {}

  /** Four bytes keep a number modulo 2^32. */
  lemma SameLow(n: nat)
    ensures Le32(n) == Le32(n % TWO_32)
  {
    var q, r := n / TWO_32, n % TWO_32;
    SameByte(q, r, 1, 0x100_0000);
    SameByte(q, r, 0x100, 0x1_0000);
    SameByte(q, r, 0x1_0000, 0x100);
    SameByte(q, r, 0x100_0000, 1);
  }

  lemma SameByte(q: nat, r: nat, d: nat, e: nat)
    requires d > 0 && d * 0x100 * e == TWO_32
    ensures (TWO_32 * q + r) / d % 0x100 == r / d % 0x100
  {
    var k := e * q;
    assert TWO_32 * q + r == d * (0x100 * k) + r by { assert d * 0x100 * e * q == d * (0x100 * (e * q)); }
    Shifted(d, 0x100 * k, r);
    Shifted(0x100, k, r / d);
  }

  lemma Shifted(d: nat, k: nat, r: nat)
    requires d > 0
    ensures (d * k + r) / d == k + r / d && (d * k + r) % d == r % d
  {
    var n := d * k + r;
    var x := n / d - k - r / d;
    assert d * x == r % d - n % d by {
      assert n == d * (n / d) + n % d && r == d * (r / d) + r % d;
      assert d * x == d * (n / d) - d * k - d * (r / d);
    }
    OnlyZero(d, x);
  }

  /** No other multiple of d is that small. */
  lemma OnlyZero(d: int, x: int)
    requires 0 < d && -d < d * x < d
    ensures x == 0
  {
    if x > 0 { AtLeastOnce(d, x); }
    if x < 0 { AtLeastOnce(d, -x); }
  }

  lemma AtLeastOnce(d: int, x: int)
    requires d > 0 && x > 0
    ensures d * x >= d
  {}

  /** The number that four bytes make, the lowest first. */
  function Word32(a: nat, b: nat, c: nat, d: nat): nat { a + 0x100 * b + 0x1_0000 * c + 0x100_0000 * d }

  lemma LittleEndian(n: nat)
    ensures var b := Le32(n);
      |b| == 4 && Word32(b[0], b[1], b[2], b[3]) == n % 0x1_0000_0000
  {
    SameLow(n);
    Digits256(n % TWO_32);
  }

  /** A record in bytes: the length modulo 2^32, then the key. */
  lemma RecordIs(key: Key)
    ensures var r := Record(key);
      |r| == 4 + |key| && Word32(r[0], r[1], r[2], r[3]) == |key| % 0x1_0000_0000 && r[4..] == key
  {
    hide Le32, Word32;
    LittleEndian(|key|);
    var b, r := Le32(|key|), Record(key);
    assert r[0] == b[0] && r[1] == b[1] && r[2] == b[2] && r[3] == b[3];
  }

  /** The length stored with a key is its length exactly when that fits in 32 bits. */
  lemma LengthKept(key: Key, rest: Bytes)
    ensures GetKeyLen(Record(key) + rest, 0) == |key| % TWO_32
    ensures GetKeyLen(Record(key) + rest, 0) == |key| <==> |key| < TWO_32
  {
    hide Le32, GetKeyLen;
    SameLow(|key|);
    Le32Decodes(|key| % TWO_32, [], key + rest);
    assert [] + Le32(|key| % TWO_32) + (key + rest) == Record(key) + rest;
  }

  lemma {:induction false} EncodeAppend(a: seq<Key>, b: seq<Key>)
    ensures Encode(a + b) == Encode(a) + Encode(b)
  {
    if a == [] {
      assert a + b == b;
    } else {
      assert (a + b)[1..] == a[1..] + b;
      EncodeAppend(a[1..], b);
    }
  }

  lemma EncodeOne(k: Key)
    ensures Encode([k]) == Record(k)
  {
    assert [k][1..] == [];
    assert Encode([]) == [];
  }

  /** One record between other bytes. */
  lemma RecordParts(pre: Bytes, k: Key, post: Bytes)
    requires |k| < TWO_32
    ensures var b, pos := pre + Record(k) + post, |pre|;
      && |Record(k)| == KEYLEN_SIZE + |k|
      && GetKeyLen(b, pos) == |k|
      && b[pos + KEYLEN_SIZE..pos + KEYLEN_SIZE + |k|] == k
  {
    hide GetKeyLen, Le32;
    assert pre + Record(k) + post == pre + Le32(|k|) + (k + post);
    Le32Decodes(|k|, pre, k + post);
  }

  /** The record of key j starts where the records of the keys before it end. */
  lemma RecordAt(keys: seq<Key>, j: nat)
    requires j < |keys| && Short(keys)
    ensures var b, pos, k := Encode(keys), |Encode(keys[..j])|, keys[j];
      && b == Encode(keys[..j]) + Record(k) + Encode(keys[j + 1..])
      && pos + KEYLEN_SIZE + |k| <= |b|
      && GetKeyLen(b, pos) == |k|
      && b[pos + KEYLEN_SIZE..pos + KEYLEN_SIZE + |k|] == k
      && |Encode(keys[..j + 1])| == pos + KEYLEN_SIZE + |k|
  {
    hide GetKeyLen, Le32, Record, Encode;
    var pre, k, post := Encode(keys[..j]), keys[j], Encode(keys[j + 1..]);
    RecordParts(pre, k, post);
    assert keys == keys[..j] + ([k] + keys[j + 1..]);
    EncodeAppend(keys[..j], [k] + keys[j + 1..]);
    EncodeAppend([k], keys[j + 1..]);
    EncodeOne(k);
    Assoc(pre, Record(k), post);
    assert keys[..j + 1] == keys[..j] + [k];
    EncodeAppend(keys[..j], [k]);
  }

  lemma {:induction false} EncodeEmptyOnly(keys: seq<Key>)
    ensures keys != [] ==> |Encode(keys)| >= KEYLEN_SIZE
    ensures |Encode(keys)| > KEYLEN_SIZE <==> keys != [] && keys != [[]]
  {
    if |keys| > 1 { EncodeEmptyOnly(keys[1..]); }
    else if |keys| == 1 { EncodeOne(keys[0]); assert keys == [keys[0]]; }
  }

  /** The loop guard of the walks says exactly that a record other than a trailing empty one follows. */
  lemma WalkGuard(keys: seq<Key>, j: nat)
    requires j <= |keys|
    ensures |Encode(keys[..j])| <= |Encode(keys)|
    ensures |Encode(keys[..j])| + KEYLEN_SIZE < |Encode(keys)| <==> keys[j..] != [] && keys[j..] != [[]]
  {
    assert keys == keys[..j] + keys[j..];
    EncodeAppend(keys[..j], keys[j..]);
    EncodeEmptyOnly(keys[j..]);
  }

  /** Cutting out the record of key j leaves the encoding of the other keys. */
  lemma CutRecord(keys: seq<Key>, j: nat)
    requires j < |keys| && Short(keys)
    ensures Cut(Encode(keys), |Encode(keys[..j])|, KEYLEN_SIZE + |keys[j]|) == Encode(keys[..j] + keys[j + 1..])
  {
    RecordAt(keys, j);
    EncodeAppend(keys[..j], keys[j + 1..]);
    var pre, post := Encode(keys[..j]), Encode(keys[j + 1..]);
    var b := Encode(keys);
    assert b[..|pre|] == pre;
    assert b[|pre| + |Record(keys[j])|..] == post;
  }

  lemma InsertRecord(keys: seq<Key>, j: nat, k: Key)
    requires j <= |keys|
    ensures |Encode(keys[..j])| <= |Encode(keys)|
    ensures var b, pos := Encode(keys), |Encode(keys[..j])|;
      b[..pos] + Record(k) + b[pos..] == Encode(keys[..j] + [k] + keys[j..])
  {
    assert keys == keys[..j] + keys[j..];
    EncodeAppend(keys[..j], keys[j..]);
    EncodeAppend(keys[..j] + [k], keys[j..]);
    EncodeAppend(keys[..j], [k]);
    EncodeOne(k);
  }

  // ---------------------------------------------------------------- lists against positions

  lemma {:induction false} WithoutAbsent<T>(s: seq<T>, x: T)
    requires x !in s
    ensures Without(s, x) == s
  {
    if s != [] { WithoutAbsent(s[1..], x); }
  }

  lemma {:induction false} WithoutAt<T>(s: seq<T>, j: nat)
    requires j < |s| && NoDup(s)
    ensures Without(s, s[j]) == s[..j] + s[j + 1..]
  {
    if j == 0 {
      WithoutAbsent(s[1..], s[0]);
    } else {
      WithoutAt(s[1..], j - 1);
      assert s[..j] + s[j + 1..] == [s[0]] + (s[1..][..j - 1] + s[1..][j..]);
    }
  }

  lemma {:induction false} PlaceBeforeAt<T>(s: seq<T>, j: nat, x: T)
    requires j < |s| && NoDup(s)
    ensures PlaceBefore(s, s[j], x) == s[..j] + [x] + s[j..]
  {
    if j > 0 {
      PlaceBeforeAt(s[1..], j - 1, x);
      assert s[..j] + [x] + s[j..] == [s[0]] + (s[1..][..j - 1] + [x] + s[1..][j - 1..]);
    }
  }

  lemma {:induction false} WalkFinds(keys: seq<Key>, j: nat)
    requires j < |keys| && keys[j..] != [[]] && (forall i :: 0 <= i < j ==> keys[i] != keys[j])
    ensures WalkRemoves(keys, keys[j]) == keys[..j] + keys[j + 1..]
  {
    if j > 0 {
      assert keys[1..][j - 1..] == keys[j..];
      WalkFinds(keys[1..], j - 1);
      assert keys[..j] + keys[j + 1..] == [keys[0]] + (keys[1..][..j - 1] + keys[1..][j..]);
    }
  }

  lemma {:induction false} WalkMisses(keys: seq<Key>, j: nat, key: Key)
    requires j <= |keys| && (keys[j..] == [] || keys[j..] == [[]]) && (forall i :: 0 <= i < j ==> keys[i] != key)
    ensures WalkRemoves(keys, key) == keys
  {
    if j > 0 {
      assert keys[1..][j - 1..] == keys[j..];
      WalkMisses(keys[1..], j - 1, key);
    }
  }

  /** The walk removes a key correctly in all cases but one: an empty key that is the last. */
  lemma WalkIsRemoval(keys: seq<Key>, key: Key)
    requires NoDup(keys)
    ensures WalkRemoves(keys, key) == Removed(keys, key)
    ensures Removed(keys, key) == Without(keys, key) <==> !Unreached(keys, key)
  {
    if key in keys {
      var j :| 0 <= j < |keys| && keys[j] == key;
      WithoutAt(keys, j);
      assert keys[|keys| - 1] == key ==> j == |keys| - 1;
      assert j == |keys| - 1 && key == [] ==> keys[j..] == [[]];
      if keys[j..] == [[]] {
        assert keys[j..][0] == keys[j];
        WalkMisses(keys, j, key);
        assert |Without(keys, key)| < |keys|;
      } else {
        WalkFinds(keys, j);
      }
    } else {
      WithoutAbsent(keys, key);
      var j := if keys != [] && keys[|keys| - 1] == [] then |keys| - 1 else |keys|;
      assert j < |keys| ==> keys[j..] == [[]];
      WalkMisses(keys, j, key);
    }
  }

  /** The loop guard of the walks holds exactly before the keys that they get to. */
  lemma ReachedGuard(keys: seq<Key>, j: nat)
    requires j <= |Reached(keys)|
    ensures |Encode(keys[..j])| <= |Encode(keys)|
    ensures |Encode(keys[..j])| + KEYLEN_SIZE < |Encode(keys)| <==> j < |Reached(keys)|
    ensures Reached(keys)[..j] == keys[..j]
  {
    WalkGuard(keys, j);
    var n := |keys| - 1;
    if j < |Reached(keys)| {
      assert keys[j..][|keys| - j - 1] == keys[n];
      assert |keys[j..]| == 1 ==> keys[j..] == [keys[n]];
    } else if j < |keys| {
      assert keys[j..] == [[]];
    }
  }

  /** A key that the walks get to is the last only if no empty key is. */
  lemma ReachedKey(keys: seq<Key>, j: nat)
    requires NoDup(keys) && j < |Reached(keys)|
    ensures !Unreached(keys, keys[j]) && Removed(keys, keys[j]) == Without(keys, keys[j])
  {}

  lemma ReachedNone(keys: seq<Key>, key: Key)
    requires key !in Reached(keys)
    ensures Removed(keys, key) == keys
    ensures key in keys <==> Unreached(keys, key)
  {
    if Unreached(keys, []) { assert keys == Reached(keys) + [[]]; }
    if !Unreached(keys, key) { WithoutAbsent(keys, key); }
  }
}
