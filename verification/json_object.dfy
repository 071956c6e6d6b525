/** Objects of ctljson.hpp: a tree of members and a byte buffer that remembers the order of the keys. */
module JsonObjects {
  import opened Basics
  import opened Keys
  import opened OrderBuffer
  import opened NeMaps
  import opened RbShape

  // ---------------------------------------------------------------- what the list operations mean

  lemma {:induction false} WithoutHas<T>(s: seq<T>, x: T)
    ensures forall y :: y in Without(s, x) ==> y in s && y != x
    ensures forall y :: y in s && y != x ==> y in Without(s, x)
  {
    if s != [] { WithoutHas(s[1..], x); }
  }

  lemma {:induction false} WithoutNoDup<T>(s: seq<T>, x: T)
    requires NoDup(s)
    ensures NoDup(Without(s, x))
  {
    if s != [] {
      WithoutNoDup(s[1..], x);
      WithoutHas(s[1..], x);
      assert s[0] !in s[1..];
    }
  }

  lemma {:induction false} WithoutAppend<T>(a: seq<T>, b: seq<T>, x: T)
    ensures Without(a + b, x) == Without(a, x) + Without(b, x)
  {
    if a == [] {
      assert a + b == b;
    } else {
      assert (a + b)[1..] == a[1..] + b;
      WithoutAppend(a[1..], b, x);
    }
  }

  /** A key moved in front of another stands directly before it; all other keys keep their order. */
  lemma MovedBefore<T>(s: seq<T>, y: T, x: T, j: nat)
    requires NoDup(s) && x != y && j < |Without(s, x)| && Without(s, x)[j] == y
    ensures var r := PlaceBefore(Without(s, x), y, x);
      && NoDup(r) && j + 1 < |r| && r[j] == x && r[j + 1] == y
      && Without(r, x) == Without(s, x)
  {
    hide Without, PlaceBefore;
    var w := Without(s, x);
    WithoutNoDup(s, x);
    PlaceBeforeAt(w, j, x);
    WithoutPlaced(w, j, x);
    WithoutAbsent(w, x);
  }

  /** Taking out what was put into a list gives the list back. */
  lemma WithoutPlaced<T>(w: seq<T>, j: nat, x: T)
    requires j <= |w|
    ensures Without(w[..j] + [x] + w[j..], x) == Without(w, x)
  {
    hide Without;
    var a, b := w[..j], w[j..];
    assert w == a + b;
    WithoutAppend(a + [x], b, x);
    WithoutAppend(a, [x], x);
    WithoutAppend(a, b, x);
    WithoutSelf(x);
  }

  lemma WithoutSelf<T>(x: T)
    ensures Without([x], x) == []
  {}

  /** A key moved to the end is last; all other keys keep their order. */
  lemma MovedToEnd<T>(s: seq<T>, x: T)
    requires NoDup(s)
    ensures var r := Without(s, x) + [x]; NoDup(r) && Without(r, x) == Without(s, x)
  {
    WithoutNoDup(s, x);
    WithoutAppend(Without(s, x), [x], x);
    assert Without([x], x) == [];
    WithoutAbsent(Without(s, x), x);
  }

  // ---------------------------------------------------------------- members in order

  /** The members of an object in the order of its keys. */
  function Entries<V>(keys: seq<Key>, m: map<Key, V>): (r: seq<(Key, V)>)
    requires forall k :: k in keys ==> k in m
    ensures |r| == |keys| && forall i :: 0 <= i < |r| ==> r[i] == (keys[i], m[keys[i]])
  {
    seq(|keys|, i requires 0 <= i < |keys| => (keys[i], m[keys[i]]))
  }

  /** A binding set in a list of members: in place when the key is there, else at the end. */
  function Put<V>(es: seq<(Key, V)>, key: Key, v: V): seq<(Key, V)> {
    if es == [] then [(key, v)]
    else if es[0].0 == key then [(key, v)] + es[1..]
    else [es[0]] + Put(es[1..], key, v)
  }

  /** Where a key stands in the list; the length of the list when it is not there. */
  function IndexOf(keys: seq<Key>, key: Key): (i: nat)
    ensures i <= |keys| && key !in keys[..i] && (i < |keys| ==> keys[i] == key)
    ensures key in keys <==> i < |keys|
  {
    if keys == [] || keys[0] == key then 0
    else
      var i := IndexOf(keys[1..], key) + 1;
      assert keys[..i] == [keys[0]] + keys[1..][..i - 1];
      i
  }

  function KeyPut(keys: seq<Key>, key: Key): seq<Key> { if key in keys then keys else keys + [key] }

  lemma {:induction false} PutEntries<V>(keys: seq<Key>, m: map<Key, V>, key: Key, v: V)
    requires NoDup(keys) && forall k :: k in keys ==> k in m
    ensures forall k :: k in KeyPut(keys, key) ==> k in m[key := v]
    ensures Entries(KeyPut(keys, key), m[key := v]) == Put(Entries(keys, m), key, v)
  {
    var m' := m[key := v];
    if keys == [] {
      assert Entries([key], m') == [(key, v)];
      assert Entries(keys, m) == [];
    } else if keys[0] == key {
      assert key !in keys[1..];
      assert Entries(keys, m') == [(key, v)] + Entries(keys, m)[1..];
    } else {
      PutEntries(keys[1..], m, key, v);
      EntriesStep(keys, m);
      KeyPutStep(keys, key);
      EntriesStep(KeyPut(keys, key), m');
    }
  }

  lemma KeyPutStep(keys: seq<Key>, key: Key)
    requires keys != [] && keys[0] != key
    ensures KeyPut(keys, key) == [keys[0]] + KeyPut(keys[1..], key)
  {
    assert key in keys ==> key in keys[1..];
  }

  lemma EntriesStep<V>(keys: seq<Key>, m: map<Key, V>)
    requires keys != [] && forall k :: k in keys ==> k in m
    ensures Entries(keys, m) == [(keys[0], m[keys[0]])] + Entries(keys[1..], m)
  {}

  lemma {:induction false} KeyCountIs<V>(keys: seq<Key>, m: map<Key, V>)
    requires NoDup(keys) && (forall k :: k in keys ==> k in m) && forall k :: k in m ==> k in keys
    ensures |keys| == |m|
  {
    if keys == [] {
      assert m == map[];
    } else {
      var n := |keys| - 1;
      var m' := m - {keys[n]};
      assert keys == keys[..n] + [keys[n]];
      KeyCountIs(keys[..n], m');
      assert m'.Keys == m.Keys - {keys[n]};
      assert |m'.Keys| == |m.Keys| - 1;
    }
  }

  /** The key at a record of the buffer, compared byte by byte. */
  method SameAt(b: Bytes, keypos: nat, key: Key) returns (same: bool)
    requires keypos + |key| <= |b|
    ensures same <==> b[keypos..keypos + |key|] == key
  {
    var i := 0;
    while i < |key|
      invariant i <= |key| && b[keypos..keypos + i] == key[..i]
    {
      if b[keypos + i] != key[i] {
        assert b[keypos..keypos + |key|][i] != key[i];
        return false;
      }
      assert b[keypos..keypos + i + 1] == b[keypos..keypos + i] + [b[keypos + i]];
      i := i + 1;
    }
    assert key[..i] == key;
    return true;
  }

  /** Which keys the buffer can hold: lengths are kept in 32 bits. */
  predicate Storable(key: Key) { |key| < TWO_32 }

  /** The keys of a map, each once, in some order. */
  ghost predicate Lists<V>(keys: seq<Key>, m: map<Key, V>) {
    && NoDup(keys) && Short(keys)
    && (forall k :: k in keys ==> k in m)
    && (forall k :: k in m ==> k in keys)
  }

  lemma ListsPut<V>(keys: seq<Key>, m: map<Key, V>, key: Key, v: V)
    requires Lists(keys, m)
    ensures Lists(KeyPut(keys, key), m[key := v]) <==> Storable(key)
    ensures key in m ==> Storable(key)
  {
    if key !in keys { assert (keys + [key])[|keys|] == key; }
  }

  lemma ListsWithout<V>(keys: seq<Key>, m: map<Key, V>, key: Key)
    requires Lists(keys, m)
    ensures Lists(Without(keys, key), m - {key})
  {
    WithoutNoDup(keys, key);
    WithoutHas(keys, key);
    var r := Without(keys, key);
    forall i | 0 <= i < |r| ensures Storable(r[i]) {
      assert r[i] in keys;
    }
  }

  lemma ListsMeans<V>(keys: seq<Key>, m: map<Key, V>)
    requires Lists(keys, m)
    ensures NoDup(keys) && Short(keys)
    ensures (forall k :: k in keys ==> k in m) && (forall k :: k in m ==> k in keys)
  {}

  lemma PutAtKeeps<T>(w: seq<T>, x: T, j: nat)
    requires NoDup(w) && x !in w && j <= |w|
    ensures var r := w[..j] + [x] + w[j..];
      && NoDup(r) && (forall y :: y in r ==> y in w || y == x) && (forall y :: y in w || y == x ==> y in r)
  {
    var r := w[..j] + [x] + w[j..];
    assert forall i :: 0 <= i < |r| ==> r[i] == if i < j then w[i] else if i == j then x else w[i - 1];
    assert w == w[..j] + w[j..];
  }

  /** A key set down again at any place. */
  lemma ListsMoved<V>(keys: seq<Key>, m: map<Key, V>, key: Key, v: V, j: nat)
    requires Lists(keys, m) && j <= |Without(keys, key)|
    ensures var w := Without(keys, key);
      && (Lists(w[..j] + [key] + w[j..], m[key := v]) <==> Storable(key))
      && w[..|w|] + [key] + w[|w|..] == w + [key]
  {
    ListsWithout(keys, m, key);
    hide Without;
    var w := Without(keys, key);
    var r := w[..j] + [key] + w[j..];
    PutAtKeeps(w, key, j);
    assert r[j] == key;
    forall i | 0 <= i < |r| ensures Storable(key) ==> Storable(r[i]) {
      assert r[i] in w || r[i] == key;
    }
  }

  class JsonObject<V> {
    const objmap: NeMap<V>
    var order: Bytes
    ghost var keys: seq<Key>

    /** The buffer decodes to a duplicate-free list of exactly the keys in the tree. */
    ghost predicate Valid()
      reads this, objmap, objmap.nodes
    {
      && objmap.Valid() && order == Encode(keys) && Lists(keys, objmap.contents)
    }

    constructor (blank: V)
      ensures Valid() && keys == [] && objmap.contents == map[] && objmap.blank == blank
      ensures fresh(objmap) && fresh(objmap.nodes)
    {
      objmap := new NeMap(blank);
      order, keys := [], [];
    }

    // -------------------------------------------------------------- the order buffer alone

    /** remove_orderkey_. */
    method RemoveOrderKey(key: Key)
      requires order == Encode(keys) && Short(keys)
      modifies this`order
      ensures order == Encode(WalkRemoves(keys, key))
    {
      hide Encode, Record, WalkRemoves, GetKeyLen;
      var pos := 0;
      ghost var j := 0;
      assert Encode(keys[..0]) == [] by { EncodeNone(); }
      while pos + KEYLEN_SIZE < |order|
        invariant j <= |keys| && pos == |Encode(keys[..j])| && order == Encode(keys)
        invariant forall i :: 0 <= i < j ==> keys[i] != key
        decreases |keys| - j
      {
        WalkGuard(keys, j);
        RecordAt(keys, j);
        var keylen := GetKeyLen(order, pos);
        var keypos := pos + KEYLEN_SIZE;
        if keylen == |key| {
          var same := SameAt(order, keypos, key);
          if same {
            CutRecord(keys, j);
            WalkFinds(keys, j);
            order := Cut(order, pos, KEYLEN_SIZE + keylen);
            return;
          }
        }
        pos, j := keypos + keylen, j + 1;
      }
      WalkGuard(keys, j);
      WalkMisses(keys, j, key);
    }

    static lemma EncodeNone()
      ensures Encode([]) == []
    {}

    /** append_keyinfo_. */
    method AppendKeyInfo(key: Key)
      modifies this`order, this`keys
      requires order == Encode(keys)
      ensures keys == old(keys) + [key] && order == Encode(keys)
    {
      hide Encode, Record;
      EncodeAppend(keys, [key]);
      EncodeOne(key);
      order, keys := order + Record(key), keys + [key];
    }

    // -------------------------------------------------------------- operations on members

    /** operator()(key): the member with the key, appended with a blank value when there is none. A key whose length
        does not fit in 32 bits is the one thing that the buffer cannot take. */
    method Access(key: Key) returns (n: Node<V>)
      requires Valid()
      modifies this, objmap, objmap.nodes
      ensures objmap.Valid() && order == Encode(keys) && fresh(objmap.nodes - old(objmap.nodes))
      ensures n in objmap.nodes && n.key == key && keys == KeyPut(old(keys), key)
      ensures Valid() <==> Storable(key)
      ensures objmap.contents == if key in old(keys) then old(objmap.contents)
          else old(objmap.contents)[key := objmap.blank]
    {
      hide Encode, objmap.Valid, Storable, NoDup, Short;
      ListsPut(keys, objmap.contents, key, objmap.blank);
      var it, _ := objmap.Find(key);
      if it != null { return it; }
      AppendKeyInfo(key);
      n := objmap.FindOrInsert(key);
    }

    /** erase(key). The member is gone from the tree; its key stays in the buffer exactly when it is an empty key
        that is the last, and only then buffer and tree no longer agree. */
    method Erase(key: Key) returns (ok: bool)
      requires Valid()
      modifies this, objmap, objmap.nodes
      ensures objmap.Valid() && order == Encode(keys) && objmap.nodes <= old(objmap.nodes)
      ensures ok == (key in old(keys)) && objmap.contents == old(objmap.contents) - {key}
      ensures keys == Removed(old(keys), key)
      ensures Valid() <==> !Unreached(old(keys), key)
    {
      hide Encode, objmap.Valid, NoDup, Short;
      WithoutAbsentToo(keys, key);
      var it, _ := objmap.Find(key);
      if it == null {
        assert objmap.contents - {key} == objmap.contents;
        return false;
      }
      ListsWithout(keys, objmap.contents, key);
      WalkIsRemoval(keys, key);
      objmap.EraseNode(it);
      RemoveOrderKey(key);
      keys := Removed(keys, key);
      return true;
    }

    static lemma WithoutAbsentToo(keys: seq<Key>, key: Key)
      ensures key !in keys ==> Without(keys, key) == keys
    {
      if key !in keys { WithoutAbsent(keys, key); }
    }

    /** push_back(key, v): the key moves to the end, with the new value. Exactly an empty key that is the last
        already is written a second time. */
    method PushBack(key: Key, v: V)
      requires Valid()
      modifies this, objmap, objmap.nodes
      ensures objmap.Valid() && order == Encode(keys) && fresh(objmap.nodes - old(objmap.nodes))
      ensures keys == Removed(old(keys), key) + [key] && objmap.contents == old(objmap.contents)[key := v]
      ensures Valid() <==> Storable(key) && !Unreached(old(keys), key)
    {
      hide Encode, objmap.Valid, Short, Storable, NoDup;
      ListsMoved(keys, objmap.contents, key, v, |Without(keys, key)|);
      if Unreached(keys, key) { TwiceLast(keys, key); }
      OrderToEnd(key);
      var n := objmap.FindOrInsert(key);
      objmap.SetValue(n, v);
    }

    static lemma TwiceLast(keys: seq<Key>, key: Key)
      requires Unreached(keys, key)
      ensures !NoDup(keys + [key])
    {
      assert (keys + [key])[|keys| - 1] == (keys + [key])[|keys|];
    }

    /** The walk of push_back over the order buffer, with its shortcut for a key that is last already. */
    method OrderToEnd(key: Key)
      requires order == Encode(keys) && NoDup(keys) && Short(keys)
      modifies this`order, this`keys
      ensures order == Encode(keys) && keys == Removed(old(keys), key) + [key]
    {
      hide Encode, Record, GetKeyLen, NoDup, Short, Removed, Reached, Unreached;
      var pos := 0;
      ghost var j := 0;
      EncodeNone();
      assert keys[..0] == [];
      ghost var found := false;
      ReachedGuard(keys, 0);
      while pos + KEYLEN_SIZE < |order|
        invariant j <= |Reached(keys)| && pos == |Encode(keys[..j])| && order == Encode(keys) && keys == old(keys)
        invariant key !in keys[..j] && !found
        decreases |keys| - j
      {
        ReachedGuard(keys, j);
        RecordAt(keys, j);
        var keylen := GetKeyLen(order, pos);
        var keypos := pos + KEYLEN_SIZE;
        if keylen == |key| {
          var same := SameAt(order, keypos, key);
          if same {
            WithoutAt(keys, j);
            ReachedKey(keys, j);
            RecordEnds(keys, j);
            if keypos + keylen == |order| { return; }
            CutRecord(keys, j);
            found := true;
            order, keys := Cut(order, keypos - KEYLEN_SIZE, KEYLEN_SIZE + keylen), Without(keys, key);
            break;
          }
        }
        assert keys[..j + 1] == keys[..j] + [keys[j]];
        pos, j := keypos + keylen, j + 1;
      }
      if !found {
        ReachedGuard(keys, j);
        ReachedNone(keys, key);
      }
      AppendKeyInfo(key);
    }

    static lemma RecordEnds(keys: seq<Key>, j: nat)
      requires j < |keys|
      ensures |Encode(keys[..j + 1])| == |Encode(keys)| <==> j + 1 == |keys|
      ensures j + 1 == |keys| ==> keys[..j] + keys[j + 1..] + [keys[j]] == keys
    {
      assert keys == keys[..j + 1] + keys[j + 1..];
      EncodeAppend(keys[..j + 1], keys[j + 1..]);
      EncodeEmptyOnly(keys[j + 1..]);
    }

    // -------------------------------------------------------------- insert(inspos, newkey, v)

    /** The search loop of insert: the byte positions of both keys, or the size of the buffer. */
    method FindBoth(newkey: Key, inspos: Key) returns (newkeyindex: nat, insposindex: nat)
      requires order == Encode(keys) && NoDup(keys) && Short(keys) && newkey != inspos
      ensures newkeyindex == |Encode(keys[..IndexOf(keys, newkey)])|
      ensures insposindex == |Encode(keys[..IndexOf(keys, inspos)])|
    {
      hide Encode, Record, GetKeyLen, Short, IndexOf;
      ghost var a: nat, b: nat := |keys|, |keys|;
      newkeyindex, insposindex := |order|, |order|;
      assert keys[..|keys|] == keys;
      var i := 0;
      ghost var j := 0;
      EncodeNone();
      assert keys[..0] == [];
      while i < |order| && (newkeyindex == |order| || insposindex == |order|)
        invariant j <= |keys| && i == |Encode(keys[..j])|
        invariant if newkey in keys[..j] then a < j && keys[a] == newkey else a == |keys|
        invariant if inspos in keys[..j] then b < j && keys[b] == inspos else b == |keys|
        invariant a <= |keys| && newkeyindex == |Encode(keys[..a])|
        invariant b <= |keys| && insposindex == |Encode(keys[..b])|
        decreases |keys| - j
      {
        PrefixInside(keys, j);
        RecordAt(keys, j);
        var keylen := GetKeyLen(order, i);
        var base := i + KEYLEN_SIZE;
        if keylen == |newkey| && Compare(order[base..base + keylen], newkey) == 0 {
          newkeyindex, a := i, j;
        } else if keylen == |inspos| && Compare(order[base..base + keylen], inspos) == 0 {
          insposindex, b := i, j;
        }
        assert keys[..j + 1] == keys[..j] + [keys[j]];
        i, j := base + keylen, j + 1;
      }
      PrefixInside(keys, j);
      PrefixInside(keys, a);
      PrefixInside(keys, b);
      OnlyIndex(keys, newkey, a);
      OnlyIndex(keys, inspos, b);
    }

    static lemma OnlyIndex(keys: seq<Key>, key: Key, a: nat)
      requires NoDup(keys) && if key in keys then a < |keys| && keys[a] == key else a == |keys|
      ensures IndexOf(keys, key) == a
    {}

    static lemma PrefixInside(keys: seq<Key>, j: nat)
      requires j <= |keys|
      ensures |Encode(keys[..j])| <= |Encode(keys)|
      ensures |Encode(keys[..j])| < |Encode(keys)| <==> j < |keys|
      ensures j == |keys| ==> keys[..j] == keys
    {
      assert keys == keys[..j] + keys[j..];
      EncodeAppend(keys[..j], keys[j..]);
      EncodeEmptyOnly(keys[j..]);
    }

    /** Where inspos stands once newkey is out: its byte position moves back by the record that went before it. */
    static lemma PlaceOf(keys: seq<Key>, newkey: Key, inspos: Key, a: nat, b: nat) returns (c: nat)
      requires NoDup(keys) && newkey != inspos && b < |keys| && keys[b] == inspos
      requires if newkey in keys then a < |keys| && keys[a] == newkey else a == |keys|
      ensures var w := Without(keys, newkey);
        && c < |w| && PlaceBefore(w, inspos, newkey) == w[..c] + [newkey] + w[c..]
        && |Encode(w[..c])| == |Encode(keys[..b])| - (if a < b then |Record(newkey)| else 0)
        && w == (if a < |keys| then keys[..a] + keys[a + 1..] else keys)
        && (a + 1 == b ==> w[..c] + [newkey] + w[c..] == keys)
    {
      hide Encode, Record, Without, PlaceBefore;
      var w := Without(keys, newkey);
      if a == |keys| {
        WithoutAbsent(keys, newkey);
        c := b;
      } else {
        WithoutAt(keys, a);
        c := if a < b then b - 1 else b;
        if a < b {
          assert keys[..b] == keys[..a] + ([newkey] + keys[a + 1..b]);
          assert w[..c] == keys[..a] + keys[a + 1..b];
          EncodeAppend(keys[..a], [newkey] + keys[a + 1..b]);
          EncodeAppend([newkey], keys[a + 1..b]);
          EncodeAppend(keys[..a], keys[a + 1..b]);
          EncodeOne(newkey);
        } else {
          assert w[..c] == keys[..b];
        }
      }
      WithoutNoDup(keys, newkey);
      PlaceBeforeAt(w, c, newkey);
    }

    static lemma PrefixOrder(keys: seq<Key>, a: nat, b: nat)
      requires a <= |keys| && b <= |keys|
      ensures |Encode(keys[..a])| < |Encode(keys[..b])| <==> a < b
    {
      if a < b {
        assert keys[..b][..a] == keys[..a];
        PrefixInside(keys[..b], a);
      } else {
        assert keys[..a][..b] == keys[..b];
        PrefixInside(keys[..a], b);
      }
    }

    /** The edits of insert on the order buffer. */
    method OrderBefore(inspos: Key, newkey: Key, newkeyindex: nat, insposindex0: nat, ghost a: nat, ghost b: nat)
      requires order == Encode(keys) && NoDup(keys) && Short(keys) && newkey != inspos
      requires b < |keys| && keys[b] == inspos && insposindex0 == |Encode(keys[..b])|
      requires a <= |keys| && newkeyindex == |Encode(keys[..a])|
      requires if newkey in keys then a < |keys| && keys[a] == newkey else a == |keys|
      modifies this`order, this`keys
      ensures order == Encode(keys) && keys == PlaceBefore(Without(old(keys), newkey), inspos, newkey)
    {
      hide Encode, Record, NoDup, Short, Without, PlaceBefore, Cut, GetKeyLen, Le32;
      ghost var c := PlaceOf(keys, newkey, inspos, a, b);
      ghost var w := Without(keys, newkey);
      PrefixInside(keys, a);
      PrefixOrder(keys, a, b);
      PrefixOrder(keys, b, a);
      var insposindex := insposindex0;
      RecordLength(newkey);
      if newkeyindex < |order| {
        var remlen := KEYLEN_SIZE + |newkey|;
        RecordSpan(keys, a);
        PrefixOrder(keys, a + 1, b);
        PrefixOrder(keys, b, a + 1);
        if newkeyindex + remlen == insposindex { return; }
        CutRecord(keys, a);
        order := Cut(order, newkeyindex, remlen);
        if newkeyindex < insposindex { insposindex := insposindex - remlen; }
      }
      InsertRecord(w, c, newkey);
      order := order[..insposindex] + Record(newkey) + order[insposindex..];
      keys := w[..c] + [newkey] + w[c..];
    }

    static lemma RecordSpan(keys: seq<Key>, j: nat)
      requires j < |keys| && Short(keys)
      ensures |Encode(keys[..j + 1])| == |Encode(keys[..j])| + KEYLEN_SIZE + |keys[j]| <= |Encode(keys)|
    {
      hide Encode, Record, GetKeyLen;
      RecordAt(keys, j);
    }

    static lemma RecordLength(key: Key)
      ensures |Record(key)| == KEYLEN_SIZE + |key|
    {}

    /** insert: newkey is taken out if present and set down directly before inspos, with the new value. */
    method Insert(inspos: Key, newkey: Key, v: V) returns (ok: bool)
      requires Valid()
      modifies this, objmap, objmap.nodes
      ensures objmap.Valid() && order == Encode(keys) && fresh(objmap.nodes - old(objmap.nodes))
      ensures Valid() <==> (ok ==> Storable(newkey))
      ensures ok == (newkey != inspos && inspos in old(keys))
      ensures keys == if ok then PlaceBefore(Without(old(keys), newkey), inspos, newkey) else old(keys)
      ensures objmap.contents == if ok then old(objmap.contents)[newkey := v] else old(objmap.contents)
    {
      hide Encode, objmap.Valid, Lists, NoDup, Short, Storable, Without, PlaceBefore;
      ListsMeans(keys, objmap.contents);
      if newkey == inspos { return false; }
      var newkeyindex, insposindex := FindBoth(newkey, inspos);
      ghost var a: nat, b: nat := IndexOf(keys, newkey), IndexOf(keys, inspos);
      PrefixInside(keys, b);
      if insposindex >= |order| { return false; }
      ghost var c := PlaceOf(keys, newkey, inspos, a, b);
      ListsMoved(keys, objmap.contents, newkey, v, c);
      OrderBefore(inspos, newkey, newkeyindex, insposindex, a, b);
      var n := objmap.FindOrInsert(newkey);
      objmap.SetValue(n, v);
      assert objmap.contents == old(objmap.contents)[newkey := v];
      return true;
    }

    // -------------------------------------------------------------- whole objects

    /** empty_object on an object. */
    method Empty()
      requires Valid()
      modifies this, objmap
      ensures Valid() && keys == [] && objmap.contents == map[] && objmap.nodes == {}
    {
      objmap.Clear();
      order, keys := [], [];
    }

    /** allkeys: an array with an element for each member, set to the keys in order; the element for an empty key
        that is the last is not set. */
    method AllKeys() returns (out: seq<Option<Key>>)
      requires Valid()
      ensures |out| == |keys| && forall i :: 0 <= i < |keys| ==>
        out[i] == if i < |Reached(keys)| then Some(keys[i]) else None
    {
      hide Encode, Record, GetKeyLen, objmap.Valid, Reached;
      KeyCountIs(keys, objmap.contents);
      var objsize := objmap.Count();
      out := seq(objsize, i => None);
      var pos := 0;
      EncodeNone();
      assert keys[..0] == [];
      var i := 0;
      ReachedGuard(keys, 0);
      while i < objsize && pos + KEYLEN_SIZE < |order|
        invariant i <= |Reached(keys)| && |out| == objsize && pos == |Encode(keys[..i])|
        invariant forall k :: 0 <= k < |keys| ==> out[k] == if k < i then Some(keys[k]) else None
      {
        ReachedGuard(keys, i);
        RecordAt(keys, i);
        var keylen := GetKeyLen(order, pos);
        pos := pos + KEYLEN_SIZE;
        out := out[i := Some(order[pos..pos + keylen])];
        pos := pos + keylen;
        i := i + 1;
      }
      ReachedGuard(keys, i);
    }

    /** One round of the loops over the members: the key at pos, looked up in the tree. */
    method MemberAt(pos0: nat, ghost i: nat) returns (it: Node?<V>, pos: nat)
      requires Valid() && i < |Reached(keys)| && pos0 == |Encode(keys[..i])|
      ensures it != null && it in objmap.nodes && it.key == keys[i] && it.value == objmap.contents[keys[i]]
      ensures pos == |Encode(keys[..i + 1])|
    {
      hide Encode, Record, GetKeyLen, objmap.Valid, Reached;
      pos := pos0;
      ReachedGuard(keys, i);
      RecordAt(keys, i);
      var keylen := GetKeyLen(order, pos);
      pos := pos + KEYLEN_SIZE;
      ghost var steps;
      it, steps := objmap.Find(order[pos..pos + keylen]);
      pos := pos + keylen;
    }

    /** The members in the order of the buffer, each looked up in the tree. */
    method Members() returns (out: seq<(Key, V)>)
      requires Valid()
      ensures out == Entries(Reached(keys), objmap.contents)
    {
      hide Encode, Record, GetKeyLen, objmap.Valid, Reached;
      out := [];
      var pos := 0;
      EncodeNone();
      assert keys[..0] == [];
      ReachedGuard(keys, 0);
      while pos + KEYLEN_SIZE < |order|
        invariant |out| <= |Reached(keys)| && pos == |Encode(keys[..|out|])|
        invariant forall i :: 0 <= i < |out| ==> out[i] == (keys[i], objmap.contents[keys[i]])
        decreases |keys| - |out|
      {
        ReachedGuard(keys, |out|);
        var it;
        it, pos := MemberAt(pos, |out|);
        if it != null { out := out + [(it.key, it.value)]; }
      }
      ReachedGuard(keys, |out|);
    }

    // -------------------------------------------------------------- members met by the parser

    /** Where parse_value_ puts a member: a fresh slot at the end, or the blanked slot of an equal key. */
    method Slot(key: Key) returns (n: Node<V>)
      requires Valid()
      modifies this, objmap, objmap.nodes
      ensures objmap.Valid() && order == Encode(keys) && fresh(objmap.nodes - old(objmap.nodes))
      ensures n in objmap.nodes && n.key == key && (Valid() <==> Storable(key))
      ensures keys == KeyPut(old(keys), key) && objmap.contents == old(objmap.contents)[key := objmap.blank]
    {
      hide Encode, objmap.Valid, NoDup, Short, Storable;
      ListsPut(keys, objmap.contents, key, objmap.blank);
      var it, _ := objmap.Find(key);
      if it == null {
        AppendKeyInfo(key);
        n := objmap.FindOrInsert(key);
      } else {
        objmap.SetValue(it, objmap.blank);
        n := it;
      }
    }

    /** The value of a member is replaced; key order and the other members stay. */
    method Fill(n: Node<V>, v: V)
      requires objmap.Valid() && n in objmap.nodes
      modifies n`value, objmap`contents
      ensures objmap.Valid() && objmap.contents == old(objmap.contents)[n.key := v]
      ensures Valid() <==> old(Valid())
    {
      hide Encode, objmap.Valid, NoDup, Short;
      NodeKey(n);
      objmap.SetValue(n, v);
    }

    lemma NodeKey(n: Node<V>)
      requires objmap.Valid() && n in objmap.nodes
      ensures n.key in objmap.contents
    {
    }
  }
}
