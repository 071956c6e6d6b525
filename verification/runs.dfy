/** Whole runs of operations: the containers against plain maps and lists. */
module Runs {
  import opened Basics
  import opened Keys
  import opened OrderBuffer
  import opened NeMaps
  import opened RbShape
  import opened JsonObjects

  // ---------------------------------------------------------------- two maps and copies between them

  /** An operation on the first or the second of two maps. */
  datatype MapOp<V> =
    | Subscript(first: bool, key: Key)
    | Assign(first: bool, key: Key, v: V)
    | Lookup(first: bool, key: Key)
    | Remove(first: bool, key: Key)
    | Wipe(first: bool)
    | CopyOther(first: bool)

  datatype Maps<V> = Maps(a: map<Key, V>, b: map<Key, V>)
  {
    function On(first: bool): map<Key, V> { if first then a else b }
    function With(first: bool, m: map<Key, V>): Maps<V> { if first then Maps(m, b) else Maps(a, m) }
  }

  /** What an operation does to plain finite maps, and what it reads. */
  function MapStep<V>(s: Maps<V>, op: MapOp<V>, blank: V): (Maps<V>, Option<V>) {
    var m := s.On(op.first);
    match op
    case Subscript(f, k) => if k in m then (s, Some(m[k])) else (s.With(f, m[k := blank]), Some(blank))
    case Assign(f, k, v) => (s.With(f, m[k := v]), Some(v))
    case Lookup(f, k) => (s, if k in m then Some(m[k]) else None)
    case Remove(f, k) => (s.With(f, m - {k}), None)
    case Wipe(f) => (s.With(f, map[]), None)
    case CopyOther(f) => (s.With(f, s.On(!f)), None)
  }

  function MapRun<V>(s: Maps<V>, ops: seq<MapOp<V>>, blank: V): (Maps<V>, seq<Option<V>>) {
    if ops == [] then (s, [])
    else
      var (s0, outs) := MapRun(s, ops[..|ops| - 1], blank);
      var (s1, o) := MapStep(s0, ops[|ops| - 1], blank);
      (s1, outs + [o])
  }

  class Pair<V> {
    const a: NeMap<V>
    const b: NeMap<V>

    constructor (blank: V)
      ensures Valid() && View() == Maps(map[], map[]) && a.blank == blank
      ensures fresh(a) && fresh(b) && fresh(a.nodes) && fresh(b.nodes)
    {
      a := new NeMap(blank);
      b := new NeMap(blank);
    }

    ghost predicate Valid()
      reads a, b, a.nodes, b.nodes
    {
      a != b && a.Valid() && b.Valid() && a.nodes !! b.nodes && a.blank == b.blank
    }

    ghost function View(): Maps<V>
      reads a, b
    {
      Maps(a.contents, b.contents)
    }

    /** One operation on m, with o as the other map. */
    method Apply(m: NeMap<V>, o: NeMap<V>, op: MapOp<V>) returns (out: Option<V>)
      requires m != o && m.Valid() && o.Valid() && m.nodes !! o.nodes && m.blank == o.blank
      modifies m, m.nodes
      ensures m.Valid() && o.Valid() && m.nodes !! o.nodes && fresh(m.nodes - old(m.nodes))
      ensures (Maps(m.contents, o.contents), out) == MapStep(Maps(old(m.contents), o.contents), AsFirst(op), m.blank)
    {
      hide m.Shaped, o.Shaped;
      ghost var mine := old(m.nodes);
      match op {
        case Subscript(_, k) =>
          var n := m.FindOrInsert(k);
          NodeValue(m, n);
          out := Some(n.value);
        case Assign(_, k, v) =>
          var n := m.FindOrInsert(k);
          m.SetValue(n, v);
          assert m.contents == old(m.contents)[k := v];
          out := Some(n.value);
        case Lookup(_, k) =>
          var it, _ := m.Find(k);
          out := if it == null then None else Some(it.value);
        case Remove(_, k) =>
          m.Erase(k);
          assert m.contents == old(m.contents) - {k};
          out := None;
        case Wipe(_) =>
          m.Clear();
          out := None;
        case CopyOther(_) =>
          m.CopyFrom(o);
          out := None;
      }
    }

    static function AsFirst(op: MapOp<V>): MapOp<V> { op.(first := true) }

    static lemma NodeValue(m: NeMap<V>, n: Node<V>)
      requires m.Valid() && n in m.nodes
      ensures n.key in m.contents && m.contents[n.key] == n.value
    {}

    /** Every run of operations on the two trees gives what the same run on two finite maps gives. */
    method Run(ops: seq<MapOp<V>>) returns (outs: seq<Option<V>>)
      requires Valid()
      modifies a, b, a.nodes, b.nodes
      ensures Valid()
      ensures (View(), outs) == MapRun(old(View()), ops, a.blank)
    {
      hide MapStep, MapRun, a.Valid;
      outs := [];
      var i := 0;
      MapRunStarts(View(), ops, a.blank);
      while i < |ops|
        invariant i <= |ops| && Valid()
        invariant fresh(a.nodes - old(a.nodes)) && fresh(b.nodes - old(b.nodes))
        invariant (View(), outs) == MapRun(old(View()), ops[..i], a.blank)
      {
        MapRunStep(old(View()), ops, i, a.blank);
        ghost var v := View();
        var o;
        if ops[i].first {
          o := Apply(a, b, ops[i]);
        } else {
          o := Apply(b, a, ops[i]);
        }
        SidesAlike(v, ops[i], a.blank);
        outs := outs + [o];
        i := i + 1;
      }
      assert ops[..|ops|] == ops;
    }

    static lemma MapRunStarts(s: Maps<V>, ops: seq<MapOp<V>>, blank: V)
      ensures MapRun(s, ops[..0], blank) == (s, [])
    {}

    static lemma MapRunStep(s: Maps<V>, ops: seq<MapOp<V>>, i: nat, blank: V)
      requires i < |ops|
      ensures var (s0, outs) := MapRun(s, ops[..i], blank);
        var (s1, o) := MapStep(s0, ops[i], blank);
        MapRun(s, ops[..i + 1], blank) == (s1, outs + [o])
    {
      hide MapStep;
      assert ops[..i + 1][..i] == ops[..i];
    }

    static lemma SidesAlike(s: Maps<V>, op: MapOp<V>, blank: V)
      ensures op.first ==> MapStep(s, op, blank) == MapStep(s, AsFirst(op), blank)
      ensures !op.first ==>
        var (r, out) := MapStep(Maps(s.b, s.a), AsFirst(op), blank);
        MapStep(s, op, blank) == (Maps(r.b, r.a), out)
    {}
  }

  // ---------------------------------------------------------------- one object

  datatype ObjectOp<V> =
    | Get(key: Key)
    | Append(key: Key, v: V)
    | PutBefore(inspos: Key, key: Key, v: V)
    | Drop(key: Key)
    | Reset
    | Parsed(key: Key, v: V)

  /** An object as a caller sees it: its keys in order, and the member of each. */
  datatype Ordered<V> = Ordered(keys: seq<Key>, members: map<Key, V>)

  function ObjectStep<V>(s: Ordered<V>, op: ObjectOp<V>, blank: V): (Ordered<V>, bool) {
    match op
    case Get(k) => (if k in s.keys then s else Ordered(s.keys + [k], s.members[k := blank]), true)
    case Append(k, v) => (Ordered(Without(s.keys, k) + [k], s.members[k := v]), true)
    case PutBefore(p, k, v) =>
      if k != p && p in s.keys then (Ordered(PlaceBefore(Without(s.keys, k), p, k), s.members[k := v]), true)
          else (s, false)
    case Drop(k) => (Ordered(Without(s.keys, k), s.members - {k}), k in s.keys)
    case Reset => (Ordered([], map[]), true)
    case Parsed(k, v) => (Ordered(KeyPut(s.keys, k), s.members[k := v]), true)
  }

  function ObjectRun<V>(s: Ordered<V>, ops: seq<ObjectOp<V>>, blank: V): (Ordered<V>, seq<bool>) {
    if ops == [] then (s, [])
    else
      var (s0, outs) := ObjectRun(s, ops[..|ops| - 1], blank);
      var (s1, o) := ObjectStep(s0, ops[|ops| - 1], blank);
      (s1, outs + [o])
  }

  /** erase or push_back of an empty key that is the last. */
  predicate Misses<V>(keys: seq<Key>, op: ObjectOp<V>) {
    (op.Append? || op.Drop?) && Unreached(keys, op.key)
  }

  /** The operation sets down a key whose length the buffer cannot keep. */
  predicate Overlong<V>(keys: seq<Key>, op: ObjectOp<V>) {
    match op
    case Get(k) => !Storable(k)
    case Append(k, _) => !Storable(k)
    case PutBefore(p, k, _) => k != p && p in keys && !Storable(k)
    case Parsed(k, _) => !Storable(k)
    case _ => false
  }

  /** One operation on any object, whatever the keys. It does what it does to an ordered list of members exactly unless
      it misses the key, and the object stays good for the next one exactly if the buffer can keep the key too. */
  method ApplyObject<V>(j: JsonObject<V>, op: ObjectOp<V>) returns (ok: bool)
    requires j.Valid()
    modifies j, j.objmap, j.objmap.nodes
    ensures fresh(j.objmap.nodes - old(j.objmap.nodes))
    ensures j.Valid() <==> !Misses(old(j.keys), op) && !Overlong(old(j.keys), op)
    ensures (Ordered(j.keys, j.objmap.contents), ok)
            == ObjectStep(Ordered(old(j.keys), old(j.objmap.contents)), op, j.objmap.blank)
            <==> !Misses(old(j.keys), op)
  {
    hide Encode, j.objmap.Valid, j.Valid, NoDup, Short, PlaceBefore, Without, Removed, Unreached, Storable;
    ok := true;
    MissedDiffers(j, op);
    match op {
      case Get(k) => var n := j.Access(k);
      case Append(k, v) => j.PushBack(k, v);
      case PutBefore(p, k, v) => ok := j.Insert(p, k, v);
      case Drop(k) => ok := j.Erase(k);
      case Reset => j.Empty();
      case Parsed(k, v) =>
        var n := j.Slot(k);
        j.Fill(n, v);
        assert j.objmap.contents == old(j.objmap.contents)[k := v];
    }
  }

  lemma MissedDiffers<V>(j: JsonObject<V>, op: ObjectOp<V>)
    requires j.Valid()
    ensures op.Append? || op.Drop? ==>
      (Removed(j.keys, op.key) == Without(j.keys, op.key) <==> !Misses(j.keys, op))
    ensures op.Append? ==>
      (Removed(j.keys, op.key) + [op.key] == Without(j.keys, op.key) + [op.key] <==> !Misses(j.keys, op))
  {
    hide j.objmap.Valid, Removed, Without, Unreached;
    if op.Append? || op.Drop? {
      WalkIsRemoval(j.keys, op.key);
      var a, b := Removed(j.keys, op.key), Without(j.keys, op.key);
      if a + [op.key] == b + [op.key] { assert a == (a + [op.key])[..|a|] == (b + [op.key])[..|b|] == b; }
    }
  }

  /** The smallest case: an empty key, put there and erased, is gone from the tree and stays in the buffer. */
  method TrailingEmptyKey<V>(blank: V) returns (j: JsonObject<V>)
    ensures fresh(j) && fresh(j.objmap) && !j.Valid()
    ensures j.keys == [[]] && j.order == [0, 0, 0, 0] && j.objmap.contents == map[]
  {
    hide Encode, Record, Lists, Removed, Without;
    j := new JsonObject<V>(blank);
    hide j.objmap.Valid, j.Valid;
    var n := j.Access([]);
    assert j.keys == [[]];
    EmptyKeyAlone();
    var ok := j.Erase([]);
    assert j.keys == [[]] && j.objmap.contents == map[];
  }

  lemma EmptyKeyAlone()
    ensures Unreached([[]], []) && Removed([[]], []) == [[]] && Encode([[]]) == [0, 0, 0, 0]
  {
    EncodeOne([]);
  }

  /** No operation of the run misses its key or sets down one that is too long. */
  predicate Smooth<V>(ops: seq<ObjectOp<V>>, blank: V) {
    forall i :: 0 <= i < |ops| ==>
      var keys := ObjectRun(Ordered([], map[]), ops[..i], blank).0.keys;
      !Misses(keys, ops[i]) && !Overlong(keys, ops[i])
  }

  /** Every run on an object: the buffer and the tree together stay one ordered map. */
  method RunObject<V>(blank: V, ops: seq<ObjectOp<V>>)
    returns (outs: seq<bool>, keys: seq<Option<Key>>, members: seq<(Key, V)>)
    requires Smooth(ops, blank)
    ensures var (s, o) := ObjectRun(Ordered([], map[]), ops, blank);
      && outs == o && (forall k :: k in s.keys ==> k in s.members)
      && |keys| == |s.keys|
      && (forall i :: 0 <= i < |keys| ==> keys[i] == if i < |Reached(s.keys)| then Some(s.keys[i]) else None)
      && members == Entries(Reached(s.keys), s.members)
  {
    hide ObjectStep, Lists, Encode, Misses, Overlong;
    var j := new JsonObject<V>(blank);
    outs := [];
    var i := 0;
    assert ops[..0] == [];
    ghost var s0 := Ordered(j.keys, j.objmap.contents);
    while i < |ops|
      invariant i <= |ops| && j.Valid() && fresh(j) && fresh(j.objmap) && fresh(j.objmap.nodes)
      invariant (Ordered(j.keys, j.objmap.contents), outs) == ObjectRun(s0, ops[..i], blank) && j.objmap.blank == blank
    {
      assert ops[..i + 1][..i] == ops[..i];
      assert !Misses(j.keys, ops[i]) && !Overlong(j.keys, ops[i]);
      var ok := ApplyObject(j, ops[i]);
      outs := outs + [ok];
      i := i + 1;
    }
    assert ops[..|ops|] == ops;
    ListsMeans(j.keys, j.objmap.contents);
    keys := j.AllKeys();
    members := j.Members();
  }
}
