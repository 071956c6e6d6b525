/** Multi messages: splitting of multi_handler.cpp, and which frames consume_frame of cmclient.cpp comes to dispatch. */
module Multi {
  import opened Basics
  import opened OrderBuffer

  const REQUEST := 1303
  const RESPONSE := 1304
  const RESULT := 1305
  const PROTO_MASK := 0x8000_0000
  const MULTI := 1

  /** What lies outside the model: message bodies, decompressed if need be, handlers, listeners and the cipher. None
      stands for an exception. The depth of a frame says how deep Multis are nested in it. */
  datatype Env = Env(
    multi: Bytes -> Option<Bytes>,
    depth: Bytes -> nat,
    request: Bytes -> Answer,
    result: Bytes -> Option<bool>,
    leaf: Bytes -> Leaf,
    listener: bool -> Leaf,
    decrypt: Bytes -> Option<Bytes>,
    encrypt: (nat, Bytes) -> Bytes)

  /** Code that the client calls: a handler of another message, or the listeners of ChannelSecuredEvent for success or
      failure. What it sends, and whether it throws after that. */
  datatype Leaf = Leaf(sends: seq<Bytes>, throws: bool)

  /** A ChannelEncryptRequest: not readable at all, refused with an exception, or answered. */
  datatype Answer = Malformed | Refused | Reply(m: Bytes)

  /** Whatever the nonce, decryption gives back what was encrypted, and a ciphertext has four bytes at least. */
  ghost predicate Inverse(env: Env) {
    forall iv, d :: env.decrypt(env.encrypt(iv, d)) == Some(d) && |env.encrypt(iv, d)| >= KEYLEN_SIZE
  }

  // ---------------------------------------------------------------- splitting

  /** The frame at an offset: a 32-bit length and that many bytes, all of it present. */
  function FrameAt(p: Bytes, offset: nat): (r: Option<Bytes>)
    ensures r.Some? ==> offset + KEYLEN_SIZE + |r.value| <= |p|
  {
    if offset + KEYLEN_SIZE > |p| then None
    else
      var n := GetKeyLen(p, offset);
      if offset + KEYLEN_SIZE + n > |p| then None else Some(p[offset + KEYLEN_SIZE..offset + KEYLEN_SIZE + n])
  }

  method ReadFrame(payload: Bytes, offset0: nat, out0: Bytes) returns (ok: bool, offset: nat, out: Bytes)
    ensures ok <==> FrameAt(payload, offset0).Some?
    ensures ok ==> out == FrameAt(payload, offset0).value && offset == offset0 + KEYLEN_SIZE + |out| <= |payload|
  {
    offset, out := offset0, out0;
    if offset + KEYLEN_SIZE > |payload| { return false, offset, out; }
    var subSize := GetKeyLen(payload, offset);
    offset := offset + KEYLEN_SIZE;
    if offset + subSize > |payload| { return false, offset, out; }
    out := payload[offset..offset + subSize];
    offset := offset + subSize;
    ok := true;
  }

  // ---------------------------------------------------------------- nesting

  /** How deep the frames in a body are at most, and one more. */
  function Deep(env: Env, p: Bytes, offset: nat): nat
    decreases |p| - offset
  {
    var f := FrameAt(p, offset);
    if f.None? then 0
    else
      var d := Deep(env, p, offset + KEYLEN_SIZE + |f.value|);
      if env.depth(f.value) < d then d else env.depth(f.value) + 1
  }

  lemma DeepStep(env: Env, p: Bytes, offset: nat)
    ensures var f := FrameAt(p, offset);
      f.Some? ==>
        && env.depth(f.value) < Deep(env, p, offset)
        && Deep(env, p, offset + KEYLEN_SIZE + |f.value|) <= Deep(env, p, offset)
  {}

  /** The frames in a Multi are less deep than it: without that the client would not come to an end on them. */
  ghost predicate Lawful(env: Env) {
    forall d :: env.multi(d).Some? ==> Deep(env, env.multi(d).value, 0) <= env.depth(d)
  }

  /** No Multi is compressed: it holds its body and more. */
  ghost predicate Uncompressed(env: Env) {
    forall d :: env.multi(d).Some? ==> |env.multi(d).value| < |d|
  }

  /** Frames that are not compressed are nested less deep than they are long, so the law holds for them. */
  lemma UncompressedLawful(env: Env)
    requires Uncompressed(env) && forall d :: env.depth(d) == |d|
    ensures Lawful(env)
  {
    forall d | env.multi(d).Some? ensures Deep(env, env.multi(d).value, 0) <= env.depth(d) {
      DeepWithin(env, env.multi(d).value, 0);
    }
  }

  lemma {:induction false} DeepWithin(env: Env, p: Bytes, offset: nat)
    requires forall d :: env.depth(d) == |d|
    ensures Deep(env, p, offset) <= |p|
    decreases |p| - offset
  {
    var f := FrameAt(p, offset);
    if f.Some? { DeepWithin(env, p, offset + KEYLEN_SIZE + |f.value|); }
  }

  // ---------------------------------------------------------------- flattening

  function EMsg(d: Bytes): nat
    requires |d| >= KEYLEN_SIZE
  {
    GetKeyLen(d, 0)
  }

  predicate IsMulti(d: Bytes) { |d| >= KEYLEN_SIZE && EMsg(d) == PROTO_MASK + MULTI }

  /** The frames dispatched for a decoded frame, depth first: the frame itself, unless it is under four bytes,
      then what comes out of each frame inside it. */
  ghost function Flatten(env: Env, d: Bytes): seq<Bytes>
    requires Lawful(env)
    decreases env.depth(d), 1, 0
  {
    if |d| < KEYLEN_SIZE then []
    else [d] + (if IsMulti(d) && env.multi(d).Some? then FlattenFrom(env, env.multi(d).value, 0) else [])
  }

  ghost function FlattenFrom(env: Env, p: Bytes, offset: nat): seq<Bytes>
    requires Lawful(env)
    decreases Deep(env, p, offset), 0, |p| - offset
  {
    var f := FrameAt(p, offset);
    if f.None? then [] else Flatten(env, f.value) + FlattenFrom(env, p, offset + KEYLEN_SIZE + |f.value|)
  }

  /** A Multi body made of these frames. */
  function Pack(fs: seq<Bytes>): Bytes { if fs == [] then [] else Le32(|fs[0]|) + fs[0] + Pack(fs[1..]) }

  ghost function FlattenEach(env: Env, fs: seq<Bytes>): seq<Bytes>
    requires Lawful(env)
  {
    if fs == [] then [] else Flatten(env, fs[0]) + FlattenEach(env, fs[1..])
  }

  /** Packed frames come out in wire order, each once, whatever incomplete frame follows them. */
  lemma {:induction false} PackedFlatten(env: Env, fs: seq<Bytes>, pre: Bytes, junk: Bytes)
    requires Lawful(env) && Short(fs) && FrameAt(pre + Pack(fs) + junk, |pre| + |Pack(fs)|).None?
    ensures FlattenFrom(env, pre + Pack(fs) + junk, |pre|) == FlattenEach(env, fs)
    decreases |fs|
  {
    hide FrameAt, Flatten, FlattenFrom, Pack;
    FromStep(env, pre + Pack(fs) + junk, |pre|);
    PackNone();
    if fs != [] {
      var f := fs[0];
      PackFirst(fs, pre, junk);
      PackedFrame(f, pre, Pack(fs[1..]) + junk);
      PackedFlatten(env, fs[1..], pre + Le32(|f|) + f, junk);
    }
  }

  lemma PackNone()
    ensures Pack([]) == []
  {}

  lemma FromStep(env: Env, p: Bytes, offset: nat)
    requires Lawful(env)
    ensures var f := FrameAt(p, offset);
      FlattenFrom(env, p, offset) == if f.None? then []
          else Flatten(env, f.value) + FlattenFrom(env, p, offset + KEYLEN_SIZE + |f.value|)
  {}

  lemma PackFirst(fs: seq<Bytes>, pre: Bytes, junk: Bytes)
    requires fs != []
    ensures pre + Pack(fs) + junk == pre + Le32(|fs[0]|) + fs[0] + Pack(fs[1..]) + junk
    ensures pre + Pack(fs) + junk == pre + Le32(|fs[0]|) + fs[0] + (Pack(fs[1..]) + junk)
    ensures |Pack(fs)| == KEYLEN_SIZE + |fs[0]| + |Pack(fs[1..])|
  {
    var h, f, p := Le32(|fs[0]|), fs[0], Pack(fs[1..]);
    assert Pack(fs) == h + f + p;
    hide Le32, Pack;
    Assoc(pre, h + f, p);
    Assoc(pre, h, f);
    Assoc(pre + h + f, p, junk);
  }

  lemma PackedFrame(f: Bytes, pre: Bytes, rest: Bytes)
    requires |f| < TWO_32
    ensures FrameAt(pre + Le32(|f|) + f + rest, |pre|) == Some(f)
  {
    hide GetKeyLen, Le32;
    var p := pre + Le32(|f|) + f + rest;
    assert p == pre + Le32(|f|) + (f + rest);
    Le32Decodes(|f|, pre, f + rest);
    assert p[|pre| + KEYLEN_SIZE..|pre| + KEYLEN_SIZE + |f|] == f;
  }

  predicate Sized(fs: seq<Bytes>) { forall i :: 0 <= i < |fs| ==> |fs[i]| >= KEYLEN_SIZE }

  predicate Below(env: Env, fs: seq<Bytes>, most: nat) { forall i :: 0 <= i < |fs| ==> env.depth(fs[i]) < most }

  lemma BelowJoin(env: Env, a: seq<Bytes>, b: seq<Bytes>, most: nat)
    requires Sized(a) && Sized(b) && Below(env, a, most) && Below(env, b, most)
    ensures Sized(a + b) && Below(env, a + b, most)
  {}

  /** Every dispatched frame has at least four bytes, and what is inside a frame is less deep than it. */
  lemma {:induction false} FlattenSized(env: Env, d: Bytes)
    requires Lawful(env)
    ensures var r := Flatten(env, d);
      Sized(r) && (r != [] ==> r[0] == d && Below(env, r[1..], env.depth(d))) && Below(env, r, env.depth(d) + 1)
    decreases env.depth(d), 1, 0
  {
    if IsMulti(d) && env.multi(d).Some? {
      var p := env.multi(d).value;
      FlattenFromSized(env, p, 0);
      assert Flatten(env, d)[1..] == FlattenFrom(env, p, 0);
    }
  }

  lemma {:induction false} FlattenFromSized(env: Env, p: Bytes, offset: nat)
    requires Lawful(env)
    ensures var r := FlattenFrom(env, p, offset); Sized(r) && Below(env, r, Deep(env, p, offset))
    decreases Deep(env, p, offset), 0, |p| - offset
  {
    var f := FrameAt(p, offset);
    if f.Some? {
      FlattenSized(env, f.value);
      FlattenFromSized(env, p, offset + KEYLEN_SIZE + |f.value|);
      var next := offset + KEYLEN_SIZE + |f.value|;
      BelowJoin(env, Flatten(env, f.value), FlattenFrom(env, p, next), Deep(env, p, offset));
    }
  }

  predicate Between(fs: seq<Bytes>, most: nat) { forall i :: 0 <= i < |fs| ==> KEYLEN_SIZE <= |fs[i]| <= most }

  lemma BetweenJoin(a: seq<Bytes>, b: seq<Bytes>, most: nat)
    requires Between(a, most) && Between(b, most)
    ensures Between(a + b, most)
  {}

  /** Without compression, what is inside a frame is also shorter than it. */
  lemma {:induction false} FlattenShorter(env: Env, d: Bytes)
    requires Lawful(env) && Uncompressed(env)
    ensures var r := Flatten(env, d); Between(r, |d|) && (r != [] ==> r[0] == d && Between(r[1..], |d| - 1))
    decreases |d|, 0, 0
  {
    if IsMulti(d) && env.multi(d).Some? {
      var p := env.multi(d).value;
      FlattenFromShorter(env, p, 0);
      assert Flatten(env, d)[1..] == FlattenFrom(env, p, 0);
    }
  }

  lemma {:induction false} FlattenFromShorter(env: Env, p: Bytes, offset: nat)
    requires Lawful(env) && Uncompressed(env)
    ensures Between(FlattenFrom(env, p, offset), |p|)
    decreases |p|, 1, |p| - offset
  {
    var f := FrameAt(p, offset);
    if f.Some? {
      FlattenShorter(env, f.value);
      FlattenFromShorter(env, p, offset + KEYLEN_SIZE + |f.value|);
      BetweenJoin(Flatten(env, f.value), FlattenFrom(env, p, offset + KEYLEN_SIZE + |f.value|), |p|);
    }
  }
}
