/** Byte strings and the order in which the containers of ctljson.hpp keep them. */
module Keys {

  type Byte = b: int | 0 <= b < 0x100
  type Key = seq<Byte>

  /** The sign of the first difference among the first n bytes, as memcmp reports it. */
  function MemCmp(l: Key, r: Key, n: nat): (c: int)
    requires n <= |l| && n <= |r|
    ensures c == 0 <==> l[..n] == r[..n]
  {
    if n == 0 then 0
    else if l[0] != r[0] then l[0] - r[0]
    else
      assert l[..n] == [l[0]] + l[1..][..n - 1] && r[..n] == [r[0]] + r[1..][..n - 1];
      MemCmp(l[1..], r[1..], n - 1)
  }

  /** view::compare: the common prefix decides, then the shorter string comes first. */
  function Compare(l: Key, r: Key): (c: int)
    ensures c == 0 <==> l == r
  {
    var n := if |l| <= |r| then |l| else |r|;
    var c := MemCmp(l, r, n);
    assert |l| == |r| ==> l[..n] == l && r[..n] == r;
    if c != 0 then c else if |l| == |r| then 0 else if |l| < |r| then -1 else 1
  }

  predicate Less(l: Key, r: Key) { Compare(l, r) < 0 }

  lemma {:induction false} MemCmpFlips(l: Key, r: Key, n: nat)
    requires n <= |l| && n <= |r|
    ensures MemCmp(l, r, n) < 0 <==> MemCmp(r, l, n) > 0
  {
    if n > 0 { MemCmpFlips(l[1..], r[1..], n - 1); }
  }

  /** Two keys compare in opposite ways when swapped, so one of <, ==, > holds. */
  lemma CompareFlips(l: Key, r: Key)
    ensures Less(l, r) <==> Compare(r, l) > 0
  {
    MemCmpFlips(l, r, if |l| <= |r| then |l| else |r|);
  }

  /** Peeling an equal first byte does not change the comparison. */
  lemma ComparePeels(l: Key, r: Key)
    requires l != [] && r != []
    ensures Compare(l, r) == if l[0] == r[0] then Compare(l[1..], r[1..]) else l[0] as int - r[0] as int
  {}

  lemma {:induction false} LessTransitive(a: Key, b: Key, c: Key)
    requires Less(a, b) && Less(b, c)
    ensures Less(a, c)
  {
    if a != [] && b != [] && c != [] {
      ComparePeels(a, b);
      ComparePeels(b, c);
      ComparePeels(a, c);
      if a[0] == b[0] == c[0] { LessTransitive(a[1..], b[1..], c[1..]); }
    }
  }

  /** Two keys differ first at k, and l has the smaller byte there. */
  predicate DifferAt(l: Key, r: Key, k: nat) { k < |l| && k < |r| && l[..k] == r[..k] && l[k] < r[k] }

  /** The dictionary order of byte strings: a proper prefix comes first, else the first differing byte decides. */
  ghost predicate Precedes(l: Key, r: Key) {
    l < r || exists k: nat :: DifferAt(l, r, k)
  }

  lemma PrecedesPeels(l: Key, r: Key)
    requires l != [] && r != []
    ensures Precedes(l, r) <==> l[0] < r[0] || (l[0] == r[0] && Precedes(l[1..], r[1..]))
  {
    hide DifferAt;
    var l', r' := l[1..], r[1..];
    if l[0] == r[0] && Precedes(l', r') && !(l' < r') {
      var k: nat :| DifferAt(l', r', k);
      DifferPeels(l, r, k);
    }
    if Precedes(l, r) && !(l < r) {
      var k: nat :| DifferAt(l, r, k);
      if k > 0 { DifferPeels(l, r, k - 1); }
      FirstByte(l, r, k);
    }
    FirstByte(l, r, 0);
    PrefixPeels(l, r);
  }

  lemma DifferPeels(l: Key, r: Key, k: nat)
    requires l != [] && r != []
    ensures DifferAt(l, r, k + 1) <==> l[0] == r[0] && DifferAt(l[1..], r[1..], k)
  {
    if k < |l| - 1 && k < |r| - 1 {
      assert l[..k + 1] == [l[0]] + l[1..][..k] && r[..k + 1] == [r[0]] + r[1..][..k];
      assert l[..k + 1][1..] == l[1..][..k] && r[..k + 1][1..] == r[1..][..k];
    }
  }

  lemma FirstByte(l: Key, r: Key, k: nat)
    requires l != [] && r != []
    ensures DifferAt(l, r, 0) <==> l[0] < r[0]
    ensures DifferAt(l, r, k) && k > 0 ==> l[0] == r[0]
  {
    if DifferAt(l, r, k) && k > 0 { assert l[..k][0] == r[..k][0]; }
  }

  lemma PrefixPeels(l: Key, r: Key)
    requires l != [] && r != []
    ensures l < r <==> l[0] == r[0] && l[1..] < r[1..]
  {
    if |l| < |r| { assert r[..|l|] == [r[0]] + r[1..][..|l| - 1] && l == [l[0]] + l[1..]; }
  }

  /** The comparison is the dictionary order. */
  lemma {:induction false} LessIs(l: Key, r: Key)
    ensures Less(l, r) <==> Precedes(l, r)
  {
    if l != [] && r != [] {
      ComparePeels(l, r);
      PrecedesPeels(l, r);
      LessIs(l[1..], r[1..]);
    }
  }
}
