/** Small facts about sequences and numbers that several modules use. */
module Basics {

  datatype Option<T> = None | Some(value: T)

  lemma Assoc<T>(a: seq<T>, b: seq<T>, c: seq<T>)
    ensures a + (b + c) == a + b + c
  {}

  lemma Regroup<T>(a: seq<T>, b: seq<T>, c: seq<T>, d: seq<T>)
    ensures a + (b + c) + d == (a + b) + c + d == a + b + (c + d)
  {}

  function Pow2(n: nat): (p: nat)
    ensures p >= 1
  {
    if n == 0 then 1 else 2 * Pow2(n - 1)
  }

  // ---------------------------------------------------------------- texts at positions

  predicate Here<T(==)>(s: seq<T>, i: nat, t: seq<T>) { i + |t| <= |s| && s[i..i + |t|] == t }

  lemma Split<T>(s: seq<T>, i: nat, a: seq<T>, b: seq<T>)
    requires Here(s, i, a + b)
    ensures Here(s, i, a) && Here(s, i + |a|, b)
    ensures a != [] ==> i < |s| && s[i] == a[0]
    ensures b != [] ==> i + |a| < |s| && s[i + |a|] == b[0]
    ensures i + |a| + |b| <= |s|
  {
    var t := s[i..i + |a + b|];
    assert t[..|a|] == a && t[|a|..] == b;
    assert a != [] ==> t[0] == a[0];
    assert b != [] ==> t[|a|] == b[0];
  }

  lemma HereAt<T>(s: seq<T>, i: nat, t: seq<T>, k: nat)
    requires Here(s, i, t) && k < |t|
    ensures i + |t| <= |s| && s[i + k] == t[k]
  {
    assert s[i..i + |t|][k] == s[i + k];
  }

  lemma Surrounded<T>(s: seq<T>, i: nat, t: seq<T>)
    requires Here(s, i, t)
    ensures s == s[..i] + t + s[i + |t|..]
  {}
}
