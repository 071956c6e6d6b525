/** Digit strings of to_string_fp in ctljson.hpp: least significant digit first, radix 10. */
module DigitStrings {

  type Digit = d: int | 0 <= d < 10
  type Digits = seq<Digit>

  const RADIX := 10

  /** The number a digit string denotes. */
  function Num(s: Digits): (n: nat) {
    if s == [] then 0 else s[0] + 10 * Num(s[1..])
  }

  function Pow10(n: nat): (p: nat)
    ensures p >= 1
  {
    if n == 0 then 1 else 10 * Pow10(n - 1)
  }

  predicate Lead(s: Digits) { s != [] && s[|s| - 1] != 0 }

  function Zeros(n: nat): (z: Digits)
    ensures |z| == n
  {
    seq(n, i => 0)
  }

  // ---------------------------------------------------------------- facts about denotation

  lemma {:induction false} Pow10Add(a: nat, b: nat)
    ensures Pow10(a + b) == Pow10(a) * Pow10(b)
  {
    if a > 0 { Pow10Add(a - 1, b); }
  }

  lemma {:induction false} NumAppend(a: Digits, b: Digits)
    ensures Num(a + b) == Num(a) + Pow10(|a|) * Num(b)
  {
    if a == [] {
      assert a + b == b;
    } else {
      NumAppend(a[1..], b);
      NumFirst(a + b);
      NumFirst(a);
      assert (a + b)[1..] == a[1..] + b;
      hide Num;
      TenTimes(Pow10(|a| - 1), Num(b));
    }
  }

  lemma NumFirst(s: Digits)
    requires s != []
    ensures Num(s) == s[0] + 10 * Num(s[1..])
  {}

  lemma TenTimes(p: nat, x: nat)
    ensures 10 * (p * x) == 10 * p * x
  {}

  lemma NumPrepend(d: Digit, s: Digits)
    ensures Num([d] + s) == d + 10 * Num(s)
  {
    assert ([d] + s)[1..] == s;
  }

  lemma NumNone()
    ensures Num([]) == 0 && Pow10(0) == 1
  {}

  lemma NumOne(d: Digit)
    ensures Num([d]) == d
  {
    assert [d][1..] == [];
  }

  lemma NumSnoc(a: Digits, d: Digit)
    ensures Num(a + [d]) == Num(a) + Pow10(|a|) * d
  {
    NumAppend(a, [d]);
    NumOne(d);
  }

  lemma {:induction false} NumBound(s: Digits)
    ensures Num(s) < Pow10(|s|)
  {
    if s != [] { NumBound(s[1..]); }
  }

  lemma {:induction false} NumZeros(n: nat)
    ensures Num(Zeros(n)) == 0
  {
    if n > 0 {
      assert Zeros(n)[1..] == Zeros(n - 1);
      NumZeros(n - 1);
    }
  }

  /** A leading digit other than 0 shows in the size of the number. */
  lemma LeadIs(s: Digits)
    requires s != []
    ensures Lead(s) <==> Num(s) >= Pow10(|s| - 1)
  {
    var n := |s| - 1;
    assert s == s[..n] + [s[n]];
    NumSnoc(s[..n], s[n]);
    NumBound(s[..n]);
    if s[n] != 0 { TimesAtLeast(Pow10(n), s[n]); }
  }

  lemma TimesAtLeast(p: nat, d: nat)
    requires d >= 1
    ensures p * d >= p
  {
    assert p * d == p + p * (d - 1);
  }

  // ---------------------------------------------------------------- doubling, halving, adding, rounding

  /** mul2_: the string is doubled in place; a carry makes it one digit longer. */
  method Mul2(s0: Digits) returns (s: Digits, carry: nat)
    ensures Num(s) == 2 * Num(s0) && carry <= 1 && |s| == |s0| + carry
    ensures Lead(s0) ==> Lead(s)
  {
    hide Num, Pow10;
    NumNone();
    s := s0;
    var carried := 0;
    var i := 0;
    while i < |s|
      invariant i <= |s| == |s0| && 0 <= carried <= 1 && s[i..] == s0[i..]
      invariant Num(s[..i]) + Pow10(i) * carried == 2 * Num(s0[..i])
    {
      var ch: int := s[i] as int * 2 + carried;
      ghost var was := carried;
      carried := 0;
      if ch >= RADIX { ch, carried := ch - RADIX, 1; }
      ghost var t := s;
      s := s[i := ch];
      PrefixNum(s0, i);
      StepAt(t, s, i, ch, carried, was, 2 * s0[i] as int, 2 * Num(s0[..i]));
      Twice(Pow10(i), s0[i]);
      i := i + 1;
    }
    assert s[..i] == s && s0[..i] == s0;
    if carried == 1 {
      NumSnoc(s, 1);
      s := s + [1];
    }
    carry := carried;
    if Lead(s0) && carry == 0 {
      LeadIs(s0);
      LeadIs(s);
    }
  }

  /** One digit of a running sum: x comes in at place |done|, ch stays and carried goes on. */
  lemma CarryStep(done: Digits, ch: Digit, carried: nat, was: nat, x: nat, sum: nat)
    requires ch + 10 * carried == x + was
    requires Num(done) + Pow10(|done|) * was == sum
    ensures Num(done + [ch]) + Pow10(|done| + 1) * carried == sum + Pow10(|done|) * x
  {
    hide Num;
    var p := Pow10(|done|);
    NumSnoc(done, ch);
    assert p * (ch + 10 * carried) == p * (x + was);
    assert p * (10 * carried) == Pow10(|done| + 1) * carried;
  }

  lemma Twice(p: nat, d: nat)
    ensures p * (2 * d) == 2 * (p * d)
  {}

  /** A digit set at place i, the rest as it was: the sum over the places done grows by x there. */
  lemma StepAt(t: Digits, s: Digits, i: nat, ch: Digit, carried: nat, was: nat, x: nat, sum: nat)
    requires i < |t| && s == t[i := ch] && ch + 10 * carried == x + was
    requires Num(t[..i]) + Pow10(i) * was == sum
    ensures Num(s[..i + 1]) + Pow10(i + 1) * carried == sum + Pow10(i) * x && s[i + 1..] == t[i + 1..]
  {
    assert s[..i + 1] == t[..i] + [ch];
    CarryStep(t[..i], ch, carried, was, x, sum);
  }

  lemma PrefixNum(z: Digits, i: nat)
    requires i < |z|
    ensures Num(z[..i + 1]) == Num(z[..i]) + Pow10(i) * z[i]
  {
    assert z[..i + 1] == z[..i] + [z[i]];
    NumSnoc(z[..i], z[i]);
  }

  lemma TimesSum(p: nat, a: nat, b: nat)
    ensures p * (a + b) == p * a + p * b
  {}

  /** div2_: the string is halved in place, with one more digit when it is odd; bit 1 of the result says that,
      bit 2 that a leading zero was dropped. */
  method Div2(s0: Digits) returns (s: Digits, borrowed: nat, dropped: nat)
    requires Lead(s0)
    ensures borrowed <= 1 && dropped <= 1 && |s| + dropped == |s0| + borrowed
    ensures borrowed == Num(s0) % 2
    ensures if borrowed == 0 then 2 * Num(s) == Num(s0) else Num(s) == 5 * Num(s0)
    ensures Lead(s)
  {
    hide Num, Pow10;
    NumNone();
    s := s0;
    borrowed := 0;
    var i: nat := |s|;
    assert s[i..] == [];
    while i != 0
      invariant i <= |s| == |s0| && borrowed <= 1 && s[..i] == s0[..i]
      invariant Num(s0[i..]) == 2 * Num(s[i..]) + borrowed
      decreases i
    {
      i := i - 1;
      var ch: int := s[i] as int + if borrowed != 0 then RADIX else 0;
      var below := s0[i + 1..];
      assert s0[i..] == [s0[i]] + s0[i + 1..];
      borrowed := ch % 2;
      ghost var t := s;
      s := s[i := ch / 2];
      assert s[i..] == [s[i]] + t[i + 1..];
      NumPrepend(s0[i], below);
      NumPrepend(s[i], t[i + 1..]);
    }
    assert s[i..] == s && s0[i..] == s0;
    if borrowed != 0 {
      ghost var t := s;
      s := [5] + s;
      NumPrepend(5, t);
    }
    dropped := 0;
    ghost var full := s;
    if |s| != 0 && s[|s| - 1] == 0 {
      s := s[..|s| - 1];
      dropped := 1;
      assert full == s + [0];
      NumSnoc(s, 0);
      StillLead(s0, s, borrowed);
    }
  }

  lemma StillLead(s0: Digits, s: Digits, borrowed: nat)
    requires Lead(s0) && borrowed <= 1 && |s| + 1 == |s0| + borrowed
    requires if borrowed == 0 then 2 * Num(s) == Num(s0) else Num(s) == 5 * Num(s0)
    ensures Lead(s)
  {
    LeadIs(s0);
    if s != [] {
      assert Pow10(|s0| - 1) == if borrowed == 1 then Pow10(|s| - 1) else 10 * Pow10(|s| - 1);
      LeadIs(s);
    }
  }

  /** The string with zeros above it. */
  lemma Wider(a: Digits, n: nat) returns (z: Digits)
    requires |a| <= n
    ensures |z| == n && Num(z) == Num(a) && z == a + Zeros(n - |a|)
    ensures forall i :: 0 <= i < n ==> z[i] == if i < |a| then a[i] else 0
  {
    z := a + Zeros(n - |a|);
    NumAppend(a, Zeros(n - |a|));
    NumZeros(n - |a|);
  }

  lemma PlusStep(t: Digits, s: Digits, z1: Digits, z2: Digits, i: nat, ch: Digit, carried: nat, was: nat)
    requires i < |t| == |z1| == |z2| && s == t[i := ch] && ch + 10 * carried == z1[i] as int + z2[i] as int + was
    requires WithCarry(t, i, was) == Num(z1[..i]) + Num(z2[..i])
    ensures WithCarry(s, i + 1, carried) == Num(z1[..i + 1]) + Num(z2[..i + 1])
  {
    hide Num, Pow10;
    PrefixNum(z1, i);
    PrefixNum(z2, i);
    StepAt(t, s, i, ch, carried, was, z1[i] as int + z2[i] as int, Num(z1[..i]) + Num(z2[..i]));
    TimesSum(Pow10(i), z1[i], z2[i]);
  }

  /** Digits done so far with the carry out of them. */
  function WithCarry(s: Digits, i: nat, carried: nat): nat
    requires i <= |s|
  {
    Num(s[..i]) + Pow10(i) * carried
  }

  /** The loop of plus_, for strings of the right lengths. */
  method AddDigits(s1: Digits, s2: Digits) returns (s: Digits, carried: nat)
    requires |s1| >= |s2|
    ensures |s| == |s1| && carried <= 1 && Num(s) + (if carried == 1 then Pow10(|s|) else 0) == Num(s1) + Num(s2)
  {
    hide Num, Pow10, WithCarry;
    s, carried := s1, 0;
    ghost var z2 := Wider(s2, |s|);
    var i := 0;
    AddStarts(s, s1, z2);
    while i < |s|
      invariant i <= |s| == |s1| == |z2| && carried <= 1 && forall k :: i <= k < |s| ==> s[k] == s1[k]
      invariant WithCarry(s, i, carried) == Num(s1[..i]) + Num(z2[..i])
    {
      var ch: int := s[i] as int + (if i < |s2| then s2[i] as int else 0) + carried;
      ghost var was, t := carried, s;
      carried := 0;
      if ch >= RADIX { ch, carried := ch - RADIX, 1; }
      s := s[i := ch];
      PlusStep(t, s, s1, z2, i, ch, carried, was);
      i := i + 1;
    }
    AddEnds(s, s1, z2, carried);
  }

  lemma AddStarts(s: Digits, z1: Digits, z2: Digits)
    ensures WithCarry(s, 0, 0) == Num(z1[..0]) + Num(z2[..0])
  {}

  lemma AddEnds(s: Digits, z1: Digits, z2: Digits, carried: nat)
    requires |s| == |z1| == |z2| && WithCarry(s, |s|, carried) == Num(z1[..|s|]) + Num(z2[..|s|]) && carried <= 1
    ensures Num(s) + (if carried == 1 then Pow10(|s|) else 0) == Num(z1) + Num(z2)
  {
    hide Num, Pow10;
    AllOf(s);
    AllOf(z1);
    AllOf(z2);
  }

  lemma AllOf(s: Digits)
    ensures s[..|s|] == s
  {}

  /** plus_: s2 is added to s1 in place. */
  method Plus(s1: Digits, s2: Digits) returns (s: Digits, carry: nat)
    requires (|s1| >= |s2| && Lead(s1)) || (s1 == [] && Lead(s2))
    ensures Num(s) == Num(s1) + Num(s2) && carry <= 1
    ensures |s| == carry + (if |s1| >= |s2| then |s1| else |s2|)
    ensures Lead(s)
  {
    hide Num, Pow10;
    s := s1;
    if |s| < |s2| {
      ghost var z := Wider(s1, |s2|);
      s := s + Zeros(|s2| - |s|);
    }
    s, carry := AddDigits(s, s2);
    if carry == 1 {
      NumSnoc(s, 1);
      s := s + [1];
    } else {
      if |s1| >= |s2| { LeadIs(s1); } else { LeadIs(s2); }
      LeadIs(s);
    }
  }

  /** round_: all but the pos - 1 leading digits are dropped, rounding half up on the first of them. */
  method Round(s0: Digits, pos: nat) returns (s: Digits, carry: nat)
    requires pos >= 1
    ensures carry <= 1 && |s| == carry + if pos <= |s0| then pos - 1 else |s0|
    ensures pos > |s0| ==> s == s0
    ensures pos <= |s0| ==> Num(s) == (Num(s0) + 5 * Pow10(|s0| - pos)) / Pow10(|s0| - pos + 1)
    ensures carry == 1 ==> pos <= |s0| && Lead(s)
  {
    hide Num, Pow10;
    NumNone();
    s, carry := s0, 0;
    if pos <= |s| {
      var at := |s| - pos;
      var carried := if s[at] >= RADIX / 2 then 1 else 0;
      s := s[at + 1..];
      ghost var t := s;
      ghost var up := carried;
      Halves(s0, at);
      var i := 0;
      assert s[..0] == [] && t[..0] == [];
      while carried != 0 && i < |s|
        invariant i <= |s| == |t| && 0 <= carried <= 1 && s[i..] == t[i..]
        invariant Num(s[..i]) + Pow10(i) * carried == Num(t[..i]) + up
      {
        var ch: int := s[i] as int + carried;
        ghost var was := carried;
        carried := 0;
        if ch >= RADIX { ch, carried := ch - RADIX, 1; }
        ghost var u := s;
        s := s[i := ch];
        PrefixNum(t, i);
        StepAt(u, s, i, ch, carried, was, t[i], Num(t[..i]) + up);
        i := i + 1;
      }
      assert s == s[..i] + s[i..] && t == t[..i] + t[i..];
      NumAppend(s[..i], s[i..]);
      NumAppend(t[..i], t[i..]);
      if carried != 0 {
        assert s[..i] == s && t[..i] == t;
        NumSnoc(s, 1);
        s, carry := s + [1], 1;
      }
    }
  }

  /** Dropping the digits up to at, with the digit there deciding, is rounding half up. */
  lemma Halves(s: Digits, at: nat)
    requires at < |s|
    ensures Num(s[at + 1..]) + (if s[at] >= 5 then 1 else 0) == (Num(s) + 5 * Pow10(at)) / Pow10(at + 1)
  {
    hide Num;
    var low, rest, p := s[..at], s[at + 1..], Pow10(at);
    assert s == low + ([s[at]] + rest);
    NumAppend(low, [s[at]] + rest);
    NumPrepend(s[at], rest);
    NumBound(low);
    HalfUpParts(p, s[at], Num(low), Num(rest));
  }

  lemma HalfUpParts(p: nat, d: Digit, low: nat, q: nat)
    requires low < p
    ensures q + (if d >= 5 then 1 else 0) == (low + p * (d + 10 * q) + 5 * p) / (10 * p)
  {
    var up := if d >= 5 then 1 else 0;
    var r := low + p * d + 5 * p - 10 * p * up;
    assert p * (d + 10 * q) == p * d + 10 * p * q;
    TimesBetween(p, d, if up == 1 then 5 else 0, if up == 1 then 9 else 4);
    assert 10 * p * q + 10 * p * up == 10 * p * (q + up);
    QuotientIs(low + p * (d + 10 * q) + 5 * p, 10 * p, q + up, r);
  }

  lemma TimesBetween(p: nat, d: nat, a: nat, b: nat)
    requires a <= d <= b
    ensures p * a <= p * d <= p * b
  {}

  lemma QuotientIs(n: nat, d: nat, q: nat, r: int)
    requires 0 <= r < d && n == d * q + r
    ensures n / d == q
  {
    var k := n / d;
    assert n == d * k + n % d;
    assert d * (k - q) == r - n % d;
    Smaller(d, k - q);
  }

  lemma Smaller(d: int, x: int)
    requires -d < d * x < d
    ensures x == 0
  {}
}
