/** The red-black conditions on shapes, and what each case of the two rebalancing loops of
    ctljson.hpp does to them. */
module RbBalance {
  import opened Basics
  import opened RbShape

  /** Black nodes on the leftmost way down; by `RedBlack` the same on every way down. */
  function Bh<V>(t: Tree<V>): nat {
    if t.Leaf? then 0 else Bh(t.left) + Blacks(t.colour)
  }

  function Blacks(c: Colour): nat { if c.Black? then 1 else 0 }

  predicate RedBlack<V>(t: Tree<V>) {
    t.Bin? ==> (RedBlack(t.left) && RedBlack(t.right) && Bh(t.left) == Bh(t.right)
                && (t.colour.Red? ==> !t.left.IsRed() && !t.right.IsRed()))
  }

  /** The path accepts at its hole a tree of black height h; its topmost node is black. */
  predicate PathOk<V>(p: Path<V>, h: nat) {
    !p.Top? ==> (RedBlack(p.other) && Bh(p.other) == h
                 && (p.colour.Red? ==> !p.other.IsRed() && !p.up.Top? && p.up.colour.Black?)
                 && PathOk(p.up, h + Blacks(p.colour)))
  }

  /** The whole tree around the focus is a red-black tree with a black root. */
  predicate Settled<V>(p: Path<V>, t: Tree<V>) {
    RedBlack(t) && PathOk(p, Bh(t)) && (t.IsRed() ==> !p.Top? && p.colour.Black?)
  }

  /** Insertion under way: only the edge above the red root of t may break the rules. */
  predicate Rising<V>(p: Path<V>, t: Tree<V>) {
    t.IsRed() && RedBlack(t) && PathOk(p, Bh(t))
  }

  /** Deletion under way: t is one black node short; if red, it may have red children. */
  predicate Sunken<V>(p: Path<V>, t: Tree<V>) {
    RedBlack(t.Painted(Black)) && PathOk(p, Bh(t) + 1)
  }

  lemma MakeBalance<V>(s: Side, a: Tree<V>, n: Node<V>, c: Colour, b: Tree<V>)
    ensures RedBlack(Make(s, a, n, c, b)) <==>
            RedBlack(a) && RedBlack(b) && Bh(a) == Bh(b) && (c.Red? ==> !a.IsRed() && !b.IsRed())
    ensures RedBlack(Make(s, a, n, c, b)) ==> Bh(Make(s, a, n, c, b)) == Bh(a) + Blacks(c)
  {}

  lemma SettledZoom<V>(p: Path<V>, s: Side, a: Tree<V>, n: Node<V>, c: Colour, b: Tree<V>)
    ensures Settled(p, Make(s, a, n, c, b)) <==> Settled(Down(p, s, n, c, b), a)
  {
    MakeBalance(s, a, n, c, b);
  }

  lemma {:induction false} SettledPlug<V>(p: Path<V>, t: Tree<V>)
    ensures Settled(p, t) <==> RedBlack(Plug(p, t)) && !Plug(p, t).IsRed()
    decreases p
  {
    if !p.Top? {
      SettledZoom(p.up, p.side, t, p.node, p.colour, p.other);
      SettledPlug(p.up, Make(p.side, t, p.node, p.colour, p.other));
    }
  }

  // ---------------------------------------------------------------- insertion cases

  lemma InsertRecolours<V>(u: Path<V>, s: Side, pp: Node<V>, o: Tree<V>, s1: Side, par: Node<V>, sib: Tree<V>,
                           t: Tree<V>)
    requires Rising(Down(Down(u, s, pp, Black, o), s1, par, Red, sib), t) && o.IsRed()
    ensures Rising(u, Make(s, Make(s1, t, par, Black, sib), pp, Red, o.Painted(Black)))
  {
    assert PathOk(Down(u, s, pp, Black, o), Bh(t));
    MakeBalance(s1, t, par, Black, sib);
    MakeBalance(s, Make(s1, t, par, Black, sib), pp, Red, o.Painted(Black));
  }

  lemma InsertTurns<V>(u: Path<V>, s: Side, par: Node<V>, sib: Tree<V>, x: Tree<V>, n: Node<V>, y: Tree<V>)
    requires Rising(Down(u, s.Other(), par, Red, sib), Make(s, x, n, Red, y))
    ensures Rising(Down(u, s, n, Red, y), Make(s, sib, par, Red, x))
  {
    MakeBalance(s, x, n, Red, y);
    MakeBalance(s, sib, par, Red, x);
  }

  lemma InsertLifts<V>(u: Path<V>, s: Side, pp: Node<V>, o: Tree<V>, par: Node<V>, sib: Tree<V>, t: Tree<V>)
    requires Rising(Down(Down(u, s, pp, Black, o), s, par, Red, sib), t) && !o.IsRed()
    ensures Settled(Down(u, s, par, Black, Make(s, sib, pp, Red, o)), t)
  {
    assert PathOk(Down(u, s, pp, Black, o), Bh(t));
    MakeBalance(s, sib, pp, Red, o);
  }

  /** A new red leaf in a hole of a settled tree starts the rise. */
  lemma RisingStarts<V>(p: Path<V>, nn: Node<V>)
    requires RedBlack(Plug(p, Leaf)) && !Plug(p, Leaf).IsRed()
    ensures Rising(p, Bin(Leaf, nn, Red, Leaf))
  {
    SettledPlug(p, Leaf);
  }

  lemma RisingIs<V>(p: Path<V>, t: Tree<V>)
    requires Rising(p, t)
    ensures t.IsRed()
    ensures !p.Top? && p.colour.Red? ==> !p.up.Top? && p.up.colour.Black?
  {}

  lemma TopBlack<V>(p: Path<V>, t: Tree<V>)
    requires t.Bin? && (!p.Top? ==> Settled(p, t))
    ensures Plug(p, t).Bin?
    ensures Plug(p, t).Painted(Black) == Plug(p, if p.Top? then t.Painted(Black) else t)
  {
    if !p.Top? { SettledPlug(p, t); PlugBin(p, t); }
  }

  lemma {:induction false} PlugBin<V>(p: Path<V>, t: Tree<V>)
    requires t.Bin?
    ensures Plug(p, t).Bin?
    decreases p
  {
    if !p.Top? { PlugBin(p.up, Make(p.side, t, p.node, p.colour, p.other)); }
  }

  lemma RisingStops<V>(p: Path<V>, t: Tree<V>)
    requires Rising(p, t) || Settled(p, t)
    requires p.Top? || p.colour.Black?
    ensures Settled(p, if p.Top? then t.Painted(Black) else t)
  {}

  // ---------------------------------------------------------------- deletion cases

  lemma DeleteRedSibling<V>(u: Path<V>, s: Side, scp: Node<V>, c: Colour, x: Tree<V>, sib: Node<V>, y: Tree<V>,
                            t: Tree<V>)
    requires Sunken(Down(u, s, scp, c, Make(s, x, sib, Red, y)), t)
    ensures c == Black && x.Bin? && !x.IsRed()
    ensures Sunken(Down(Down(u, s, sib, Black, y), s, scp, Red, x), t)
  {
    MakeBalance(s, x, sib, Red, y);
  }

  lemma DeleteRecolours<V>(u: Path<V>, s: Side, scp: Node<V>, c: Colour, x: Tree<V>, sib: Node<V>, y: Tree<V>,
                           t: Tree<V>)
    requires Sunken(Down(u, s, scp, c, Make(s, x, sib, Black, y)), t)
    requires !t.IsRed() && !x.IsRed() && !y.IsRed()
    ensures Sunken(u, Make(s, t, scp, c, Make(s, x, sib, Red, y)))
  {
    MakeBalance(s, x, sib, Black, y);
    MakeBalance(s, x, sib, Red, y);
    MakeBalance(s, t, scp, c, Make(s, x, sib, Red, y));
    MakeBalance(s, t, scp, Black, Make(s, x, sib, Red, y));
  }

  lemma DeleteTurns<V>(u: Path<V>, s: Side, scp: Node<V>, c: Colour, x1: Tree<V>, xn: Node<V>, x2: Tree<V>,
                       sib: Node<V>, y: Tree<V>, t: Tree<V>)
    requires Sunken(Down(u, s, scp, c, Make(s, Make(s, x1, xn, Red, x2), sib, Black, y)), t) && !y.IsRed()
    ensures Sunken(Down(u, s, scp, c, Make(s, x1, xn, Black, Make(s, x2, sib, Red, y))), t)
  {
    MakeBalance(s, x1, xn, Red, x2);
    MakeBalance(s, Make(s, x1, xn, Red, x2), sib, Black, y);
    MakeBalance(s, x2, sib, Red, y);
    MakeBalance(s, x1, xn, Black, Make(s, x2, sib, Red, y));
  }

  lemma DeleteLifts<V>(u: Path<V>, s: Side, scp: Node<V>, c: Colour, x: Tree<V>, sib: Node<V>, y: Tree<V>, t: Tree<V>)
    requires Sunken(Down(u, s, scp, c, Make(s, x, sib, Black, y)), t) && !t.IsRed() && y.IsRed()
    ensures Settled(Down(Down(u, s, sib, c, y.Painted(Black)), s, scp, Black, x), t)
  {
    MakeBalance(s, x, sib, Black, y);
  }

  lemma SunkenIs<V>(p: Path<V>, t: Tree<V>)
    requires Sunken(p, t)
    ensures !p.Top? ==> p.other.Bin?
  {}

  /** Painting the focus black ends a deletion. */
  lemma SunkenStops<V>(p: Path<V>, t: Tree<V>, done: bool)
    requires if done then Settled(p, t) && !t.IsRed() else Sunken(p, t) && (p.Top? || t.IsRed())
    ensures Settled(p, t.Painted(Black))
  {}

  // ---------------------------------------------------------------- taking a node out

  lemma UnlinkBalance<V>(p: Path<V>, s: Side, x: Tree<V>, n: Node<V>, c: Colour)
    requires Settled(p, Make(s, x, n, c, Leaf))
    ensures if c.Black? then Sunken(p, x) else Settled(p, x)
  {
    MakeBalance(s, x, n, c, Leaf);
  }

  lemma {:induction false} PathRenamed<V>(q: Path<V>, p: Path<V>, n: Node<V>, s: Node<V>, c: Colour, l: Tree<V>, h: nat)
    ensures PathOk(Append(q, Down(p, R, n, c, l)), h) <==> PathOk(Append(q, Down(p, R, s, c, l)), h)
    decreases q
  {
    if !q.Top? { PathRenamed(q.up, p, n, s, c, l, h + Blacks(q.colour)); }
  }

  lemma SpliceBalance<V>(p: Path<V>, l: Tree<V>, n: Node<V>, c: Colour, q: Path<V>, s: Node<V>, cs: Colour, rs: Tree<V>)
    requires Settled(Append(q, Down(p, R, n, c, l)), Bin(Leaf, s, cs, rs))
    ensures var w := Append(q, Down(p, R, s, c, l)); if cs.Black? then Sunken(w, rs) else Settled(w, rs)
  {
    PathRenamed(q, p, n, s, c, l, Bh(Bin(Leaf, s, cs, rs)));
    MakeBalance(R, rs, s, cs, Leaf);
  }


  // ---------------------------------------------------------------- height

  function Height<V>(t: Tree<V>): (h: nat)
    ensures h == 0 <==> t.Leaf?
  {
    if t.Leaf? then 0 else 1 + if Height(t.left) >= Height(t.right) then Height(t.left) else Height(t.right)
  }

  lemma {:induction false} HeightAndSize<V>(t: Tree<V>)
    requires RedBlack(t)
    ensures Height(t) <= 2 * Bh(t) + (if t.IsRed() then 1 else 0)
    ensures Size(t) + 1 >= Pow2(Bh(t))
  {
    if t.Bin? {
      HeightAndSize(t.left);
      HeightAndSize(t.right);
    }
  }

  lemma {:induction false} Pow2Monotone(m: nat, n: nat)
    requires m <= n
    ensures Pow2(m) <= Pow2(n)
  {
    if m < n { Pow2Monotone(m, n - 1); }
  }

  lemma {:induction false} Pow2Adds(m: nat, n: nat)
    ensures Pow2(m + n) == Pow2(m) * Pow2(n)
  {
    if m > 0 { Pow2Adds(m - 1, n); }
  }

  lemma SquareMonotone(m: nat, n: nat)
    requires m <= n
    ensures m * m <= n * n
  {
    assert m * m <= n * m <= n * n;
  }

  /** The height is at most 2 * log2(n + 1): 2^height <= (n + 1)^2. */
  lemma HeightIsLogarithmic<V>(t: Tree<V>)
    requires RedBlack(t) && !t.IsRed()
    ensures Pow2(Height(t)) <= (Size(t) + 1) * (Size(t) + 1)
  {
    HeightAndSize(t);
    Pow2Monotone(Height(t), Bh(t) + Bh(t));
    Pow2Adds(Bh(t), Bh(t));
    SquareMonotone(Pow2(Bh(t)), Size(t) + 1);
  }
}
