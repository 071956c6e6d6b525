/** Key order in the tree: where a search leads, and what insertion and removal do to it. */
module RbSearch {
  import opened Keys
  import opened RbShape
  import opened RbFocus
  import opened RbBalance

  predicate Sorted<V>(s: seq<Node<V>>) {
    forall i, j :: 0 <= i < j < |s| ==> Less(s[i].key, s[j].key)
  }

  /** Everything left of the hole is smaller than key, everything right of it is larger. */
  predicate Around<V>(p: Path<V>, key: Key) {
    && (forall i :: 0 <= i < |Before(p)| ==> Less(Before(p)[i].key, key))
    && (forall i :: 0 <= i < |After(p)| ==> Less(key, After(p)[i].key))
  }

  function First<V>(s: seq<Node<V>>): Node?<V> { if s == [] then null else s[0] }
  function At<V>(s: seq<Node<V>>, i: nat): Node?<V> { if i < |s| then s[i] else null }
  function Last<V>(s: seq<Node<V>>): Node?<V> { if s == [] then null else s[|s| - 1] }

  lemma SortedParts<V>(a: seq<Node<V>>, b: seq<Node<V>>)
    ensures Sorted(a + b) <==>
      Sorted(a) && Sorted(b) && forall i, j :: 0 <= i < |a| && 0 <= j < |b| ==> Less(a[i].key, b[j].key)
  {
    hide Less;
    if Sorted(a + b) {
      forall i, j | 0 <= i < j < |a| ensures Less(a[i].key, a[j].key) {
        assert (a + b)[i] == a[i] && (a + b)[j] == a[j];
      }
      forall i, j | 0 <= i < j < |b| ensures Less(b[i].key, b[j].key) {
        assert (a + b)[|a| + i] == b[i] && (a + b)[|a| + j] == b[j];
      }
      forall i, j | 0 <= i < |a| && 0 <= j < |b| ensures Less(a[i].key, b[j].key) {
        assert (a + b)[i] == a[i] && (a + b)[|a| + j] == b[j];
      }
    }
  }

  lemma LessIrreflexive(k: Key)
    ensures !Less(k, k)
  {}

  /** A search that goes to side s of node n keeps the key between its neighbours. */
  lemma SearchDown<V>(p: Path<V>, s: Side, a: Tree<V>, n: Node<V>, c: Colour, b: Tree<V>, key: Key)
    requires Sorted(Whole(p, Make(s, a, n, c, b))) && Around(p, key)
    requires if s.L? then Less(key, n.key) else Less(n.key, key)
    ensures Around(Down(p, s, n, c, b), key)
  {
    hide Less, Order;
    WholeZoom(p, s, a, n, c, b);
    var q := Down(p, s, n, c, b);
    SortedParts(Before(q) + Order(a), After(q));
    SortedParts(Before(q), Order(a));
    if s.L? {
      AfterLeft(p, n, c, b);
      SortedParts([n], Order(b));
      SortedParts([n] + Order(b), After(p));
      forall i | 0 <= i < |After(q)| ensures Less(key, After(q)[i].key) {
        if 1 <= i < 1 + |Order(b)| {
          assert Less([n][0].key, Order(b)[i - 1].key);
          LessTransitive(key, n.key, After(q)[i].key);
        }
      }
    } else {
      BeforeRight(p, n, c, b);
      SortedParts(Order(b), [n]);
      SortedParts(Before(p) + Order(b), [n]);
      forall i | 0 <= i < |Before(q)| ensures Less(Before(q)[i].key, key) {
        if |Before(p)| <= i < |Before(p)| + |Order(b)| {
          assert (Before(p) + Order(b))[i] == Before(q)[i];
          assert Less((Before(p) + Order(b))[i].key, [n][0].key);
          LessTransitive(Before(q)[i].key, n.key, key);
        }
      }
    }
  }

  lemma AfterLeft<V>(p: Path<V>, n: Node<V>, c: Colour, b: Tree<V>)
    ensures Before(Down(p, L, n, c, b)) == Before(p)
    ensures After(Down(p, L, n, c, b)) == ([n] + Order(b)) + After(p)
  {}

  lemma BeforeRight<V>(p: Path<V>, n: Node<V>, c: Colour, b: Tree<V>)
    ensures After(Down(p, R, n, c, b)) == After(p)
    ensures Before(Down(p, R, n, c, b)) == (Before(p) + Order(b)) + [n]
  {}

  /** A search that reaches an empty subtree proves that the key is nowhere in the tree. */
  lemma Absent<V>(p: Path<V>, key: Key, n: Node<V>)
    requires Around(p, key) && n in Whole(p, Leaf)
    ensures n.key != key
  {
    LessIrreflexive(key);
  }

  lemma InsertSorted<V>(p: Path<V>, n: Node<V>)
    requires Sorted(Whole(p, Leaf)) && Around(p, n.key)
    ensures Sorted(Before(p) + [n] + After(p))
  {
    hide Less, Before, After, Order;
    LeafOrder<V>();
    assert Whole(p, Leaf) == Before(p) + After(p);
    SortedParts(Before(p), After(p));
    SortedParts(Before(p), [n]);
    SortedParts(Before(p) + [n], After(p));
  }

  lemma LeafOrder<V>()
    ensures Order<V>(Leaf) == []
  {}

  lemma RemoveSorted<V>(a: seq<Node<V>>, n: Node<V>, b: seq<Node<V>>)
    requires Sorted(a + [n] + b)
    ensures Sorted(a + b)
    ensures forall m :: m in a + b ==> m.key != n.key
  {
    hide Less;
    SortedParts(a + [n], b);
    SortedParts(a, [n]);
    SortedParts(a, b);
    forall i, j | 0 <= i < |a| && 0 <= j < |b| ensures Less(a[i].key, b[j].key) {
      assert (a + [n])[i] == a[i];
    }
    forall m | m in a + b ensures m.key != n.key {
      LessIrreflexive(n.key);
      if m in a {
        var i :| 0 <= i < |a| && a[i] == m;
        assert Less(a[i].key, [n][0].key);
      } else {
        var j :| 0 <= j < |b| && b[j] == m;
        assert Less((a + [n])[|a|].key, b[j].key);
      }
    }
  }

  lemma SameKeySameNode<V>(s: seq<Node<V>>, m: Node<V>, n: Node<V>)
    requires Sorted(s) && m in s && n in s && m.key == n.key
    ensures m == n
  {
    LessIrreflexive(m.key);
  }

  /** Finds the place of node n in tree t. */
  lemma {:induction false} Locate<V>(p: Path<V>, t: Tree<V>, n: Node<V>) returns (q: Path<V>, u: Tree<V>)
    requires n in Nodes(t)
    ensures u.Bin? && u.node == n && Plug(q, u) == Plug(p, t)
    decreases t
  {
    if n == t.node {
      q, u := p, t;
    } else if n in Nodes(t.left) {
      q, u := Locate(Down(p, L, t.node, t.colour, t.right), t.left, n);
    } else {
      q, u := Locate(Down(p, R, t.node, t.colour, t.left), t.right, n);
    }
  }

  function Len<V>(p: Path<V>): nat { if p.Top? then 0 else 1 + Len(p.up) }

  lemma SameWhole<V>(p: Path<V>, t: Tree<V>, t': Tree<V>)
    requires Order(t) == Order(t')
    ensures Whole(p, t) == Whole(p, t')
  {}

  lemma PaintedOrder<V>(p: Path<V>, t: Tree<V>, c: Colour)
    ensures Whole(p, t.Painted(c)) == Whole(p, t)
  {
    assert Order(t.Painted(c)) == Order(t);
  }

  /** Painting and the lifting rotation keep the in-order sequence. */
  lemma LiftOrder<V>(u: Path<V>, s: Side, pp: Node<V>, o: Tree<V>, par: Node<V>, sib: Tree<V>, t: Tree<V>,
                     c: Colour, d: Colour, c': Colour, d': Colour)
    ensures Whole(Down(u, s, par, c', Make(s, sib, pp, d', o)), t)
        == Whole(Down(Down(u, s, pp, c, o), s, par, d, sib), t)
  {
    hide Order, Whole;
    WholeZoom(u, s, t, par, c', Make(s, sib, pp, d', o));
    WholeZoom(Down(u, s, pp, c, o), s, t, par, d, sib);
    WholeZoom(u, s, Make(s, t, par, d, sib), pp, c, o);
    RotationKeeps(u, s.Other(), o, pp, c, sib, par, d, t, d', c');
    SameWhole(u, Make(s, Make(s, t, par, d, sib), pp, c, o), Make(s, t, par, c', Make(s, sib, pp, d', o)));
  }

  lemma RecolourOrder<V>(u: Path<V>, s: Side, pp: Node<V>, o: Tree<V>, s1: Side, par: Node<V>, sib: Tree<V>, t: Tree<V>)
    ensures Whole(u, Make(s, Make(s1, t, par, Black, sib), pp, Red, o.Painted(Black)))
            == Whole(Down(Down(u, s, pp, Black, o), s1, par, Red, sib), t)
  {
    hide Whole, Order;
    var v, v', o' := Make(s1, t, par, Red, sib), Make(s1, t, par, Black, sib), o.Painted(Black);
    WholeZoom(Down(u, s, pp, Black, o), s1, t, par, Red, sib);
    WholeZoom(u, s, v, pp, Black, o);
    OrderMake(s1, t, par, Red, sib);
    OrderMake(s1, t, par, Black, sib);
    PaintedSame(o, Black);
    OrderMake(s, v, pp, Black, o);
    OrderMake(s, v', pp, Red, o');
    SameWhole(u, Make(s, v, pp, Black, o), Make(s, v', pp, Red, o'));
  }

  lemma PaintedSame<V>(t: Tree<V>, c: Colour)
    ensures Order(t.Painted(c)) == Order(t)
  {}

  /** The cached ends after a node is hung into the hole of p. */
  lemma HangEnds<V>(p: Path<V>, nn: Node<V>)
    requires !p.Top? && Sorted(Whole(p, Leaf))
    ensures var s, s' := Whole(p, Leaf), Whole(p, Bin(Leaf, nn, Red, Leaf));
      && First(s') == (if p.side.L? && First(s) == p.node then nn else First(s))
      && Last(s') == (if p.side.R? && Last(s) == p.node then nn else Last(s))
  {
    var s, s' := Whole(p, Leaf), Whole(p, Bin(Leaf, nn, Red, Leaf));
    assert s == Before(p) + After(p) && s' == Before(p) + [nn] + After(p);
    if p.side.L? {
      assert After(p)[0] == p.node && s[|Before(p)|] == p.node;
      if Before(p) != [] { LessIrreflexive(p.node.key); assert s[0] == Before(p)[0]; }
    } else {
      assert Before(p)[|Before(p)| - 1] == p.node && s[|Before(p)| - 1] == p.node;
      if After(p) != [] { LessIrreflexive(p.node.key); assert s[|s| - 1] == After(p)[|After(p)| - 1]; }
    }
  }

  lemma CompareSides(k: Key, l: Key)
    ensures Compare(k, l) < 0 ==> Less(k, l)
    ensures Compare(k, l) > 0 ==> Less(l, k)
    ensures Compare(k, l) == 0 <==> k == l
  {
    CompareFlips(l, k);
  }

  lemma OneOrder<V>(p: Path<V>, nn: Node<V>)
    ensures Whole(p, Bin(Leaf, nn, Red, Leaf)) == Before(p) + [nn] + After(p)
    ensures |Whole(p, Bin(Leaf, nn, Red, Leaf))| == |Whole(p, Leaf)| + 1
  {
    assert Order(Bin(Leaf, nn, Red, Leaf)) == [nn];
  }

  lemma {:induction false} OrderLength<V>(t: Tree<V>)
    ensures |Order(t)| == Size(t)
  {
    if t.Bin? {
      OrderLength(t.left);
      OrderLength(t.right);
    }
  }

  /** Picture m is a red-black search tree with a black root, and lm and rm are its ends. */
  ghost predicate Proper<V>(m: Picture<V>, root: Node?<V>, lm: Node?<V>, rm: Node?<V>, t: Tree<V>) {
    && InFocus(m, root, Top, t)
    && RedBlack(t) && !t.IsRed()
    && Sorted(Order(t))
    && lm == First(Order(t)) && rm == Last(Order(t))
  }

  lemma ProperPlug<V>(m: Picture<V>, root: Node?<V>, lm: Node?<V>, rm: Node?<V>, p: Path<V>, t: Tree<V>)
    requires Settled(p, t) && Sorted(Whole(p, t)) && lm == First(Whole(p, t)) && rm == Last(Whole(p, t))
    requires InFocus(m, root, p, t)
    ensures Proper(m, root, lm, rm, Plug(p, t))
    ensures Size(Plug(p, t)) == |Whole(p, t)|
  {
    hide InFocus, Sorted, Whole, Settled, RedBlack, First, Last;
    FocusPlug(m, root, p, t);
    SettledPlug(p, t);
    OrderPlug(p, t);
    OrderLength(Plug(p, t));
  }

  lemma ProperIs<V>(m: Picture<V>, root: Node?<V>, lm: Node?<V>, rm: Node?<V>, p: Path<V>, t: Tree<V>)
    requires Proper(m, root, lm, rm, Plug(p, t))
    ensures InFocus(m, root, p, t) && InFocus(m, root, Top, Plug(p, t))
    ensures Settled(p, t) && Sorted(Whole(p, t)) && lm == First(Whole(p, t)) && rm == Last(Whole(p, t))
    ensures Size(Plug(p, t)) == |Whole(p, t)|
    ensures m.Keys == PathNodes(p) + Nodes(t) == Nodes(Plug(p, t))
    ensures RedBlack(Plug(p, t)) && !Plug(p, t).IsRed()
  {
    hide Sorted, Whole, Settled, RedBlack, First, Last, Separate, Shows, ShowsPath;
    FocusPlug(m, root, p, t);
    SettledPlug(p, t);
    OrderPlug(p, t);
    OrderLength(Plug(p, t));
  }

  lemma OneNode<V>(n: Node<V>)
    ensures var t := Bin(Leaf, n, Black, Leaf); Order(t) == [n] && Nodes(t) == {n} && Apart(t) && Size(t) == 1
  {
    assert Nodes<V>(Leaf) == {} && Order<V>(Leaf) == [] && Apart<V>(Leaf) && Size<V>(Leaf) == 0;
  }

  lemma SingleProper<V>(m: Picture<V>, n: Node<V>)
    requires m == map[n := Links(null, null, null, Black)]
    ensures Proper(m, n, n, n, Bin(Leaf, n, Black, Leaf)) && Size(Bin(Leaf, n, Black, Leaf)) == 1
  {
    var t := Bin(Leaf, n, Black, Leaf);
    OneNode(n);
    assert PathNodes<V>(Top) == {} && ApartPath<V>(Top);
    assert m.Keys == PathNodes(Top) + Nodes(t);
  }

  lemma RaiseOrder<V>(u: Path<V>, s: Side, scp: Node<V>, c: Colour, c': Colour, x: Tree<V>, sib: Node<V>, d: Colour,
                      d': Colour,
                      y: Tree<V>, t: Tree<V>, f: Colour)
    ensures Whole(Down(Down(u, s, sib, d', y.Painted(f)), s, scp, c', x), t)
        == Whole(Down(u, s, scp, c, Make(s, x, sib, d, y)), t)
  {
    hide Order, Whole;
    var y' := y.Painted(f);
    WholeZoom(u, s, t, scp, c, Make(s, x, sib, d, y));
    WholeZoom(Down(u, s, sib, d', y'), s, t, scp, c', x);
    WholeZoom(u, s, Make(s, t, scp, c', x), sib, d', y');
    RotationKeeps(u, s, t, scp, c, x, sib, d, y, c', d');
    PaintedSame(y, f);
    OrderMake(s, Make(s, t, scp, c', x), sib, d', y);
    OrderMake(s, Make(s, t, scp, c', x), sib, d', y');
    SameWhole(u, Make(s, t, scp, c, Make(s, x, sib, d, y)), Make(s, Make(s, t, scp, c', x), sib, d', y'));
  }

  lemma TurnOrder<V>(u: Path<V>, s: Side, scp: Node<V>, c: Colour, x1: Tree<V>, xn: Node<V>, x2: Tree<V>,
                     sib: Node<V>, y: Tree<V>, t: Tree<V>)
    ensures Whole(Down(u, s, scp, c, Make(s, x1, xn, Black, Make(s, x2, sib, Red, y))), t)
            == Whole(Down(u, s, scp, c, Make(s, Make(s, x1, xn, Red, x2), sib, Black, y)), t)
  {
    hide Order, Whole;
    var o, o' := Make(s, Make(s, x1, xn, Red, x2), sib, Black, y), Make(s, x1, xn, Black, Make(s, x2, sib, Red, y));
    RotationKeeps(u, s.Other(), y, sib, Black, x2, xn, Red, x1, Red, Black);
    WholeZoom(u, s, t, scp, c, o);
    WholeZoom(u, s, t, scp, c, o');
    OrderMake(s, t, scp, c, o);
    OrderMake(s, t, scp, c, o');
    SameWhole(u, Make(s, t, scp, c, o), Make(s, t, scp, c, o'));
  }

  /** The first or last node of the whole tree lies at the end of a spine without anything beyond. */
  lemma SpineEnds<V>(q: Path<V>, base: Path<V>, u: Tree<V>, s: Side)
    requires Spine(q, s) && u.Bin? && u.Sub(s).Leaf?
    ensures s.L? && Before(base) == [] ==> First(Whole(Append(q, base), u)) == u.node
    ensures s.R? && After(base) == [] ==> Last(Whole(Append(q, base), u)) == u.node
  {
    AppendSpine(q, base, s);
    var w := Whole(Append(q, base), u);
    if s.L? && Before(base) == [] {
      assert Order(u) == [u.node] + Order(u.right) && w[0] == Order(u)[0];
    }
    if s.R? && After(base) == [] {
      assert Order(u) == Order(u.left) + [u.node] && w[|w| - 1] == Order(u)[|Order(u)| - 1];
    }
  }

  lemma UnlinkSplit<V>(p: Path<V>, s: Side, x: Tree<V>, n: Node<V>, c: Colour)
    returns (a: seq<Node<V>>, b: seq<Node<V>>)
    requires Sorted(Whole(p, Make(s, x, n, c, Leaf)))
    ensures Whole(p, Make(s, x, n, c, Leaf)) == a + [n] + b && Whole(p, x) == a + b
    ensures a == if s.L? then Before(p) + Order(x) else Before(p)
    ensures b == if s.L? then After(p) else Order(x) + After(p)
    ensures n !in a && n !in b
    ensures x.Bin? ==> Order(x) != []
  {
    hide Sorted, Order, Before, After;
    a := if s.L? then Before(p) + Order(x) else Before(p);
    b := if s.L? then After(p) else Order(x) + After(p);
    OrderMake(s, x, n, c, Leaf);
    LeafOrder<V>();
    assert Whole(p, Make(s, x, n, c, Leaf)) == a + [n] + b && Whole(p, x) == a + b;
    RemoveSorted(a, n, b);
    assert forall m :: m in a || m in b ==> m in a + b;
    OrderLength(x);
  }

  lemma UnlinkFirst<V>(p: Path<V>, s: Side, x: Tree<V>, n: Node<V>, c: Colour)
    requires Sorted(Whole(p, Make(s, x, n, c, Leaf)))
    ensures var w, w' := Whole(p, Make(s, x, n, c, Leaf)), Whole(p, x);
      && (First(w) != n ==> First(w') == First(w))
      && (First(w) == n ==> Before(p) == [] && (x.Bin? ==> s.R?) && (x.Leaf? ==> First(w') == p.Under(null)))
  {
    hide Sorted, Whole;
    var a, b := UnlinkSplit(p, s, x, n, c);
    LeafOrder<V>();
  }

  lemma UnlinkLast<V>(p: Path<V>, s: Side, x: Tree<V>, n: Node<V>, c: Colour)
    requires Sorted(Whole(p, Make(s, x, n, c, Leaf)))
    ensures var w, w' := Whole(p, Make(s, x, n, c, Leaf)), Whole(p, x);
      && (Last(w) != n ==> Last(w') == Last(w))
      && (Last(w) == n ==> After(p) == [] && (x.Bin? ==> s.L?) && (x.Leaf? ==> Last(w') == p.Under(null)))
  {
    hide Sorted, Whole;
    var a, b := UnlinkSplit(p, s, x, n, c);
    LeafOrder<V>();
  }

  lemma PlugTop<V>(t: Tree<V>)
    ensures Plug(Top, t) == t
  {}

  lemma AppendUnder<V>(q: Path<V>, base: Path<V>)
    ensures Append(q, base).Under(null) == q.Under(base.Under(null))
  {}

  lemma PlugPath<V>(p: Path<V>, t: Tree<V>, w: Path<V>, u: Tree<V>, r: Tree<V>, l: Tree<V>, n: Node<V>, c: Colour)
    requires t == Bin(l, n, c, r) && Plug(w, u) == Plug(Down(p, R, n, c, l), r)
    ensures Settled(p, t) <==> Settled(w, u)
  {
    hide Settled;
    SettledPlug(p, t);
    SettledPlug(w, u);
  }

  /** The in-order sequence around the two-child case: n and its successor s are neighbours. */
  lemma SpliceOrder<V>(p: Path<V>, l: Tree<V>, n: Node<V>, c: Colour, q: Path<V>, s: Node<V>, cs: Colour, rs: Tree<V>)
    returns (a: seq<Node<V>>, b: seq<Node<V>>)
    requires Spine(q, L) && l.Bin?
    ensures Whole(Append(q, Down(p, R, n, c, l)), Bin(Leaf, s, cs, rs)) == a + [n] + b
    ensures Whole(Append(q, Down(p, R, s, c, l)), rs) == a + b
    ensures First(a + b) == First(a + [n] + b) && Last(a + b) == Last(a + [n] + b)
  {
    AppendSpine(q, Down(p, R, n, c, l), L);
    AppendSpine(q, Down(p, R, s, c, l), L);
    OrderLength(l);
    a := Before(p) + Order(l);
    b := [s] + Order(rs) + After(q) + After(p);
    assert Order(Bin(Leaf, s, cs, rs)) == [s] + Order(rs);
    SpliceGroup(a, n, s, Order(rs), After(q), After(p));
    InnerGap(a, n, b);
  }

  lemma InnerGap<V>(a: seq<Node<V>>, n: Node<V>, b: seq<Node<V>>)
    requires a != [] && b != []
    ensures First(a + b) == First(a + [n] + b) && Last(a + b) == Last(a + [n] + b)
  {}

  lemma SpliceGroup<T>(a: seq<T>, n: T, s: T, r: seq<T>, d: seq<T>, e: seq<T>)
    ensures (a + [n]) + ([s] + r) + (d + e) == a + [n] + ([s] + r + d + e)
    ensures (a + [s]) + r + (d + e) == a + ([s] + r + d + e)
  {}

  lemma EmptyProper<V>(m: Picture<V>)
    requires m == map[]
    ensures Proper(m, null, null, null, Leaf) && Size<V>(Leaf) == 0
  {
    assert PathNodes<V>(Top) == {} && ApartPath<V>(Top) && Order<V>(Leaf) == [];
    assert m.Keys == PathNodes(Top) + Nodes<V>(Leaf);
  }

  lemma WholeTop<V>(t: Tree<V>)
    ensures Whole(Top, t) == Order(t)
  {
    assert [] + Order(t) + [] == Order(t);
  }

  lemma {:induction false} AppendTop<V>(q: Path<V>)
    ensures Append(q, Top) == q
  {
    if !q.Top? { AppendTop(q.up); }
  }

  /** The bottom of a spine is the first, or the last, of the whole. */
  lemma SpineTop<V>(q: Path<V>, u: Tree<V>, s: Side)
    requires Spine(q, s) && u.Bin? && u.Sub(s).Leaf?
    ensures (if s.L? then First(Whole(q, u)) else Last(Whole(q, u))) == u.node
  {
    AppendTop(q);
    SpineEnds(q, Top, u, s);
  }

  lemma SpineAt<V>(q: Path<V>, base: Path<V>, u: Tree<V>)
    requires Spine(q, L) && u.Bin? && u.left.Leaf?
    ensures |Whole(Append(q, base), u)| > |Before(base)| && Whole(Append(q, base), u)[|Before(base)|] == u.node
  {
    AppendSpine(q, base, L);
    assert Order(u) == [u.node] + Order(u.right);
  }

  /** Where the focused node stands in the in-order sequence, and what follows it. */
  lemma PlaceOf<V>(p: Path<V>, t: Tree<V>)
    requires t.Bin? && Sorted(Whole(p, t))
    ensures var k := |Before(p)| + |Order(t.left)|;
      && k < |Whole(p, t)| && Whole(p, t)[k] == t.node
      && (forall i :: 0 <= i < |Whole(p, t)| && Whole(p, t)[i] == t.node ==> i == k)
      && (t.right.Leaf? ==> Whole(p, t)[k + 1..] == After(p))
  {
    LessIrreflexive(t.node.key);
    LeafOrder<V>();
    assert Order(t) == Order(t.left) + [t.node] + Order(t.right);
  }

  lemma AfterClimb<V>(p: Path<V>)
    ensures p.Top? ==> After(p) == []
    ensures !p.Top? && p.side.R? ==> After(p) == After(p.up)
    ensures !p.Top? && p.side.L? ==> After(p) != [] && After(p)[0] == p.node
  {}

  /** A strictly sorted sequence of nodes has as many nodes as keys. */
  lemma {:induction false} KeyCount<V>(s: seq<Node<V>>, ks: set<Key>)
    requires Sorted(s)
    requires forall k :: k in ks ==> exists i :: 0 <= i < |s| && s[i].key == k
    requires forall i :: 0 <= i < |s| ==> s[i].key in ks
    ensures |ks| == |s|
  {
    if s == [] {
      assert ks == {};
    } else {
      var n := s[0];
      LessIrreflexive(n.key);
      assert [n] + s[1..] == s;
      SortedParts([n], s[1..]);
      var rest := ks - {n.key};
      forall k | k in rest ensures exists i :: 0 <= i < |s[1..]| && s[1..][i].key == k {
        var i :| 0 <= i < |s| && s[i].key == k;
        assert s[1..][i - 1] == s[i];
      }
      forall i | 0 <= i < |s[1..]| ensures s[1..][i].key in rest {
        assert Less(s[0].key, s[i + 1].key);
      }
      KeyCount(s[1..], rest);
    }
  }
}
