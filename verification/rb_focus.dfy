/** Operations on the pointers of the tree of ctljson.hpp, described on pictures around a focus. */
module RbFocus {
  import opened RbShape

  /** Picture m is exactly the tree Plug(p, t), rooted at root, without sharing. */
  ghost predicate InFocus<V>(m: Picture<V>, root: Node?<V>, p: Path<V>, t: Tree<V>) {
    && m.Keys == PathNodes(p) + Nodes(t) && Separate(p, t)
    && root == RootVia(p, t.Root())
    && Shows(m, t, p.Under(null)) && ShowsPath(m, p, null, t.Root())
  }

  /** Moving the focus between a node and its child s is free. */
  lemma FocusZoom<V>(m: Picture<V>, root: Node?<V>, p: Path<V>, s: Side, a: Tree<V>, n: Node<V>, c: Colour, b: Tree<V>)
    ensures InFocus(m, root, p, Make(s, a, n, c, b)) <==> InFocus(m, root, Down(p, s, n, c, b), a)
  {
    hide Shows, ShowsPath, Separate, Nodes, PathNodes, Size, PathSize;
    SeparateZoom(p, s, a, n, c, b);
    ShowsZoom(m, p, s, a, n, c, b);
  }

  lemma FocusPlug<V>(m: Picture<V>, root: Node?<V>, p: Path<V>, t: Tree<V>)
    ensures InFocus(m, root, p, t) <==> InFocus(m, root, Top, Plug(p, t))
  {
    hide Shows, Nodes, Apart, Order, Size;
    OrderPlug(p, t);
    ShowsPlug(m, p, t);
  }

  /** The fields of the node at the focus and of the node above it. */
  lemma FocusFacts<V>(m: Picture<V>, root: Node?<V>, p: Path<V>, t: Tree<V>)
    requires InFocus(m, root, p, t)
    ensures t.Bin? ==> t.node in m && m[t.node] == Links(p.Under(null), t.left.Root(), t.right.Root(), t.colour)
    ensures !p.Top? ==> p.node in m && p.node != t.Root()
                        && m[p.node] == Wire(p.side, p.up.Under(null), t.Root(), p.other.Root(), p.colour)
                        && (t.Bin? ==> p.other.Root() != t.Root())
    ensures p.Top? <==> root == t.Root()
    ensures root != null ==> root in m
  {
    RootViaInPath(p, t.Root());
    RootInNodes(t);
    if !p.Top? { RootInNodes(p.other); }
  }

  /** The sibling at the focus, like a node at the focus. */
  lemma SiblingFacts<V>(m: Picture<V>, root: Node?<V>, p: Path<V>, t: Tree<V>)
    requires InFocus(m, root, p, t) && !p.Top?
    ensures p.other.Bin? ==>
      p.other.node in m
      && m[p.other.node] == Links(p.node, p.other.left.Root(), p.other.right.Root(), p.other.colour)
  {}

  lemma FocusPaints<V>(m: Picture<V>, m': Picture<V>, root: Node?<V>, p: Path<V>, t: Tree<V>, c: Colour)
    requires InFocus(m, root, p, t) && t.Bin?
    requires t.node in m && m' == m[t.node := m[t.node].(colour := c)]
    ensures InFocus(m', root, p, t.Painted(c))
  {
    RootInNodes(t);
    ShowsFrame(m, m', t.left, t.node);
    ShowsFrame(m, m', t.right, t.node);
    ShowsPathFrame(m, m', p, null, t.node);
  }

  // ---------------------------------------------------------------- rotations, on pictures

  /** What rotate_left_/rotate_right_ rely on: nc has a child np on the far side, np a child b
      (or null) on side s, and nc hangs below up on side ps, all of them different nodes. */
  ghost predicate Turnable<V>(m: Picture<V>, s: Side, nc: Node<V>, np: Node<V>, b: Node?<V>, up: Node?<V>, ps: Side) {
    && nc in m && np in m && np != nc
    && m[nc].Kid(s.Other()) == np && m[np].Kid(s) == b && m[nc].parent == up
    && (b != null ==> b in m && b != nc && b != np)
    && (up != null ==> up in m && up != nc && up != np && up != b
                       && m[up].Kid(ps) == nc && m[up].Kid(ps.Other()) != nc)
  }

  /** What a rotation changes, and that it changes nothing else. */
  ghost predicate Turned<V>(m: Picture<V>, m': Picture<V>, s: Side, nc: Node<V>, np: Node<V>, b: Node?<V>,
                            up: Node?<V>, ps: Side)
    requires Turnable(m, s, nc, np, b, up, ps)
  {
    && m'.Keys == m.Keys && SameBut(m, m', {nc, np, b, up})
    && m'[nc] == m[nc].(parent := np).With(s.Other(), b)
    && m'[np] == m[np].(parent := up).With(s, nc)
    && (b != null ==> m'[b] == m[b].(parent := nc))
    && (up != null ==> m'[up] == m[up].With(ps, np))
  }

  function HoleSide<V>(p: Path<V>): Side { if p.Top? then L else p.side }

  lemma RotateFactsBelow<V>(m: Picture<V>, root: Node?<V>, p: Path<V>, s: Side, a: Tree<V>, nc: Node<V>, c: Colour,
                            b: Tree<V>, np: Node<V>, d: Colour, e: Tree<V>)
    requires InFocus(m, root, p, Make(s, a, nc, c, Make(s, b, np, d, e)))
    ensures nc in m && np in m && np != nc
    ensures m[nc].Kid(s.Other()) == np && m[np].Kid(s) == b.Root() && m[nc].parent == p.Under(null)
    ensures b.Bin? ==> b.node in m && b.node != nc && b.node != np
    ensures !p.Top? ==> p.node != nc && p.node != np && p.node != b.Root()
  {
    var u := Make(s, b, np, d, e);
    ShowsMake(m, s, a, nc, c, u, p.Under(null));
    ShowsMake(m, s, b, np, d, e, nc);
    ApartMake(s, a, nc, c, u);
    ApartMake(s, b, np, d, e);
    RootInNodes(b);
    RootViaInPath(p, nc);
  }

  lemma RotateFacts<V>(m: Picture<V>, root: Node?<V>, p: Path<V>, s: Side, a: Tree<V>, nc: Node<V>, c: Colour,
                       b: Tree<V>, np: Node<V>, d: Colour, e: Tree<V>)
    requires InFocus(m, root, p, Make(s, a, nc, c, Make(s, b, np, d, e)))
    ensures Turnable(m, s, nc, np, b.Root(), p.Under(null), HoleSide(p))
    ensures root == nc <==> p.Under(null) == null
  {
    hide InFocus;
    RotateFactsBelow(m, root, p, s, a, nc, c, b, np, d, e);
    FocusFacts(m, root, p, Make(s, a, nc, c, Make(s, b, np, d, e)));
  }

  lemma RotateShows<V>(m: Picture<V>, m': Picture<V>, p: Path<V>, s: Side, a: Tree<V>, nc: Node<V>, c: Colour,
                       b: Tree<V>,
                       np: Node<V>, d: Colour, e: Tree<V>)
    requires Shows(m, Make(s, a, nc, c, Make(s, b, np, d, e)), p.Under(null))
    requires ShowsPath(m, p, null, nc)
    requires Separate(p, Make(s, a, nc, c, Make(s, b, np, d, e)))
    requires Turnable(m, s, nc, np, b.Root(), p.Under(null), HoleSide(p))
    requires Turned(m, m', s, nc, np, b.Root(), p.Under(null), HoleSide(p))
    ensures Shows(m', Make(s, Make(s, a, nc, c, b), np, d, e), p.Under(null))
    ensures ShowsPath(m', p, null, np)
  {
    hide Shows, ShowsPath, Apart, ApartPath, Nodes, PathNodes;
    var u := Make(s, b, np, d, e);
    var but := {nc, np, b.Root(), p.Under(null)};
    ShowsMake(m, s, a, nc, c, u, p.Under(null));
    ShowsMake(m, s, b, np, d, e, nc);
    ApartMake(s, a, nc, c, u);
    ApartMake(s, b, np, d, e);
    RootInNodes(b);
    RootViaInPath(p, nc);
    assert but !! Nodes(a) && but !! Nodes(e) && but !! Nodes(b) - {b.Root()} && but !! PathNodes(p) - {p.Under(null)};
    ShowsFrame(m, m', a, nc);
    RootColour(m, b, np);
    Reparent(m, m', b, if b.Bin? then b.colour else Red, np, nc, but);
    ShowsFrame(m, m', e, np);
    Repoint(m, m', p, null, nc, np, but);
    ShowsMake(m', s, a, nc, c, b, np);
    ShowsMake(m', s, Make(s, a, nc, c, b), np, d, e, p.Under(null));
  }

  lemma RootColour<V>(m: Picture<V>, t: Tree<V>, parent: Node?<V>)
    requires Shows(m, t, parent)
    ensures t.Bin? ==> t.node in m && m[t.node].colour == t.colour && t.Painted(t.colour) == t
  {}

  lemma FocusRotates<V>(m: Picture<V>, m': Picture<V>, root: Node?<V>, root': Node?<V>, p: Path<V>, s: Side, a: Tree<V>,
                        nc: Node<V>, c: Colour, b: Tree<V>, np: Node<V>, d: Colour, e: Tree<V>)
    requires InFocus(m, root, p, Make(s, a, nc, c, Make(s, b, np, d, e)))
    requires Turnable(m, s, nc, np, b.Root(), p.Under(null), HoleSide(p))
    requires Turned(m, m', s, nc, np, b.Root(), p.Under(null), HoleSide(p))
    requires root' == if p.Under(null) == null then np else root
    ensures InFocus(m', root', p, Make(s, Make(s, a, nc, c, b), np, d, e))
  {
    hide Shows, ShowsPath, Separate, Nodes, PathNodes, Size, Order;
    RotateShows(m, m', p, s, a, nc, c, b, np, d, e);
    RotationKeeps(p, s, a, nc, c, b, np, d, e, c, d);
    assert Turned(m, m', s, nc, np, b.Root(), p.Under(null), HoleSide(p));
  }

  // ---------------------------------------------------------------- linking and unlinking

  /** A new red node is hung into the empty slot at the focus. */
  lemma FocusLinks<V>(m: Picture<V>, m': Picture<V>, root: Node?<V>, p: Path<V>, nn: Node<V>)
    requires InFocus(m, root, p, Leaf) && nn !in m && !p.Top? && p.node in m
    requires m' == m[nn := Links(p.node, null, null, Red)][p.node := m[p.node].With(p.side, nn)]
    ensures InFocus(m', root, p, Bin(Leaf, nn, Red, Leaf))
  {
    hide Shows, ShowsPath, ApartPath, PathNodes, RootVia;
    RootViaInPath(p, null);
    RootViaTop(p, null, nn);
    FocusApart(m, root, p, Leaf);
    Repoint(m, m', p, null, null, nn, {p.node, nn});
    ShowsMake(m', L, Leaf, nn, Red, Leaf, p.Under(null));
    EmptyShows(m', nn);
  }

  lemma EmptyShows<V>(m: Picture<V>, n: Node?<V>)
    ensures Shows(m, Leaf, n)
  {}

  lemma FocusApart<V>(m: Picture<V>, root: Node?<V>, p: Path<V>, t: Tree<V>)
    requires InFocus(m, root, p, t)
    ensures ApartPath(p) && Apart(t)
  {}

  lemma RootViaTop<V>(p: Path<V>, h: Node?<V>, k: Node?<V>)
    ensures RootVia(p, h) == if p.Top? then h else RootVia(p, k)
  {}

  /** A node with at most one child x is replaced by that child. */
  lemma FocusUnlinks<V>(m: Picture<V>, m': Picture<V>, root: Node?<V>, root': Node?<V>, p: Path<V>, s: Side,
                        x: Tree<V>, n: Node<V>, c: Colour)
    requires InFocus(m, root, p, Make(s, x, n, c, Leaf))
    requires m'.Keys == m.Keys - {n} && SameBut(m, m', {n, x.Root(), p.Under(null)})
    requires x.Bin? ==> x.node in m && x.node in m' && m'[x.node] == m[x.node].(parent := p.Under(null))
    requires !p.Top? ==> p.node in m && p.node in m' && m'[p.node] == m[p.node].With(p.side, x.Root())
    requires root' == if p.Top? then x.Root() else root
    ensures InFocus(m', root', p, x)
  {
    hide Shows, ShowsPath, ApartPath, Apart, RootVia;
    var but := {n, x.Root(), p.Under(null)};
    ApartMake(s, x, n, c, Leaf);
    ShowsMake(m, s, x, n, c, Leaf, p.Under(null));
    RootViaTop(p, x.Root(), n);
    RootInNodes(x);
    RootViaInPath(p, n);
    RootColour(m, x, n);
    assert but !! Nodes(x) - {x.Root()} && but !! PathNodes(p) - {p.Under(null)};
    Reparent(m, m', x, if x.Bin? then x.colour else Red, n, p.Under(null), but);
    Repoint(m, m', p, null, n, x.Root(), but);
  }

  /** The node n with both children gives its place to s, the leftmost node below its right child
      at the end of the segment q; s leaves its own place to its right child. */
  ghost predicate Spliced<V>(m: Picture<V>, m': Picture<V>, p: Path<V>, l: Tree<V>, n: Node<V>, ce: Colour,
                             q: Path<V>, s: Node<V>, rs: Tree<V>) {
    && l.Bin? && m'.Keys == m.Keys - {n}
    && SameBut(m, m', {n, s, l.node, rs.Root(), p.Under(null)} + Ends(q))
    && s in m' && m'[s] == Links(p.Under(null), l.node, if q.Top? then rs.Root() else Bottom(q), ce)
    && l.node in m && l.node in m' && m'[l.node] == m[l.node].(parent := s)
    && (rs.Bin? ==> rs.node in m && rs.node in m' && m'[rs.node] == m[rs.node].(parent := q.Under(s)))
    && (!p.Top? ==> p.node in m && p.node in m' && m'[p.node] == m[p.node].With(p.side, s))
    && (!q.Top? ==> SegmentMoved(m, m', q, s, rs.Root()))
  }

  ghost function Ends<V>(q: Path<V>): set<Node?<V>> { if q.Top? then {} else {q.node, Bottom(q)} }

  /** The two ends of a left spine q after it is hung below s and its hole is refilled. */
  ghost predicate SegmentMoved<V>(m: Picture<V>, m': Picture<V>, q: Path<V>, s: Node<V>, hole: Node?<V>)
    requires !q.Top?
  {
    && q.node in m && q.node in m' && Bottom(q) in m && Bottom(q) in m'
    && (if q.up.Top? then m'[q.node] == m[q.node].(parent := s, left := hole)
        else
          && q.node != Bottom(q) && m'[q.node] == m[q.node].(left := hole)
          && m'[Bottom(q)] == m[Bottom(q)].(parent := s))
  }

  lemma {:induction false} BottomHangs<V>(m: Picture<V>, q: Path<V>, above: Node?<V>, hole: Node?<V>)
    requires !q.Top? && ShowsPath(m, q, above, hole) && ApartPath(q)
    ensures Bottom(q) in m && q.node in m && m[Bottom(q)].parent == above
    ensures !q.up.Top? ==> Bottom(q) != q.node
    ensures RootVia(q, hole) == Bottom(q)
  {
    if !q.up.Top? {
      BottomInPath(q.up);
      BottomHangs(m, q.up, above, q.node);
    }
  }

  lemma SegmentShows<V>(m: Picture<V>, m': Picture<V>, q: Path<V>, n: Node<V>, s: Node<V>, hole: Node?<V>,
                        but: set<Node?<V>>)
    requires !q.Top? && q.side.L? && ShowsPath(m, q, n, s) && ApartPath(q)
    requires SameBut(m, m', but) && but !! PathNodes(q) - {q.node, Bottom(q)}
    requires SegmentMoved(m, m', q, s, hole)
    ensures ShowsPath(m', q, s, hole)
  {
    hide Shows, ShowsPath, ApartPath, RootVia;
    BottomHangs(m, q, n, s);
    BottomInPath(q);
    var z := Bottom(q);
    var m1 := m'[z := m'[z].(parent := n)];
    Repoint(m, m1, q, n, s, hole, but - {z} + {q.node});
    Rebase(m1, m', q, n, s, hole);
  }

  lemma SpliceSeparate<V>(p: Path<V>, l: Tree<V>, n: Node<V>, c: Colour, q: Path<V>, u: Tree<V>)
    ensures PathNodes(Append(q, Down(p, R, n, c, l))) == PathNodes(q) + PathNodes(p) + {n} + Nodes(l)
    ensures Separate(Append(q, Down(p, R, n, c, l)), u) <==>
            Apart(l) && Apart(u) && ApartPath(p) && ApartPath(q)
            && Nodes(l) !! Nodes(u) !! PathNodes(p) !! PathNodes(q) !! {n}
  {
    hide Apart, Nodes;
    AppendSeparate(q, Down(p, R, n, c, l));
  }

  lemma SpliceShows<V>(m: Picture<V>, p: Path<V>, l: Tree<V>, n: Node<V>, c: Colour, q: Path<V>, hole: Node?<V>)
    ensures ShowsPath(m, Append(q, Down(p, R, n, c, l)), null, hole) <==>
            ShowsPath(m, q, n, hole) && n in m && m[n] == Links(p.Under(null), l.Root(), RootVia(q, hole), c)
            && Shows(m, l, n) && ShowsPath(m, p, null, n)
    ensures RootVia(Append(q, Down(p, R, n, c, l)), hole) == RootVia(p, n)
    ensures Append(q, Down(p, R, n, c, l)).Under(null) == q.Under(n)
  {
    hide Shows;
    AppendShows(m, q, Down(p, R, n, c, l), hole);
  }

  lemma SpliceParts<V>(m: Picture<V>, root: Node?<V>, p: Path<V>, l: Tree<V>, n: Node<V>, ce: Colour,
                       q: Path<V>, s: Node<V>, cs: Colour, rs: Tree<V>)
    requires InFocus(m, root, Append(q, Down(p, R, n, ce, l)), Bin(Leaf, s, cs, rs))
    ensures Shows(m, l, n) && Shows(m, rs, s) && ShowsPath(m, p, null, n) && ShowsPath(m, q, n, s)
    ensures Apart(l) && Apart(rs) && ApartPath(p) && ApartPath(q)
    ensures Nodes(l) !! Nodes(rs) !! PathNodes(p) !! PathNodes(q) !! {n} !! {s}
    ensures m.Keys == Nodes(l) + Nodes(rs) + PathNodes(p) + PathNodes(q) + {n, s}
    ensures root == RootVia(p, n)
    ensures m[s] == Links(q.Under(n), null, rs.Root(), cs)
    ensures m[n] == Links(p.Under(null), l.Root(), RootVia(q, s), ce)
  {
    hide Apart, ApartPath, Separate, Shows, ShowsPath, Nodes, PathNodes, RootVia, Append;
    SpliceSeparate(p, l, n, ce, q, Bin(Leaf, s, cs, rs));
    SpliceShows(m, p, l, n, ce, q, s);
    ApartMake(L, Leaf, s, cs, rs);
    ShowsMake(m, L, Leaf, s, cs, rs, q.Under(n));
    LeafNodes<V>();
  }

  lemma LeafNodes<V>()
    ensures Nodes<V>(Leaf) == {}
  {}

  lemma FocusSplices<V>(m: Picture<V>, m': Picture<V>, root: Node?<V>, root': Node?<V>, p: Path<V>, l: Tree<V>,
                        n: Node<V>, ce: Colour,
                        q: Path<V>, s: Node<V>, cs: Colour, rs: Tree<V>)
    requires InFocus(m, root, Append(q, Down(p, R, n, ce, l)), Bin(Leaf, s, cs, rs)) && Spine(q, L)
    requires Spliced(m, m', p, l, n, ce, q, s, rs)
    requires root' == if p.Top? then s else root
    ensures InFocus(m', root', Append(q, Down(p, R, s, ce, l)), rs)
  {
    hide InFocus, Shows, ShowsPath, ApartPath, Apart, RootVia, SegmentMoved, Nodes, PathNodes;
    SpliceParts(m, root, p, l, n, ce, q, s, cs, rs);
    SpliceMoves(m, m', p, l, n, ce, q, s, rs);
    RootViaTop(p, s, n);
    SpliceJoins(m', root', p, l, ce, q, s, rs);
  }

  lemma SpliceMoves<V>(m: Picture<V>, m': Picture<V>, p: Path<V>, l: Tree<V>, n: Node<V>, ce: Colour,
                       q: Path<V>, s: Node<V>, rs: Tree<V>)
    requires Shows(m, l, n) && Shows(m, rs, s) && ShowsPath(m, p, null, n) && ShowsPath(m, q, n, s)
    requires Apart(l) && Apart(rs) && ApartPath(p) && ApartPath(q)
    requires Nodes(l) !! Nodes(rs) !! PathNodes(p) !! PathNodes(q) !! {n} !! {s}
    requires Spliced(m, m', p, l, n, ce, q, s, rs) && Spine(q, L)
    ensures Shows(m', l, s) && Shows(m', rs, q.Under(s)) && ShowsPath(m', p, null, s) && ShowsPath(m', q, s, rs.Root())
  {
    hide Shows, ShowsPath, ApartPath, Apart, RootVia, SegmentMoved, Nodes, PathNodes;
    var but := {n, s, l.node, rs.Root(), p.Under(null)} + Ends(q);
    RootInNodes(l);
    RootInNodes(rs);
    RootViaInPath(p, null);
    if !q.Top? { BottomInPath(q); RootViaInPath(q, null); }
    RootColour(m, l, n);
    Reparent(m, m', l, l.colour, n, s, but);
    RootColour(m, rs, s);
    Reparent(m, m', rs, if rs.Bin? then rs.colour else Red, s, q.Under(s), but);
    Repoint(m, m', p, null, n, s, but);
    if q.Top? { PathTop(m', q, s, rs.Root()); } else { SegmentShows(m, m', q, n, s, rs.Root(), but); }
  }

  lemma PathTop<V>(m: Picture<V>, q: Path<V>, above: Node?<V>, hole: Node?<V>)
    requires q.Top?
    ensures ShowsPath(m, q, above, hole) && RootVia(q, hole) == hole
  {}

  lemma SpliceJoins<V>(m: Picture<V>, root: Node?<V>, p: Path<V>, l: Tree<V>, ce: Colour, q: Path<V>, s: Node<V>,
                       rs: Tree<V>)
    requires Shows(m, l, s) && Shows(m, rs, q.Under(s)) && ShowsPath(m, p, null, s) && ShowsPath(m, q, s, rs.Root())
    requires Apart(l) && Apart(rs) && ApartPath(p) && ApartPath(q)
    requires Nodes(l) !! Nodes(rs) !! PathNodes(p) !! PathNodes(q) !! {s}
    requires m.Keys == Nodes(l) + Nodes(rs) + PathNodes(p) + PathNodes(q) + {s}
    requires m[s] == Links(p.Under(null), l.Root(), if q.Top? then rs.Root() else Bottom(q), ce)
    requires root == RootVia(p, s)
    ensures InFocus(m, root, Append(q, Down(p, R, s, ce, l)), rs)
  {
    hide Apart, ApartPath, Separate, Shows, ShowsPath, Nodes, PathNodes, RootVia, Append;
    SpliceSeparate(p, l, s, ce, q, rs);
    SpliceShows(m, p, l, s, ce, q, rs.Root());
    if q.Top? { PathTop(m, q, s, rs.Root()); } else { BottomHangs(m, q, s, rs.Root()); }
  }

  lemma UnlinkApart<V>(m: Picture<V>, root: Node?<V>, p: Path<V>, s: Side, x: Tree<V>, n: Node<V>, c: Colour)
    requires InFocus(m, root, p, Make(s, x, n, c, Leaf))
    ensures x.Bin? ==> x.node != n
    ensures !p.Top? ==> p.node != n && p.node != x.Root()
  {
    ApartMake(s, x, n, c, Leaf);
    RootInNodes(x);
    RootViaInPath(p, null);
  }

  /** What the two-child splice relies on: where the nodes hang and that they are all different. */
  ghost predicate Spliceable<V>(m: Picture<V>, p: Path<V>, l: Tree<V>, n: Node<V>, ce: Colour, q: Path<V>,
                                s: Node<V>, rs: Tree<V>) {
    && n in m && s in m && n != s && l.Bin? && l.node in m && l.node != n && l.node != s
    && m[n] == Links(p.Under(null), l.node, if q.Top? then s else Bottom(q), ce)
    && m[s].parent == q.Under(n) && m[s].left == null && m[s].right == rs.Root()
    && (rs.Bin? ==> rs.node in m && rs.node !in {n, s, l.node} && m[rs.node].parent == s)
    && (!p.Top? ==> p.node in m && p.node !in {n, s, l.node, rs.Root()}
                    && m[p.node].Kid(p.side) == n && m[p.node].Kid(p.side.Other()) != n)
    && (!q.Top? ==> q.side.L? && q.node in m && Bottom(q) in m && (q.node == Bottom(q) <==> q.up.Top?)
                    && {q.node, Bottom(q)} !! {n, s, l.node, rs.Root(), p.Under(null)})
  }

  /** The children of n hang below s, and hole where s was. */
  ghost predicate Lowered<V>(m: Picture<V>, m': Picture<V>, l: Node<V>, q: Path<V>, s: Node<V>, hole: Node?<V>) {
    && m'.Keys == m.Keys && SameBut(m, m', {s, l, hole} + Ends(q))
    && s in m && m'[s] == m[s].(left := l, right := if q.Top? then hole else Bottom(q))
    && l in m && m'[l] == m[l].(parent := s)
    && (hole != null ==> hole in m && m'[hole] == m[hole].(parent := q.Under(s)))
    && (!q.Top? ==> SegmentMoved(m, m', q, s, hole))
  }

  /** The slot and the colour of n have gone to s, and n is out. */
  ghost predicate Slotted<V>(m: Picture<V>, m': Picture<V>, p: Path<V>, n: Node<V>, s: Node<V>) {
    && m'.Keys == m.Keys - {n} && SameBut(m, m', {n, s, p.Under(null)})
    && n in m && s in m && s in m' && m'[s] == m[s].(parent := p.Under(null), colour := m[n].colour)
    && (!p.Top? ==> p.node in m && p.node in m' && m'[p.node] == m[p.node].With(p.side, s))
  }

  lemma LoweredKeeps<V>(m: Picture<V>, m': Picture<V>, p: Path<V>, l: Tree<V>, n: Node<V>, ce: Colour, q: Path<V>,
                        s: Node<V>, rs: Tree<V>)
    requires Spliceable(m, p, l, n, ce, q, s, rs) && Lowered(m, m', l.node, q, s, rs.Root())
    ensures n in m' && m'[n] == m[n] && s in m' && s != n
    ensures !p.Top? ==> p.node in m' && p.node !in {n, s} && m'[p.node] == m[p.node]
                        && m[p.node].Kid(p.side) == n && m[p.node].Kid(p.side.Other()) != n
    ensures m[n].parent == p.Under(null)
  {}

  /** Both halves together put s in the place of n. */
  lemma SplicedBoth<V>(m: Picture<V>, m1: Picture<V>, m': Picture<V>, p: Path<V>, l: Tree<V>, n: Node<V>, ce: Colour,
                       q: Path<V>, s: Node<V>, rs: Tree<V>)
    requires Spliceable(m, p, l, n, ce, q, s, rs)
    requires Lowered(m, m1, l.node, q, s, rs.Root()) && Slotted(m1, m', p, n, s)
    ensures Spliced(m, m', p, l, n, ce, q, s, rs)
  {}

  lemma SpliceReady<V>(m: Picture<V>, root: Node?<V>, p: Path<V>, l: Tree<V>, n: Node<V>, ce: Colour,
                       q: Path<V>, s: Node<V>, cs: Colour, rs: Tree<V>)
    requires InFocus(m, root, Append(q, Down(p, R, n, ce, l)), Bin(Leaf, s, cs, rs)) && Spine(q, L) && l.Bin?
    ensures Spliceable(m, p, l, n, ce, q, s, rs)
    ensures n == root <==> p.Top?
  {
    hide InFocus, Shows, Apart, ApartPath, Nodes, PathNodes;
    SpliceParts(m, root, p, l, n, ce, q, s, cs, rs);
    RootInNodes(l);
    RootInNodes(rs);
    RootViaInPath(p, n);
    PathHangs(m, p, n);
    RootHangs(m, rs, s);
    if q.Top? {
      PathTop(m, q, n, s);
    } else {
      BottomHangs(m, q, n, s);
      BottomInPath(q);
      RootViaInPath(q, s);
      BottomAlone(q);
    }
  }

  lemma RootHangs<V>(m: Picture<V>, t: Tree<V>, parent: Node?<V>)
    requires Shows(m, t, parent)
    ensures t.Bin? ==> t.node in m && m[t.node].parent == parent
  {}

  lemma PathHangs<V>(m: Picture<V>, p: Path<V>, n: Node<V>)
    requires ShowsPath(m, p, null, n) && ApartPath(p) && n !in PathNodes(p)
    ensures !p.Top? ==> p.node in m && m[p.node].Kid(p.side) == n && m[p.node].Kid(p.side.Other()) != n
  {
    if !p.Top? { RootInNodes(p.other); }
  }

  lemma BottomAlone<V>(q: Path<V>)
    requires !q.Top? && ApartPath(q)
    ensures q.node == Bottom(q) <==> q.up.Top?
  {
    if !q.up.Top? { BottomInPath(q.up); }
  }
}
