/** The ordered map of ctljson.hpp: a red-black tree with parent links, cached ends and a node count. */
module NeMaps {
  import opened Basics
  import opened Keys
  import opened RbShape
  import opened RbFocus
  import opened RbBalance
  import opened RbSearch

  /** The pointer fields of a set of nodes, as they stand in the heap. */
  ghost function Photo<V>(ns: set<Node<V>>): Picture<V>
    reads ns`parent, ns`left, ns`right, ns`colour
  {
    map n | n in ns :: Links(n.parent, n.left, n.right, n.colour)
  }

  /** Trees of different nodes with the same shape, colours and keys. */
  predicate Alike<V>(t: Tree<V>, t': Tree<V>) {
    if t.Leaf? then t'.Leaf?
    else
      && t'.Bin? && t'.colour == t.colour && t'.node.key == t.node.key
      && Alike(t.left, t'.left) && Alike(t.right, t'.right)
  }

  ghost predicate SameValues<V>(t: Tree<V>, t': Tree<V>)
    reads Nodes(t)`value, Nodes(t')`value
  {
    t.Bin? && t'.Bin? ==>
      (t'.node.value == t.node.value && SameValues(t.left, t'.left) && SameValues(t.right, t'.right))
  }

  /** t' is a separate tree below parent that looks like t and holds the same values. */
  ghost predicate IsCopy<V>(t: Tree<V>, t': Tree<V>, parent: Node?<V>)
    reads Nodes(t)`value, Nodes(t')
  {
    Alike(t, t') && SameValues(t, t') && Apart(t') && Shows(Photo(Nodes(t')), t', parent)
  }

  /** The node of t' that stands where n stands in t. */
  ghost function Twin<V>(t: Tree<V>, t': Tree<V>, n: Node?<V>, none: Node?<V>): Node?<V>
  {
    if t.Leaf? || t'.Leaf? then none
    else if t.node == n then t'.node
    else Twin(t.right, t'.right, n, Twin(t.left, t'.left, n, none))
  }

  lemma {:induction false} AlikeOrder<V>(t: Tree<V>, t': Tree<V>)
    requires Alike(t, t')
    ensures |Order(t')| == |Order(t)| && Size(t') == Size(t)
    ensures forall i :: 0 <= i < |Order(t)| ==> Order(t')[i].key == Order(t)[i].key
    ensures Bh(t') == Bh(t) && t'.IsRed() == t.IsRed() && (RedBlack(t) ==> RedBlack(t'))
  {
    if t.Bin? {
      AlikeOrder(t.left, t'.left);
      AlikeOrder(t.right, t'.right);
    }
  }

  lemma {:induction false} SameValuesOrder<V>(t: Tree<V>, t': Tree<V>)
    requires Alike(t, t') && SameValues(t, t')
    ensures |Order(t')| == |Order(t)|
    ensures forall i :: 0 <= i < |Order(t)| ==>
      Order(t')[i].value == Order(t)[i].value && Order(t')[i].key == Order(t)[i].key
  {
    if t.Bin? {
      SameValuesOrder(t.left, t'.left);
      SameValuesOrder(t.right, t'.right);
    }
  }

  lemma {:induction false} TwinNone<V>(t: Tree<V>, t': Tree<V>, n: Node?<V>, none: Node?<V>)
    requires Alike(t, t') && (n == null || n !in Nodes(t))
    ensures Twin(t, t', n, none) == none
  {
    if t.Bin? {
      TwinNone(t.left, t'.left, n, none);
      TwinNone(t.right, t'.right, n, none);
    }
  }

  lemma {:induction false} TwinAt<V>(t: Tree<V>, t': Tree<V>, i: nat, none: Node?<V>)
    requires Alike(t, t') && Apart(t) && i < |Order(t)|
    ensures |Order(t')| == |Order(t)| && Twin(t, t', Order(t)[i], none) == Order(t')[i]
  {
    AlikeOrder(t, t');
    AlikeOrder(t.left, t'.left);
    var k, n := |Order(t.left)|, Order(t)[i];
    if i < k {
      assert n == Order(t.left)[i];
      OrderHas(t.left, n);
      TwinAt(t.left, t'.left, i, none);
      TwinNone(t.right, t'.right, n, Order(t'.left)[i]);
    } else if i > k {
      assert n == Order(t.right)[i - k - 1];
      OrderHas(t.right, n);
      TwinAt(t.right, t'.right, i - k - 1, Twin(t.left, t'.left, n, none));
    }
  }

  /** A copy of a proper tree is a proper tree whose ends are the copies of the ends. */
  lemma CopyProper<V>(m: Picture<V>, root: Node?<V>, lm: Node?<V>, rm: Node?<V>, t: Tree<V>, m': Picture<V>,
                      t': Tree<V>)
    requires Proper(m, root, lm, rm, t) && Alike(t, t') && Apart(t') && Shows(m', t', null) && m'.Keys == Nodes(t')
    ensures Proper(m', t'.Root(), Twin(t, t', lm, null), Twin(t, t', rm, null), t')
    ensures Size(t') == Size(t)
  {
    hide Shows, Nodes, Twin, Less, Order, Alike, RedBlack, Bh;
    AlikeOrder(t, t');
    if Order(t) == [] {
      TwinNone(t, t', null, null);
    } else {
      TwinAt(t, t', 0, null);
      TwinAt(t, t', |Order(t)| - 1, null);
    }
    TopFocus(m', t');
  }

  lemma TopFocus<V>(m: Picture<V>, t: Tree<V>)
    requires Apart(t) && Shows(m, t, null) && m.Keys == Nodes(t)
    ensures InFocus(m, t.Root(), Top, t)
  {
    assert PathNodes<V>(Top) == {} && ApartPath<V>(Top);
  }

  class NeMap<V> {
    /** The value a new binding starts with (mapped_type() in the source). */
    const blank: V
    var root: Node?<V>
    var leftmost: Node?<V>
    var rightmost: Node?<V>
    var nodeCount: nat
    ghost var nodes: set<Node<V>>
    ghost var tree: Tree<V>
    ghost var contents: map<Key, V>

    ghost function Pic(): Picture<V>
      reads this`nodes, nodes`parent, nodes`left, nodes`right, nodes`colour
    {
      Photo(nodes)
    }

    /** The bindings are those of the nodes. */
    ghost predicate Agrees()
      reads this`nodes, this`contents, nodes`value
    {
      && (forall n :: n in nodes ==> n.key in contents && contents[n.key] == n.value)
      && (forall k :: k in contents ==> exists n :: n in nodes && n.key == k)
    }

    ghost predicate Valid()
      reads this, nodes
    {
      Shaped() && nodeCount == Size(tree)
    }

    /** Everything except the node count. */
    ghost predicate Shaped()
      reads this`root, this`leftmost, this`rightmost, this`nodes, this`tree, this`contents, nodes
    {
      Proper(Pic(), root, leftmost, rightmost, tree) && Agrees()
    }

    lemma PicIs()
      ensures Pic().Keys == nodes
      ensures forall n :: n in nodes ==> Pic()[n] == Links(n.parent, n.left, n.right, n.colour)
    {}

    constructor (blank: V)
      ensures Valid() && fresh(nodes) && contents == map[] && this.blank == blank
    {
      this.blank := blank;
      root, leftmost, rightmost, nodeCount := null, null, null, 0;
      nodes, tree, contents := {}, Leaf, map[];
    }

    // ---------------------------------------------------------------- rotations and colours

    method RotateLeft(nc: Node<V>)
      requires nc.right != null && nc.right != nc && nc.right.left != nc && nc.right.left != nc.right
      requires nc != root ==>
        nc.parent != null && nc.parent != nc && nc.parent != nc.right && nc.parent != nc.right.left
      modifies this`root, nc`right, nc`parent, nc.right`parent, nc.right`left
      modifies (if nc.right.left == null then {} else {nc.right.left})`parent
      modifies (if nc == root then {} else {nc.parent})`left, (if nc == root then {} else {nc.parent})`right
      ensures var np, b, up := old(nc.right), old(nc.right.left), old(nc.parent);
        && nc.parent == np && nc.right == b && np.parent == up && np.left == nc && (b != null ==> b.parent == nc)
        && root == (if nc == old(root) then np else old(root))
        && (nc != old(root) ==> (
          && up.left == (if old(up.left) == nc then np else old(up.left))
          && up.right == (if old(up.left) == nc then old(up.right) else np)))
    {
      var np := nc.right;
      nc.right := np.left;
      if np.left != null { np.left.parent := nc; }
      np.parent := nc.parent;
      if nc == root {
        root := np;
      } else if nc == nc.parent.left {
        nc.parent.left := np;
      } else {
        nc.parent.right := np;
      }
      np.left := nc;
      nc.parent := np;
    }

    method RotateRight(nc: Node<V>)
      requires nc.left != null && nc.left != nc && nc.left.right != nc && nc.left.right != nc.left
      requires nc != root ==> nc.parent != null && nc.parent != nc && nc.parent != nc.left && nc.parent != nc.left.right
      modifies this`root, nc`left, nc`parent, nc.left`parent, nc.left`right
      modifies (if nc.left.right == null then {} else {nc.left.right})`parent
      modifies (if nc == root then {} else {nc.parent})`left, (if nc == root then {} else {nc.parent})`right
      ensures var np, b, up := old(nc.left), old(nc.left.right), old(nc.parent);
        && nc.parent == np && nc.left == b && np.parent == up && np.right == nc && (b != null ==> b.parent == nc)
        && root == (if nc == old(root) then np else old(root))
        && (nc != old(root) ==> (
          && up.right == (if old(up.right) == nc then np else old(up.right))
          && up.left == (if old(up.right) == nc then old(up.left) else np)))
    {
      var np := nc.left;
      nc.left := np.right;
      if np.right != null { np.right.parent := nc; }
      np.parent := nc.parent;
      if nc == root {
        root := np;
      } else if nc == nc.parent.right {
        nc.parent.right := np;
      } else {
        nc.parent.left := np;
      }
      np.right := nc;
      nc.parent := np;
    }

    /** Either rotation, told in terms of the picture: nc goes down on side s. */
    method Turn(nc: Node<V>, s: Side, ghost np: Node<V>, ghost b: Node?<V>, ghost up: Node?<V>, ghost ps: Side)
      requires Turnable(Pic(), s, nc, np, b, up, ps) && (nc == root <==> up == null)
      modifies this`root, nodes`parent, nodes`left, nodes`right
      ensures Turned(old(Pic()), Pic(), s, nc, np, b, up, ps)
      ensures root == if up == null then np else old(root)
    {
      hide Turned, Pic;
      if s.L? { TurnLeft(nc, np, b, up, ps); } else { TurnRight(nc, np, b, up, ps); }
    }

    method TurnLeft(nc: Node<V>, ghost np: Node<V>, ghost b: Node?<V>, ghost up: Node?<V>, ghost ps: Side)
      requires Turnable(Pic(), L, nc, np, b, up, ps) && (nc == root <==> up == null)
      modifies this`root, nodes`parent, nodes`left, nodes`right
      ensures Turned(old(Pic()), Pic(), L, nc, np, b, up, ps)
      ensures root == if up == null then np else old(root)
    {
      PicIs();
      RotateLeft(nc);
    }

    method TurnRight(nc: Node<V>, ghost np: Node<V>, ghost b: Node?<V>, ghost up: Node?<V>, ghost ps: Side)
      requires Turnable(Pic(), R, nc, np, b, up, ps) && (nc == root <==> up == null)
      modifies this`root, nodes`parent, nodes`left, nodes`right
      ensures Turned(old(Pic()), Pic(), R, nc, np, b, up, ps)
      ensures root == if up == null then np else old(root)
    {
      PicIs();
      RotateRight(nc);
    }

    /** A rotation inside the tree: the focused subtree is rebuilt, all else stays. */
    method Rotate(nc: Node<V>, s: Side, ghost p: Path<V>, ghost a: Tree<V>, ghost c: Colour, ghost b: Tree<V>,
                  ghost np: Node<V>, ghost d: Colour, ghost e: Tree<V>)
      requires InFocus(Pic(), root, p, Make(s, a, nc, c, Make(s, b, np, d, e)))
      modifies this`root, nodes`parent, nodes`left, nodes`right
      ensures InFocus(Pic(), root, p, Make(s, Make(s, a, nc, c, b), np, d, e))
      ensures Order(Make(s, Make(s, a, nc, c, b), np, d, e)) == Order(Make(s, a, nc, c, Make(s, b, np, d, e)))
    {
      hide InFocus, Pic, Turnable, Turned, Order;
      ghost var m, r := Pic(), root;
      RotateFacts(m, r, p, s, a, nc, c, b, np, d, e);
      Turn(nc, s, np, b.Root(), p.Under(null), HoleSide(p));
      FocusRotates(m, Pic(), r, root, p, s, a, nc, c, b, np, d, e);
      RotationKeeps(p, s, a, nc, c, b, np, d, e, c, d);
    }

    method Paint(n: Node<V>, c: Colour, ghost p: Path<V>, ghost t: Tree<V>)
      requires InFocus(Pic(), root, p, t) && t.Bin? && t.node == n
      modifies n`colour
      ensures InFocus(Pic(), root, p, t.Painted(c))
    {
      hide InFocus;
      ghost var m := Pic();
      FocusFacts(m, root, p, t);
      n.colour := c;
      assert Pic() == m[n := m[n].(colour := c)];
      FocusPaints(m, Pic(), root, p, t, c);
    }

    /** Paints the node above the focus. */
    method PaintUnder(n: Node<V>, c: Colour, ghost p: Path<V>, ghost t: Tree<V>)
      requires InFocus(Pic(), root, p, t) && !p.Top? && p.node == n
      modifies n`colour
      ensures InFocus(Pic(), root, p.(colour := c), t)
    {
      hide InFocus, Pic;
      FocusZoom(Pic(), root, p.up, p.side, t, p.node, p.colour, p.other);
      Paint(n, c, p.up, Make(p.side, t, p.node, p.colour, p.other));
      FocusZoom(Pic(), root, p.up, p.side, t, p.node, c, p.other);
    }

    /** Paints the root of the sibling of the focus. */
    method PaintOther(n: Node<V>, c: Colour, ghost p: Path<V>, ghost t: Tree<V>)
      requires InFocus(Pic(), root, p, t) && !p.Top? && p.other.Bin? && p.other.node == n
      modifies n`colour
      ensures InFocus(Pic(), root, p.(other := p.other.Painted(c)), t)
    {
      hide InFocus, Pic;
      FocusZoom(Pic(), root, p.up, p.side, t, p.node, p.colour, p.other);
      FocusZoom(Pic(), root, p.up, p.side.Other(), p.other, p.node, p.colour, t);
      Paint(n, c, Down(p.up, p.side.Other(), p.node, p.colour, t), p.other);
      FocusZoom(Pic(), root, p.up, p.side.Other(), p.other.Painted(c), p.node, p.colour, t);
      FocusZoom(Pic(), root, p.up, p.side, t, p.node, p.colour, p.other.Painted(c));
    }

    // ---------------------------------------------------------------- insertion

    /** The red uncle oo of nn2 lets parent and uncle turn black and the grandparent pp red. */
    method InsertRecolour(nn2: Node<V>, pp: Node<V>, oo: Node<V>, ghost u: Path<V>, ghost s: Side, ghost o: Tree<V>,
                          ghost s1: Side, ghost par: Node<V>, ghost sib: Tree<V>, ghost t: Tree<V>)
      requires InFocus(Pic(), root, Down(Down(u, s, pp, Black, o), s1, par, Red, sib), t)
      requires t.Root() == nn2 && o.Root() == oo
      modifies nodes`colour
      ensures InFocus(Pic(), root, u, Make(s, Make(s1, t, par, Black, sib), pp, Red, o.Painted(Black)))
    {
      hide InFocus, Pic;
      ghost var q := Down(u, s, pp, Black, o);
      ghost var v, o' := Make(s1, t, par, Black, sib), o.Painted(Black);
      FocusIn(Down(q, s1, par, Red, sib), t);
      PaintUnder(nn2.parent, Black, Down(q, s1, par, Red, sib), t);
      FocusZoom(Pic(), root, q, s1, t, par, Black, sib);
      FocusIn(q, v);
      PaintOther(oo, Black, q, v);
      PaintUnder(pp, Red, Down(u, s, pp, Black, o'), v);
      FocusZoom(Pic(), root, u, s, v, pp, Red, o');
    }

    lemma FocusIn(p: Path<V>, t: Tree<V>)
      requires InFocus(Pic(), root, p, t)
      ensures t.Bin? ==> t.node in nodes && t.node.parent == p.Under(null) && t.node.colour == t.colour
                         && t.node.left == t.left.Root() && t.node.right == t.right.Root()
      ensures !p.Top? ==> p.node in nodes && p.node.parent == p.up.Under(null) && p.node.colour == p.colour
                          && p.node.Kid(p.side) == t.Root() && p.node.Kid(p.side.Other()) == p.other.Root()
      ensures !p.Top? && p.other.Bin? ==> (p.other.node in nodes && p.other.node.colour == p.other.colour
                          && p.other.node.left == p.other.left.Root() && p.other.node.right == p.other.right.Root())
      ensures !p.Top? && t.Bin? ==> p.node.Kid(p.side.Other()) != t.node
      ensures root == t.Root() <==> p.Top?
      ensures root != null ==> root in nodes
    {
      hide InFocus;
      FocusFacts(Pic(), root, p, t);
      if !p.Top? { SiblingFacts(Pic(), root, p, t); }
    }

    /** nn2 is the inner child of its red parent: rotate the parent away from it. */
    method InsertTurn(par: Node<V>, s: Side, ghost q: Path<V>, ghost sib: Tree<V>, ghost x: Tree<V>,
                      ghost n: Node<V>, ghost y: Tree<V>)
      requires InFocus(Pic(), root, Down(q, s.Other(), par, Red, sib), Make(s, x, n, Red, y))
      modifies this`root, nodes`parent, nodes`left, nodes`right
      ensures InFocus(Pic(), root, Down(q, s, n, Red, y), Make(s, sib, par, Red, x))
      ensures Whole(Down(q, s, n, Red, y), Make(s, sib, par, Red, x))
          == Whole(Down(q, s.Other(), par, Red, sib), Make(s, x, n, Red, y))
    {
      hide InFocus, Pic, Order, Whole;
      FocusZoom(Pic(), root, q, s.Other(), Make(s, x, n, Red, y), par, Red, sib);
      Rotate(par, s, q, sib, Red, x, n, Red, y);
      FocusZoom(Pic(), root, q, s, Make(s, sib, par, Red, x), n, Red, y);
      WholeZoom(q, s.Other(), Make(s, x, n, Red, y), par, Red, sib);
      WholeZoom(q, s, Make(s, sib, par, Red, x), n, Red, y);
      SameWhole(q, Make(s, sib, par, Red, Make(s, x, n, Red, y)), Make(s, Make(s, sib, par, Red, x), n, Red, y));
    }

    /** The outer case: the parent turns black and rises above the grandparent, which turns red. */
    method InsertLift(nn2: Node<V>, pp: Node<V>, s: Side, ghost u: Path<V>, ghost o: Tree<V>, ghost par: Node<V>,
                      ghost sib: Tree<V>, ghost t: Tree<V>)
      requires InFocus(Pic(), root, Down(Down(u, s, pp, Black, o), s, par, Red, sib), t) && t.Root() == nn2
      modifies this`root, nodes`parent, nodes`left, nodes`right, nodes`colour
      ensures InFocus(Pic(), root, Down(u, s, par, Black, Make(s, sib, pp, Red, o)), t)
      ensures Whole(Down(u, s, par, Black, Make(s, sib, pp, Red, o)), t)
          == Whole(Down(Down(u, s, pp, Black, o), s, par, Red, sib), t)
    {
      hide InFocus, Pic, Order, Whole;
      ghost var q, v := Down(u, s, pp, Black, o), Make(s, t, par, Black, sib);
      FocusIn(Down(q, s, par, Red, sib), t);
      PaintUnder(nn2.parent, Black, Down(q, s, par, Red, sib), t);
      FocusZoom(Pic(), root, q, s, t, par, Black, sib);
      FocusIn(q, v);
      PaintUnder(pp, Red, q, v);
      FocusZoom(Pic(), root, u, s, v, pp, Red, o);
      Rotate(pp, s.Other(), u, o, Red, sib, par, Black, t);
      FocusZoom(Pic(), root, u, s, t, par, Black, Make(s, sib, pp, Red, o));
      LiftOrder(u, s, pp, o, par, sib, t, Black, Red, Black, Red);
    }

    method InsertStep(nn2: Node<V>, s: Side, ghost p: Path<V>, ghost t: Tree<V>)
      returns (nn3: Node<V>, ghost p': Path<V>, ghost t': Tree<V>)
      requires InFocus(Pic(), root, p, t) && t.Root() == nn2 && Rising(p, t)
      requires !p.Top? && p.colour.Red? && !p.up.Top? && p.up.side == s
      modifies this`root, nodes`parent, nodes`left, nodes`right, nodes`colour
      ensures InFocus(Pic(), root, p', t') && t'.Root() == nn3
      ensures Whole(p', t') == Whole(p, t)
      ensures (Rising(p', t') && Len(p') < Len(p)) || (Settled(p', t') && !p'.Top? && p'.colour.Black?)
    {
      hide InFocus, Pic, Order, Whole, Rising, Settled;
      RisingIs(p, t);
      ghost var Down(Down(u, _, ppg, _, o), s1, par, _, sib) := p;
      assert p == Down(Down(u, s, ppg, Black, o), s1, par, Red, sib);
      FocusIn(p, t);
      FocusZoom(Pic(), root, p.up, s1, t, par, Red, sib);
      FocusIn(p.up, Make(s1, t, par, Red, sib));
      var pp := nn2.parent.parent;
      var oo := pp.Kid(s.Other());
      if oo != null && oo.colour.Red? {
        InsertRecolour(nn2, pp, oo, u, s, o, s1, par, sib, t);
        nn3 := pp;
        p', t' := u, Make(s, Make(s1, t, par, Black, sib), pp, Red, o.Painted(Black));
        InsertRecolours(u, s, pp, o, s1, par, sib, t);
        RecolourOrder(u, s, pp, o, s1, par, sib, t);
      } else {
        nn3, p', t' := nn2, p, t;
        if nn3 == nn3.parent.Kid(s.Other()) {
          nn3 := nn3.parent;
          ghost var x, y := t.Sub(s), t.Sub(s.Other());
          InsertTurns(Down(u, s, pp, Black, o), s, par, sib, x, nn2, y);
          InsertTurn(nn3, s, Down(u, s, pp, Black, o), sib, x, nn2, y);
          p', t' := Down(Down(u, s, pp, Black, o), s, nn2, Red, y), Make(s, sib, par, Red, x);
        }
        InsertLifts(u, s, pp, o, p'.node, p'.other, t');
        InsertLift(nn3, pp, s, u, o, p'.node, p'.other, t');
        p' := Down(u, s, p'.node, Black, Make(s, p'.other, pp, Red, o));
      }
    }

    method InsertFixup(nn: Node<V>, ghost p0: Path<V>, ghost t0: Tree<V>) returns (ghost p: Path<V>, ghost t: Tree<V>)
      requires InFocus(Pic(), root, p0, t0) && t0.Root() == nn && Rising(p0, t0)
      modifies this`root, nodes`parent, nodes`left, nodes`right, nodes`colour
      ensures InFocus(Pic(), root, p, t) && Settled(p, t)
      ensures Whole(p, t) == Whole(p0, t0)
    {
      hide InFocus, Pic, Order, Whole, Rising, Settled, Plug;
      var nn2 := nn;
      p, t := p0, t0;
      FocusIn(p, t);
      while nn2 != root && nn2.parent.colour.Red?
        invariant InFocus(Pic(), root, p, t) && t.Root() == nn2
        invariant Whole(p, t) == Whole(p0, t0)
        invariant Rising(p, t) || (Settled(p, t) && !p.Top? && p.colour.Black?)
        invariant nn2 != root ==> nn2.parent != null && nn2.parent == p.Under(null) && p.colour == nn2.parent.colour
        invariant nn2 == root <==> p.Top?
        decreases if !p.Top? && p.colour.Red? then Len(p) + 1 else 0
      {
        RisingIs(p, t);
        FocusZoom(Pic(), root, p.up, p.side, t, p.node, p.colour, p.other);
        FocusIn(p, t);
        FocusIn(p.up, Make(p.side, t, p.node, p.colour, p.other));
        var pp := nn2.parent.parent;
        if nn2.parent == pp.left {
          nn2, p, t := InsertStep(nn2, L, p, t);
        } else {
          nn2, p, t := InsertStep(nn2, R, p, t);
        }
        FocusIn(p, t);
      }
      RisingStops(p, t);
      ghost var v := Plug(p, t);
      FocusPlug(Pic(), root, p, t);
      TopBlack(p, t);
      FocusIn(Top, v);
      Paint(root, Black, Top, v);
      PaintedOrder(p, t, Black);
      t := if p.Top? then t.Painted(Black) else t;
      FocusPlug(Pic(), root, p, t);
    }

    /** The focus of a search for key inside the tree. */
    ghost predicate Seeking(p: Path<V>, t: Tree<V>, key: Key)
      reads this`root, this`nodes, this`tree, nodes`parent, nodes`left, nodes`right, nodes`colour
    {
      InFocus(Pic(), root, p, t) && Plug(p, t) == tree && Around(p, key)
    }

    lemma SeekingStarts(key: Key)
      requires Shaped()
      ensures Seeking(Top, tree, key) && root == tree.Root()
    {}

    lemma SeekingDown(p: Path<V>, t: Tree<V>, s: Side, key: Key)
      requires Shaped() && Seeking(p, t, key) && t.Bin?
      requires if s.L? then Less(key, t.node.key) else Less(t.node.key, key)
      ensures Seeking(Down(p, s, t.node, t.colour, t.Sub(s.Other())), t.Sub(s), key)
      ensures Height(t.Sub(s)) < Height(t)
    {
      hide InFocus, Pic, Less, Sorted, Around, Order, Whole, RedBlack, Agrees, Proper;
      assert t == Make(s, t.Sub(s), t.node, t.colour, t.Sub(s.Other()));
      FocusZoom(Pic(), root, p, s, t.Sub(s), t.node, t.colour, t.Sub(s.Other()));
      ProperIs(Pic(), root, leftmost, rightmost, p, t);
      SearchDown(p, s, t.Sub(s), t.node, t.colour, t.Sub(s.Other()), key);
    }

    lemma NotFound(p: Path<V>, key: Key)
      requires Shaped() && Seeking(p, Leaf, key)
      ensures key !in contents
    {
      hide InFocus, Pic, Less, Sorted, Around, RedBlack, Proper, Settled;
      ProperIs(Pic(), root, leftmost, rightmost, p, Leaf);
      OrderPlug(p, Leaf);
      PicIs();
      forall n | n in nodes ensures n.key != key {
        OrderHas(tree, n);
        Absent(p, key, n);
      }
    }

    /** A lookup follows key comparisons from the root; it never makes more rounds than the tree is high,
        the round that finds the key included. */
    method Find(key: Key) returns (it: Node?<V>, ghost steps: nat)
      requires Valid()
      ensures it == null <==> key !in contents
      ensures it != null ==> it in nodes && it.key == key && it.value == contents[key]
      ensures steps <= Height(tree)
    {
      hide InFocus, Pic, Less, Around, Proper, Compare, Height, Plug;
      it := root;
      steps := 0;
      ghost var p, t := Top, tree;
      SeekingStarts(key);
      while it != null
        invariant Seeking(p, t, key) && it == t.Root()
        invariant steps + Height(t) <= Height(tree)
        decreases t
      {
        steps := steps + 1;
        FocusIn(p, t);
        var comp := Compare(key, it.key);
        CompareSides(key, it.key);
        if comp < 0 {
          SeekingDown(p, t, L, key);
          it := it.left;
          p, t := Down(p, L, t.node, t.colour, t.right), t.left;
        } else if comp > 0 {
          SeekingDown(p, t, R, key);
          it := it.right;
          p, t := Down(p, R, t.node, t.colour, t.left), t.right;
        } else {
          return;
        }
      }
      NotFound(p, key);
    }

    /** The search loop of find_: the node with the key, or the empty slot where it belongs. */
    method Descend(key: Key)
      returns (node: Node?<V>, parentnode: Node?<V>, comp: int, ghost p: Path<V>, ghost steps: nat)
      requires Valid()
      ensures steps <= Height(tree)
      ensures node != null ==> node in nodes && node.key == key && key in contents
      ensures node == null ==> key !in contents && Seeking(p, Leaf, key) && (root == null <==> p.Top?)
      ensures node == null && !p.Top? ==> parentnode == p.node && (comp < 0 <==> p.side.L?)
    {
      hide InFocus, Pic, Less, Around, Proper, Compare, Height, Plug;
      node, parentnode, comp, steps := root, root, 0, 0;
      ghost var t := tree;
      p := Top;
      SeekingStarts(key);
      while node != null
        invariant Seeking(p, t, key) && node == t.Root()
        invariant steps + Height(t) <= Height(tree)
        invariant p.Top? ==> t == tree
        invariant !p.Top? ==> parentnode == p.node && (comp < 0 <==> p.side.L?) && root != null
        decreases t
      {
        steps := steps + 1;
        FocusIn(p, t);
        comp := Compare(key, node.key);
        CompareSides(key, node.key);
        parentnode := node;
        if comp < 0 {
          SeekingDown(p, t, L, key);
          node := node.left;
          p, t := Down(p, L, t.node, t.colour, t.right), t.left;
        } else if comp > 0 {
          SeekingDown(p, t, R, key);
          node := node.right;
          p, t := Down(p, R, t.node, t.colour, t.left), t.right;
        } else {
          return;
        }
      }
      NotFound(p, key);
    }

    /** Hangs the new red node nn into the empty slot that the search ended at. */
    method Hang(nn: Node<V>, parentnode: Node<V>, comp: int, ghost p: Path<V>)
      requires InFocus(Pic(), root, p, Leaf) && !p.Top? && p.node == parentnode && nn !in nodes
      requires comp < 0 <==> p.side.L?
      requires nn.left == null && nn.right == null
      requires Sorted(Whole(p, Leaf)) && leftmost == First(Whole(p, Leaf)) && rightmost == Last(Whole(p, Leaf))
      modifies this`nodes, this`leftmost, this`rightmost, nn`parent, nn`colour, parentnode`left, parentnode`right
      ensures nodes == old(nodes) + {nn}
      ensures InFocus(Pic(), root, p, Bin(Leaf, nn, Red, Leaf))
      ensures leftmost == First(Whole(p, Bin(Leaf, nn, Red, Leaf)))
          && rightmost == Last(Whole(p, Bin(Leaf, nn, Red, Leaf)))
    {
      hide InFocus, Sorted, Whole, Before, After, Less, First, Last;
      ghost var m := Pic();
      FocusIn(p, Leaf);
      nn.parent := parentnode;
      nn.colour := Red;
      if comp < 0 {
        parentnode.left := nn;
        if leftmost == parentnode { leftmost := nn; }
      } else {
        parentnode.right := nn;
        if rightmost == parentnode { rightmost := nn; }
      }
      nodes := nodes + {nn};
      assert Pic() == m[nn := Links(p.node, null, null, Red)][p.node := m[p.node].With(p.side, nn)];
      FocusLinks(m, Pic(), root, p, nn);
      HangEnds(p, nn);
    }

    /** The first node of an empty map. */
    method InsertFirst(nn: Node<V>)
      requires Shaped() && root == null && nn.left == null && nn.right == null && nn.value == blank
      modifies this`nodes, this`tree, this`contents, this`root, this`leftmost, this`rightmost, nn`parent, nn`colour
      ensures Shaped() && nodes == old(nodes) + {nn} && Size(tree) == Size(old(tree)) + 1
      ensures contents == old(contents)[nn.key := blank]
    {
      hide Less, Proper, Size;
      EmptyMap();
      nn.parent := null;
      nn.colour := Black;
      root, leftmost, rightmost := nn, nn, nn;
      nodes := {nn};
      tree := Bin(Leaf, nn, Black, Leaf);
      contents := contents[nn.key := blank];
      assert Pic() == map[nn := Links(null, null, null, Black)];
      SingleProper(Pic(), nn);
      OneSize(nn);
    }

    lemma EmptyMap()
      requires Shaped() && root == null
      ensures tree == Leaf && nodes == {} && contents == map[]
    {
      hide Less;
      ProperIs(Pic(), root, leftmost, rightmost, Top, tree);
      PicIs();
    }

    static lemma OneSize(n: Node<V>)
      ensures Size(Bin(Leaf, n, Black, Leaf)) == 1 && Size<V>(Leaf) == 0
    {}

    /** A further node: hung below parentnode and lifted until the colours fit. */
    method InsertBelow(nn: Node<V>, parentnode: Node<V>, comp: int, ghost p: Path<V>)
      requires Shaped() && Seeking(p, Leaf, nn.key) && !p.Top? && p.node == parentnode && (comp < 0 <==> p.side.L?)
      requires nn !in nodes && nn.left == null && nn.right == null && nn.value == blank && nn.key !in contents
      modifies this`nodes, this`tree, this`contents, this`root, this`leftmost, this`rightmost
      modifies nodes`parent, nodes`left, nodes`right, nodes`colour, nn`parent, nn`left, nn`right, nn`colour
      ensures Shaped() && nodes == old(nodes) + {nn} && Size(tree) == Size(old(tree)) + 1
      ensures contents == old(contents)[nn.key := blank]
    {
      hide InFocus, Pic, Less, Sorted, Order, RedBlack, Plug, Settled, Rising, Whole, First, Last, Around, Before,
          After, Proper, Size;
      hide Agrees;
      ghost var one := Bin(Leaf, nn, Red, Leaf);
      ProperIs(Pic(), root, leftmost, rightmost, p, Leaf);
      FocusIn(p, Leaf);
      RisingStarts(p, nn);
      Hang(nn, parentnode, comp, p);
      InsertSorted(p, nn);
      OneOrder(p, nn);
      ghost var q, t := InsertFixup(nn, p, one);
      ProperPlug(Pic(), root, leftmost, rightmost, q, t);
      tree := Plug(q, t);
      contents := contents[nn.key := blank];
      AgreesMore(nn);
    }

    twostate lemma AgreesMore(nn: Node<V>)
      requires old(Agrees()) && nodes == old(nodes) + {nn} && nn.value == blank && nn.key !in old(contents)
      requires forall n :: n in old(nodes) ==> n.value == old(n.value)
      requires contents == old(contents)[nn.key := blank]
      ensures Agrees()
    {}

    /** find_: the node with the given key, inserted with a blank value when there is none. */
    method FindOrInsert(key: Key) returns (nn: Node<V>)
      requires Valid()
      modifies this, nodes
      ensures Valid() && nn in nodes && nn.key == key && fresh(nodes - old(nodes))
      ensures contents == if key in old(contents) then old(contents) else old(contents)[key := blank]
      ensures nodes == if key in old(contents) then old(nodes) else old(nodes) + {nn}
      ensures forall n :: n in old(nodes) ==> n.value == old(n.value)
      ensures key in old(contents) ==> tree == old(tree)
    {
      hide InFocus, Pic, Less, Around, Proper, Size, Plug;
      ghost var p, steps;
      var node, parentnode, comp;
      node, parentnode, comp, p, steps := Descend(key);
      if node != null { return node; }
      nn := new Node(key, blank);
      nodeCount := nodeCount + 1;
      if root == null {
        InsertFirst(nn);
      } else {
        InsertBelow(nn, parentnode, comp, p);
      }
    }

    // ---------------------------------------------------------------- deletion: rebalancing

    /** A red sibling rises above the parent scp, which turns red and gets a black sibling x. */
    method DeleteRaise(scp: Node<V>, sib: Node<V>, s: Side, ghost u: Path<V>, ghost c: Colour, ghost x: Tree<V>,
                       ghost y: Tree<V>, ghost t: Tree<V>)
      requires InFocus(Pic(), root, Down(u, s, scp, c, Make(s, x, sib, Red, y)), t)
      modifies this`root, nodes`parent, nodes`left, nodes`right, nodes`colour
      ensures InFocus(Pic(), root, Down(Down(u, s, sib, Black, y), s, scp, Red, x), t)
    {
      hide InFocus, Pic, Order;
      ghost var o, o' := Make(s, x, sib, Red, y), Make(s, x, sib, Black, y);
      FocusIn(Down(u, s, scp, c, o), t);
      PaintOther(sib, Black, Down(u, s, scp, c, o), t);
      PaintUnder(scp, Red, Down(u, s, scp, c, o'), t);
      FocusZoom(Pic(), root, u, s, t, scp, Red, o');
      Rotate(scp, s, u, t, Red, x, sib, Black, y);
      FocusZoom(Pic(), root, u, s, Make(s, t, scp, Red, x), sib, Black, y);
      FocusZoom(Pic(), root, Down(u, s, sib, Black, y), s, t, scp, Red, x);
    }

    /** The near nephew xn is red, the far one is not: xn takes the place of the sibling. */
    method DeleteTurn(scp: Node<V>, sib: Node<V>, xn: Node<V>, s: Side, ghost u: Path<V>, ghost c: Colour,
                      ghost x1: Tree<V>, ghost x2: Tree<V>,
                      ghost y: Tree<V>, ghost t: Tree<V>)
      requires InFocus(Pic(), root, Down(u, s, scp, c, Make(s, Make(s, x1, xn, Red, x2), sib, Black, y)), t)
      modifies this`root, nodes`parent, nodes`left, nodes`right, nodes`colour
      ensures InFocus(Pic(), root, Down(u, s, scp, c, Make(s, x1, xn, Black, Make(s, x2, sib, Red, y))), t)
    {
      hide InFocus, Pic, Order;
      ghost var x, x' := Make(s, x1, xn, Red, x2), Make(s, x1, xn, Black, x2);
      ghost var d := Down(u, s.Other(), scp, c, t);
      FocusZoom(Pic(), root, u, s, t, scp, c, Make(s, x, sib, Black, y));
      FocusZoom(Pic(), root, u, s.Other(), Make(s, x, sib, Black, y), scp, c, t);
      FocusZoom(Pic(), root, d, s, x, sib, Black, y);
      FocusIn(Down(d, s, sib, Black, y), x);
      Paint(xn, Black, Down(d, s, sib, Black, y), x);
      PaintUnder(sib, Red, Down(d, s, sib, Black, y), x');
      FocusZoom(Pic(), root, d, s, x', sib, Red, y);
      Rotate(sib, s.Other(), d, y, Red, x2, xn, Black, x1);
      FocusZoom(Pic(), root, u, s.Other(), Make(s, x1, xn, Black, Make(s, x2, sib, Red, y)), scp, c, t);
      FocusZoom(Pic(), root, u, s, t, scp, c, Make(s, x1, xn, Black, Make(s, x2, sib, Red, y)));
    }

    /** The far nephew is red: the sibling rises with the parent's colour, parent and nephew turn black. */
    method DeleteLift(scp: Node<V>, sib: Node<V>, s: Side, ghost u: Path<V>, ghost c: Colour, ghost x: Tree<V>,
                      ghost y: Tree<V>, ghost t: Tree<V>)
      requires InFocus(Pic(), root, Down(u, s, scp, c, Make(s, x, sib, Black, y)), t) && y.IsRed()
      modifies this`root, nodes`parent, nodes`left, nodes`right, nodes`colour
      ensures InFocus(Pic(), root, Down(Down(u, s, sib, c, y.Painted(Black)), s, scp, Black, x), t)
    {
      hide InFocus, Pic, Order;
      ghost var o, o' := Make(s, x, sib, Black, y), Make(s, x, sib, c, y);
      ghost var d, y' := Down(u, s.Other(), scp, Black, t), y.Painted(Black);
      FocusIn(Down(u, s, scp, c, o), t);
      PaintOther(sib, scp.colour, Down(u, s, scp, c, o), t);
      PaintUnder(scp, Black, Down(u, s, scp, c, o'), t);
      FocusZoom(Pic(), root, u, s, t, scp, Black, o');
      FocusZoom(Pic(), root, u, s.Other(), o', scp, Black, t);
      FocusIn(d, o');
      FocusZoom(Pic(), root, d, s.Other(), y, sib, c, x);
      FocusIn(Down(d, s.Other(), sib, c, x), y);
      var far := sib.Kid(s.Other());
      if far != null { Paint(far, Black, Down(d, s.Other(), sib, c, x), y); }
      FocusZoom(Pic(), root, d, s.Other(), y', sib, c, x);
      FocusZoom(Pic(), root, u, s.Other(), Make(s, x, sib, c, y'), scp, Black, t);
      Rotate(scp, s, u, t, Black, x, sib, c, y');
      FocusZoom(Pic(), root, u, s, Make(s, t, scp, Black, x), sib, c, y');
      FocusZoom(Pic(), root, Down(u, s, sib, c, y'), s, t, scp, Black, x);
    }

    /** The part of one round that follows once the sibling is black. */
    method DeleteBlackSibling(sc: Node?<V>, scp: Node<V>, s: Side, ghost p: Path<V>, ghost t: Tree<V>)
      returns (sc': Node?<V>, scp': Node?<V>, done: bool, ghost p': Path<V>, ghost t': Tree<V>)
      requires InFocus(Pic(), root, p, t) && t.Root() == sc && !p.Top? && p.node == scp && p.side == s
      requires Sunken(p, t) && !t.IsRed() && p.other.Bin? && p.other.colour.Black?
      modifies this`root, nodes`parent, nodes`left, nodes`right, nodes`colour
      ensures InFocus(Pic(), root, p', t') && t'.Root() == sc' && p'.Under(null) == scp'
      ensures Whole(p', t') == Whole(p, t)
      ensures if done then Settled(p', t') && !t'.IsRed()
              else Sunken(p', t') && p' == p.up && (p.colour.Red? ==> t'.IsRed())
    {
      hide InFocus, Pic, Order, Whole, Settled, Sunken;
      ghost var Down(u, _, _, c, o) := p;
      ghost var x, y := o.Sub(s), o.Sub(s.Other());
      FocusIn(p, t);
      FocusZoom(Pic(), root, u, s, t, scp, c, o);
      FocusZoom(Pic(), root, u, s.Other(), o, scp, c, t);
      var sib := scp.Kid(s.Other());
      FocusKids(Down(u, s.Other(), scp, c, t), o);
      assert o == Make(s, x, sib, Black, y);
      if (sib.Kid(s) == null || sib.Kid(s).colour.Black?)
          && (sib.Kid(s.Other()) == null || sib.Kid(s.Other()).colour.Black?) {
        PaintOther(sib, Red, p, t);
        ghost var o' := Make(s, x, sib, Red, y);
        FocusZoom(Pic(), root, u, s, t, scp, c, o');
        sc', p', t', done := scp, u, Make(s, t, scp, c, o'), false;
        FocusIn(p', t');
        scp' := scp.parent;
        DeleteRecolours(u, s, scp, c, x, sib, y, t);
        WholeZoom(u, s, t, scp, c, o);
        OrderMake(s, t, scp, c, o);
        OrderMake(s, t, scp, c, o');
        PaintedSame(o, Red);
        SameWhole(u, Make(s, t, scp, c, o), t');
      } else {
        ghost var q := p;
        if sib.Kid(s.Other()) == null || sib.Kid(s.Other()).colour.Black? {
          var xn := sib.Kid(s);
          ghost var x1, x2 := x.Sub(s), x.Sub(s.Other());
          DeleteTurns(u, s, scp, c, x1, xn, x2, sib, y, t);
          DeleteTurn(scp, sib, xn, s, u, c, x1, x2, y, t);
          TurnOrder(u, s, scp, c, x1, xn, x2, sib, y, t);
          q := Down(u, s, scp, c, Make(s, x1, xn, Black, Make(s, x2, sib, Red, y)));
          FocusIn(q, t);
          sib := scp.Kid(s.Other());
          x, y := x1, Make(s, x2, q.other.Sub(s.Other()).node, Red, y);
        }
        DeleteLifts(u, s, scp, c, x, sib, y, t);
        DeleteLift(scp, sib, s, u, c, x, y, t);
        RaiseOrder(u, s, scp, c, Black, x, sib, Black, c, y, t, Black);
        sc', scp', p', done := sc, scp, Down(Down(u, s, sib, c, y.Painted(Black)), s, scp, Black, x), true;
        t' := t;
      }
    }

    lemma FocusKids(p: Path<V>, t: Tree<V>)
      requires InFocus(Pic(), root, p, t) && t.Bin?
      ensures t.node in nodes && t.node.left == t.left.Root() && t.node.right == t.right.Root()
      ensures t.left.Bin? ==> t.left.node in nodes && t.left.node.colour == t.left.colour
      ensures t.right.Bin? ==> t.right.node in nodes && t.right.node.colour == t.right.colour
    {
      hide InFocus;
      FocusZoom(Pic(), root, p, L, t.left, t.node, t.colour, t.right);
      FocusIn(p, t);
      FocusIn(Down(p, L, t.node, t.colour, t.right), t.left);
    }

    /** One round of the loop after a black node is gone, for the hole on side s of scp. */
    method DeleteStep(sc: Node?<V>, scp: Node<V>, s: Side, ghost p: Path<V>, ghost t: Tree<V>)
      returns (sc': Node?<V>, scp': Node?<V>, done: bool, ghost p': Path<V>, ghost t': Tree<V>)
      requires InFocus(Pic(), root, p, t) && t.Root() == sc && !p.Top? && p.node == scp && p.side == s
      requires Sunken(p, t) && !t.IsRed()
      modifies this`root, nodes`parent, nodes`left, nodes`right, nodes`colour
      ensures InFocus(Pic(), root, p', t') && t'.Root() == sc' && p'.Under(null) == scp'
      ensures Whole(p', t') == Whole(p, t)
      ensures if done then Settled(p', t') && !t'.IsRed() else Sunken(p', t') && (t'.IsRed() || Len(p') < Len(p))
    {
      hide InFocus, Pic, Order, Whole, Settled, Sunken;
      FocusIn(p, t);
      SunkenIs(p, t);
      ghost var q := p;
      var sib := scp.Kid(s.Other());
      if sib.colour.Red? {
        ghost var Down(u, _, _, c, o) := p;
        ghost var x, y := o.Sub(s), o.Sub(s.Other());
        DeleteRedSibling(u, s, scp, c, x, sib, y, t);
        DeleteRaise(scp, sib, s, u, c, x, y, t);
        RaiseOrder(u, s, scp, c, Red, x, sib, Red, Black, y, t, if y.Bin? then y.colour else Red);
        q := Down(Down(u, s, sib, Black, y), s, scp, Red, x);
      }
      sc', scp', done, p', t' := DeleteBlackSibling(sc, scp, s, q, t);
    }

    method DeleteFixup(sc0: Node?<V>, scp0: Node?<V>, ghost p0: Path<V>, ghost t0: Tree<V>)
      returns (ghost p: Path<V>, ghost t: Tree<V>)
      requires InFocus(Pic(), root, p0, t0) && t0.Root() == sc0 && p0.Under(null) == scp0 && Sunken(p0, t0)
      modifies this`root, nodes`parent, nodes`left, nodes`right, nodes`colour
      ensures InFocus(Pic(), root, p, t) && Settled(p, t) && Whole(p, t) == Whole(p0, t0)
    {
      hide InFocus, Pic, Order, Whole, Settled, Sunken;
      var sc, scp, done := sc0, scp0, false;
      p, t := p0, t0;
      FocusIn(p, t);
      while !done && sc != root && (sc == null || sc.colour.Black?)
        invariant InFocus(Pic(), root, p, t) && t.Root() == sc && p.Under(null) == scp
        invariant Whole(p, t) == Whole(p0, t0)
        invariant if done then Settled(p, t) && !t.IsRed() else Sunken(p, t)
        invariant t.Bin? ==> sc in nodes && sc.colour == t.colour
        invariant sc == root <==> p.Top?
        decreases !done, if t.IsRed() then 0 else Len(p) + 1
      {
        FocusIn(p, t);
        SunkenIs(p, t);
        if sc == scp.left {
          sc, scp, done, p, t := DeleteStep(sc, scp, L, p, t);
        } else {
          sc, scp, done, p, t := DeleteStep(sc, scp, R, p, t);
        }
        FocusIn(p, t);
      }
      SunkenStops(p, t, done);
      PaintedOrder(p, t, Black);
      if sc != null { Paint(sc, Black, p, t); }
      t := t.Painted(Black);
    }

    // ---------------------------------------------------------------- deletion: unlinking

    /** The last node on side s below x. */
    method Extreme(x: Node<V>, s: Side, ghost base: Path<V>, ghost t: Tree<V>)
      returns (y: Node<V>, ghost q: Path<V>, ghost u: Tree<V>)
      requires InFocus(Pic(), root, base, t) && t.Root() == x
      ensures InFocus(Pic(), root, Append(q, base), u) && u.Root() == y && u.Bin? && u.Sub(s).Leaf? && Spine(q, s)
      ensures Whole(Append(q, base), u) == Whole(base, t)
      ensures Plug(Append(q, base), u) == Plug(base, t)
      ensures y == if s.L? then First(Order(t)) else Last(Order(t))
    {
      hide InFocus, Pic, Order, Whole, First, Last;
      y := x;
      q, u := Top, t;
      WholeTop(t);
      while y.Kid(s) != null
        invariant InFocus(Pic(), root, Append(q, base), u) && u.Root() == y && Spine(q, s)
        invariant Whole(Append(q, base), u) == Whole(base, t)
        invariant Plug(Append(q, base), u) == Plug(base, t) && Whole(q, u) == Order(t)
        decreases u
      {
        FocusIn(Append(q, base), u);
        FocusZoom(Pic(), root, Append(q, base), s, u.Sub(s), u.node, u.colour, u.Sub(s.Other()));
        WholeZoom(Append(q, base), s, u.Sub(s), u.node, u.colour, u.Sub(s.Other()));
        WholeZoom(q, s, u.Sub(s), u.node, u.colour, u.Sub(s.Other()));
        y := y.Kid(s);
        q, u := Down(q, s, u.node, u.colour, u.Sub(s.Other())), u.Sub(s);
      }
      FocusIn(Append(q, base), u);
      SpineTop(q, u, s);
    }

    /** The slot that points at n is made to point at x. */
    method ReplaceChild(n: Node<V>, x: Node?<V>)
      requires n != root ==> n.parent != null
      modifies this`root, (if n == root then {} else {n.parent})`left, (if n == root then {} else {n.parent})`right
      ensures root == if n == old(root) then x else old(root)
      ensures n != old(root) ==> n.parent.left == if old(n.parent.left) == n then x else old(n.parent.left)
      ensures n != old(root) ==> n.parent.right == if old(n.parent.left) == n then old(n.parent.right) else x
    {
      if n == root {
        root := x;
      } else if n == n.parent.left {
        n.parent.left := x;
      } else {
        n.parent.right := x;
      }
    }

    /** Takes out a node with at most one child sc. */
    method Unlink(enode: Node<V>, sc: Node?<V>, ghost p: Path<V>, ghost s: Side, ghost x: Tree<V>, ghost c: Colour)
      returns (scp: Node?<V>)
      requires InFocus(Pic(), root, p, Make(s, x, enode, c, Leaf)) && x.Root() == sc
      modifies this`root, this`nodes, nodes`parent, nodes`left, nodes`right
      ensures nodes == old(nodes) - {enode} && InFocus(Pic(), root, p, x) && scp == p.Under(null)
      ensures enode.parent == old(enode.parent) && enode.left == old(enode.left) && enode.right == old(enode.right)
    {
      hide InFocus;
      ghost var m, r := Pic(), root;
      FocusIn(p, Make(s, x, enode, c, Leaf));
      FocusKids(p, Make(s, x, enode, c, Leaf));
      UnlinkApart(m, root, p, s, x, enode, c);
      scp := enode.parent;
      if sc != null { sc.parent := scp; }
      ReplaceChild(enode, sc);
      nodes := nodes - {enode};
      FocusUnlinks(m, Pic(), r, root, p, s, x, enode, c);
    }

    /** After enode is out: the cached ends move away from it. */
    method MoveEnds(enode: Node<V>, sc: Node?<V>, ghost p: Path<V>, ghost s: Side, ghost x: Tree<V>, ghost c: Colour)
      requires InFocus(Pic(), root, p, x) && x.Root() == sc
      requires enode.parent == p.Under(null)
          && (if s.L? then enode.left == sc && enode.right == null else enode.right == sc && enode.left == null)
      requires Sorted(Whole(p, Make(s, x, enode, c, Leaf)))
      requires leftmost == First(Whole(p, Make(s, x, enode, c, Leaf)))
          && rightmost == Last(Whole(p, Make(s, x, enode, c, Leaf)))
      modifies this`leftmost, this`rightmost
      ensures leftmost == First(Whole(p, x)) && rightmost == Last(Whole(p, x))
    {
      hide InFocus, Pic, Sorted, Whole, First, Last, Order;
      UnlinkFirst(p, s, x, enode, c);
      UnlinkLast(p, s, x, enode, c);
      if enode == leftmost {
        if enode.right == null {
          leftmost := enode.parent;
        } else {
          ghost var q, u;
          leftmost, q, u := Extreme(sc, L, p, x);
          SpineEnds(q, p, u, L);
        }
      }
      if enode == rightmost {
        if enode.left == null {
          rightmost := enode.parent;
        } else {
          ghost var q, u;
          rightmost, q, u := Extreme(sc, R, p, x);
          SpineEnds(q, p, u, R);
        }
      }
    }

    /** The lower half of the two-child case: s takes over the children of enode, and sc the old place of s. */
    method TakeChildren(enode: Node<V>, s: Node<V>, sc: Node?<V>, ghost p: Path<V>, ghost l: Tree<V>,
                        ghost ce: Colour, ghost q: Path<V>, ghost rs: Tree<V>)
      returns (scp: Node<V>)
      requires Spliceable(Pic(), p, l, enode, ce, q, s, rs) && sc == rs.Root()
      modifies nodes`parent, nodes`left, nodes`right
      ensures Lowered(old(Pic()), Pic(), l.node, q, s, sc)
      ensures scp == q.Under(s)
    {
      PicIs();
      enode.left.parent := s;
      s.left := enode.left;
      if enode.right == s {
        scp := s;
      } else {
        assert q.node != s && Bottom(q) != s;
        scp := s.parent;
        if sc != null { sc.parent := scp; }
        s.parent.left := sc;
        s.right := enode.right;
        enode.right.parent := s;
      }
    }

    /** The upper half: s takes the slot and the colour of enode, and enode is out. */
    method TakeSlot(enode: Node<V>, s: Node<V>, ghost p: Path<V>)
      requires enode in nodes && s in nodes && s != enode && enode.parent == p.Under(null)
      requires enode == root <==> p.Top?
      requires !p.Top? ==> p.node in nodes && p.node !in {enode, s}
                           && p.node.Kid(p.side) == enode && p.node.Kid(p.side.Other()) != enode
      modifies this`root, this`nodes, nodes`parent, nodes`left, nodes`right, nodes`colour
      ensures nodes == old(nodes) - {enode} && Slotted(old(Pic()), Pic(), p, enode, s)
      ensures root == if p.Top? then s else old(root)
    {
      PicIs();
      ReplaceChild(enode, s);
      s.parent := enode.parent;
      s.colour := enode.colour;
      nodes := nodes - {enode};
    }

    /** Replaces a node with two children by s, the leftmost node below its right child. */
    method Splice(enode: Node<V>, s: Node<V>, sc: Node?<V>, ghost p: Path<V>, ghost l: Tree<V>, ghost ce: Colour,
                  ghost q: Path<V>, ghost rs: Tree<V>)
      returns (scp: Node<V>)
      requires Spliceable(Pic(), p, l, enode, ce, q, s, rs) && sc == rs.Root()
      requires enode == root <==> p.Top?
      modifies this`root, this`nodes, nodes`parent, nodes`left, nodes`right, nodes`colour
      ensures nodes == old(nodes) - {enode} && Spliced(old(Pic()), Pic(), p, l, enode, ce, q, s, rs)
      ensures root == if p.Top? then s else old(root)
      ensures scp == q.Under(s)
    {
      hide Spliced, Slotted, Lowered, SegmentMoved;
      PicIs();
      ghost var m := Pic();
      scp := TakeChildren(enode, s, sc, p, l, ce, q, rs);
      ghost var m1 := Pic();
      PicIs();
      LoweredKeeps(m, m1, p, l, enode, ce, q, s, rs);
      TakeSlot(enode, s, p);
      SplicedBoth(m, m1, Pic(), p, l, enode, ce, q, s, rs);
    }

    /** The first half of erase_: enode leaves the tree, sc stands where a node of colour lost was. */
    method TakeOut(enode: Node<V>, ghost p: Path<V>, ghost t: Tree<V>)
      returns (sc: Node?<V>, scp: Node?<V>, lost: Colour, ghost p': Path<V>, ghost t': Tree<V>)
      requires InFocus(Pic(), root, p, t) && t.Root() == enode && Settled(p, t) && Sorted(Whole(p, t))
      requires leftmost == First(Whole(p, t)) && rightmost == Last(Whole(p, t))
      modifies this`root, this`nodes, this`leftmost, this`rightmost, nodes`parent, nodes`left, nodes`right, nodes`colour
      ensures nodes == old(nodes) - {enode}
      ensures InFocus(Pic(), root, p', t') && t'.Root() == sc && p'.Under(null) == scp
      ensures Sorted(Whole(p', t')) && |Whole(p', t')| == |Whole(p, t)| - 1
      ensures leftmost == First(Whole(p', t')) && rightmost == Last(Whole(p', t'))
      ensures if lost.Black? then Sunken(p', t') else Settled(p', t')
    {
      hide InFocus, Pic, Order, Whole, Settled, Sunken, Sorted, First, Last, Spliced, Spliceable, Append, Plug, Spine;
      FocusIn(p, t);
      FocusKids(p, t);
      ghost var Bin(l, _, c, r) := t;
      var s := enode;
      lost := s.colour;
      if enode.left == null || enode.right == null {
        sc := if enode.left == null then enode.right else enode.left;
        ghost var side, x := if enode.left == null then R else L, if enode.left == null then r else l;
        assert t == Make(side, x, enode, c, Leaf);
        ghost var a, b := UnlinkSplit(p, side, x, enode, c);
        RemoveSorted(a, enode, b);
        UnlinkBalance(p, side, x, enode, c);
        scp := Unlink(enode, sc, p, side, x, c);
        MoveEnds(enode, sc, p, side, x, c);
        p', t' := p, x;
      } else {
        FocusZoom(Pic(), root, p, R, r, enode, c, l);
        WholeZoom(p, R, r, enode, c, l);
        ghost var q, u;
        s, q, u := Extreme(enode.right, L, Down(p, R, enode, c, l), r);
        FocusIn(Append(q, Down(p, R, enode, c, l)), u);
        lost := s.colour;
        sc := s.right;
        ghost var cs, rs := u.colour, u.right;
        assert u == Bin(Leaf, s, cs, rs);
        PlugPath(p, t, Append(q, Down(p, R, enode, c, l)), u, r, l, enode, c);
        SpliceBalance(p, l, enode, c, q, s, cs, rs);
        ghost var a, b := SpliceOrder(p, l, enode, c, q, s, cs, rs);
        RemoveSorted(a, enode, b);
        ghost var m, rt := Pic(), root;
        SpliceReady(m, root, p, l, enode, c, q, s, cs, rs);
        scp := Splice(enode, s, sc, p, l, c, q, rs);
        FocusSplices(m, Pic(), rt, root, p, l, enode, c, q, s, cs, rs);
        AppendUnder(q, Down(p, R, s, c, l));
        p', t' := Append(q, Down(p, R, s, c, l)), rs;
      }
    }

    /** erase_ on the tree: unlink, then restore the balance if a black node is gone. */
    method EraseFromTree(enode: Node<V>)
      requires Proper(Pic(), root, leftmost, rightmost, tree) && enode in nodes
      modifies this`root, this`nodes, this`tree, this`leftmost, this`rightmost, nodes`parent, nodes`left, nodes`right,
        nodes`colour
      ensures Proper(Pic(), root, leftmost, rightmost, tree)
      ensures nodes == old(nodes) - {enode} && Size(tree) == Size(old(tree)) - 1
    {
      hide InFocus, Pic, Order, Whole, Settled, Sunken, Sorted, First, Last, Plug, Proper, Size, RedBlack;
      PicIs();
      PlugTop(tree);
      ProperIs(Pic(), root, leftmost, rightmost, Top, tree);
      ghost var p, t := Locate(Top, tree, enode);
      ProperIs(Pic(), root, leftmost, rightmost, p, t);
      var sc, scp, lost;
      ghost var q, u;
      sc, scp, lost, q, u := TakeOut(enode, p, t);
      if lost.Black? {
        q, u := DeleteFixup(sc, scp, q, u);
      }
      ProperPlug(Pic(), root, leftmost, rightmost, q, u);
      tree := Plug(q, u);
    }

    /** erase_: the node leaves the map with its binding; nothing else changes. */
    method EraseNode(enode: Node<V>)
      requires Valid() && enode in nodes
      modifies this`root, this`nodes, this`tree, this`leftmost, this`rightmost, this`nodeCount, this`contents
      modifies nodes`parent, nodes`left, nodes`right, nodes`colour
      ensures Valid() && nodes == old(nodes) - {enode}
      ensures contents == old(contents) - {enode.key}
    {
      hide Pic, Proper, Size;
      UniqueKeys(enode);
      EraseFromTree(enode);
      nodeCount := nodeCount - 1;
      contents := contents - {enode.key};
    }

    lemma UniqueKeys(n: Node<V>)
      requires Shaped() && n in nodes
      ensures forall m :: m in nodes && m.key == n.key ==> m == n
    {
      hide Less, InFocus, Sorted, Proper;
      PicIs();
      PlugTop(tree);
      ProperIs(Pic(), root, leftmost, rightmost, Top, tree);
      OrderPlug(Top, tree);
      forall m | m in nodes && m.key == n.key ensures m == n {
        OrderHas(tree, m);
        OrderHas(tree, n);
        SameKeySameNode(Order(tree), m, n);
      }
    }

    /** erase(key): like find, then erase_; an absent key changes nothing. */
    method Erase(key: Key)
      requires Valid()
      modifies this, nodes`parent, nodes`left, nodes`right, nodes`colour
      ensures Valid() && contents == old(contents) - {key}
      ensures nodes <= old(nodes)
    {
      var node, _ := Find(key);
      if node != null { EraseNode(node); }
    }

    /** clear(): the nodes are given back and the header is reset. */
    method Clear()
      requires Valid()
      modifies this
      ensures Valid() && contents == map[] && nodes == {} && nodeCount == 0
      ensures root == null && leftmost == null && rightmost == null
    {
      hide Proper, Size;
      root, leftmost, rightmost, nodeCount := null, null, null, 0;
      nodes, tree, contents := {}, Leaf, map[];
      assert Pic() == map[];
      EmptyProper(Pic());
    }

    // ---------------------------------------------------------------- iteration

    method Begin() returns (it: Node?<V>)
      requires Valid()
      ensures it == First(Order(tree))
    {
      hide First, Order;
      it := leftmost;
    }

    /** Climbs until it comes up from the left: to the first node after the subtree t. */
    method Climb(it: Node<V>, ghost p: Path<V>, ghost t: Tree<V>) returns (r: Node?<V>)
      requires InFocus(Pic(), root, p, t) && t.Root() == it
      ensures r == First(After(p))
    {
      hide InFocus, Pic, After;
      FocusIn(p, t);
      var x: Node<V> := it;
      var up := it.parent;
      ghost var cp, ct := p, t;
      while up != null && up.right == x
        invariant InFocus(Pic(), root, cp, ct) && ct.Root() == x && up == cp.Under(null)
        invariant After(cp) == After(p)
        decreases Len(cp)
      {
        FocusIn(cp, ct);
        FocusZoom(Pic(), root, cp.up, cp.side, ct, cp.node, cp.colour, cp.other);
        AfterClimb(cp);
        x := up;
        up := up.parent;
        cp, ct := cp.up, Make(cp.side, ct, cp.node, cp.colour, cp.other);
      }
      FocusIn(cp, ct);
      AfterClimb(cp);
      r := up;
    }

    /** The first node of the right subtree is the next one. */
    method NextBelow(it: Node<V>, ghost p: Path<V>, ghost t: Tree<V>) returns (r: Node<V>)
      requires InFocus(Pic(), root, p, t) && t.Root() == it && it.right == t.right.Root() != null
      ensures var k := |Before(p)| + |Order(t.left)| + 1; k < |Whole(p, t)| && Whole(p, t)[k] == r
    {
      hide InFocus, Pic, Order, Before, Whole, Append;
      ghost var base := Down(p, R, it, t.colour, t.left);
      FocusZoom(Pic(), root, p, R, t.right, it, t.colour, t.left);
      WholeZoom(p, R, t.right, it, t.colour, t.left);
      ghost var q, u;
      r, q, u := Extreme(it.right, L, base, t.right);
      SpineAt(q, base, u);
      BeforeRight(p, it, t.colour, t.left);
    }

    /** operator++: from a node to its in-order successor, or to null (end) after the last one. */
    method Next(it: Node<V>, ghost i: nat) returns (r: Node?<V>)
      requires Valid() && it in nodes && i < |Order(tree)| && Order(tree)[i] == it
      ensures r == At(Order(tree), i + 1)
    {
      hide InFocus, Pic, Order, Before, After, Settled, Sorted, Last, Plug, Proper, RedBlack, Append;
      PicIs();
      PlugTop(tree);
      ProperIs(Pic(), root, leftmost, rightmost, Top, tree);
      ghost var p, t := Locate(Top, tree, it);
      ProperIs(Pic(), root, leftmost, rightmost, p, t);
      OrderPlug(p, t);
      PlaceOf(p, t);
      FocusIn(p, t);
      if it.right != null {
        r := NextBelow(it, p, t);
      } else if it.parent != null {
        r := Climb(it, p, t);
      } else {
        AfterClimb(p);
        r := null;
      }
      assert t.right.Leaf? ==> r == First(After(p));
    }

    /** A loop from begin() to end(): the bindings, each once, in strictly increasing key order. */
    method Walk() returns (keys: seq<Key>, values: seq<V>)
      requires Valid()
      ensures |keys| == |values| == |contents|
      ensures forall i, j :: 0 <= i < j < |keys| ==> Precedes(keys[i], keys[j])
      ensures forall i :: 0 <= i < |keys| ==> keys[i] in contents && values[i] == contents[keys[i]]
      ensures forall k :: k in contents ==> k in keys
    {
      hide InFocus, Pic, Order, Proper, Size, Plug, Less, Precedes, Shaped, Sorted, First;
      ghost var s := Order(tree);
      InOrderNodes();
      WalkStarts();
      keys, values := [], [];
      var it := Begin();
      while it != null
        invariant |values| == |keys| && |keys| <= |s|
        invariant it == At(s, |keys|)
        invariant forall i :: 0 <= i < |keys| ==> keys[i] == s[i].key && values[i] == s[i].value
        decreases |s| - |keys|
      {
        ghost var i := |keys|;
        keys, values := keys + [it.key], values + [it.value];
        it := Next(it, i);
      }
      KeyCount(s, contents.Keys);
      WalkEnds(s, keys, values);
      forall i, j | 0 <= i < j < |keys| ensures Precedes(keys[i], keys[j]) { LessIs(keys[i], keys[j]); }
    }

    lemma WalkEnds(s: seq<Node<V>>, keys: seq<Key>, values: seq<V>)
      requires Agrees() && Sorted(s) && |s| == |keys| == |values|
      requires forall i :: 0 <= i < |s| ==> s[i] in nodes && keys[i] == s[i].key && values[i] == s[i].value
      requires forall k :: k in contents ==> exists i :: 0 <= i < |s| && s[i].key == k
      ensures forall i, j :: 0 <= i < j < |keys| ==> Less(keys[i], keys[j])
      ensures forall i :: 0 <= i < |keys| ==> keys[i] in contents && values[i] == contents[keys[i]]
      ensures forall k :: k in contents ==> k in keys
    {
      hide Less;
    }

    lemma WalkStarts()
      requires Shaped()
      ensures leftmost == First(Order(tree)) == At(Order(tree), 0) && Agrees()
    {}

    /** The in-order sequence holds exactly the nodes, in strict key order. */
    lemma InOrderNodes()
      requires Shaped()
      ensures forall i :: 0 <= i < |Order(tree)| ==> Order(tree)[i] in nodes
      ensures forall n :: n in nodes ==> n in Order(tree)
      ensures Sorted(Order(tree))
      ensures forall k :: k in contents ==> exists i :: 0 <= i < |Order(tree)| && Order(tree)[i].key == k
      ensures forall i :: 0 <= i < |Order(tree)| ==> Order(tree)[i].key in contents
    {
      hide InFocus, Pic, Order, Proper, Size, Plug, Less, Sorted;
      PicIs();
      PlugTop(tree);
      ProperIs(Pic(), root, leftmost, rightmost, Top, tree);
      OrderPlug(Top, tree);
      forall n | n in nodes ensures n in Order(tree) { OrderHas(tree, n); }
      forall i | 0 <= i < |Order(tree)| ensures Order(tree)[i] in nodes { OrderHas(tree, Order(tree)[i]); }
    }

    /** size(): the cached node count is the number of bindings. */
    method Count() returns (n: nat)
      requires Valid()
      ensures n == |contents|
    {
      hide Proper, Size, Order;
      InOrderNodes();
      KeyCount(Order(tree), contents.Keys);
      OrderLength(tree);
      n := nodeCount;
    }

    /** The bound behind every lookup: 2^steps is at most (size + 1)^2. */
    lemma LookupBound()
      requires Valid()
      ensures Pow2(Height(tree)) <= (nodeCount + 1) * (nodeCount + 1)
    {
      hide InFocus, Sorted;
      HeightIsLogarithmic(tree);
    }

    method SetValue(n: Node<V>, v: V)
      requires Valid() && n in nodes
      modifies n`value, this`contents
      ensures Valid() && contents == old(contents)[n.key := v] && n.value == v
    {
      hide Pic, Proper;
      UniqueKeys(n);
      n.value := v;
      contents := contents[n.key := v];
    }

    // ---------------------------------------------------------------- copying

    /** copy_nodes_: a fresh subtree like the one below src, hung below pnode. */
    method CopyNodes(pnode: Node?<V>, src: Node<V>, from: NeMap<V>, ghost m: Picture<V>, ghost t: Tree<V>,
                     ghost above: Node?<V>)
      returns (nn: Node<V>, ghost t': Tree<V>)
      requires from != this && Nodes(t) <= from.nodes
      requires t.Root() == src && m == Photo(from.nodes) && Shows(m, t, above)
      modifies this`nodeCount, this`leftmost, this`rightmost
      ensures fresh(Nodes(t')) && t'.Root() == nn
      ensures IsCopy(t, t', pnode)
      ensures nodeCount == old(nodeCount) + Size(t)
      ensures leftmost == Twin(t, t', from.leftmost, old(leftmost))
          && rightmost == Twin(t, t', from.rightmost, old(rightmost))
      decreases t, 1
    {
      hide IsCopy, Shows, Nodes, Twin, Size, Photo;
      CopyFacts(from, m, t, above);
      nn := new Node.Copied(src.key, src.value, pnode, src.colour);
      nodeCount := nodeCount + 1;
      ghost var l, r := CopyKids(nn, src, from, m, t);
      t' := Bin(l, nn, t.colour, r);
      CopyJoins(t, t', pnode);
      if src == from.leftmost { leftmost := nn; }
      if src == from.rightmost { rightmost := nn; }
      TwinStep(t, t', from.leftmost, old(leftmost));
      TwinStep(t, t', from.rightmost, old(rightmost));
    }

    /** Both subtrees of src are copied and hung below nn. */
    method CopyKids(nn: Node<V>, src: Node<V>, from: NeMap<V>, ghost m: Picture<V>, ghost t: Tree<V>)
      returns (ghost l: Tree<V>, ghost r: Tree<V>)
      requires from != this && Nodes(t) <= from.nodes && nn !in from.nodes
      requires t.Bin? && t.node == src && m == Photo(from.nodes)
      requires Nodes(t.left) <= from.nodes && Nodes(t.right) <= from.nodes
      requires src.left == t.left.Root() && src.right == t.right.Root()
      requires Shows(m, t.left, src) && Shows(m, t.right, src)
      modifies this`nodeCount, this`leftmost, this`rightmost, nn`left, nn`right
      ensures fresh(Nodes(l)) && fresh(Nodes(r)) && Nodes(l) !! Nodes(r)
      ensures IsCopy(t.left, l, nn) && IsCopy(t.right, r, nn) && nn.left == l.Root() && nn.right == r.Root()
      ensures nodeCount == old(nodeCount) + Size(t.left) + Size(t.right)
      ensures leftmost == Twin(t.right, r, from.leftmost, Twin(t.left, l, from.leftmost, old(leftmost)))
      ensures rightmost == Twin(t.right, r, from.rightmost, Twin(t.left, l, from.rightmost, old(rightmost)))
      decreases t, 0
    {
      hide IsCopy, Shows, Nodes, Twin, Size, Photo;
      ghost var ln, rn;
      nn.left, l, ln := CopyChild(nn, src.left, from, m, t.left, src);
      assert nn !in ln && IsCopy(t.left, l, nn) && m == Photo(from.nodes);
      nn.right, r, rn := CopyChild(nn, src.right, from, m, t.right, src);
      assert nn !in rn && ln !! rn;
    }

    /** The recursive calls of copy_nodes_, with the test for an absent child. */
    method CopyChild(pnode: Node<V>, src: Node?<V>, from: NeMap<V>, ghost m: Picture<V>, ghost t: Tree<V>,
                     ghost above: Node?<V>)
      returns (nn: Node?<V>, ghost t': Tree<V>, ghost ns: set<Node<V>>)
      requires from != this && Nodes(t) <= from.nodes
      requires t.Root() == src && m == Photo(from.nodes) && Shows(m, t, above)
      modifies this`nodeCount, this`leftmost, this`rightmost
      ensures fresh(Nodes(t')) && t'.Root() == nn && ns == Nodes(t')
      ensures IsCopy(t, t', pnode)
      ensures nodeCount == old(nodeCount) + Size(t)
      ensures leftmost == Twin(t, t', from.leftmost, old(leftmost))
          && rightmost == Twin(t, t', from.rightmost, old(rightmost))
      decreases t, 2
    {
      if src != null {
        hide IsCopy, Shows, Nodes, Twin, Size, Photo;
        nn, t' := CopyNodes(pnode, src, from, m, t, above);
      } else {
        nn, t' := null, Leaf;
      }
      ns := Nodes(t');
    }

    static lemma CopyFacts(from: NeMap<V>, m: Picture<V>, t: Tree<V>, above: Node?<V>)
      requires t.Bin? && Nodes(t) <= from.nodes && m == Photo(from.nodes) && Shows(m, t, above)
      ensures t.node.left == t.left.Root() && t.node.right == t.right.Root() && t.node.colour == t.colour
      ensures Nodes(t.left) <= from.nodes && Nodes(t.right) <= from.nodes
      ensures Shows(m, t.left, t.node) && Shows(m, t.right, t.node)
    {}

    static lemma CopyJoins(t: Tree<V>, t': Tree<V>, parent: Node?<V>)
      requires t.Bin? && t'.Bin? && t'.colour == t.colour && t'.node.key == t.node.key && t'.node.value == t.node.value
      requires IsCopy(t.left, t'.left, t'.node) && IsCopy(t.right, t'.right, t'.node)
      requires t'.node !in Nodes(t'.left) && t'.node !in Nodes(t'.right) && Nodes(t'.left) !! Nodes(t'.right)
      requires t'.node.left == t'.left.Root() && t'.node.right == t'.right.Root() && t'.node.parent == parent
          && t'.node.colour == t'.colour
      ensures IsCopy(t, t', parent)
      ensures Nodes(t') == Nodes(t'.left) + {t'.node} + Nodes(t'.right)
      ensures Size(t) == Size(t.left) + 1 + Size(t.right)
    {
      ShowsFrame(Photo(Nodes(t'.left)), Photo(Nodes(t')), t'.left, t'.node);
      ShowsFrame(Photo(Nodes(t'.right)), Photo(Nodes(t')), t'.right, t'.node);
    }

    static lemma TwinStep(t: Tree<V>, t': Tree<V>, n: Node?<V>, none: Node?<V>)
      requires t.Bin? && t'.Bin?
      ensures Twin(t, t', n, none) ==
              if t.node == n then t'.node else Twin(t.right, t'.right, n, Twin(t.left, t'.left, n, none))
    {}

    /** operator=: the map becomes an independent copy of another one. */
    method CopyFrom(right: NeMap<V>)
      requires Valid() && right.Valid() && right != this
      modifies this
      ensures Valid() && contents == right.contents && fresh(nodes) && nodeCount == right.nodeCount
    {
      hide IsCopy, Proper, Photo, Shows, Nodes, Twin, Size, Shaped, Agrees, RedBlack, Order, Less;
      Clear();
      if right.root != null {
        ghost var m, t, t' := Photo(right.nodes), right.tree, Leaf;
        CopyStarts(right, m);
        root, t' := CopyNodes(root, right.root, right, m, t, null);
        nodes, tree, contents := Nodes(t'), t', right.contents;
        assert right.Valid() && m == Photo(right.nodes) && IsCopy(t, t', null);
        CopyEnds(right, m, t');
      } else {
        EmptyCopy(right);
      }
    }

    static lemma EmptyCopy(right: NeMap<V>)
      requires right.Valid() && right.root == null
      ensures right.contents == map[] && right.nodeCount == 0
    {
      hide Less;
      right.PicIs();
      assert right.tree == Leaf && right.nodes == {};
    }

    static lemma CopyStarts(right: NeMap<V>, m: Picture<V>)
      requires right.Valid() && m == Photo(right.nodes)
      ensures right.tree.Root() == right.root && Shows(m, right.tree, null) && Nodes(right.tree) == right.nodes
      ensures Size<V>(Leaf) == 0
    {
      hide Less, Sorted;
      assert PathNodes<V>(Top) == {};
    }

    lemma CopyEnds(right: NeMap<V>, m: Picture<V>, t': Tree<V>)
      requires right.Valid() && m == Photo(right.nodes) && IsCopy(right.tree, t', null)
      requires nodes == Nodes(t') && tree == t' && contents == right.contents && root == t'.Root()
      requires leftmost == Twin(right.tree, t', right.leftmost, null)
          && rightmost == Twin(right.tree, t', right.rightmost, null)
      ensures Shaped() && Size(t') == Size(right.tree)
    {
      hide Proper, Shows, Apart, Nodes, Twin, Size, Order, Alike, SameValues, Shaped, IsCopy, Photo;
      right.InOrderNodes();
      right.ShapedIs();
      IsCopyIs(right.tree, t', null);
      CopyProper(m, right.root, right.leftmost, right.rightmost, right.tree, Photo(nodes), t');
      SameValuesOrder(right.tree, t');
      CopyAgrees(right);
      ShapedIs();
    }

    static lemma IsCopyIs(t: Tree<V>, t': Tree<V>, parent: Node?<V>)
      requires IsCopy(t, t', parent)
      ensures Alike(t, t') && SameValues(t, t') && Apart(t') && Shows(Photo(Nodes(t')), t', parent)
          && Photo(Nodes(t')).Keys == Nodes(t')
    {}

    lemma ShapedIs()
      ensures Shaped() <==> Proper(Pic(), root, leftmost, rightmost, tree) && Agrees()
    {}

    lemma CopyAgrees(right: NeMap<V>)
      requires right.Agrees() && contents == right.contents && nodes == Nodes(tree)
      requires forall i :: 0 <= i < |Order(right.tree)| ==> Order(right.tree)[i] in right.nodes
      requires forall n :: n in right.nodes ==> n in Order(right.tree)
      requires |Order(tree)| == |Order(right.tree)|
      requires forall i :: 0 <= i < |Order(tree)| ==>
        Order(tree)[i].key == Order(right.tree)[i].key && Order(tree)[i].value == Order(right.tree)[i].value
      ensures Agrees()
    {
      hide Order, Nodes;
      forall n | n in nodes ensures n.key in contents && contents[n.key] == n.value {
        OrderHas(tree, n);
        var i :| 0 <= i < |Order(tree)| && Order(tree)[i] == n;
        assert Order(right.tree)[i] in right.nodes;
      }
      forall k | k in contents ensures exists n :: n in nodes && n.key == k {
        var n :| n in right.nodes && n.key == k;
        var i :| 0 <= i < |Order(right.tree)| && Order(right.tree)[i] == n;
        OrderHas(tree, Order(tree)[i]);
      }
    }
  }
}