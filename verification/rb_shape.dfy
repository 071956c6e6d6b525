/** The nodes of the red-black tree of ctljson.hpp and the shapes they form.

    A `Tree` is a value that names the nodes of a (sub)tree and their colours; a `Path` is a
    tree with one subtree cut out, seen from the cut. A `Picture` records the pointer fields of
    a set of nodes. `Shows` and `ShowsPath` say that the pointers of a picture form a shape, so
    everything below except the class itself is about values.
  */
module RbShape {
  import opened Basics
  import opened Keys

  datatype Colour = Red | Black

  datatype Side = L | R {
    function Other(): Side { if L? then R else L }
  }

  class Node<V> {
    const key: Key
    var value: V
    var parent: Node?<V>
    var left: Node?<V>
    var right: Node?<V>
    var colour: Colour

    constructor (key: Key, value: V)
      ensures this.key == key && this.value == value
      ensures parent == null && left == null && right == null && colour == Red
    {
      this.key, this.value := key, value;
      parent, left, right, colour := null, null, null, Red;
    }

    constructor Copied(key: Key, value: V, parent: Node?<V>, colour: Colour)
      ensures this.key == key && this.value == value && this.parent == parent && this.colour == colour
    {
      this.key, this.value, this.parent, this.colour := key, value, parent, colour;
      left, right := null, null;
    }

    function Kid(s: Side): Node?<V>
      reads this
    {
      if s.L? then left else right
    }
  }

  datatype Tree<V> = Leaf | Bin(left: Tree<V>, node: Node<V>, colour: Colour, right: Tree<V>) {
    function Root(): Node?<V> { if Leaf? then null else node }
    predicate IsRed() { Bin? && colour.Red? }
    function Painted(c: Colour): Tree<V> { if Leaf? then Leaf else this.(colour := c) }
    function Sub(s: Side): Tree<V> requires Bin? { if s.L? then left else right }
  }

  /** The tree with `near` on side s of node n and `far` on the other side. */
  function Make<V>(s: Side, near: Tree<V>, n: Node<V>, c: Colour, far: Tree<V>): Tree<V> {
    if s.L? then Bin(near, n, c, far) else Bin(far, n, c, near)
  }

  /** `Down(up, s, n, c, other)`: the hole is on side s of node n, whose other child is `other`. */
  datatype Path<V> = Top | Down(up: Path<V>, side: Side, node: Node<V>, colour: Colour, other: Tree<V>) {
    function Under(above: Node?<V>): Node?<V> { if Top? then above else node }
  }

  function Plug<V>(p: Path<V>, t: Tree<V>): Tree<V> {
    if p.Top? then t else Plug(p.up, Make(p.side, t, p.node, p.colour, p.other))
  }

  function RootVia<V>(p: Path<V>, hole: Node?<V>): Node?<V> {
    if p.Top? then hole else RootVia(p.up, p.node)
  }

  /** The path q continued above by the path base. */
  function Append<V>(q: Path<V>, base: Path<V>): Path<V> {
    if q.Top? then base else q.(up := Append(q.up, base))
  }

  // ---------------------------------------------------------------- nodes of a shape

  function Nodes<V>(t: Tree<V>): set<Node<V>> {
    if t.Leaf? then {} else Nodes(t.left) + {t.node} + Nodes(t.right)
  }

  function PathNodes<V>(p: Path<V>): set<Node<V>> {
    if p.Top? then {} else PathNodes(p.up) + {p.node} + Nodes(p.other)
  }

  function Size<V>(t: Tree<V>): nat {
    if t.Leaf? then 0 else Size(t.left) + 1 + Size(t.right)
  }

  function PathSize<V>(p: Path<V>): nat {
    if p.Top? then 0 else PathSize(p.up) + 1 + Size(p.other)
  }

  /** No node occurs twice. */
  predicate Apart<V>(t: Tree<V>) {
    t.Bin? ==> (t.node !in Nodes(t.left) && t.node !in Nodes(t.right) && Nodes(t.left) !! Nodes(t.right)
                && Apart(t.left) && Apart(t.right))
  }

  predicate ApartPath<V>(p: Path<V>) {
    !p.Top? ==> (p.node !in PathNodes(p.up) && p.node !in Nodes(p.other) && Nodes(p.other) !! PathNodes(p.up)
                 && Apart(p.other) && ApartPath(p.up))
  }

  predicate Separate<V>(p: Path<V>, t: Tree<V>) {
    Apart(t) && ApartPath(p) && Nodes(t) !! PathNodes(p)
  }

  lemma RootInNodes<V>(t: Tree<V>)
    ensures t.Bin? ==> t.node in Nodes(t)
  {}

  lemma RootViaInPath<V>(p: Path<V>, hole: Node?<V>)
    ensures p.Top? ==> RootVia(p, hole) == hole
    ensures !p.Top? ==> p.node in PathNodes(p) && RootVia(p, hole) in PathNodes(p)
  {}

  lemma ApartMake<V>(s: Side, a: Tree<V>, n: Node<V>, c: Colour, b: Tree<V>)
    ensures Nodes(Make(s, a, n, c, b)) == Nodes(a) + {n} + Nodes(b)
    ensures Size(Make(s, a, n, c, b)) == Size(a) + 1 + Size(b)
    ensures Apart(Make(s, a, n, c, b)) <==>
            n !in Nodes(a) && n !in Nodes(b) && Nodes(a) !! Nodes(b) && Apart(a) && Apart(b)
  {}

  /** Moving the focus between a node and its child s changes neither the nodes nor their distinctness. */
  lemma SeparateZoom<V>(p: Path<V>, s: Side, a: Tree<V>, n: Node<V>, c: Colour, b: Tree<V>)
    ensures Separate(p, Make(s, a, n, c, b)) <==> Separate(Down(p, s, n, c, b), a)
    ensures PathNodes(Down(p, s, n, c, b)) + Nodes(a) == PathNodes(p) + Nodes(Make(s, a, n, c, b))
    ensures PathSize(Down(p, s, n, c, b)) + Size(a) == PathSize(p) + Size(Make(s, a, n, c, b))
  {
    ApartMake(s, a, n, c, b);
  }

  // ---------------------------------------------------------------- in-order sequence

  function Order<V>(t: Tree<V>): seq<Node<V>> {
    if t.Leaf? then [] else Order(t.left) + [t.node] + Order(t.right)
  }

  function Before<V>(p: Path<V>): seq<Node<V>> {
    if p.Top? then [] else if p.side.L? then Before(p.up) else Before(p.up) + Order(p.other) + [p.node]
  }

  function After<V>(p: Path<V>): seq<Node<V>> {
    if p.Top? then [] else if p.side.R? then After(p.up) else [p.node] + Order(p.other) + After(p.up)
  }

  /** The in-order sequence of the whole tree around the focus. */
  function Whole<V>(p: Path<V>, t: Tree<V>): seq<Node<V>> {
    Before(p) + Order(t) + After(p)
  }

  lemma WholeZoom<V>(p: Path<V>, s: Side, a: Tree<V>, n: Node<V>, c: Colour, b: Tree<V>)
    ensures Whole(Down(p, s, n, c, b), a) == Whole(p, Make(s, a, n, c, b))
  {
    var q := Down(p, s, n, c, b);
    if s.L? {
      assert Before(q) == Before(p) && After(q) == [n] + Order(b) + After(p);
      assert Order(Make(s, a, n, c, b)) == Order(a) + [n] + Order(b);
      Regroup(Before(p), Order(a), [n] + Order(b), After(p));
      assert [n] + Order(b) + After(p) == ([n] + Order(b)) + After(p);
      assert Order(a) + [n] + Order(b) == Order(a) + ([n] + Order(b));
    } else {
      assert Before(q) == Before(p) + Order(b) + [n] && After(q) == After(p);
      assert Order(Make(s, a, n, c, b)) == Order(b) + [n] + Order(a);
      Regroup(Before(p), Order(b) + [n], Order(a), After(p));
      assert Before(p) + Order(b) + [n] == Before(p) + (Order(b) + [n]);
    }
  }

  lemma {:induction false} OrderPlug<V>(p: Path<V>, t: Tree<V>)
    ensures Order(Plug(p, t)) == Whole(p, t)
    ensures Nodes(Plug(p, t)) == PathNodes(p) + Nodes(t)
    ensures Size(Plug(p, t)) == PathSize(p) + Size(t)
    ensures Apart(Plug(p, t)) <==> Separate(p, t)
    ensures Plug(p, t).Root() == RootVia(p, t.Root())
    decreases p
  {
    if !p.Top? {
      OrderPlug(p.up, Make(p.side, t, p.node, p.colour, p.other));
      WholeZoom(p.up, p.side, t, p.node, p.colour, p.other);
      SeparateZoom(p.up, p.side, t, p.node, p.colour, p.other);
    }
  }

  lemma {:induction false} OrderHas<V>(t: Tree<V>, n: Node<V>)
    ensures n in Order(t) <==> n in Nodes(t)
    ensures |Order(t)| == Size(t)
  {
    if t.Bin? {
      OrderHas(t.left, n);
      OrderHas(t.right, n);
    }
  }

  /** A rotation at the focus keeps the in-order sequence, the nodes and their distinctness. */
  lemma RotationKeeps<V>(p: Path<V>, s: Side, a: Tree<V>, nc: Node<V>, c: Colour, b: Tree<V>,
                         np: Node<V>, d: Colour, e: Tree<V>, c': Colour, d': Colour)
    ensures var t, t' := Make(s, a, nc, c, Make(s, b, np, d, e)), Make(s, Make(s, a, nc, c', b), np, d', e);
      && Order(t') == Order(t) && Nodes(t') == Nodes(t) && Size(t') == Size(t)
      && (Separate(p, t) ==> Separate(p, t'))
  {
    hide Nodes, Apart, Size, Order;
    var u, v := Make(s, b, np, d, e), Make(s, a, nc, c', b);
    ApartMake(s, b, np, d, e);
    ApartMake(s, a, nc, c', b);
    ApartMake(s, a, nc, c, u);
    ApartMake(s, v, np, d', e);
    OrderMake(s, b, np, d, e);
    OrderMake(s, a, nc, c', b);
    OrderMake(s, a, nc, c, u);
    OrderMake(s, v, np, d', e);
    if s.L? {
      Regroup(Order(a), [nc], Order(b) + [np], Order(e));
      Regroup(Order(a) + [nc], Order(b), [np], Order(e));
    } else {
      Regroup(Order(e), [np], Order(b) + [nc], Order(a));
      Regroup(Order(e) + [np], Order(b), [nc], Order(a));
    }
  }

  lemma OrderMake<V>(s: Side, a: Tree<V>, n: Node<V>, c: Colour, b: Tree<V>)
    ensures Order(Make(s, a, n, c, b))
            == if s.L? then Order(a) + [n] + Order(b) else Order(b) + [n] + Order(a)
  {}

  // ---------------------------------------------------------------- pictures of the heap

  datatype Links<V> = Links(parent: Node?<V>, left: Node?<V>, right: Node?<V>, colour: Colour) {
    function Kid(s: Side): Node?<V> { if s.L? then left else right }
    function With(s: Side, x: Node?<V>): Links<V> { if s.L? then this.(left := x) else this.(right := x) }
  }

  function Wire<V>(s: Side, parent: Node?<V>, near: Node?<V>, far: Node?<V>, c: Colour): Links<V> {
    if s.L? then Links(parent, near, far, c) else Links(parent, far, near, c)
  }

  type Picture<V> = map<Node<V>, Links<V>>

  predicate Shows<V>(m: Picture<V>, t: Tree<V>, parent: Node?<V>) {
    t.Bin? ==> (t.node in m && m[t.node] == Links(parent, t.left.Root(), t.right.Root(), t.colour)
                && Shows(m, t.left, t.node) && Shows(m, t.right, t.node))
  }

  /** The pointers on the path lead from a node above it (null for the whole tree) to the hole. */
  predicate ShowsPath<V>(m: Picture<V>, p: Path<V>, above: Node?<V>, hole: Node?<V>) {
    !p.Top? ==> (p.node in m && m[p.node] == Wire(p.side, p.up.Under(above), hole, p.other.Root(), p.colour)
                 && Shows(m, p.other, p.node) && ShowsPath(m, p.up, above, p.node))
  }

  ghost predicate SameOn<V>(m: Picture<V>, m': Picture<V>, s: set<Node<V>>) {
    forall n :: n in s && n in m ==> n in m' && m[n] == m'[n]
  }

  ghost predicate SameBut<V>(m: Picture<V>, m': Picture<V>, s: set<Node?<V>>) {
    forall n :: n in m && n !in s ==> n in m' && m[n] == m'[n]
  }

  lemma ShowsMake<V>(m: Picture<V>, s: Side, a: Tree<V>, n: Node<V>, c: Colour, b: Tree<V>, parent: Node?<V>)
    ensures Shows(m, Make(s, a, n, c, b), parent) <==>
            n in m && m[n] == Wire(s, parent, a.Root(), b.Root(), c) && Shows(m, a, n) && Shows(m, b, n)
  {}

  /** Seen from a child, the same pointers: zooming in or out touches nothing. */
  lemma ShowsZoom<V>(m: Picture<V>, p: Path<V>, s: Side, a: Tree<V>, n: Node<V>, c: Colour, b: Tree<V>)
    ensures Shows(m, Make(s, a, n, c, b), p.Under(null)) && ShowsPath(m, p, null, n) <==>
            Shows(m, a, n) && ShowsPath(m, Down(p, s, n, c, b), null, a.Root())
  {
    ShowsMake(m, s, a, n, c, b, p.Under(null));
  }

  lemma {:induction false} ShowsPlug<V>(m: Picture<V>, p: Path<V>, t: Tree<V>)
    ensures Shows(m, Plug(p, t), null) <==> Shows(m, t, p.Under(null)) && ShowsPath(m, p, null, t.Root())
    decreases p
  {
    if !p.Top? {
      ShowsPlug(m, p.up, Make(p.side, t, p.node, p.colour, p.other));
      ShowsZoom(m, p.up, p.side, t, p.node, p.colour, p.other);
    }
  }

  lemma {:induction false} ShowsFrame<V>(m: Picture<V>, m': Picture<V>, t: Tree<V>, parent: Node?<V>)
    requires Shows(m, t, parent) && SameOn(m, m', Nodes(t))
    ensures Shows(m', t, parent)
  {
    if t.Bin? {
      ShowsFrame(m, m', t.left, t.node);
      ShowsFrame(m, m', t.right, t.node);
    }
  }

  lemma {:induction false} ShowsPathFrame<V>(m: Picture<V>, m': Picture<V>, p: Path<V>, above: Node?<V>, hole: Node?<V>)
    requires ShowsPath(m, p, above, hole) && SameOn(m, m', PathNodes(p))
    ensures ShowsPath(m', p, above, hole)
  {
    if !p.Top? {
      ShowsFrame(m, m', p.other, p.node);
      ShowsPathFrame(m, m', p.up, above, p.node);
    }
  }

  /** The root of t gets a new parent and perhaps a colour; the rest of t is not touched. */
  lemma Reparent<V>(m: Picture<V>, m': Picture<V>, t: Tree<V>, c: Colour, was: Node?<V>, now: Node?<V>,
                    but: set<Node?<V>>)
    requires Shows(m, t, was) && Apart(t)
    requires SameBut(m, m', but) && but !! Nodes(t) - {t.Root()}
    requires t.Bin? ==> t.node in m && t.node in m' && m'[t.node] == m[t.node].(parent := now, colour := c)
    ensures Shows(m', t.Painted(c), now)
  {
    if t.Bin? {
      ShowsFrame(m, m', t.left, t.node);
      ShowsFrame(m, m', t.right, t.node);
    }
  }

  /** The slot above the hole gets a new child; the rest of the path is not touched. */
  lemma Repoint<V>(m: Picture<V>, m': Picture<V>, p: Path<V>, above: Node?<V>, was: Node?<V>, now: Node?<V>,
                   but: set<Node?<V>>)
    requires ShowsPath(m, p, above, was) && ApartPath(p)
    requires SameBut(m, m', but) && but !! PathNodes(p) - {p.Under(null)}
    requires !p.Top? ==> p.node in m && p.node in m' && m'[p.node] == m[p.node].With(p.side, now)
    ensures ShowsPath(m', p, above, now)
  {
    if !p.Top? {
      ShowsFrame(m, m', p.other, p.node);
      ShowsPathFrame(m, m', p.up, above, p.node);
    }
  }

  // ---------------------------------------------------------------- path segments

  function Bottom<V>(q: Path<V>): Node<V>
    requires !q.Top?
  {
    if q.up.Top? then q.node else Bottom(q.up)
  }

  /** A path that goes down on side s only. */
  predicate Spine<V>(q: Path<V>, s: Side) { !q.Top? ==> q.side == s && Spine(q.up, s) }

  lemma {:induction false} BottomInPath<V>(q: Path<V>)
    requires !q.Top?
    ensures Bottom(q) in PathNodes(q)
    ensures q.up.Top? ==> Bottom(q) == q.node
  {
    if !q.up.Top? { BottomInPath(q.up); }
  }

  lemma {:induction false} AppendSeparate<V>(q: Path<V>, base: Path<V>)
    ensures PathNodes(Append(q, base)) == PathNodes(q) + PathNodes(base)
    ensures PathSize(Append(q, base)) == PathSize(q) + PathSize(base)
    ensures ApartPath(Append(q, base)) <==> ApartPath(q) && ApartPath(base) && PathNodes(q) !! PathNodes(base)
  {
    if !q.Top? { AppendSeparate(q.up, base); }
  }

  lemma {:induction false} AppendShows<V>(m: Picture<V>, q: Path<V>, base: Path<V>, hole: Node?<V>)
    ensures ShowsPath(m, Append(q, base), null, hole) <==>
            ShowsPath(m, q, base.Under(null), hole) && ShowsPath(m, base, null, RootVia(q, hole))
    ensures RootVia(Append(q, base), hole) == RootVia(base, RootVia(q, hole))
  {
    if !q.Top? { AppendShows(m, q.up, base, q.node); }
  }

  lemma {:induction false} AppendSpine<V>(q: Path<V>, base: Path<V>, s: Side)
    requires Spine(q, s)
    ensures s.L? ==> Before(Append(q, base)) == Before(base) && After(Append(q, base)) == After(q) + After(base)
    ensures s.R? ==> After(Append(q, base)) == After(base) && Before(Append(q, base)) == Before(base) + Before(q)
  {
    if !q.Top? {
      AppendSpine(q.up, base, s);
      hide Order;
      Assoc([q.node] + Order(q.other), After(q.up), After(base));
      Assoc(Before(base), Before(q.up) + Order(q.other), [q.node]);
      Assoc(Before(base), Before(q.up), Order(q.other));
    }
  }

  /** A segment is hung below another node: only its bottom node notices. */
  lemma {:induction false} Rebase<V>(m: Picture<V>, m': Picture<V>, q: Path<V>, was: Node?<V>, now: Node?<V>,
                                     hole: Node?<V>)
    requires !q.Top? && ShowsPath(m, q, was, hole) && ApartPath(q)
    requires SameOn(m, m', PathNodes(q) - {Bottom(q)})
    requires Bottom(q) in m && Bottom(q) in m' && m'[Bottom(q)] == m[Bottom(q)].(parent := now)
    ensures ShowsPath(m', q, now, hole)
  {
    BottomInPath(q);
    if !q.up.Top? { BottomInPath(q.up); Rebase(m, m', q.up, was, now, q.node); }
    ShowsFrame(m, m', q.other, q.node);
  }
}
