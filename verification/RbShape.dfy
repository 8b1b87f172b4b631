/**
  Shapes of the red-black tree of kernel/src/libs/rbtree.rs.

  A `Tree` records which node sits where and with which colour; a `Context` is the
  rest of the tree around a hole.  `Represents` and `Surrounds` tie both to the
  `left`, `right`, `parent` and `color` fields of the nodes, so that the pointer
  code of RbTree.dfy is specified by what it does to a context and the tree in its
  hole.
 */
module RbShape {

  datatype Color = Red | Black

  datatype Side = L | R

  class Node<K, V> {
    var color: Color
    var left: Node?<K, V>
    var right: Node?<K, V>
    var parent: Node?<K, V>
    const key: K
    var value: V

    constructor (k: K, v: V)
      ensures key == k && value == v
      ensures color == Black && left == null && right == null && parent == null
    {
      color, left, right, parent, key, value := Black, null, null, null, k, v;
    }
  }

  datatype Tree<K, V> = Leaf | Fork(l: Tree<K, V>, n: Node<K, V>, c: Color, r: Tree<K, V>)

  /** `Step(up, side, n, c, sib)`: the hole is the `side` child of `n`, `sib` its other child. */
  datatype Context<K, V> =
    | Top
    | Step(up: Context<K, V>, side: Side, n: Node<K, V>, c: Color, sib: Tree<K, V>)

  ghost function Other(d: Side): Side { if d == L then R else L }

  ghost function Make<K, V>(d: Side, a: Tree<K, V>, n: Node<K, V>, c: Color, b: Tree<K, V>): Tree<K, V> {
    if d == L then Fork(a, n, c, b) else Fork(b, n, c, a)
  }

  ghost function Plug<K, V>(k: Context<K, V>, t: Tree<K, V>): Tree<K, V> {
    match k
    case Top => t
    case Step(up, d, n, c, sib) => Plug(up, Make(d, t, n, c, sib))
  }

  ghost function Depth<K, V>(k: Context<K, V>): nat {
    if k.Top? then 0 else 1 + Depth(k.up)
  }

  // ---------- nodes and in-order sequences ----------

  ghost function Nodes<K, V>(t: Tree<K, V>): set<Node<K, V>> {
    match t
    case Leaf => {}
    case Fork(l, n, _, r) => Nodes(l) + {n} + Nodes(r)
  }

  ghost function Around<K, V>(k: Context<K, V>): set<Node<K, V>> {
    match k
    case Top => {}
    case Step(up, _, n, _, sib) => Around(up) + {n} + Nodes(sib)
  }

  ghost function InOrder<K, V>(t: Tree<K, V>): seq<Node<K, V>> {
    match t
    case Leaf => []
    case Fork(l, n, _, r) => InOrder(l) + [n] + InOrder(r)
  }

  /** The in-order nodes before the hole. */
  ghost function Before<K, V>(k: Context<K, V>): seq<Node<K, V>> {
    match k
    case Top => []
    case Step(up, L, _, _, _) => Before(up)
    case Step(up, R, n, _, sib) => Before(up) + InOrder(sib) + [n]
  }

  /** The in-order nodes after the hole. */
  ghost function After<K, V>(k: Context<K, V>): seq<Node<K, V>> {
    match k
    case Top => []
    case Step(up, L, n, _, sib) => [n] + InOrder(sib) + After(up)
    case Step(up, R, _, _, _) => After(up)
  }

  lemma {:induction false} PlugInOrder<K, V>(k: Context<K, V>, t: Tree<K, V>)
    ensures InOrder(Plug(k, t)) == Before(k) + InOrder(t) + After(k)
    decreases k
  {
    match k
    case Top =>
    case Step(up, d, n, c, sib) =>
      PlugInOrder(up, Make(d, t, n, c, sib));
  }

  lemma {:induction false} PlugNodes<K, V>(k: Context<K, V>, t: Tree<K, V>)
    ensures Nodes(Plug(k, t)) == Around(k) + Nodes(t)
    decreases k
  {
    match k
    case Top =>
    case Step(up, d, n, c, sib) =>
      PlugNodes(up, Make(d, t, n, c, sib));
  }

  lemma {:induction false} InOrderNodes<K, V>(t: Tree<K, V>, n: Node<K, V>)
    ensures n in Nodes(t) <==> n in InOrder(t)
  {
    match t
    case Leaf =>
    case Fork(l, m, _, r) =>
      InOrderNodes(l, n);
      InOrderNodes(r, n);
  }

  // ---------- no node occurs twice ----------

  ghost predicate Distinct<K, V>(t: Tree<K, V>) {
    match t
    case Leaf => true
    case Fork(l, n, _, r) =>
      && n !in Nodes(l) && n !in Nodes(r) && Nodes(l) !! Nodes(r)
      && Distinct(l) && Distinct(r)
  }

  ghost predicate DistinctAround<K, V>(k: Context<K, V>) {
    match k
    case Top => true
    case Step(up, _, n, _, sib) =>
      && n !in Around(up) && n !in Nodes(sib) && Around(up) !! Nodes(sib)
      && Distinct(sib) && DistinctAround(up)
  }

  // ---------- red-black invariants ----------

  ghost function ColorOf<K, V>(t: Tree<K, V>): Color {
    if t.Leaf? then Black else t.c
  }

  ghost function Weight(c: Color): nat { if c == Black then 1 else 0 }

  ghost function BlackHeight<K, V>(t: Tree<K, V>): nat {
    match t
    case Leaf => 0
    case Fork(l, _, c, _) => BlackHeight(l) + Weight(c)
  }

  /** No red node has a red child and every node's two sides have the same black height. */
  ghost predicate RedBlack<K, V>(t: Tree<K, V>) {
    match t
    case Leaf => true
    case Fork(l, _, c, r) =>
      && RedBlack(l) && RedBlack(r) && BlackHeight(l) == BlackHeight(r)
      && (c == Red ==> ColorOf(l) == Black && ColorOf(r) == Black)
  }

  ghost function ColorAbove<K, V>(k: Context<K, V>): Color {
    if k.Top? then Black else k.c
  }

  /** The context meets every red-black rule once its hole holds a tree of black height `h`,
      except for a red-red edge at the hole itself. */
  ghost predicate Expects<K, V>(k: Context<K, V>, h: nat) {
    match k
    case Top => true
    case Step(up, _, _, c, sib) =>
      && RedBlack(sib) && BlackHeight(sib) == h
      && (c == Red ==> ColorOf(sib) == Black && ColorAbove(up) == Black)
      && Expects(up, h + Weight(c))
  }

  /** The root, if it lies in the context, is black. */
  ghost predicate BlackTop<K, V>(k: Context<K, V>) {
    match k
    case Top => true
    case Step(up, _, _, c, _) => if up.Top? then c == Black else BlackTop(up)
  }

  ghost function Paint<K, V>(t: Tree<K, V>, c: Color): Tree<K, V> {
    if t.Leaf? then t else t.(c := c)
  }

  ghost predicate ValidTree<K, V>(t: Tree<K, V>) {
    RedBlack(t) && ColorOf(t) == Black
  }

  /** Filling the hole with what the context expects yields a red-black tree. */
  lemma {:induction false} PlugRedBlack<K, V>(k: Context<K, V>, t: Tree<K, V>)
    requires RedBlack(t) && Expects(k, BlackHeight(t))
    requires ColorAbove(k) == Red ==> ColorOf(t) == Black
    requires BlackTop(k) && (k.Top? ==> ColorOf(t) == Black)
    ensures ValidTree(Plug(k, t))
    decreases k
  {
    match k
    case Top =>
    case Step(up, d, n, c, sib) =>
      PlugRedBlack(up, Make(d, t, n, c, sib));
  }

  // ---------- the fields of the nodes ----------

  /** The fields of one node that the tree algorithms rewrite. */
  datatype Cell<K, V> = Cell(color: Color, left: Node?<K, V>, right: Node?<K, V>, parent: Node?<K, V>)

  type Store<K, V> = map<Node<K, V>, Cell<K, V>>

  ghost function Snapshot<K, V>(s: set<Node<K, V>>): Store<K, V>
    reads s
  {
    map n | n in s :: Cell(n.color, n.left, n.right, n.parent)
  }

  ghost function Ptr<K, V>(t: Tree<K, V>): Node?<K, V> {
    if t.Leaf? then null else t.n
  }

  /** The node above the hole. */
  ghost function Above<K, V>(k: Context<K, V>): Node?<K, V> {
    if k.Top? then null else k.n
  }

  /** The root pointer, given the pointer in the hole. */
  ghost function TopPtr<K, V>(k: Context<K, V>, hole: Node?<K, V>): Node?<K, V>
    decreases k
  {
    match k
    case Top => hole
    case Step(up, _, n, _, _) => TopPtr(up, n)
  }

  /** `m` stores the tree `t` under the given parent. */
  ghost predicate Holds<K, V>(m: Store<K, V>, t: Tree<K, V>, parent: Node?<K, V>)
    decreases t
  {
    match t
    case Leaf => true
    case Fork(l, n, c, r) =>
      && n in m && m[n] == Cell(c, Ptr(l), Ptr(r), parent)
      && Holds(m, l, n) && Holds(m, r, n)
  }

  ghost function Frame<K, V>(k: Context<K, V>, hole: Node?<K, V>): Cell<K, V>
    requires k.Step?
  {
    if k.side == L then Cell(k.c, hole, Ptr(k.sib), Above(k.up)) else Cell(k.c, Ptr(k.sib), hole, Above(k.up))
  }

  /** `m` stores the context `k` with the pointer `hole` in its hole. */
  ghost predicate HoldsAround<K, V>(m: Store<K, V>, k: Context<K, V>, hole: Node?<K, V>)
    decreases k
  {
    match k
    case Top => true
    case Step(up, d, n, c, sib) =>
      && n in m && m[n] == Frame(k, hole)
      && Holds(m, sib, n) && HoldsAround(m, up, n)
  }

  /** The nodes of `m` are exactly those of `Plug(k, t)`, each occurs once, and `m` stores that tree. */
  ghost predicate Stores<K, V>(m: Store<K, V>, k: Context<K, V>, t: Tree<K, V>) {
    && m.Keys == Around(k) + Nodes(t)
    && HoldsAround(m, k, Ptr(t)) && Holds(m, t, Above(k))
    && DistinctAround(k) && Distinct(t) && Around(k) !! Nodes(t)
  }

  /** Moving the hole up by one node changes nothing. */
  lemma {:induction false} Zoom<K, V>(m: Store<K, V>, k: Context<K, V>, t: Tree<K, V>)
    requires k.Step?
    ensures Stores(m, k, t) <==> Stores(m, k.up, Make(k.side, t, k.n, k.c, k.sib))
  {
  }

  lemma {:induction false} TopPtrAround<K, V>(k: Context<K, V>, a: Node?<K, V>, b: Node?<K, V>)
    ensures k.Step? ==> TopPtr(k, a) != null && TopPtr(k, a) in Around(k) && TopPtr(k, a) == TopPtr(k, b)
    decreases k
  {
    if k.Step? { TopPtrAround(k.up, k.n, k.n); }
  }

  /** The same nodes, and only the cells of `s` differ. */
  ghost predicate Agree<K, V>(m: Store<K, V>, m': Store<K, V>, s: set<Node?<K, V>>) {
    m'.Keys == m.Keys && forall n <- m :: n in s || m'[n] == m[n]
  }

  /** A tree none of whose nodes changed, except that its root got a new parent. */
  lemma {:induction false} Kept<K, V>(
      m: Store<K, V>, m': Store<K, V>, t: Tree<K, V>, before: Node?<K, V>, now: Node?<K, V>)
    requires Holds(m, t, before) && Distinct(t)
    requires forall n <- Nodes(t) :: n in m && n in m' && (n != Ptr(t) ==> m'[n] == m[n])
    requires t.Fork? ==> m'[t.n] == m[t.n].(parent := now)
    ensures Holds(m', t, now)
    decreases t
  {
    if t.Fork? {
      assert t.l.Fork? ==> t.l.n in Nodes(t.l);
      assert t.r.Fork? ==> t.r.n in Nodes(t.r);
      Kept(m, m', t.l, t.n, t.n);
      Kept(m, m', t.r, t.n, t.n);
    }
  }

  /** A context in which only the pointer in the hole was replaced. */
  lemma {:induction false} KeptAround<K, V>(
      m: Store<K, V>, m': Store<K, V>, k: Context<K, V>, before: Node?<K, V>, now: Node?<K, V>)
    requires HoldsAround(m, k, before) && DistinctAround(k)
    requires forall n <- Around(k) :: n in m && n in m' && (n != Above(k) ==> m'[n] == m[n])
    requires k.Step? ==> m'[k.n] == Frame(k, now)
    ensures HoldsAround(m', k, now)
    decreases k
  {
    if k.Step? {
      assert k.sib.Fork? ==> k.sib.n in Nodes(k.sib);
      Kept(m, m', k.sib, k.n, k.n);
      assert k.up.Step? ==> k.up.n in Around(k.up);
      KeptAround(m, m', k.up, k.n, k.n);
    }
  }

  lemma {:induction false} Painted<K, V>(m: Store<K, V>, m': Store<K, V>, k: Context<K, V>, t: Tree<K, V>, c: Color)
    requires Stores(m, k, t) && Agree(m, m', {Ptr(t)})
    requires t.Fork? ==> m'[t.n] == m[t.n].(color := c)
    ensures Stores(m', k, Paint(t, c))
  {
    assert k.Step? ==> k.n in Around(k);
    KeptAround(m, m', k, Ptr(t), Ptr(t));
    if t.Fork? {
      assert t.l.Fork? ==> t.l.n in Nodes(t.l);
      assert t.r.Fork? ==> t.r.n in Nodes(t.r);
      Kept(m, m', t.l, t.n, t.n);
      Kept(m, m', t.r, t.n, t.n);
    }
  }

  // ---------- rotations ----------

  ghost function Kid<K, V>(t: Tree<K, V>, d: Side): Tree<K, V>
    requires t.Fork?
  {
    if d == L then t.l else t.r
  }

  ghost function Link<K, V>(c: Cell<K, V>, d: Side): Node?<K, V> {
    if d == L then c.left else c.right
  }

  ghost function Relink<K, V>(c: Cell<K, V>, d: Side, p: Node?<K, V>): Cell<K, V> {
    if d == L then c.(left := p) else c.(right := p)
  }

  /** The cell with its link to `x` replaced. */
  ghost function Repointed<K, V>(c: Cell<K, V>, x: Node<K, V>, y: Node?<K, V>): Cell<K, V> {
    if c.left == x then c.(left := y) else c.(right := y)
  }

  /** The root goes down to side `d`; its other child comes up. */
  ghost function Turned<K, V>(t: Tree<K, V>, d: Side): Tree<K, V>
    requires t.Fork? && Kid(t, Other(d)).Fork?
  {
    var y := Kid(t, Other(d));
    Make(d, Make(d, Kid(t, d), t.n, t.c, Kid(y, d)), y.n, y.c, Kid(y, Other(d)))
  }

  lemma {:induction false} TurnedNodes<K, V>(t: Tree<K, V>, d: Side)
    requires t.Fork? && Kid(t, Other(d)).Fork? && Distinct(t)
    ensures Nodes(Turned(t, d)) == Nodes(t) && Distinct(Turned(t, d))
  {
    var y := Kid(t, Other(d));
    assert Nodes(y) == Nodes(y.l) + {y.n} + Nodes(y.r) && Distinct(y);
    var x' := Make(d, Kid(t, d), t.n, t.c, Kid(y, d));
    assert Nodes(x') == Nodes(Kid(t, d)) + {t.n} + Nodes(Kid(y, d));
  }

  lemma {:induction false} TurnedInOrder<K, V>(t: Tree<K, V>, d: Side)
    requires t.Fork? && Kid(t, Other(d)).Fork?
    ensures InOrder(Turned(t, d)) == InOrder(t)
    ensures Turned(Turned(t, d), Other(d)) == t
  {
    var y := Kid(t, Other(d));
    assert InOrder(y) == InOrder(y.l) + [y.n] + InOrder(y.r);
    var x' := Make(d, Kid(t, d), t.n, t.c, Kid(y, d));
    assert InOrder(x') == InOrder(x'.l) + [t.n] + InOrder(x'.r);
  }

  /** The cells that a rotation of `x` down to side `d` writes. */
  ghost predicate Pivoted<K, V>(m: Store<K, V>, m': Store<K, V>, x: Node<K, V>, d: Side)
    requires x in m && Link(m[x], Other(d)) != null && Link(m[x], Other(d)) in m
  {
    var y := Link(m[x], Other(d));
    var b, p := Link(m[y], d), m[x].parent;
    && Agree(m, m', {x, y, b, p})
    && m'[x] == Relink(m[x], Other(d), b).(parent := y)
    && m'[y] == Relink(m[y], d, x).(parent := p)
    && (b != null ==> b in m && m'[b] == m[b].(parent := x))
    && (p != null ==> p in m && m'[p] == Repointed(m[p], x, y))
  }

  lemma {:induction false} TurnedTree<K, V>(m: Store<K, V>, m': Store<K, V>, t: Tree<K, V>, d: Side, p: Node?<K, V>)
    requires t.Fork? && Kid(t, Other(d)).Fork? && Holds(m, t, p) && Distinct(t) && p !in Nodes(t) && Nodes(t) <= m.Keys
    requires Pivoted(m, m', t.n, d)
    ensures Holds(m', Turned(t, d), p)
  {
    var y := Kid(t, Other(d));
    var a, b, c := Kid(t, d), Kid(y, d), Kid(y, Other(d));
    assert Nodes(y) == Nodes(b) + {y.n} + Nodes(c) && Distinct(y) && Holds(m, y, t.n);
    assert b.Fork? ==> b.n in Nodes(b);
    Kept(m, m', a, t.n, t.n);
    Kept(m, m', b, y.n, t.n);
    Kept(m, m', c, y.n, y.n);
  }

  lemma {:induction false} TurnedStore<K, V>(m: Store<K, V>, m': Store<K, V>, k: Context<K, V>, t: Tree<K, V>, d: Side)
    requires t.Fork? && Kid(t, Other(d)).Fork? && Stores(m, k, t) && Pivoted(m, m', t.n, d)
    ensures Stores(m', k, Turned(t, d))
  {
    TurnedNodes(t, d);
    TurnedTree(m, m', t, d, Above(k));
    var y := Kid(t, Other(d));
    assert Nodes(y) == Nodes(y.l) + {y.n} + Nodes(y.r) && Holds(m, y, t.n);
    assert Kid(y, d).Fork? ==> Kid(y, d).n in Nodes(Kid(y, d));
    assert k.Step? ==> k.sib.Fork? ==> k.sib.n in Nodes(k.sib);
    KeptAround(m, m', k, t.n, y.n);
  }
}
