/**
  The shape-level part of `insert` and `delete`: hanging a new leaf, finding a node,
  cutting out a node with at most one child, and replacing a node with two children by its
  in-order successor.
 */
module RbSplice {
  import opened RbShape
  import opened RbFixup

  // ---------- taking a valid tree apart ----------

  lemma {:induction false} UnplugRedBlack<K, V>(k: Context<K, V>, t: Tree<K, V>)
    requires ValidTree(Plug(k, t))
    ensures RedBlack(t) && Expects(k, BlackHeight(t)) && BlackTop(k)
    ensures (ColorAbove(k) == Red ==> ColorOf(t) == Black) && (k.Top? ==> ColorOf(t) == Black)
    decreases k
  {
    if k.Step? {
      UnplugRedBlack(k.up, Make(k.side, t, k.n, k.c, k.sib));
    }
  }

  /** Every node of a tree is the root of the tree in some hole. */
  lemma {:induction false} Focus<K, V>(k0: Context<K, V>, t0: Tree<K, V>, n: Node<K, V>)
    returns (k: Context<K, V>, t: Tree<K, V>)
    requires n in Nodes(t0)
    ensures Plug(k, t) == Plug(k0, t0) && t.Fork? && t.n == n
    decreases t0
  {
    if n == t0.n {
      k, t := k0, t0;
    } else if n in Nodes(t0.l) {
      k, t := Focus(Step(k0, L, t0.n, t0.c, t0.r), t0.l, n);
    } else {
      k, t := Focus(Step(k0, R, t0.n, t0.c, t0.l), t0.r, n);
    }
  }

  lemma {:induction false} Unplug<K, V>(m: Store<K, V>, k: Context<K, V>, t: Tree<K, V>)
    requires Stores(m, Top, Plug(k, t))
    ensures Stores(m, k, t) && TopPtr(k, Ptr(t)) == Ptr(Plug(k, t))
    decreases k
  {
    if k.Step? {
      Unplug(m, k.up, Make(k.side, t, k.n, k.c, k.sib));
      Zoom(m, k, t);
    }
  }

  // ---------- insertion: a new red leaf ----------

  lemma {:induction false} Grafted<K, V>(m: Store<K, V>, m': Store<K, V>, k: Context<K, V>, n: Node<K, V>)
    requires Stores(m, k, Leaf) && n !in m && m'.Keys == m.Keys + {n}
    requires forall x <- m :: x != Above(k) ==> m'[x] == m[x]
    requires k.Step? ==> m'[k.n] == Frame(k, n)
    requires m'[n] == Cell(Red, null, null, Above(k))
    ensures Stores(m', k, Fork(Leaf, n, Red, Leaf))
  {
    KeptAround(m, m', k, null, n);
  }

  lemma {:induction false} GraftedPending<K, V>(k: Context<K, V>, n: Node<K, V>)
    requires ValidTree(Plug(k, Leaf))
    ensures RedPending(k, Fork(Leaf, n, Red, Leaf))
    ensures Reading(k, Fork(Leaf, n, Red, Leaf)) == Before(k) + [n] + After(k)
    ensures Reading(k, Leaf) == Before(k) + After(k)
  {
    UnplugRedBlack(k, Leaf);
    var t := Fork(Leaf, n, Red, Leaf);
    assert InOrder(t) == [n];
    PlugInOrder(k, t);
    PlugInOrder(k, Leaf);
  }

  // ---------- deletion: a node with at most one child ----------

  lemma {:induction false} CutOut<K, V>(m: Store<K, V>, m': Store<K, V>, k: Context<K, V>, t: Tree<K, V>, d: Side)
    requires Stores(m, k, t) && t.Fork? && Kid(t, Other(d)).Leaf? && m'.Keys == m.Keys - {t.n}
    requires forall x <- m' :: x != Above(k) && x != Ptr(Kid(t, d)) ==> m'[x] == m[x]
    requires k.Step? ==> m'[k.n] == Frame(k, Ptr(Kid(t, d)))
    requires Kid(t, d).Fork? ==> Kid(t, d).n in m' && m'[Kid(t, d).n] == m[Kid(t, d).n].(parent := Above(k))
    ensures Stores(m', k, Kid(t, d))
  {
    var ch := Kid(t, d);
    assert ch.Fork? ==> ch.n in Nodes(ch);
    Kept(m, m', ch, t.n, Above(k));
    KeptAround(m, m', k, t.n, Ptr(ch));
  }

  /** The same, from the writes seen on a store that still has the cell of the removed node. */
  lemma {:induction false} CutOutOf<K, V>(
      m: Store<K, V>, m1: Store<K, V>, m': Store<K, V>, k: Context<K, V>, t: Tree<K, V>, d: Side)
    requires Stores(m, k, t) && t.Fork? && Kid(t, Other(d)).Leaf?
    requires m'.Keys == m.Keys - {t.n} && m1.Keys == m.Keys && (forall x <- m' :: m'[x] == m1[x])
    requires Agree(m, m1, {Ptr(Kid(t, d)), Above(k)})
    requires k.Step? ==> k.n in m && m1[k.n] == Repointed(m[k.n], t.n, Ptr(Kid(t, d)))
    requires Kid(t, d).Fork? ==> Kid(t, d).n in m && m1[Kid(t, d).n] == m[Kid(t, d).n].(parent := Above(k))
    ensures Stores(m', k, Kid(t, d))
  {
    var ch := Kid(t, d);
    assert ch.Fork? ==> ch.n in Nodes(ch);
    if k.Step? {
      assert k.sib.Fork? ==> k.sib.n in Nodes(k.sib);
      assert m[k.n] == Frame(k, t.n) && m1[k.n] == Frame(k, Ptr(ch));
    }
    CutOut(m, m', k, t, d);
  }

  lemma {:induction false} CutOutShort<K, V>(k: Context<K, V>, t: Tree<K, V>, d: Side)
    requires ValidTree(Plug(k, t)) && t.Fork? && Kid(t, Other(d)).Leaf?
    ensures t.c == Black ==> ShortByOne(k, Kid(t, d))
    ensures t.c == Red ==> ValidTree(Plug(k, Kid(t, d)))
    ensures Reading(k, t) == Before(k) + InOrder(t) + After(k)
    ensures Reading(k, Kid(t, d)) == Before(k) + InOrder(Kid(t, d)) + After(k)
    ensures InOrder(t) == if d == L then InOrder(t.l) + [t.n] else [t.n] + InOrder(t.r)
  {
    UnplugRedBlack(k, t);
    var ch := Kid(t, d);
    PlugInOrder(k, t);
    PlugInOrder(k, ch);
    if t.c == Black {
      BlackenRoot(ch);
    } else {
      assert ch.Leaf?;
      PlugRedBlack(k, ch);
    }
  }

  lemma {:induction false} BlackenRoot<K, V>(t: Tree<K, V>)
    requires RedBlack(t)
    ensures RedBlack(Paint(t, Black))
  {
  }

  // ---------- deletion: a node with two children ----------

  /** `k` is `k0` followed by steps to the left only. */
  ghost predicate Spine<K, V>(k: Context<K, V>, k0: Context<K, V>) {
    k == k0 || (k.Step? && k.side == L && Spine(k.up, k0))
  }

  /** The context `k`, with the node of the step `k0` on its way up replaced by `x`. */
  ghost function Renamed<K, V>(k: Context<K, V>, k0: Context<K, V>, x: Node<K, V>): Context<K, V>
    requires k0.Step?
  {
    if k == k0 || k.Top? then k0.(n := x) else k.(up := Renamed(k.up, k0, x))
  }

  lemma {:induction false} RenamedExpects<K, V>(k: Context<K, V>, k0: Context<K, V>, x: Node<K, V>, h: nat)
    requires k0.Step? && Spine(k, k0)
    requires Expects(k, h) && BlackTop(k)
    ensures Expects(Renamed(k, k0, x), h) && BlackTop(Renamed(k, k0, x))
    ensures ColorAbove(Renamed(k, k0, x)) == ColorAbove(k)
    decreases k
  {
    if k != k0 {
      RenamedExpects(k.up, k0, x, h + Weight(k.c));
    }
  }

  lemma {:induction false} RenamedSides<K, V>(k: Context<K, V>, k0: Context<K, V>, x: Node<K, V>)
    requires k0.Step? && Spine(k, k0) && k0.side == R
    ensures Before(k) == Before(k0) && Before(Renamed(k, k0, x)) == Before(k0.(n := x))
    ensures After(Renamed(k, k0, x)) == After(k)
    decreases k
  {
    if k != k0 {
      RenamedSides(k.up, k0, x);
    }
  }

  /** `t` with two children, and its in-order successor `s` below the right one. */
  ghost predicate Successor<K, V>(k: Context<K, V>, t: Tree<K, V>, k': Context<K, V>, s: Tree<K, V>) {
    && t.Fork? && t.l.Fork? && t.r.Fork? && s.Fork? && s.l.Leaf?
    && Spine(k', Step(k, R, t.n, t.c, t.l)) && Plug(k', s) == Plug(k, t)
  }

  /** The context left behind: the successor has taken the place of the deleted node. */
  ghost function Vacated<K, V>(k: Context<K, V>, t: Tree<K, V>, k': Context<K, V>, s: Tree<K, V>): Context<K, V>
    requires Successor(k, t, k', s)
  {
    Renamed(k', Step(k, R, t.n, t.c, t.l), s.n)
  }

  lemma {:induction false} VacatedShort<K, V>(k: Context<K, V>, t: Tree<K, V>, k': Context<K, V>, s: Tree<K, V>)
    requires ValidTree(Plug(k, t)) && Successor(k, t, k', s)
    ensures s.c == Black ==> ShortByOne(Vacated(k, t, k', s), s.r)
    ensures s.c == Red ==> ValidTree(Plug(Vacated(k, t, k', s), s.r))
  {
    UnplugRedBlack(k', s);
    RenamedExpects(k', Step(k, R, t.n, t.c, t.l), s.n, BlackHeight(s));
    if s.c == Black {
      BlackenRoot(s.r);
    } else {
      assert s.r.Leaf?;
      PlugRedBlack(Vacated(k, t, k', s), s.r);
    }
  }

  lemma {:induction false} VacatedReading<K, V>(k: Context<K, V>, t: Tree<K, V>, k': Context<K, V>, s: Tree<K, V>)
    requires Successor(k, t, k', s)
    ensures Reading(k, t) == Before(k) + (InOrder(t.l) + [t.n] + InOrder(s)) + After(k')
    ensures Reading(Vacated(k, t, k', s), s.r) == Before(k) + (InOrder(t.l) + InOrder(s)) + After(k')
  {
    var k0 := Step(k, R, t.n, t.c, t.l);
    RenamedSides(k', k0, s.n);
    PlugInOrder(k', s);
    PlugInOrder(Vacated(k, t, k', s), s.r);
    assert InOrder(s) == [s.n] + InOrder(s.r);
    Regrouped(Before(k), InOrder(t.l), t.n, InOrder(s), After(k'));
    Regrouped(Before(k), InOrder(t.l), s.n, InOrder(s.r), After(k'));
    assert InOrder(t.l) + InOrder(s) == InOrder(t.l) + [s.n] + InOrder(s.r);
  }

  lemma {:induction false} Regrouped<T>(b: seq<T>, x: seq<T>, n: T, y: seq<T>, a: seq<T>)
    ensures (b + x + [n]) + y + a == b + (x + [n] + y) + a
  {
  }

  /** The cells written when `x`, the successor of `node`, takes its place. */
  ghost predicate Succeeded<K, V>(m: Store<K, V>, m': Store<K, V>, node: Node<K, V>, x: Node<K, V>)
    requires node in m && x in m
  {
    var Cell(c, l, r, p) := m[node];
    var q, ch := m[x].parent, m[x].right;
    && m'.Keys == m.Keys - {node}
    && (forall n <- m' :: n !in {x, l, r, p, q, ch} ==> m'[n] == m[n])
    && x in m' && m'[x] == Cell(c, l, if q == node then ch else r, p)
    && (l != null ==> l in m' && m'[l] == m[l].(parent := x))
    && (p != null ==> p in m' && m'[p] == Repointed(m[p], node, x))
    && (q != node ==>
          && r != null && r in m' && q != null && q in m'
          && (r != q ==> m'[r] == m[r].(parent := x))
          && m'[q] == m[q].(left := ch, parent := if q == r then x else m[q].parent))
    && (ch != null ==> ch in m' && m'[ch] == if q == node then m[ch] else m[ch].(parent := q))
  }

  /** The cells on which the replacement of `node` by its successor `x` relies, below the parent of `node`. */
  ghost predicate CanDetach<K, V>(m: Store<K, V>, node: Node<K, V>, x: Node<K, V>) {
    && node in m && x in m && x != node
    && var Cell(_, l, r, p) := m[node];
    var q, ch := m[x].parent, m[x].right;
    && l in m.Keys - {node, x} && r in m.Keys - {node, l} && q in m.Keys - {x, l}
    && (q == node <==> r == x)
    && (ch != null ==> ch in m.Keys - {node, x, l, r, q})
    && (p != null ==> p in m.Keys - {node, x, l, r, q, ch})
  }

  ghost predicate CanSucceed<K, V>(m: Store<K, V>, node: Node<K, V>, x: Node<K, V>) {
    && CanDetach(m, node, x)
    && var p := m[node].parent; p != null ==> (m[p].left == node) != (m[p].right == node)
  }

  /** The parent of `node` points to `x` instead. */
  ghost function Repoint<K, V>(m: Store<K, V>, node: Node<K, V>, x: Node<K, V>): Store<K, V>
    requires CanDetach(m, node, x)
    ensures CanDetach(Repoint(m, node, x), node, x)
  {
    var p := m[node].parent;
    if p == null then m else m[p := Repointed(m[p], node, x)]
  }

  /** The successor leaves its place: its right child moves up, and it takes over the right subtree of `node`. */
  ghost function Detached<K, V>(m: Store<K, V>, node: Node<K, V>, x: Node<K, V>): Store<K, V>
    requires CanDetach(m, node, x)
  {
    var q, ch, r := m[x].parent, m[x].right, m[node].right;
    if q == node then m else
      var m1 := if ch == null then m else m[ch := m[ch].(parent := q)];
      var m2 := m1[q := m1[q].(left := ch)];
      var m3 := m2[x := m2[x].(right := r)];
      m3[r := m3[r].(parent := x)]
  }

  /** The successor takes over the colour, the parent and the left subtree of `node`. */
  ghost function Installed<K, V>(m: Store<K, V>, node: Node<K, V>, x: Node<K, V>): Store<K, V>
    requires node in m && x in m && m[node].left != null && m[node].left in m && m[node].left != x
  {
    var Cell(c, l, _, p) := m[node];
    m[x := Cell(c, l, m[x].right, p)][l := m[l].(parent := x)]
  }

  /** The three groups of writes, in the order of the code. */
  ghost function Replaced<K, V>(m: Store<K, V>, node: Node<K, V>, x: Node<K, V>): Store<K, V>
    requires CanDetach(m, node, x)
  {
    Installed(Detached(Repoint(m, node, x), node, x), node, x)
  }

  lemma {:induction false} ReplacedSucceeds<K, V>(m: Store<K, V>, m': Store<K, V>, node: Node<K, V>, x: Node<K, V>)
    requires CanSucceed(m, node, x) && m' == Replaced(m, node, x) - {node}
    ensures Succeeded(m, m', node, x)
  {
  }

  /** Along the spine below `k0`: the topmost node gets the parent `x`, the lowest the left child `now`. */
  ghost predicate SpineWritten<K, V>(
      m: Store<K, V>, m': Store<K, V>, k: Context<K, V>, k0: Context<K, V>, x: Node<K, V>, now: Node?<K, V>)
  {
    k == k0 || k.Top? || (
      && k.n in m && k.n in m'
      && m'[k.n] == m[k.n].(left := now, parent := if k.up == k0 then x else m[k.n].parent)
      && (forall n <- Nodes(k.sib) :: n in m && n in m' && m'[n] == m[n])
      && SpineWritten(m, m', k.up, k0, x, k.n))
  }

  lemma {:induction false} SpineKept<K, V>(
      m: Store<K, V>, m': Store<K, V>, k: Context<K, V>, k0: Context<K, V>, x: Node<K, V>, hole: Node?<K, V>,
      now: Node?<K, V>, top: Node?<K, V>)
    requires k0.Step? && k0.side == R && Spine(k, k0) && HoldsAround(m, k, hole) && DistinctAround(k)
    requires SpineWritten(m, m', k, k0, x, now)
    requires k0.n in m && top == if k == k0 then now else m[k0.n].right
    requires HoldsAround(m', k0.(n := x), top)
    ensures HoldsAround(m', Renamed(k, k0, x), now)
    decreases k
  {
    if k != k0 {
      assert k.sib.Fork? ==> k.sib.n in Nodes(k.sib) && m[k.sib.n].parent == k.n;
      Kept(m, m', k.sib, k.n, k.n);
      assert HoldsAround(m, k.up, k.n);
      if k.up == k0 { assert m[k0.n] == Frame(k0, k.n); }
      SpineKept(m, m', k.up, k0, x, k.n, k.n, top);
    }
  }

  /** The topmost node of a spine is the right child of the node it starts from. */
  lemma {:induction false} SpineTop<K, V>(m: Store<K, V>, k: Context<K, V>, k0: Context<K, V>, hole: Node?<K, V>)
    requires k0.Step? && k0.side == R && Spine(k, k0) && k != k0 && HoldsAround(m, k, hole) && DistinctAround(k)
    ensures k0.n in m && m[k0.n].right in Around(k) && Around(k0) <= Around(k.up)
    ensures k.up == k0 <==> m[k0.n].right == k.n
    decreases k
  {
    assert HoldsAround(m, k.up, k.n);
    if k.up == k0 {
      assert m[k0.n] == Frame(k0, k.n);
    } else {
      SpineTop(m, k.up, k0, k.n);
    }
  }

  /** The writes of `Succeeded`, read along the spine, from any node above the lowest. */
  lemma {:induction false} SpineWrites<K, V>(
      m: Store<K, V>, m': Store<K, V>, k: Context<K, V>, k0: Context<K, V>, x: Node<K, V>, hole: Node?<K, V>,
      q: Node?<K, V>)
    requires k0.Step? && k0.side == R && Spine(k, k0) && HoldsAround(m, k, hole) && DistinctAround(k)
    requires Around(k) <= m.Keys && k0.n in m
    requires forall n <- Around(k) :: n !in Around(k0) && n != m[k0.n].right && n != q ==> n in m' && m'[n] == m[n]
    requires k != k0 ==> q == k.n || q !in Around(k)
    requires k != k0 ==> k.n in m' && m'[k.n] == m[k.n].(
        left := if q == k.n then m'[k.n].left else hole, parent := if m[k0.n].right == k.n then x else m[k.n].parent)
    requires k != k0 && m[k0.n].right != k.n ==>
      m[k0.n].right in m && m[k0.n].right in m' && m'[m[k0.n].right] == m[m[k0.n].right].(parent := x)
    ensures SpineWritten(m, m', k, k0, x, if k != k0 then m'[k.n].left else hole)
    decreases k
  {
    if k != k0 {
      SpineTop(m, k, k0, hole);
      assert HoldsAround(m, k.up, k.n) && m[k.n] == Frame(k, hole);
      SpineSiblings(m, k, k0, hole);
      if k.up != k0 {
        assert k.up.n in Around(k.up) && m[k.up.n] == Frame(k.up, k.n);
        SpineTop(m, k.up, k0, k.n);
      }
      SpineWrites(m, m', k.up, k0, x, k.n, q);
    }
  }

  lemma {:induction false} SpineSiblings<K, V>(m: Store<K, V>, k: Context<K, V>, k0: Context<K, V>, hole: Node?<K, V>)
    requires k0.Step? && k0.side == R && Spine(k, k0) && k != k0 && HoldsAround(m, k, hole) && DistinctAround(k)
    ensures k0.n in m && m[k0.n].right !in Nodes(k.sib) && Around(k0) !! Nodes(k.sib)
  {
    SpineTop(m, k, k0, hole);
    if k.up != k0 {
      SpineTop(m, k.up, k0, k.n);
    }
  }

  lemma {:induction false} RenamedNodes<K, V>(k: Context<K, V>, k0: Context<K, V>, x: Node<K, V>)
    requires k0.Step? && Spine(k, k0) && DistinctAround(k) && x !in Around(k)
    ensures Around(Renamed(k, k0, x)) == Around(k) - {k0.n} + {x}
    ensures DistinctAround(Renamed(k, k0, x)) && k0.n in Around(k)
    decreases k
  {
    if k != k0 {
      RenamedNodes(k.up, k0, x);
    }
  }

  /** The part above the successor's new place, and the left subtree it takes over. */
  lemma {:induction false} SucceededTop<K, V>(
      m: Store<K, V>, m': Store<K, V>, k: Context<K, V>, t: Tree<K, V>, x: Node<K, V>, top: Node?<K, V>)
    requires Stores(m, k, t) && t.Fork? && t.l.Fork? && t.r.Fork? && x in Nodes(t.r) && Succeeded(m, m', t.n, x)
    requires m[x].parent == t.n || m[x].parent in Nodes(t.r)
    requires m[x].right == null || m[x].right in Nodes(t.r)
    requires m'[x].right == top
    ensures HoldsAround(m', Step(k, R, x, t.c, t.l), top)
  {
    assert t.l.n in Nodes(t.l) && t.r.n in Nodes(t.r);
    Kept(m, m', t.l, t.n, x);
    SucceededAbove(m, m', k, t, x);
  }

  lemma {:induction false} SucceededAbove<K, V>(
      m: Store<K, V>, m': Store<K, V>, k: Context<K, V>, t: Tree<K, V>, x: Node<K, V>)
    requires Stores(m, k, t) && t.Fork? && t.l.Fork? && t.r.Fork? && x in Nodes(t.r) && Succeeded(m, m', t.n, x)
    requires m[x].parent == t.n || m[x].parent in Nodes(t.r)
    requires m[x].right == null || m[x].right in Nodes(t.r)
    ensures HoldsAround(m', k, x)
  {
    assert t.l.n in Nodes(t.l) && t.r.n in Nodes(t.r);
    assert k.Step? && k.sib.Fork? ==> k.sib.n in Nodes(k.sib);
    KeptAround(m, m', k, t.n, x);
  }

  /** How the successor sits in the store. */
  lemma {:induction false} SuccessorCells<K, V>(
      m: Store<K, V>, k: Context<K, V>, t: Tree<K, V>, k': Context<K, V>, s: Tree<K, V>)
    requires Stores(m, k, t) && Stores(m, k', s) && Successor(k, t, k', s)
    ensures s.n in Nodes(t.r) && m[s.n] == Cell(s.c, null, Ptr(s.r), k'.n)
    ensures Nodes(s.r) <= Nodes(t.r) && (k'.n == t.n || k'.n in Nodes(t.r))
    ensures k'.n == t.n <==> k' == Step(k, R, t.n, t.c, t.l)
    ensures k' != Step(k, R, t.n, t.c, t.l) ==> m[k'.n].left == s.n && m[k'.n].color == k'.c && k'.side == L
  {
    var k0 := Step(k, R, t.n, t.c, t.l);
    SpineIn(k', k0, s, t.r);
    assert m[k'.n] == Frame(k', s.n);
    if k' != k0 { SpineTop(m, k', k0, s.n); }
  }

  lemma {:induction false} SpineIn<K, V>(k: Context<K, V>, k0: Context<K, V>, s: Tree<K, V>, r: Tree<K, V>)
    requires k0.Step? && Spine(k, k0) && Plug(k, s) == Plug(k0, r) && DistinctAround(k)
    ensures Nodes(s) <= Nodes(r) && (k != k0 ==> k.Step? && k.n in Nodes(r) && Nodes(k.sib) <= Nodes(r))
    decreases k
  {
    if k == k0 {
      PlugInjective(k, s, r);
    } else {
      SpineIn(k.up, k0, Make(k.side, s, k.n, k.c, k.sib), r);
    }
  }

  lemma {:induction false} PlugInjective<K, V>(k: Context<K, V>, a: Tree<K, V>, b: Tree<K, V>)
    requires Plug(k, a) == Plug(k, b)
    ensures a == b
    decreases k
  {
    if k.Step? {
      PlugInjective(k.up, Make(k.side, a, k.n, k.c, k.sib), Make(k.side, b, k.n, k.c, k.sib));
    }
  }

  /**
    After the successor took the deleted node's place, the store holds the vacated context around
    its right subtree.
   */
  lemma {:induction false} SucceededStore<K, V>(
      m: Store<K, V>, m': Store<K, V>, k: Context<K, V>, t: Tree<K, V>, k': Context<K, V>, s: Tree<K, V>)
    requires Stores(m, k, t) && Stores(m, k', s) && Successor(k, t, k', s) && Succeeded(m, m', t.n, s.n)
    ensures Stores(m', Vacated(k, t, k', s), s.r)
  {
    SucceededNodes(m, m', k, t, k', s);
    SucceededAround(m, m', k, t, k', s);
    SucceededRest(m, m', k, t, k', s);
  }

  lemma {:induction false} SucceededNodes<K, V>(
      m: Store<K, V>, m': Store<K, V>, k: Context<K, V>, t: Tree<K, V>, k': Context<K, V>, s: Tree<K, V>)
    requires Stores(m, k, t) && Stores(m, k', s) && Successor(k, t, k', s) && Succeeded(m, m', t.n, s.n)
    ensures var v := Vacated(k, t, k', s);
      && m'.Keys == Around(v) + Nodes(s.r) && DistinctAround(v) && Distinct(s.r) && Around(v) !! Nodes(s.r)
  {
    RenamedNodes(k', Step(k, R, t.n, t.c, t.l), s.n);
    assert Nodes(s) == {s.n} + Nodes(s.r) && s.n !in Nodes(s.r);
    NodesMoved(Around(k'), t.n, s.n, Nodes(s.r));
  }

  lemma {:induction false} NodesMoved<T>(around: set<T>, n: T, x: T, rest: set<T>)
    requires n in around && x !in around && x !in rest && around !! rest
    ensures around + ({x} + rest) - {n} == (around - {n} + {x}) + rest && (around - {n} + {x}) !! rest
  {
  }

  lemma {:induction false} SucceededAround<K, V>(
      m: Store<K, V>, m': Store<K, V>, k: Context<K, V>, t: Tree<K, V>, k': Context<K, V>, s: Tree<K, V>)
    requires Stores(m, k, t) && Stores(m, k', s) && Successor(k, t, k', s) && Succeeded(m, m', t.n, s.n)
    ensures HoldsAround(m', Vacated(k, t, k', s), Ptr(s.r))
  {
    var k0 := Step(k, R, t.n, t.c, t.l);
    SuccessorCells(m, k, t, k', s);
    assert s.r.Fork? ==> s.r.n in Nodes(s.r);
    var top := m'[s.n].right;
    SucceededTop(m, m', k, t, s.n, top);
    SucceededSpine(m, m', k, t, k', s);
    SpineKept(m, m', k', k0, s.n, s.n, Ptr(s.r), top);
  }

  lemma {:induction false} SucceededRest<K, V>(
      m: Store<K, V>, m': Store<K, V>, k: Context<K, V>, t: Tree<K, V>, k': Context<K, V>, s: Tree<K, V>)
    requires Stores(m, k, t) && Stores(m, k', s) && Successor(k, t, k', s) && Succeeded(m, m', t.n, s.n)
    ensures Holds(m', s.r, Above(Vacated(k, t, k', s)))
  {
    SuccessorCells(m, k, t, k', s);
    assert t.l.n in Nodes(t.l) && k'.n in Around(k') && m[k'.n] == Frame(k', s.n);
    assert s.n !in Nodes(s.r) && Nodes(s.r) <= Nodes(s);
    if k' != Step(k, R, t.n, t.c, t.l) { SpineTop(m, k', Step(k, R, t.n, t.c, t.l), s.n); }
    SubtreeOfSuccessor(m, m', t.n, s);
  }

  lemma {:induction false} SubtreeOfSuccessor<K, V>(m: Store<K, V>, m': Store<K, V>, node: Node<K, V>, s: Tree<K, V>)
    requires s.Fork? && Distinct(s) && node in m && s.n in m && Holds(m, s, m[s.n].parent)
    requires Succeeded(m, m', node, s.n)
    requires Nodes(s.r) <= m.Keys && node !in Nodes(s.r)
    requires m[node].left !in Nodes(s.r) && m[node].right !in Nodes(s.r) && m[node].parent !in Nodes(s.r)
    requires m[s.n].parent !in Nodes(s.r)
    ensures Holds(m', s.r, if m[s.n].parent == node then s.n else m[s.n].parent)
  {
    assert s.r.Fork? ==> s.r.n in Nodes(s.r);
    Kept(m, m', s.r, s.n, if m[s.n].parent == node then s.n else m[s.n].parent);
  }

  lemma {:induction false} SucceededSpine<K, V>(
      m: Store<K, V>, m': Store<K, V>, k: Context<K, V>, t: Tree<K, V>, k': Context<K, V>, s: Tree<K, V>)
    requires Stores(m, k, t) && Stores(m, k', s) && Successor(k, t, k', s) && Succeeded(m, m', t.n, s.n)
    ensures SpineWritten(m, m', k', Step(k, R, t.n, t.c, t.l), s.n, Ptr(s.r))
  {
    var k0 := Step(k, R, t.n, t.c, t.l);
    SuccessorCells(m, k, t, k', s);
    if k' != k0 {
      SpineTop(m, k', k0, s.n);
      assert t.l.n in Nodes(t.l);
      assert s.r.Fork? ==> s.r.n in Nodes(s.r);
      SpineWrites(m, m', k', k0, s.n, s.n, k'.n);
    }
  }

  lemma {:induction false} ReplacedStore<K, V>(
      m: Store<K, V>, m1: Store<K, V>, m': Store<K, V>, k: Context<K, V>, t: Tree<K, V>, k': Context<K, V>,
      s: Tree<K, V>)
    requires Stores(m, k, t) && Stores(m, k', s) && Successor(k, t, k', s) && CanSucceed(m, t.n, s.n)
    requires m1 == Replaced(m, t.n, s.n) && m'.Keys == m1.Keys - {t.n} && forall n <- m' :: m'[n] == m1[n]
    ensures Stores(m', Vacated(k, t, k', s), s.r)
  {
    assert m' == m1 - {t.n};
    ReplacedSucceeds(m, m', t.n, s.n);
    SucceededStore(m, m', k, t, k', s);
  }
}
