/** The red-black tree of kernel/src/libs/rbtree.rs: nodes rewritten in place. */
module RbTree {
  import opened Arith
  import opened RbFixup
  import opened RbOrder
  import opened RbShape
  import opened RbSplice
  import opened Wrappers

  class RBTree<K(!new), V> {
    var root: Node?<K, V>
    var len: nat
    const cmp: (K, K) -> Ordering
    ghost var repr: set<Node<K, V>>
    ghost var shape: Tree<K, V>

    /** The nodes hold tree `t` in the hole of context `k`. */
    ghost predicate At(k: Context<K, V>, t: Tree<K, V>)
      reads `root, `repr, repr
    {
      root == TopPtr(k, Ptr(t)) && Stores(Snapshot(repr), k, t)
    }

    /** The surroundings that a rotation of `x` under its child `y` relies on; `b` changes sides. */
    ghost predicate CanRotate(x: Node<K, V>, y: Node?<K, V>, b: Node?<K, V>)
      reads this, repr
    {
      && x in repr && y != null && y in repr && y != x
      && (b != null ==> b in repr - {x, y})
      && (x == root <==> x.parent == null)
      && (x.parent != null ==> x.parent in repr - {x, y, b})
      && (x.parent != null ==> (x.parent.left == x) != (x.parent.right == x))
    }

    /** Makes the parent of `node`, or the root pointer, point to `sub` instead. */
    method Relink(node: Node<K, V>, sub: Node?<K, V>, parent: Node?<K, V>)
      requires node == root <==> parent == null
      requires parent != null ==> parent in repr && (parent.left == node) != (parent.right == node)
      modifies `root, repr`left, repr`right
      ensures parent == null ==> root == sub && Snapshot(repr) == old(Snapshot(repr))
      ensures parent != null ==>
        var m := old(Snapshot(repr));
        root == old(root) && Snapshot(repr) == m[parent := Repointed(m[parent], node, sub)]
    {
      if node == root {
        root := sub;
      } else if node == parent.left {
        parent.left := sub;
      } else {
        parent.right := sub;
      }
    }

    /** The pointer writes of `left_rotate`. */
    method LeftRotateLinks(node: Node<K, V>)
      requires node in repr && node.right != null && CanRotate(node, node.right, node.right.left)
      modifies this`root, repr`left, repr`right, repr`parent
      ensures Pivoted(old(Snapshot(repr)), Snapshot(repr), node, L)
      ensures root == if old(node.parent) == null then old(node.right) else old(root)
    {
      ghost var m := Snapshot(repr);
      ghost var b, p := node.right.left, node.parent;
      var temp := node.right;
      node.right := temp.left;
      if temp.left != null {
        temp.left.parent := node;
      }
      temp.parent := node.parent;
      if node == root {
        root := temp;
      } else if node == node.parent.left {
        node.parent.left := temp;
      } else {
        node.parent.right := temp;
      }
      temp.left := node;
      node.parent := temp;
      ghost var m' := Snapshot(repr);
      assert m'[node] == m[node].(right := b, parent := temp);
      assert m'[temp] == m[temp].(left := node, parent := p);
      assert b != null ==> m'[b] == m[b].(parent := node);
      assert Agree(m, m', {node, temp, b, p});
    }

    /** The pointer writes of `right_rotate`. */
    method RightRotateLinks(node: Node<K, V>)
      requires node in repr && node.left != null && CanRotate(node, node.left, node.left.right)
      modifies this`root, repr`left, repr`right, repr`parent
      ensures Pivoted(old(Snapshot(repr)), Snapshot(repr), node, R)
      ensures root == if old(node.parent) == null then old(node.left) else old(root)
    {
      ghost var m := Snapshot(repr);
      ghost var b, p := node.left.right, node.parent;
      var temp := node.left;
      node.left := temp.right;
      if temp.right != null {
        temp.right.parent := node;
      }
      temp.parent := node.parent;
      if node == root {
        root := temp;
      } else if node == node.parent.right {
        node.parent.right := temp;
      } else {
        node.parent.left := temp;
      }
      temp.right := node;
      node.parent := temp;
      ghost var m' := Snapshot(repr);
      assert m'[node] == m[node].(left := b, parent := temp);
      assert m'[temp] == m[temp].(right := node, parent := p);
      assert b != null ==> m'[b] == m[b].(parent := node);
      assert Agree(m, m', {node, temp, b, p});
    }

    lemma Rotatable(k: Context<K, V>, t: Tree<K, V>, d: Side)
      requires At(k, t) && t.Fork? && Kid(t, Other(d)).Fork?
      ensures var y := Kid(t, Other(d)); CanRotate(t.n, y.n, Ptr(Kid(y, d)))
      ensures var y := Kid(t, Other(d)); (if d == L then t.n.right else t.n.left) == y.n
      ensures var y := Kid(t, Other(d)); (if d == L then y.n.left else y.n.right) == Ptr(Kid(y, d))
      ensures t.n.parent == Above(k)
    {
      var y := Kid(t, Other(d));
      var b := Kid(y, d);
      TopPtrAround(k, t.n, y.n);
      assert Holds(Snapshot(repr), y, t.n) && Distinct(y) && Nodes(y) == Nodes(y.l) + {y.n} + Nodes(y.r);
      assert b.Fork? ==> b.n in Nodes(b);
      assert k.Step? && k.sib.Fork? ==> k.sib.n in Nodes(k.sib);
    }

    method LeftRotate(node: Node<K, V>, ghost k: Context<K, V>, ghost t: Tree<K, V>)
      requires At(k, t) && t.Fork? && t.n == node && t.r.Fork?
      modifies this`root, repr`left, repr`right, repr`parent
      ensures At(k, Turned(t, L))
    {
      ghost var m := Snapshot(repr);
      Rotatable(k, t, L);
      LeftRotateLinks(node);
      TurnedStore(m, Snapshot(repr), k, t, L);
      TopPtrAround(k, t.n, t.r.n);
    }

    method RightRotate(node: Node<K, V>, ghost k: Context<K, V>, ghost t: Tree<K, V>)
      requires At(k, t) && t.Fork? && t.n == node && t.l.Fork?
      modifies this`root, repr`left, repr`right, repr`parent
      ensures At(k, Turned(t, R))
    {
      ghost var m := Snapshot(repr);
      Rotatable(k, t, R);
      RightRotateLinks(node);
      TurnedStore(m, Snapshot(repr), k, t, R);
      TopPtrAround(k, t.n, t.l.n);
    }

    method SetColor(n: Node?<K, V>, c: Color, ghost k: Context<K, V>, ghost t: Tree<K, V>)
      requires At(k, t) && Ptr(t) == n
      modifies repr`color
      ensures At(k, Paint(t, c))
    {
      ghost var m := Snapshot(repr);
      if n != null {
        n.color := c;
      }
      Painted(m, Snapshot(repr), k, t, c);
    }

    lemma ZoomAt(k: Context<K, V>, t: Tree<K, V>)
      requires k.Step?
      ensures At(k, t) <==> At(k.up, Make(k.side, t, k.n, k.c, k.sib))
    {
      Zoom(Snapshot(repr), k, t);
    }

    /** The hole can be moved to the sibling. */
    lemma Across(k: Context<K, V>, t: Tree<K, V>)
      requires k.Step?
      ensures At(k, t) <==> At(Step(k.up, Other(k.side), k.n, k.c, t), k.sib)
    {
      ZoomAt(k, t);
      ZoomAt(Step(k.up, Other(k.side), k.n, k.c, t), k.sib);
    }

    /** What the fields around a node with a grandparent say. */
    lemma Neighbours(k: Context<K, V>, t: Tree<K, V>)
      requires At(k, t) && t.Fork? && k.Step? && k.up.Step?
      ensures t.n.parent == k.n && k.n.parent == k.up.n
      ensures Ptr(k.up.sib) == if k.up.side == L then k.up.n.right else k.up.n.left
      ensures k.up.sib.Fork? ==> k.up.sib.n.color == k.up.sib.c
      ensures (k.n.right == t.n <==> k.side == R) && (k.n.left == t.n <==> k.side == L)
      ensures k.up.n.left == k.n <==> k.up.side == L
    {
      ghost var m := Snapshot(repr);
      assert m[t.n].parent == k.n && m[k.n] == Frame(k, t.n);
      assert HoldsAround(m, k.up, k.n) && m[k.up.n] == Frame(k.up, k.n);
      assert k.sib.Fork? ==> k.sib.n in Nodes(k.sib);
      assert k.up.sib.Fork? ==> k.up.sib.n in Nodes(k.up.sib) && m[k.up.sib.n].color == k.up.sib.c;
    }

    /** Case 1 of `insert_fixup`: the uncle and the parent become black, the grandparent red. */
    method RecolorUp(
        uncle: Node<K, V>, parent: Node<K, V>, gparent: Node<K, V>, ghost k: Context<K, V>, ghost t: Tree<K, V>)
      requires At(k, t) && t.Fork? && k.Step? && k.up.Step?
      requires uncle == Ptr(k.up.sib) && parent == k.n && gparent == k.up.n
      modifies repr`color
      ensures At(k.up.up, Recolored(k, t))
    {
      ghost var g := k.up;
      ghost var p := Make(k.side, t, k.n, k.c, k.sib);
      ZoomAt(k, t);
      Across(g, p);
      SetColor(uncle, Black, Step(g.up, Other(g.side), g.n, g.c, p), g.sib);
      ghost var g' := g.(sib := Paint(g.sib, Black));
      Across(g', p);
      SetColor(parent, Black, g', p);
      ZoomAt(g', Paint(p, Black));
      SetColor(gparent, Red, g.up, Make(g.side, Paint(p, Black), g.n, g.c, g'.sib));
    }

    /** Case 3 of `insert_fixup`, colours: the parent becomes black, the grandparent red. */
    method RepaintUp(parent: Node<K, V>, gparent: Node<K, V>, ghost k: Context<K, V>, ghost t: Tree<K, V>)
      requires At(k, t) && t.Fork? && k.Step? && k.up.Step? && parent == k.n && gparent == k.up.n
      modifies repr`color
      ensures At(k.up.up, Repainted(k, t))
    {
      ghost var g := k.up;
      ghost var p := Make(k.side, t, k.n, k.c, k.sib);
      ZoomAt(k, t);
      SetColor(parent, Black, g, p);
      ZoomAt(g, Paint(p, Black));
      SetColor(gparent, Red, g.up, Make(g.side, Paint(p, Black), g.n, g.c, g.sib));
    }

    /** One round of `insert_fixup` with the parent a left child. */
    method InsertFixupLeft(node: Node<K, V>, ghost k: Context<K, V>, ghost t: Tree<K, V>)
      returns (next: Node<K, V>, ghost k': Context<K, V>, ghost t': Tree<K, V>)
      requires At(k, t) && RedPending(k, t) && t.n == node
      requires ColorAbove(k) == Red && k.up.Step? && k.up.side == L
      modifies this`root, repr`color, repr`left, repr`right, repr`parent
      ensures At(k', t') && RedPending(k', t') && t'.n == next
      ensures Depth(k') < Depth(k) && Reading(k', t') == Reading(k, t)
    {
      Neighbours(k, t);
      var parent := node.parent;
      var gparent := parent.parent;
      var uncle := gparent.right;
      if uncle != null && uncle.color == Red {
        RecolorUp(uncle, parent, gparent, k, t);
        RecoloredPending(k, t);
        return gparent, k.up.up, Recolored(k, t);
      }
      k', t' := k, t;
      next := node;
      if parent.right == node {
        ZoomAt(k, t);
        LeftRotate(parent, k.up, Make(k.side, t, k.n, k.c, k.sib));
        StraightenedPending(k, t);
        k', t' := Straightened(k, t).0, Straightened(k, t).1;
        ZoomAt(k', t');
        parent, next := node, parent;
      }
      RepaintUp(parent, gparent, k', t');
      RightRotate(gparent, k.up.up, Repainted(k', t'));
      LiftedTurn(k', t');
      LiftedPending(k', t');
      k' := Lifted(k');
      ZoomAt(k', t');
    }

    /** One round of `insert_fixup` with the parent a right child. */
    method InsertFixupRight(node: Node<K, V>, ghost k: Context<K, V>, ghost t: Tree<K, V>)
      returns (next: Node<K, V>, ghost k': Context<K, V>, ghost t': Tree<K, V>)
      requires At(k, t) && RedPending(k, t) && t.n == node
      requires ColorAbove(k) == Red && k.up.Step? && k.up.side == R
      modifies this`root, repr`color, repr`left, repr`right, repr`parent
      ensures At(k', t') && RedPending(k', t') && t'.n == next
      ensures Depth(k') < Depth(k) && Reading(k', t') == Reading(k, t)
    {
      Neighbours(k, t);
      var parent := node.parent;
      var gparent := parent.parent;
      var uncle := gparent.left;
      if uncle != null && uncle.color == Red {
        RecolorUp(uncle, parent, gparent, k, t);
        RecoloredPending(k, t);
        return gparent, k.up.up, Recolored(k, t);
      }
      k', t' := k, t;
      next := node;
      if parent.left == node {
        ZoomAt(k, t);
        RightRotate(parent, k.up, Make(k.side, t, k.n, k.c, k.sib));
        StraightenedPending(k, t);
        k', t' := Straightened(k, t).0, Straightened(k, t).1;
        ZoomAt(k', t');
        parent, next := node, parent;
      }
      RepaintUp(parent, gparent, k', t');
      LeftRotate(gparent, k.up.up, Repainted(k', t'));
      LiftedTurn(k', t');
      LiftedPending(k', t');
      k' := Lifted(k');
      ZoomAt(k', t');
    }

    /** One round of `insert_fixup`, on either side. */
    method InsertFixupRound(node: Node<K, V>, ghost k: Context<K, V>, ghost t: Tree<K, V>)
      returns (next: Node<K, V>, ghost k': Context<K, V>, ghost t': Tree<K, V>)
      requires At(k, t) && RedPending(k, t) && t.n == node && node.parent != null && node.parent.color == Red
      requires node.parent == Above(k) && (k.Step? ==> k.n.color == k.c)
      modifies this`root, repr`color, repr`left, repr`right, repr`parent
      ensures At(k', t') && RedPending(k', t') && t'.n == next
      ensures Depth(k') < Depth(k) && Reading(k', t') == Reading(k, t)
    {
      RedParent(k, t);
      Neighbours(k, t);
      if node.parent == node.parent.parent.left {
        next, k', t' := InsertFixupLeft(node, k, t);
      } else {
        next, k', t' := InsertFixupRight(node, k, t);
      }
    }

    /** The end of `insert_fixup`: the root is black. */
    method BlackenRoot(ghost k: Context<K, V>, ghost t: Tree<K, V>) returns (ghost t': Tree<K, V>)
      requires At(k, t) && RedPending(k, t) && ColorAbove(k) == Black
      modifies this`root, repr`color, repr`left, repr`right, repr`parent
      ensures At(Top, t') && ValidTree(t') && InOrder(t') == Reading(k, t)
    {
      PlugAt(k, t);
      t' := Plug(k, t);
      if k.Step? {
        PlugRedBlack(k, t);
      }
      SetColor(root, Black, Top, t');
      t' := Paint(t', Black);
    }

    /** `insert_fixup`: from one possible red-red edge back to a valid tree with the same reading. */
    method InsertFixup(start: Node<K, V>, ghost k0: Context<K, V>, ghost t0: Tree<K, V>) returns (ghost t': Tree<K, V>)
      requires At(k0, t0) && RedPending(k0, t0) && t0.n == start
      modifies this`root, repr`color, repr`left, repr`right, repr`parent
      ensures At(Top, t') && ValidTree(t') && InOrder(t') == Reading(k0, t0)
    {
      var node := start;
      ghost var k, t := k0, t0;
      AboveColor(k, t);
      while node.parent != null && node.parent.color == Red
        invariant At(k, t) && RedPending(k, t) && t.n == node
        invariant node.parent == Above(k) && (k.Step? ==> k.n.color == k.c)
        invariant Reading(k, t) == Reading(k0, t0)
        decreases Depth(k)
      {
        node, k, t := InsertFixupRound(node, k, t);
        AboveColor(k, t);
      }
      t' := BlackenRoot(k, t);
    }

    lemma AboveColor(k: Context<K, V>, t: Tree<K, V>)
      requires At(k, t) && t.Fork?
      ensures t.n.parent == Above(k) && (k.Step? ==> k.n.color == k.c)
    {
      assert Snapshot(repr)[t.n].parent == Above(k);
      assert k.Step? ==> Snapshot(repr)[k.n] == Frame(k, t.n);
    }

    lemma {:induction false} PlugAt(k: Context<K, V>, t: Tree<K, V>)
      requires At(k, t)
      ensures At(Top, Plug(k, t))
      decreases k
    {
      if k.Step? {
        ZoomAt(k, t);
        PlugAt(k.up, Make(k.side, t, k.n, k.c, k.sib));
      }
    }

    predicate IsBlack(n: Node?<K, V>)
      reads n
    {
      n == null || n.color == Black
    }

    /** What the fields of the parent, the sibling and the sibling's children say. */
    lemma SiblingFields(k: Context<K, V>, t: Tree<K, V>)
      requires At(k, t) && k.Step? && k.sib.Fork?
      ensures k.n.left == (if k.side == L then Ptr(t) else k.sib.n)
      ensures k.n.right == (if k.side == L then k.sib.n else Ptr(t))
      ensures k.n.color == k.c && k.sib.n.color == k.sib.c
      ensures k.sib.n.left == Ptr(k.sib.l) && k.sib.n.right == Ptr(k.sib.r)
      ensures IsBlack(Ptr(k.sib.l)) == (ColorOf(k.sib.l) == Black)
      ensures IsBlack(Ptr(k.sib.r)) == (ColorOf(k.sib.r) == Black)
    {
      ghost var m := Snapshot(repr);
      assert m[k.n] == Frame(k, Ptr(t)) && m[k.sib.n] == Cell(k.sib.c, Ptr(k.sib.l), Ptr(k.sib.r), k.n);
      assert Holds(m, k.sib.l, k.sib.n) && Holds(m, k.sib.r, k.sib.n);
      assert k.sib.l.Fork? ==> m[k.sib.l.n].color == k.sib.l.c;
      assert k.sib.r.Fork? ==> m[k.sib.r.n].color == k.sib.r.c;
    }

    method PaintSibling(other: Node<K, V>, c: Color, ghost k: Context<K, V>, ghost t: Tree<K, V>)
      requires At(k, t) && k.Step? && k.sib.Fork? && other == k.sib.n
      modifies repr`color
      ensures At(k.(sib := Paint(k.sib, c)), t)
    {
      Across(k, t);
      SetColor(other, c, Step(k.up, Other(k.side), k.n, k.c, t), k.sib);
      Across(k.(sib := Paint(k.sib, c)), t);
    }

    /** Case 1 of `delete_fixup`, colours. */
    method PaintRedSibling(other: Node<K, V>, parent: Node<K, V>, ghost k: Context<K, V>, ghost t: Tree<K, V>)
      requires At(k, t) && k.Step? && k.sib.Fork? && other == k.sib.n && parent == k.n
      modifies repr`color
      ensures At(k.up, Make(k.side, t, k.n, Red, Paint(k.sib, Black)))
    {
      PaintSibling(other, Black, k, t);
      ZoomAt(k.(sib := Paint(k.sib, Black)), t);
      SetColor(parent, Red, k.up, Make(k.side, t, k.n, k.c, Paint(k.sib, Black)));
    }

    /** Case 3 of `delete_fixup`, colours: the near nephew becomes black, the sibling red. */
    method SwapNear(near: Node?<K, V>, other: Node<K, V>, ghost k: Context<K, V>, ghost t: Tree<K, V>)
      requires At(k, t) && k.Step? && k.sib.Fork? && Kid(k.sib, k.side).Fork?
      requires near == Ptr(Kid(k.sib, k.side)) && other == k.sib.n
      modifies repr`color
      ensures At(Step(k.up, Other(k.side), k.n, k.c, t), NearSwapped(k))
    {
      ghost var d, w := k.side, k.sib;
      ghost var k1 := Step(k.up, Other(d), k.n, k.c, t);
      ghost var k2 := Step(k1, d, w.n, w.c, Kid(w, Other(d)));
      Across(k, t);
      ZoomAt(k2, Kid(w, d));
      SetColor(near, Black, k2, Kid(w, d));
      ZoomAt(k2, Paint(Kid(w, d), Black));
      SetColor(other, Red, k1, Make(d, Paint(Kid(w, d), Black), w.n, w.c, Kid(w, Other(d))));
    }

    /** Case 4 of `delete_fixup`, colours: the sibling takes the parent's colour, parent and far nephew become black. */
    method PaintLast(
        other: Node<K, V>, parent: Node<K, V>, far: Node?<K, V>, ghost k: Context<K, V>, ghost t: Tree<K, V>)
      requires At(k, t) && k.Step? && k.sib.Fork? && other == k.sib.n && parent == k.n
      requires far == Ptr(Kid(k.sib, Other(k.side)))
      modifies repr`color
      ensures At(k.up, Recast(k, t))
    {
      ghost var d, w := k.side, k.sib;
      SiblingFields(k, t);
      PaintSibling(other, parent.color, k, t);
      ghost var w1 := Paint(w, k.c);
      ZoomAt(k.(sib := w1), t);
      SetColor(parent, Black, k.up, Make(d, t, k.n, k.c, w1));
      ghost var k1 := Step(k.up, d, k.n, Black, w1);
      ghost var k2 := Step(Step(k.up, Other(d), k.n, Black, t), Other(d), w.n, k.c, Kid(w, d));
      ZoomAt(k1, t);
      Across(k1, t);
      ZoomAt(k2, Kid(w, Other(d)));
      SetColor(far, Black, k2, Kid(w, Other(d)));
      ZoomAt(k2, Paint(Kid(w, Other(d)), Black));
      ZoomAt(k2.up, Make(Other(d), Paint(Kid(w, Other(d)), Black), w.n, k.c, Kid(w, d)));
    }

    /** Case 1 of `delete_fixup` for a left child: the red sibling comes up. */
    method RaiseSiblingLeft(other: Node<K, V>, parent: Node<K, V>, ghost k: Context<K, V>, ghost t: Tree<K, V>)
      requires At(k, t) && k.Step? && k.side == L && k.sib.Fork? && other == k.sib.n && parent == k.n
      modifies this`root, repr`color, repr`left, repr`right, repr`parent
      ensures At(UnderRed(k), t)
    {
      PaintRedSibling(other, parent, k, t);
      LeftRotate(parent, k.up, Make(k.side, t, k.n, Red, Paint(k.sib, Black)));
      UnderRedReading(k, t);
      ghost var k' := UnderRed(k);
      ZoomAt(k'.up, Make(k'.side, t, k'.n, k'.c, k'.sib));
      ZoomAt(k', t);
    }

    /** Case 3 of `delete_fixup` for a left child: the near child of the sibling takes its place. */
    method TurnNearLeft(sibling: Node<K, V>, ghost k: Context<K, V>, ghost t: Tree<K, V>)
      requires At(k, t) && ShortByOne(k, t) && k.Step? && k.side == L && k.sib.Fork? && k.sib.c == Black
      requires ColorOf(k.sib.l) == Red && ColorOf(k.sib.r) == Black && sibling == k.sib.n
      modifies this`root, repr`color, repr`left, repr`right, repr`parent
      ensures At(FarRed(k), t)
    {
      SiblingFields(k, t);
      FarRedShort(k, t);
      SwapNear(sibling.left, sibling, k, t);
      RightRotate(sibling, Step(k.up, R, k.n, k.c, t), NearSwapped(k));
      Across(FarRed(k), t);
    }

    /** Case 4 of `delete_fixup` for a left child. */
    method RestoreLeft(sibling: Node<K, V>, parent: Node<K, V>, ghost k: Context<K, V>, ghost t: Tree<K, V>)
      returns (ghost t': Tree<K, V>)
      requires At(k, t) && ShortByOne(k, t) && ColorOf(t) == Black && k.Step? && k.side == L
      requires k.sib.Fork? && k.sib.c == Black && ColorOf(k.sib.r) == Red && sibling == k.sib.n && parent == k.n
      modifies this`root, repr`color, repr`left, repr`right, repr`parent
      ensures At(Top, t') && ValidTree(t') && InOrder(t') == Reading(k, t)
    {
      SiblingFields(k, t);
      RestoredValid(k, t);
      PaintLast(sibling, parent, sibling.right, k, t);
      LeftRotate(parent, k.up, Recast(k, t));
      t' := Plug(k.up, Restored(k, t));
      PlugAt(k.up, Restored(k, t));
    }

    /** Cases 3 and 4 of `delete_fixup` for a left child. */
    method RebalanceLeft(sibling: Node<K, V>, parent: Node<K, V>, ghost k: Context<K, V>, ghost t: Tree<K, V>)
      returns (ghost t': Tree<K, V>)
      requires At(k, t) && ShortByOne(k, t) && ColorOf(t) == Black && k.Step? && k.side == L
      requires k.sib.Fork? && k.sib.c == Black && (ColorOf(k.sib.l) == Red || ColorOf(k.sib.r) == Red)
      requires sibling == k.sib.n && parent == k.n
      modifies this`root, repr`color, repr`left, repr`right, repr`parent
      ensures At(Top, t') && ValidTree(t') && InOrder(t') == Reading(k, t)
    {
      ghost var k' := k;
      var other := sibling;
      SiblingFields(k, t);
      if IsBlack(other.right) {
        FarRedShort(k, t);
        TurnNearLeft(other, k, t);
        k' := FarRed(k);
        SiblingFields(k', t);
        other := parent.right;
      }
      t' := RestoreLeft(other, parent, k', t);
    }

    /** One round of `delete_fixup` for a left child; `node` may be null. */
    method DeleteFixupLeft(node: Node?<K, V>, parent: Node<K, V>, ghost k: Context<K, V>, ghost t: Tree<K, V>)
      returns (next: Node?<K, V>, above: Node?<K, V>, ghost k': Context<K, V>, ghost t': Tree<K, V>)
      requires At(k, t) && ShortByOne(k, t) && ColorOf(t) == Black && k.Step? && k.side == L
      requires node == Ptr(t) && parent == k.n
      modifies this`root, repr`color, repr`left, repr`right, repr`parent
      ensures At(k', t') && ShortByOne(k', t') && next == Ptr(t') && (k'.Step? ==> above == k'.n)
      ensures Depth(k') < Depth(k) || (Depth(k') == Depth(k) && ColorOf(t') == Red)
      ensures Reading(k', t') == Reading(k, t)
    {
      k', t' := k, t;
      ShortSibling(k, t);
      SiblingFields(k, t);
      var other := parent.right;
      if other.color == Red {
        RaiseSiblingLeft(other, parent, k, t);
        UnderRedShort(k, t);
        k' := UnderRed(k);
        ShortSibling(k', t);
        SiblingFields(k', t);
        other := parent.right;
      }
      if IsBlack(other.left) && IsBlack(other.right) {
        ReddenedShort(k', t);
        PaintSibling(other, Red, k', t);
        ZoomAt(k'.(sib := Paint(k'.sib, Red)), t);
        k', t' := k'.up, Reddened(k', t);
        AboveColor(k', t');
        next, above := parent, parent.parent;
      } else {
        t' := RebalanceLeft(other, parent, k', t);
        next, above, k' := root, null, Top;
      }
    }

    /** Case 1 of `delete_fixup` for a right child: the red sibling comes up. */
    method RaiseSiblingRight(other: Node<K, V>, parent: Node<K, V>, ghost k: Context<K, V>, ghost t: Tree<K, V>)
      requires At(k, t) && k.Step? && k.side == R && k.sib.Fork? && other == k.sib.n && parent == k.n
      modifies this`root, repr`color, repr`left, repr`right, repr`parent
      ensures At(UnderRed(k), t)
    {
      PaintRedSibling(other, parent, k, t);
      RightRotate(parent, k.up, Make(k.side, t, k.n, Red, Paint(k.sib, Black)));
      UnderRedReading(k, t);
      ghost var k' := UnderRed(k);
      ZoomAt(k'.up, Make(k'.side, t, k'.n, k'.c, k'.sib));
      ZoomAt(k', t);
    }

    /** Case 3 of `delete_fixup` for a right child: the near child of the sibling takes its place. */
    method TurnNearRight(sibling: Node<K, V>, ghost k: Context<K, V>, ghost t: Tree<K, V>)
      requires At(k, t) && ShortByOne(k, t) && k.Step? && k.side == R && k.sib.Fork? && k.sib.c == Black
      requires ColorOf(k.sib.r) == Red && ColorOf(k.sib.l) == Black && sibling == k.sib.n
      modifies this`root, repr`color, repr`left, repr`right, repr`parent
      ensures At(FarRed(k), t)
    {
      SiblingFields(k, t);
      FarRedShort(k, t);
      SwapNear(sibling.right, sibling, k, t);
      LeftRotate(sibling, Step(k.up, L, k.n, k.c, t), NearSwapped(k));
      Across(FarRed(k), t);
    }

    /** Case 4 of `delete_fixup` for a right child. */
    method RestoreRight(sibling: Node<K, V>, parent: Node<K, V>, ghost k: Context<K, V>, ghost t: Tree<K, V>)
      returns (ghost t': Tree<K, V>)
      requires At(k, t) && ShortByOne(k, t) && ColorOf(t) == Black && k.Step? && k.side == R
      requires k.sib.Fork? && k.sib.c == Black && ColorOf(k.sib.l) == Red && sibling == k.sib.n && parent == k.n
      modifies this`root, repr`color, repr`left, repr`right, repr`parent
      ensures At(Top, t') && ValidTree(t') && InOrder(t') == Reading(k, t)
    {
      SiblingFields(k, t);
      RestoredValid(k, t);
      PaintLast(sibling, parent, sibling.left, k, t);
      RightRotate(parent, k.up, Recast(k, t));
      t' := Plug(k.up, Restored(k, t));
      PlugAt(k.up, Restored(k, t));
    }

    /** Cases 3 and 4 of `delete_fixup` for a right child. */
    method RebalanceRight(sibling: Node<K, V>, parent: Node<K, V>, ghost k: Context<K, V>, ghost t: Tree<K, V>)
      returns (ghost t': Tree<K, V>)
      requires At(k, t) && ShortByOne(k, t) && ColorOf(t) == Black && k.Step? && k.side == R
      requires k.sib.Fork? && k.sib.c == Black && (ColorOf(k.sib.l) == Red || ColorOf(k.sib.r) == Red)
      requires sibling == k.sib.n && parent == k.n
      modifies this`root, repr`color, repr`left, repr`right, repr`parent
      ensures At(Top, t') && ValidTree(t') && InOrder(t') == Reading(k, t)
    {
      ghost var k' := k;
      var other := sibling;
      SiblingFields(k, t);
      if IsBlack(other.left) {
        FarRedShort(k, t);
        TurnNearRight(other, k, t);
        k' := FarRed(k);
        SiblingFields(k', t);
        other := parent.left;
      }
      t' := RestoreRight(other, parent, k', t);
    }

    /** One round of `delete_fixup` for a right child; `node` may be null. */
    method DeleteFixupRight(node: Node?<K, V>, parent: Node<K, V>, ghost k: Context<K, V>, ghost t: Tree<K, V>)
      returns (next: Node?<K, V>, above: Node?<K, V>, ghost k': Context<K, V>, ghost t': Tree<K, V>)
      requires At(k, t) && ShortByOne(k, t) && ColorOf(t) == Black && k.Step? && k.side == R
      requires node == Ptr(t) && parent == k.n
      modifies this`root, repr`color, repr`left, repr`right, repr`parent
      ensures At(k', t') && ShortByOne(k', t') && next == Ptr(t') && (k'.Step? ==> above == k'.n)
      ensures Depth(k') < Depth(k) || (Depth(k') == Depth(k) && ColorOf(t') == Red)
      ensures Reading(k', t') == Reading(k, t)
    {
      k', t' := k, t;
      ShortSibling(k, t);
      SiblingFields(k, t);
      var other := parent.left;
      if other.color == Red {
        RaiseSiblingRight(other, parent, k, t);
        UnderRedShort(k, t);
        k' := UnderRed(k);
        ShortSibling(k', t);
        SiblingFields(k', t);
        other := parent.left;
      }
      if IsBlack(other.left) && IsBlack(other.right) {
        ReddenedShort(k', t);
        PaintSibling(other, Red, k', t);
        ZoomAt(k'.(sib := Paint(k'.sib, Red)), t);
        k', t' := k'.up, Reddened(k', t);
        AboveColor(k', t');
        next, above := parent, parent.parent;
      } else {
        t' := RebalanceRight(other, parent, k', t);
        next, above, k' := root, null, Top;
      }
    }

    /** `delete_fixup`: restores the missing black node; `start` may be null. */
    method DeleteFixup(start: Node?<K, V>, parent0: Node?<K, V>, ghost k0: Context<K, V>, ghost t0: Tree<K, V>)
      returns (ghost t': Tree<K, V>)
      requires At(k0, t0) && ShortByOne(k0, t0) && start == Ptr(t0) && (k0.Step? ==> parent0 == k0.n)
      modifies this`root, repr`color, repr`left, repr`right, repr`parent
      ensures At(Top, t') && ValidTree(t') && InOrder(t') == Reading(k0, t0)
    {
      var node, parent := start, parent0;
      ghost var k, t := k0, t0;
      Located(k, t);
      while node != root && IsBlack(node)
        invariant At(k, t) && ShortByOne(k, t) && node == Ptr(t) && (k.Step? ==> parent == k.n)
        invariant (node == root <==> k.Top?) && IsBlack(node) == (ColorOf(t) == Black)
        invariant Reading(k, t) == Reading(k0, t0)
        decreases Depth(k), Weight(ColorOf(t))
      {
        ShortSibling(k, t);
        SiblingFields(k, t);
        HoleSide(k, t);
        if parent.left == node {
          node, parent, k, t := DeleteFixupLeft(node, parent, k, t);
        } else {
          node, parent, k, t := DeleteFixupRight(node, parent, k, t);
        }
        Located(k, t);
      }
      SetColor(node, Black, k, t);
      PlugAt(k, Paint(t, Black));
      ShortDone(k, t);
      t' := Plug(k, Paint(t, Black));
    }

    lemma Located(k: Context<K, V>, t: Tree<K, V>)
      requires At(k, t)
      ensures Ptr(t) == root <==> k.Top?
      ensures IsBlack(Ptr(t)) == (ColorOf(t) == Black)
    {
      TopPtrAround(k, Ptr(t), Ptr(t));
      assert t.Fork? ==> t.n in Nodes(t) && Snapshot(repr)[t.n].color == t.c;
    }

    lemma HoleSide(k: Context<K, V>, t: Tree<K, V>)
      requires At(k, t) && k.Step? && k.sib.Fork?
      ensures k.n.left == Ptr(t) <==> k.side == L
    {
      SiblingFields(k, t);
      assert k.sib.n in Nodes(k.sib) && (t.Fork? ==> t.n in Nodes(t));
    }

    // ---------- the public operations ----------

    ghost predicate Valid()
      reads this, repr
    {
      && At(Top, shape) && ValidTree(shape) && len == |InOrder(shape)|
      && Sorted(cmp, InOrder(shape)) && Lawful(cmp)
    }

    /** The nodes in key order. */
    ghost function Contents(): seq<Node<K, V>>
      reads this
    {
      InOrder(shape)
    }

    constructor (cmp: (K, K) -> Ordering)
      requires Lawful(cmp)
      ensures Valid() && Contents() == [] && repr == {} && this.cmp == cmp
    {
      root, len, this.cmp, repr, shape := null, 0, cmp, {}, Leaf;
    }

    /** `insert`: the new pair goes after every key up to it and before every larger one. */
    method Insert(k: K, v: V) returns (ghost n: Node<K, V>, ghost at: nat)
      requires Valid()
      modifies this, repr`color, repr`left, repr`right, repr`parent
      ensures Valid() && fresh(n) && n.key == k && n.value == v && repr == old(repr) + {n} && len == old(len) + 1
      ensures at <= |old(Contents())| && Contents() == old(Contents())[..at] + [n] + old(Contents())[at..]
      ensures AllCompare(cmp, k, old(Contents())[..at], {Equal, Greater})
      ensures AllCompare(cmp, k, old(Contents())[at..], {Less})
    {
      len := len + 1;
      var node := new Node(k, v);
      n := node;
      at := Attach(node);
    }

    /** `insert` after the allocation of the node. */
    method Attach(node: Node<K, V>) returns (ghost at: nat)
      requires At(Top, shape) && ValidTree(shape) && Sorted(cmp, InOrder(shape)) && Lawful(cmp)
      requires node !in repr && node.left == null && node.right == null
      modifies `root, `repr, `shape, repr`color, repr`left, repr`right, repr`parent
      modifies node`color, node`left, node`right, node`parent
      ensures At(Top, shape) && ValidTree(shape) && Sorted(cmp, InOrder(shape)) && repr == old(repr) + {node}
      ensures at <= |old(Contents())| && Contents() == old(Contents())[..at] + [node] + old(Contents())[at..]
      ensures AllCompare(cmp, node.key, old(Contents())[..at], {Equal, Greater})
      ensures AllCompare(cmp, node.key, old(Contents())[at..], {Less})
    {
      ghost var c;
      var y;
      y, c := Descend(node.key);
      Hang(node, y, c);
      at := |Before(c)|;
      InsertedAt(cmp, c, shape, node);
      shape := InsertFixup(node, c, Fork(Leaf, node, Red, Leaf));
    }

    /** The search loop of `insert`: the node under which the key belongs, and the empty place below it. */
    method Descend(k: K) returns (y: Node?<K, V>, ghost c: Context<K, V>)
      requires At(Top, shape) && Sorted(cmp, InOrder(shape)) && Lawful(cmp)
      ensures At(c, Leaf) && Plug(c, Leaf) == shape && y == Above(c)
      ensures AllCompare(cmp, k, Before(c), {Equal, Greater}) && AllCompare(cmp, k, After(c), {Less})
      ensures c.Step? ==> (c.side == L <==> cmp(k, c.n.key) == Less)
    {
      y := null;
      var x := root;
      ghost var t := shape;
      c := Top;
      while x != null
        invariant At(c, t) && Plug(c, t) == shape && x == Ptr(t) && y == Above(c)
        invariant AllCompare(cmp, k, Before(c), {Equal, Greater}) && AllCompare(cmp, k, After(c), {Less})
        invariant c.Step? ==> (c.side == L <==> cmp(k, c.n.key) == Less)
        decreases t
      {
        y := x;
        assert Snapshot(repr)[x] == Cell(t.c, Ptr(t.l), Ptr(t.r), Above(c));
        if cmp(k, x.key) == Less {
          DescendLeft(cmp, k, c, t);
          c, t := Step(c, L, t.n, t.c, t.r), t.l;
          x := x.left;
        } else {
          DescendRight(cmp, k, c, t);
          c, t := Step(c, R, t.n, t.c, t.l), t.r;
          x := x.right;
        }
        ZoomAt(c, t);
      }
    }

    /** The last lines of `insert` before the fix-up: the new node becomes a red child of `y`. */
    method Hang(node: Node<K, V>, y: Node?<K, V>, ghost c: Context<K, V>)
      requires At(c, Leaf) && y == Above(c) && node !in repr && node.left == null && node.right == null
      requires c.Step? ==> (c.side == L <==> cmp(node.key, c.n.key) == Less)
      modifies `root, `repr, repr`left, repr`right, node`parent, node`color
      ensures repr == old(repr) + {node} && At(c, Fork(Leaf, node, Red, Leaf))
    {
      ghost var m := Snapshot(repr);
      TopPtrAround(c, null, node);
      node.parent := y;
      if y == null {
        root := node;
      } else if cmp(node.key, y.key) == Less {
        y.left := node;
      } else {
        y.right := node;
      }
      node.color := Red;
      repr := repr + {node};
      Grafted(m, Snapshot(repr), c, node);
    }

    /** `delete`: exactly `node` leaves the in-order sequence. */
    method Delete(node: Node<K, V>) returns (k: K, v: V, ghost i: nat)
      requires Valid() && node in repr
      modifies this, repr`color, repr`left, repr`right, repr`parent
      ensures Valid() && repr == old(repr) - {node} && len == old(len) - 1
      ensures i < |old(Contents())| && old(Contents())[i] == node
      ensures Contents() == old(Contents())[..i] + old(Contents())[i + 1..]
      ensures k == node.key && v == node.value
    {
      ghost var s := InOrder(shape);
      ghost var c, t := Focus(Top, shape, node);
      Unplug(Snapshot(repr), c, t);
      assert Snapshot(repr)[node] == Cell(t.c, Ptr(t.l), Ptr(t.r), Above(c));
      len := len - 1;
      if node.left != null && node.right != null {
        i := DeleteInner(node, c, t);
      } else {
        i := DeleteOuter(node, c, t);
      }
      SortedRemove(cmp, s, i);
      k, v := node.key, node.value;
    }

    /** `delete` for a node with at most one child. */
    method DeleteOuter(node: Node<K, V>, ghost c: Context<K, V>, ghost t: Tree<K, V>) returns (ghost i: nat)
      requires At(c, t) && Plug(c, t) == shape && ValidTree(shape) && t.Fork? && t.n == node && (t.l.Leaf? || t.r.Leaf?)
      modifies `root, `repr, `shape, repr`color, repr`left, repr`right, repr`parent
      ensures At(Top, shape) && ValidTree(shape) && repr == old(repr) - {node}
      ensures i < |old(Contents())| && old(Contents())[i] == node
      ensures Contents() == old(Contents())[..i] + old(Contents())[i + 1..]
    {
      ghost var d := if t.l.Fork? then L else R;
      i := |Before(c)| + if d == L then |InOrder(t.l)| else 0;
      AboveColor(c, t);
      var color := node.color;
      var child, parent := CutLinks(node, c, t, d);
      CutOutShort(c, t, d);
      CutReading(c, t, d, i);
      FinishDelete(child, parent, color, c, Kid(t, d));
    }

    /** The end of `delete`: the fix-up, if a black node went. */
    method FinishDelete(
        child: Node?<K, V>, parent: Node?<K, V>, color: Color, ghost c: Context<K, V>, ghost t: Tree<K, V>)
      requires At(c, t) && child == Ptr(t) && parent == Above(c)
      requires if color == Black then ShortByOne(c, t) else ValidTree(Plug(c, t))
      modifies `root, `shape, repr`color, repr`left, repr`right, repr`parent
      ensures At(Top, shape) && ValidTree(shape) && InOrder(shape) == Reading(c, t)
    {
      if color == Black {
        shape := DeleteFixup(child, parent, c, t);
      } else {
        PlugAt(c, t);
        shape := Plug(c, t);
      }
    }

    /** The pointer writes that cut out a node with at most one child. */
    method CutWrites(node: Node<K, V>) returns (child: Node?<K, V>, parent: Node?<K, V>)
      requires node in repr && (node.left == null || node.right == null)
      requires node == root <==> node.parent == null
      requires node.parent != null ==> node.parent in repr && (node.parent.left == node) != (node.parent.right == node)
      requires node.left != null ==> node.left in repr - {node.parent}
      requires node.right != null ==> node.right in repr - {node.parent}
      modifies `root, repr`left, repr`right, repr`parent
      ensures child == (if old(node.left) != null then old(node.left) else old(node.right))
      ensures parent == old(node.parent)
      ensures Agree(old(Snapshot(repr)), Snapshot(repr), {child, parent})
      ensures child != null ==> Snapshot(repr)[child] == old(Snapshot(repr))[child].(parent := parent)
      ensures parent != null ==>
        root == old(root) && Snapshot(repr)[parent] == Repointed(old(Snapshot(repr))[parent], node, child)
      ensures parent == null ==> root == child
    {
      if node.left != null {
        child := node.left;
      } else {
        child := node.right;
      }
      parent := node.parent;
      if child != null {
        child.parent := parent;
      }
      Relink(node, child, parent);
    }

    method CutLinks(node: Node<K, V>, ghost c: Context<K, V>, ghost t: Tree<K, V>, ghost d: Side)
      returns (child: Node?<K, V>, parent: Node?<K, V>)
      requires At(c, t) && t.Fork? && t.n == node && (t.l.Leaf? || t.r.Leaf?) && d == if t.l.Fork? then L else R
      modifies `root, `repr, repr`left, repr`right, repr`parent
      ensures repr == old(repr) - {node} && At(c, Kid(t, d)) && child == Ptr(Kid(t, d)) && parent == Above(c)
    {
      ghost var m := Snapshot(repr);
      NodeFields(c, t);
      TopPtrAround(c, node, Ptr(Kid(t, d)));
      child, parent := CutWrites(node);
      ghost var m1 := Snapshot(repr);
      Forget(node);
      CutOutOf(m, m1, Snapshot(repr), c, t, d);
    }

    lemma KidFields(c: Context<K, V>, t: Tree<K, V>)
      requires At(c, t) && t.Fork?
      ensures t.n.left == Ptr(t.l) && t.n.right == Ptr(t.r)
    {
      assert Snapshot(repr)[t.n] == Cell(t.c, Ptr(t.l), Ptr(t.r), Above(c));
    }

    /** What the fields of the node in the hole and of the one above it say. */
    lemma NodeFields(c: Context<K, V>, t: Tree<K, V>)
      requires At(c, t) && t.Fork?
      ensures t.n in repr && t.n.color == t.c && t.n.left == Ptr(t.l) && t.n.right == Ptr(t.r) && t.n.parent == Above(c)
      ensures t.n == root <==> c.Top?
      ensures c.Step? ==> Snapshot(repr)[c.n] == Frame(c, t.n) && c.n in repr && (c.n.left == t.n) != (c.n.right == t.n)
      ensures t.l.Fork? ==> t.l.n in repr && t.l.n != Above(c)
      ensures t.r.Fork? ==> t.r.n in repr && t.r.n != Above(c)
    {
      ghost var m := Snapshot(repr);
      TopPtrAround(c, t.n, t.n);
      assert m[t.n] == Cell(t.c, Ptr(t.l), Ptr(t.r), Above(c));
      assert t.l.Fork? ==> t.l.n in Nodes(t.l);
      assert t.r.Fork? ==> t.r.n in Nodes(t.r);
      if c.Step? {
        assert m[c.n] == Frame(c, t.n);
        assert c.sib.Fork? ==> c.sib.n in Nodes(c.sib);
      }
    }

    /** `min_node`: down the left links. */
    method MinNode(start: Node<K, V>, ghost c0: Context<K, V>, ghost t0: Tree<K, V>)
      returns (temp: Node<K, V>, ghost c: Context<K, V>, ghost t: Tree<K, V>)
      requires At(c0, t0) && t0.Fork? && t0.n == start
      ensures At(c, t) && t.Fork? && t.n == temp && t.l.Leaf? && Spine(c, c0) && Plug(c, t) == Plug(c0, t0)
      ensures InOrder(t0) != [] && temp == InOrder(t0)[0]
    {
      temp := start;
      c, t := c0, t0;
      assert Snapshot(repr)[temp] == Cell(t.c, Ptr(t.l), Ptr(t.r), Above(c));
      while temp.left != null
        invariant At(c, t) && t.Fork? && t.n == temp && Spine(c, c0) && Plug(c, t) == Plug(c0, t0)
        invariant temp.left == Ptr(t.l) && InOrder(t) != [] && InOrder(t0) != [] && InOrder(t)[0] == InOrder(t0)[0]
        decreases t
      {
        temp := temp.left;
        c, t := Step(c, L, t.n, t.c, t.r), t.l;
        ZoomAt(c, t);
        assert Snapshot(repr)[temp] == Cell(t.c, Ptr(t.l), Ptr(t.r), Above(c));
      }
    }

    /** `delete`, the successor leaves its old place. */
    method DetachSuccessor(node: Node<K, V>, replace: Node<K, V>) returns (child: Node?<K, V>, parent: Node<K, V>)
      requires CanDetach(Snapshot(repr), node, replace)
      modifies repr`left, repr`right, repr`parent
      ensures child == old(replace.right)
      ensures parent == if old(replace.parent) == node then replace else old(replace.parent)
      ensures Snapshot(repr) == Detached(old(Snapshot(repr)), node, replace)
    {
      ghost var m := Snapshot(repr);
      assert node.right in repr && replace.parent in repr && (replace.right != null ==> replace.right in repr);
      child := replace.right;
      parent := replace.parent;
      if parent == node {
        parent := replace;
      } else {
        MoveUp(child, parent);
        assert Snapshot(repr)[node] == m[node];
        TakeRight(replace, node.right);
      }
    }

    /** `right` becomes the right child of `x`. */
    method TakeRight(x: Node<K, V>, right: Node<K, V>)
      requires x in repr && right in repr && x != right
      modifies repr`right, repr`parent
      ensures var m := old(Snapshot(repr));
        Snapshot(repr) == m[x := m[x].(right := right)][right := m[right].(parent := x)]
    {
      x.right := right;
      right.parent := x;
    }

    /** `child` becomes the left child of `parent`. */
    method MoveUp(child: Node?<K, V>, parent: Node<K, V>)
      requires parent in repr && child != parent && (child != null ==> child in repr)
      modifies repr`left, repr`parent
      ensures var m := old(Snapshot(repr));
        var m1 := if child == null then m else m[child := m[child].(parent := parent)];
        Snapshot(repr) == m1[parent := m1[parent].(left := child)]
    {
      if child != null {
        child.parent := parent;
      }
      parent.left := child;
    }

    /** `delete`, the successor takes the place of `node`. */
    method InstallSuccessor(node: Node<K, V>, replace: Node<K, V>)
      requires node in repr && replace in repr && node.left in repr && node != replace && node.left != replace
      modifies repr`color, repr`left, repr`parent
      ensures Snapshot(repr) == Installed(old(Snapshot(repr)), node, replace)
    {
      replace.parent := node.parent;
      replace.color := node.color;
      replace.left := node.left;
      node.left.parent := replace;
    }

    /** The pointer writes that put `replace` in the place of `node`. */
    method SucceedWrites(node: Node<K, V>, replace: Node<K, V>) returns (child: Node?<K, V>, parent: Node<K, V>)
      requires CanSucceed(Snapshot(repr), node, replace) && (node == root <==> node.parent == null)
      modifies `root, repr`color, repr`left, repr`right, repr`parent
      ensures child == old(replace.right)
      ensures parent == if old(replace.parent) == node then replace else old(replace.parent)
      ensures Snapshot(repr) == Replaced(old(Snapshot(repr)), node, replace)
      ensures root == if old(node.parent) == null then replace else old(root)
    {
      Relink(node, replace, node.parent);
      ghost var m := Snapshot(repr);
      assert m == Repoint(old(Snapshot(repr)), node, replace);
      assert m[replace] == old(Snapshot(repr))[replace];
      child, parent := DetachSuccessor(node, replace);
      assert Snapshot(repr)[node] == m[node];
      InstallSuccessor(node, replace);
    }

    lemma Succeedable(c: Context<K, V>, t: Tree<K, V>, c': Context<K, V>, s: Tree<K, V>)
      requires At(c, t) && At(c', s) && Successor(c, t, c', s)
      ensures CanSucceed(Snapshot(repr), t.n, s.n) && (t.n == root <==> t.n.parent == null)
      ensures s.n.right == Ptr(s.r) && s.n.parent == c'.n && t.n.parent == Above(c)
      ensures Above(Vacated(c, t, c', s)) == if c'.n == t.n then s.n else c'.n
    {
      ghost var m := Snapshot(repr);
      ghost var c0 := Step(c, R, t.n, t.c, t.l);
      SuccessorCells(m, c, t, c', s);
      TopPtrAround(c, t.n, t.n);
      assert m[t.n] == Cell(t.c, Ptr(t.l), Ptr(t.r), Above(c));
      assert t.l.n in Nodes(t.l) && t.r.n in Nodes(t.r) && s.n in Nodes(s) && c'.n in Around(c');
      assert s.r.Fork? ==> s.r.n in Nodes(s.r);
      if c' != c0 { SpineTop(m, c', c0, s.n); } else { assert m[c'.n] == Frame(c', s.n); }
      if c.Step? {
        assert m[c.n] == Frame(c, t.n);
        assert c.sib.Fork? ==> c.sib.n in Nodes(c.sib);
      }
    }

    method SucceedLinks(node: Node<K, V>, replace: Node<K, V>,
        ghost c: Context<K, V>, ghost t: Tree<K, V>, ghost c': Context<K, V>, ghost s: Tree<K, V>)
      returns (child: Node?<K, V>, parent: Node<K, V>)
      requires At(c, t) && At(c', s) && Successor(c, t, c', s) && node == t.n && replace == s.n
      modifies `root, `repr, repr`color, repr`left, repr`right, repr`parent
      ensures repr == old(repr) - {node} && At(Vacated(c, t, c', s), s.r)
      ensures child == Ptr(s.r) && parent == Above(Vacated(c, t, c', s))
    {
      ghost var m := Snapshot(repr);
      Succeedable(c, t, c', s);
      VacatedTop(c, t, c', s);
      child, parent := SucceedWrites(node, replace);
      ghost var m1 := Snapshot(repr);
      Forget(node);
      ReplacedStore(m, m1, Snapshot(repr), c, t, c', s);
    }

    /** The node is no longer part of the tree. */
    ghost method Forget(node: Node<K, V>)
      modifies `repr
      ensures repr == old(repr) - {node} && Snapshot(repr).Keys == old(Snapshot(repr)).Keys - {node}
      ensures forall n <- Snapshot(repr) :: Snapshot(repr)[n] == old(Snapshot(repr))[n]
    {
      repr := repr - {node};
    }

    method FindSuccessor(node: Node<K, V>, ghost c: Context<K, V>, ghost t: Tree<K, V>)
      returns (replace: Node<K, V>, ghost c': Context<K, V>, ghost s: Tree<K, V>)
      requires At(c, t) && t.Fork? && t.n == node && t.l.Fork? && t.r.Fork?
      ensures At(c', s) && Successor(c, t, c', s) && replace == s.n && replace.color == s.c
    {
      ghost var c0 := Step(c, R, t.n, t.c, t.l);
      ZoomAt(c0, t.r);
      NodeFields(c, t);
      replace, c', s := MinNode(node.right, c0, t.r);
      NodeFields(c', s);
    }

    /** `delete` for a node with two children: the in-order successor takes its place. */
    method DeleteInner(node: Node<K, V>, ghost c: Context<K, V>, ghost t: Tree<K, V>) returns (ghost i: nat)
      requires At(c, t) && Plug(c, t) == shape && ValidTree(shape) && t.Fork? && t.n == node && t.l.Fork? && t.r.Fork?
      modifies `root, `repr, `shape, repr`color, repr`left, repr`right, repr`parent
      ensures At(Top, shape) && ValidTree(shape) && repr == old(repr) - {node}
      ensures i < |old(Contents())| && old(Contents())[i] == node
      ensures Contents() == old(Contents())[..i] + old(Contents())[i + 1..]
    {
      ghost var c', s;
      var replace;
      replace, c', s := FindSuccessor(node, c, t);
      var color := replace.color;
      var child, parent := SucceedLinks(node, replace, c, t, c', s);
      ghost var v := Vacated(c, t, c', s);
      i := |Before(c)| + |InOrder(t.l)|;
      VacatedTree(c, t, c', s, v, i);
      FinishDelete(child, parent, color, v, s.r);
    }

    /** `find_node`: null exactly when the key is absent; the steps are at most twice the logarithm of the size. */
    method FindNode(k: K) returns (n: Node?<K, V>, ghost steps: nat)
      requires Valid()
      ensures n != null ==> n in repr && n in Contents() && n.key == k
      ensures n == null <==> forall x <- Contents() :: x.key != k
      ensures AtDepth(shape, n, steps) && steps <= Height(shape) && Pow2(steps) <= (len + 1) * (len + 1)
    {
      ghost var c, t;
      n, steps, c, t := Search(k);
      PlugDepth(c, t, n, Bit(n != null));
      StepsBound(shape, n, steps);
    }

    /** The descent of `find_node`: one step for every node of the path to the place `c`. */
    method Search(k: K) returns (n: Node?<K, V>, ghost steps: nat, ghost c: Context<K, V>, ghost t: Tree<K, V>)
      requires Valid()
      ensures n != null ==> n in repr && n in Contents() && n.key == k
      ensures n == null <==> forall x <- Contents() :: x.key != k
      ensures Plug(c, t) == shape && if n == null then t.Leaf? else t.Fork? && t.n == n
      ensures steps == Depth(c) + Bit(n != null)
    {
      steps, c, t := 0, Top, shape;
      if root == null {
        return null, 0, c, t;
      }
      var temp := root;
      while true
        invariant At(c, t) && Plug(c, t) == shape && t.Fork? && t.n == temp && steps == Depth(c)
        invariant AllCompare(cmp, k, Before(c), {Greater}) && AllCompare(cmp, k, After(c), {Less})
        decreases t
      {
        NodeFields(c, t);
        steps := steps + 1;
        var o := cmp(k, temp.key);
        if o == Equal {
          PlugNodes(c, t);
          InOrderNodes(shape, temp);
          return temp, steps, c, t;
        }
        var next;
        if o == Less {
          DescendLeft(cmp, k, c, t);
          next, c, t := temp.left, Step(c, L, t.n, t.c, t.r), t.l;
        } else {
          DescendRight(cmp, k, c, t);
          next, c, t := temp.right, Step(c, R, t.n, t.c, t.l), t.r;
        }
        ZoomAt(c, t);
        if next == null {
          NotFound(cmp, k, c);
          return null, steps, c, t;
        }
        temp := next;
      }
    }

    /** `max_node`: down the right links. */
    method MaxNode(start: Node<K, V>, ghost c0: Context<K, V>, ghost t0: Tree<K, V>)
      returns (temp: Node<K, V>, ghost c: Context<K, V>, ghost t: Tree<K, V>)
      requires At(c0, t0) && t0.Fork? && t0.n == start
      ensures At(c, t) && t.Fork? && t.n == temp && t.r.Leaf? && Plug(c, t) == Plug(c0, t0)
      ensures InOrder(t0) != [] && temp == InOrder(t0)[|InOrder(t0)| - 1]
      ensures Offset(c) + Size(t) == Offset(c0) + Size(t0)
    {
      temp := start;
      c, t := c0, t0;
      NodeFields(c, t);
      while temp.right != null
        invariant At(c, t) && t.Fork? && t.n == temp && Plug(c, t) == Plug(c0, t0)
        invariant Offset(c) + Size(t) == Offset(c0) + Size(t0)
        invariant temp.right == Ptr(t.r) && SameLast(t, t0)
        decreases t
      {
        temp := temp.right;
        LastDown(t, t0);
        c, t := Step(c, R, t.n, t.c, t.l), t.r;
        ZoomAt(c, t);
        NodeFields(c, t);
      }
      LastHere(t, t0);
    }

    /** `first_child`: the first node in key order. */
    method FirstChild() returns (n: Node?<K, V>)
      requires Valid()
      ensures n == if Contents() == [] then null else Contents()[0]
      ensures n != null ==> n in repr
    {
      if root == null {
        n := null;
      } else {
        ghost var c, t;
        n, c, t := MinNode(root, Top, shape);
        SpineOffset(c, Top);
        HoleReading(c, t);
      }
    }

    /** `last_child`: the last node in key order. */
    method LastChild() returns (n: Node?<K, V>)
      requires Valid()
      ensures n == if Contents() == [] then null else Contents()[|Contents()| - 1]
      ensures n != null ==> n in repr
    {
      if root == null {
        n := null;
      } else {
        ghost var c, t;
        n, c, t := MaxNode(root, Top, shape);
        HoleReading(c, t);
        HoleReading(Top, shape);
      }
    }

    lemma ContentsInRepr()
      requires Valid()
      ensures forall i :: 0 <= i < |Contents()| ==> Contents()[i] in repr
    {
      forall i | 0 <= i < |Contents()| ensures Contents()[i] in repr {
        InOrderNodes(shape, Contents()[i]);
      }
    }

    /** `next`: the in-order successor, null at the end. */
    method Next(node: Node<K, V>, ghost i: nat) returns (n: Node?<K, V>)
      requires Valid() && i < |Contents()| && Contents()[i] == node
      ensures n == if i + 1 < |Contents()| then Contents()[i + 1] else null
    {
      ghost var c, t := Locate(node, i);
      KidFields(c, t);
      if node.right != null {
        n := FirstBelow(node.right, c, t);
      } else {
        n := ClimbFromRight(node, c, t);
      }
    }

    method FirstBelow(right: Node<K, V>, ghost c: Context<K, V>, ghost t: Tree<K, V>) returns (n: Node<K, V>)
      requires At(c, t) && Plug(c, t) == shape && t.Fork? && t.r.Fork? && right == t.r.n
      ensures var j := Offset(c) + Size(t.l) + 1; j < |Contents()| && n == Contents()[j]
    {
      ghost var c0 := Step(c, R, t.n, t.c, t.l);
      ZoomAt(c0, t.r);
      ghost var c', t';
      assert Plug(c0, t.r) == shape && Offset(c0) == Offset(c) + Size(t.l) + 1;
      n, c', t' := MinNode(right, c0, t.r);
      SpineOffset(c', c0);
      HoleReading(c', t');
      assert Size(t'.l) == 0;
    }

    /** The loop of `next`: the first ancestor of which `node` lies to the left. */
    method ClimbFromRight(node: Node<K, V>, ghost c0: Context<K, V>, ghost t0: Tree<K, V>) returns (n: Node?<K, V>)
      requires At(c0, t0) && Plug(c0, t0) == shape && t0.Fork? && t0.n == node
      ensures var j := Offset(c0) + Size(t0); j <= |Contents()| && n == if j < |Contents()| then Contents()[j] else null
    {
      var temp := node;
      ghost var c, t := c0, t0;
      while true
        invariant At(c, t) && Plug(c, t) == shape && t.Fork? && t.n == temp
        invariant Offset(c) + Size(t) == Offset(c0) + Size(t0)
        decreases c
      {
        WithinContents(c, t);
        OneUp(c, t);
        if temp.parent == null {
          return null;
        }
        if temp.parent.left == temp {
          return temp.parent;
        }
        temp := temp.parent;
        c, t := c.up, Make(c.side, t, c.n, c.c, c.sib);
      }
    }

    /** `prev`: the in-order predecessor, null at the beginning. */
    method Prev(node: Node<K, V>, ghost i: nat) returns (n: Node?<K, V>)
      requires Valid() && i < |Contents()| && Contents()[i] == node
      ensures n == if i > 0 then Contents()[i - 1] else null
    {
      ghost var c, t := Locate(node, i);
      KidFields(c, t);
      if node.left != null {
        n := LastBelow(node.left, c, t);
      } else {
        n := ClimbFromLeft(node, c, t);
      }
    }

    method LastBelow(left: Node<K, V>, ghost c: Context<K, V>, ghost t: Tree<K, V>) returns (n: Node<K, V>)
      requires At(c, t) && Plug(c, t) == shape && t.Fork? && t.l.Fork? && left == t.l.n
      ensures var j := Offset(c) + Size(t.l); 0 < j <= |Contents()| && n == Contents()[j - 1]
    {
      ghost var c0 := Step(c, L, t.n, t.c, t.r);
      ZoomAt(c0, t.l);
      ghost var c', t';
      assert Plug(c0, t.l) == shape && Offset(c0) == Offset(c);
      n, c', t' := MaxNode(left, c0, t.l);
      LastInHole(c', t');
    }

    /** The loop of `prev`: the first ancestor of which `node` lies to the right. */
    method ClimbFromLeft(node: Node<K, V>, ghost c0: Context<K, V>, ghost t0: Tree<K, V>) returns (n: Node?<K, V>)
      requires At(c0, t0) && Plug(c0, t0) == shape && t0.Fork? && t0.n == node
      ensures var j := Offset(c0); j <= |Contents()| && n == if j > 0 then Contents()[j - 1] else null
    {
      var temp := node;
      ghost var c, t := c0, t0;
      HoleReading(c, t);
      while true
        invariant At(c, t) && Plug(c, t) == shape && t.Fork? && t.n == temp
        invariant Offset(c) == Offset(c0)
        decreases c
      {
        OneUp(c, t);
        if temp.parent == null {
          return null;
        }
        if temp.parent.right == temp {
          return temp.parent;
        }
        temp := temp.parent;
        c, t := c.up, Make(c.side, t, c.n, c.c, c.sib);
      }
    }

    lemma WithinContents(c: Context<K, V>, t: Tree<K, V>)
      requires Plug(c, t) == shape && t.Fork?
      ensures Offset(c) + Size(t) <= |Contents()| && (c.Top? ==> Offset(c) == 0 && Size(t) == |Contents()|)
    {
      HoleReading(c, t);
    }

    /** What a step from a node to its parent meets. */
    lemma OneUp(c: Context<K, V>, t: Tree<K, V>)
      requires At(c, t) && t.Fork? && Plug(c, t) == shape
      ensures t.n.parent == Above(c)
      ensures c.Step? ==> At(c.up, Make(c.side, t, c.n, c.c, c.sib)) && c.n.left != c.n.right
      ensures c.Step? && c.side == L ==>
        c.n.left == t.n && Offset(c) + Size(t) < |Contents()| && Contents()[Offset(c) + Size(t)] == c.n
      ensures c.Step? && c.side == R ==>
        c.n.right == t.n && 0 < Offset(c) <= |Contents()| && Contents()[Offset(c) - 1] == c.n
    {
      NodeFields(c, t);
      if c.Step? {
        ZoomAt(c, t);
        UpReading(c, t);
      }
    }

    /** The hole in which the `i`-th node sits. */
    lemma Locate(node: Node<K, V>, i: nat) returns (c: Context<K, V>, t: Tree<K, V>)
      requires Valid() && i < |Contents()| && Contents()[i] == node
      ensures At(c, t) && Plug(c, t) == shape && t.Fork? && t.n == node && i == Offset(c) + Size(t.l)
    {
      InOrderNodes(shape, node);
      c, t := Focus(Top, shape, node);
      Unplug(Snapshot(repr), c, t);
      InOrderNoRepeat(shape);
      PositionAt(c, t, i);
    }

    /** `pop_first`: removes and returns the first pair. */
    method PopFirst() returns (r: Option<(K, V)>)
      requires Valid()
      modifies this, repr`color, repr`left, repr`right, repr`parent
      ensures Valid() && (old(Contents()) == [] <==> r == None)
      ensures r == None ==> Contents() == old(Contents()) && repr == old(repr)
      ensures r != None ==>
        var s := old(Contents());
        Contents() == s[1..] && r.value.0 == s[0].key && r.value.1 == s[0].value
    {
      var first := FirstChild();
      if first == null {
        return None;
      }
      InOrderNoRepeat(shape);
      ghost var i;
      var k, v;
      k, v, i := Delete(first);
      r := Some((k, v));
    }

    /** `pop_last`: removes and returns the last pair. */
    method PopLast() returns (r: Option<(K, V)>)
      requires Valid()
      modifies this, repr`color, repr`left, repr`right, repr`parent
      ensures Valid() && (old(Contents()) == [] <==> r == None)
      ensures r == None ==> Contents() == old(Contents()) && repr == old(repr)
      ensures r != None ==>
        var s := old(Contents());
        Contents() == s[..|s| - 1] && r.value.0 == s[|s| - 1].key && r.value.1 == s[|s| - 1].value
    {
      var last := LastChild();
      if last == null {
        return None;
      }
      InOrderNoRepeat(shape);
      ghost var i;
      var k, v;
      k, v, i := Delete(last);
      r := Some((k, v));
    }

    /** `remove`: takes out one node with the key, if there is one. */
    method Remove(k: K) returns (r: Option<V>, ghost i: nat)
      requires Valid()
      modifies this, repr`color, repr`left, repr`right, repr`parent
      ensures Valid() && (r == None <==> forall x <- old(Contents()) :: x.key != k)
      ensures r == None ==> Contents() == old(Contents())
      ensures r != None ==> i < |old(Contents())| && old(Contents())[i].key == k && r.value == old(Contents())[i].value
      ensures r != None ==> Contents() == old(Contents())[..i] + old(Contents())[i + 1..]
    {
      ghost var steps;
      var node;
      node, steps := FindNode(k);
      if node == null {
        return None, 0;
      }
      var key, v;
      key, v, i := Delete(node);
      r := Some(v);
    }

    /** `replace_or_insert`: swaps the value of a node with the key, or inserts the pair. */
    method ReplaceOrInsert(k: K, v: V) returns (r: Option<V>, ghost n: Node<K, V>, ghost at: nat)
      requires Valid()
      modifies this, repr
      ensures Valid() && n.key == k && n.value == v && n in Contents()
      ensures r == None <==> forall x <- old(Contents()) :: x.key != k
      ensures r == None ==> fresh(n) && len == old(len) + 1
      ensures r == None ==> at <= |old(Contents())| && Contents() == old(Contents())[..at] + [n] + old(Contents())[at..]
      ensures r != None ==> n in old(repr) && r.value == old(n.value) && Contents() == old(Contents())
      ensures forall x <- old(repr) :: x != n ==> x.value == old(x.value)
    {
      ghost var steps;
      var node;
      node, steps := FindNode(k);
      if node == null {
        n, at := Insert(k, v);
        assert Contents()[at] == n;
        return None, n, at;
      }
      n, at := node, 0;
      r := Some(node.value);
      ghost var m := Snapshot(repr);
      node.value := v;
      assert Snapshot(repr) == m;
    }
  }

  /** `Iter`: a double-ended walk over a tree that does not change meanwhile. */
  class Iter<K(!new), V> {
    var head: Node?<K, V>
    var tail: Node?<K, V>
    var len: nat
    const tree: RBTree<K, V>
    /** How many pairs were taken from the front and from the back. */
    ghost var front: nat
    ghost var back: nat

    ghost predicate Valid()
      reads this, tree
    {
      var s := tree.Contents();
      && len == |s| - front - back
      && head == (if front < |s| then s[front] else null)
      && tail == (if back < |s| then s[|s| - 1 - back] else null)
    }

    constructor (t: RBTree<K, V>)
      requires t.Valid()
      ensures Valid() && tree == t && front == 0 && back == 0
    {
      var h := t.FirstChild();
      var l := t.LastChild();
      head, tail, len, tree := h, l, t.len, t;
      front, back := 0, 0;
    }

    /** The pair at a place of the in-order sequence. */
    ghost function PairAt(i: nat): (K, V)
      requires i < |tree.Contents()|
      reads tree, tree.Contents()
    {
      (tree.Contents()[i].key, tree.Contents()[i].value)
    }

    /** `Iter::next`: the next pair from the front until every pair has been taken once. */
    method Next() returns (r: Option<(K, V)>)
      requires Valid() && tree.Valid()
      modifies `head, `len, `front
      ensures Valid()
      ensures if old(len) > 0 then r == Some(PairAt(old(front))) && front == old(front) + 1
              else r == None && front == old(front)
    {
      if len == 0 {
        return None;
      }
      if head == null {
        return None;
      }
      r := Some((head.key, head.value));
      var h := tree.Next(head, front);
      head := h;
      len := len - 1;
      front := front + 1;
    }

    /** `Iter::next_back`: the same from the back. */
    method NextBack() returns (r: Option<(K, V)>)
      requires Valid() && tree.Valid()
      modifies `tail, `len, `back
      ensures Valid()
      ensures if old(len) > 0 then r == Some(PairAt(|tree.Contents()| - 1 - old(back))) && back == old(back) + 1
              else r == None && back == old(back)
    {
      if len == 0 {
        return None;
      }
      r := Some((tail.key, tail.value));
      var l := tree.Prev(tail, |tree.Contents()| - 1 - back);
      tail := l;
      len := len - 1;
      back := back + 1;
    }

    /** Taking from the front until nothing comes gives the pairs that were left, in key order, one each time. */
    method Collect() returns (out: seq<(K, V)>)
      requires Valid() && tree.Valid()
      modifies `head, `len, `front
      ensures Valid() && len == 0 && |out| == old(len) == |tree.Contents()| - old(front) - back
      ensures forall i :: 0 <= i < |out| ==> out[i] == PairAt(old(front) + i)
    {
      tree.ContentsInRepr();
      out := [];
      while len > 0
        invariant Valid() && |out| + len == old(len) && front == old(front) + |out|
        invariant forall i :: 0 <= i < |out| ==> out[i] == PairAt(old(front) + i)
      {
        var r := Next();
        out := out + [r.value];
      }
    }
  }

  /** Two trees end in the same node. */
  ghost predicate SameLast<K, V>(t: Tree<K, V>, t0: Tree<K, V>) {
    && InOrder(t) != [] && InOrder(t0) != []
    && InOrder(t)[|InOrder(t)| - 1] == InOrder(t0)[|InOrder(t0)| - 1]
  }

  lemma {:induction false} LastDown<K, V>(t: Tree<K, V>, t0: Tree<K, V>)
    requires t.Fork? && t.r.Fork? && SameLast(t, t0)
    ensures SameLast(t.r, t0)
  {
  }

  lemma {:induction false} LastHere<K, V>(t: Tree<K, V>, t0: Tree<K, V>)
    requires t.Fork? && t.r.Leaf? && SameLast(t, t0)
    ensures t.n == InOrder(t0)[|InOrder(t0)| - 1]
  {
    assert InOrder(t) == InOrder(t.l) + [t.n] + [];
  }

  /** The path from the root to the node, or to an empty place for null, has `d` nodes. */
  ghost predicate AtDepth<K, V>(t: Tree<K, V>, n: Node?<K, V>, d: nat) {
    match t
    case Leaf => n == null && d == 0
    case Fork(l, m, _, r) => (n == m && d == 1) || (d > 0 && (AtDepth(l, n, d - 1) || AtDepth(r, n, d - 1)))
  }

  lemma {:induction false} PlugDepth<K, V>(c: Context<K, V>, t: Tree<K, V>, n: Node?<K, V>, d: nat)
    requires AtDepth(t, n, d)
    ensures AtDepth(Plug(c, t), n, d + Depth(c))
    decreases c
  {
    if c.Step? { PlugDepth(c.up, Make(c.side, t, c.n, c.c, c.sib), n, d + 1); }
  }

  lemma {:induction false} DepthBound<K, V>(t: Tree<K, V>, n: Node?<K, V>, d: nat)
    requires AtDepth(t, n, d)
    ensures d <= Height(t)
  {
    if t.Fork? && d > 0 {
      if AtDepth(t.l, n, d - 1) {
        DepthBound(t.l, n, d - 1);
      } else if AtDepth(t.r, n, d - 1) {
        DepthBound(t.r, n, d - 1);
      }
    }
  }

  lemma {:induction false} StepsBound<K, V>(t: Tree<K, V>, n: Node?<K, V>, steps: nat)
    requires ValidTree(t) && AtDepth(t, n, steps)
    ensures steps <= Height(t) && Pow2(steps) <= (|InOrder(t)| + 1) * (|InOrder(t)| + 1)
  {
    DepthBound(t, n, steps);
    HeightBound(t);
    Pow2Mono(steps, Height(t));
  }

  lemma {:induction false} SpineOffset<K, V>(c: Context<K, V>, c0: Context<K, V>)
    requires Spine(c, c0)
    ensures Offset(c) == Offset(c0)
    decreases c
  {
    if c != c0 { SpineOffset(c.up, c0); }
  }

  lemma {:induction false} NotFound<K(!new), V>(cmp: (K, K) -> Ordering, k: K, c: Context<K, V>)
    requires Lawful(cmp)
    requires AllCompare(cmp, k, Before(c), {Greater}) && AllCompare(cmp, k, After(c), {Less})
    ensures forall x <- InOrder(Plug(c, Leaf)) :: x.key != k
  {
    PlugInOrder(c, Leaf);
    var s := InOrder(Plug(c, Leaf));
    forall i | 0 <= i < |s| ensures s[i].key != k {
      if i < |Before(c)| { assert s[i] == Before(c)[i]; } else { assert s[i] == After(c)[i - |Before(c)|]; }
    }
  }

  /** The tree without the node: short by one where the successor was, if that was black, and one node less to read. */
  lemma {:induction false} VacatedTree<K, V>(
      c: Context<K, V>, t: Tree<K, V>, c': Context<K, V>, s: Tree<K, V>, v: Context<K, V>, i: nat)
    requires ValidTree(Plug(c, t)) && Successor(c, t, c', s)
    requires v == Vacated(c, t, c', s) && i == |Before(c)| + |InOrder(t.l)|
    ensures if s.c == Black then ShortByOne(v, s.r) else ValidTree(Plug(v, s.r))
    ensures var z := Reading(c, t); i < |z| && z[i] == t.n && Reading(v, s.r) == z[..i] + z[i + 1..]
  {
    VacatedShort(c, t, c', s);
    VacatedAt(c, t, c', s, i);
  }

  lemma {:induction false} VacatedAt<K, V>(c: Context<K, V>, t: Tree<K, V>, c': Context<K, V>, s: Tree<K, V>, i: nat)
    requires Successor(c, t, c', s) && i == |Before(c)| + |InOrder(t.l)|
    ensures var z := Reading(c, t); i < |z| && z[i] == t.n && Reading(Vacated(c, t, c', s), s.r) == z[..i] + z[i + 1..]
  {
    VacatedReading(c, t, c', s);
    Removed(Before(c), InOrder(t.l), t.n, InOrder(s), After(c'));
  }

  /** The root pointer after the replacement. */
  lemma {:induction false} VacatedTop<K, V>(c: Context<K, V>, t: Tree<K, V>, c': Context<K, V>, s: Tree<K, V>)
    requires Successor(c, t, c', s)
    ensures TopPtr(Vacated(c, t, c', s), Ptr(s.r)) == if c.Top? then s.n else TopPtr(c, t.n)
  {
    var c0 := Step(c, R, t.n, t.c, t.l);
    RenamedTop(c', c0, s.n, Ptr(s.r));
    TopPtrAround(c, s.n, t.n);
  }

  lemma {:induction false} RenamedTop<K, V>(k: Context<K, V>, k0: Context<K, V>, x: Node<K, V>, hole: Node?<K, V>)
    requires k0.Step? && Spine(k, k0)
    ensures TopPtr(Renamed(k, k0, x), hole) == TopPtr(k0.up, x)
    decreases k
  {
    if k != k0 { RenamedTop(k.up, k0, x, k.n); }
  }

  lemma {:induction false} CutReading<K, V>(c: Context<K, V>, t: Tree<K, V>, d: Side, i: nat)
    requires t.Fork? && Kid(t, Other(d)).Leaf?
    requires i == |Before(c)| + if d == L then |InOrder(t.l)| else 0
    ensures var s := Reading(c, t); i < |s| && s[i] == t.n && Reading(c, Kid(t, d)) == s[..i] + s[i + 1..]
  {
    PlugInOrder(c, t);
    PlugInOrder(c, Kid(t, d));
    var x, y := CutInOrder(t, d);
    RemovedAt(Reading(c, t), Reading(c, Kid(t, d)), Before(c), x, t.n, y, After(c), i);
  }

  /** What is before and after the root of a tree that has one child at most. */
  lemma {:induction false} CutInOrder<K, V>(t: Tree<K, V>, d: Side) returns (x: seq<Node<K, V>>, y: seq<Node<K, V>>)
    requires t.Fork? && Kid(t, Other(d)).Leaf?
    ensures InOrder(t) == x + [t.n] + y && InOrder(Kid(t, d)) == x + y && |x| == if d == L then |InOrder(t.l)| else 0
  {
    x, y := InOrder(t.l), InOrder(t.r);
  }

  lemma {:induction false} RemovedAt<T>(z: seq<T>, r: seq<T>, b: seq<T>, x: seq<T>, n: T, y: seq<T>, a: seq<T>, i: nat)
    requires z == b + (x + [n] + y) + a && r == b + (x + y) + a && i == |b| + |x|
    ensures i < |z| && z[i] == n && r == z[..i] + z[i + 1..]
  {
    Removed(b, x, n, y, a);
  }

  lemma {:induction false} Removed<T>(b: seq<T>, x: seq<T>, n: T, y: seq<T>, a: seq<T>)
    ensures var s := b + (x + [n] + y) + a; var i := |b| + |x|;
      s[i] == n && s[..i] + s[i + 1..] == b + (x + y) + a
  {
    var s := b + (x + [n] + y) + a;
    var i := |b| + |x|;
    assert s[..i] == b + x && s[i + 1..] == y + a;
  }

  /** What the new leaf does to the in-order sequence. */
  lemma {:induction false} InsertedAt<K(!new), V>(
      cmp: (K, K) -> Ordering, c: Context<K, V>, shape: Tree<K, V>, n: Node<K, V>)
    requires Plug(c, Leaf) == shape && ValidTree(shape) && Lawful(cmp) && Sorted(cmp, InOrder(shape))
    requires AllCompare(cmp, n.key, Before(c), {Equal, Greater}) && AllCompare(cmp, n.key, After(c), {Less})
    ensures var s, at, t := InOrder(shape), |Before(c)|, Fork(Leaf, n, Red, Leaf);
      && RedPending(c, t) && at <= |s| && Reading(c, t) == s[..at] + [n] + s[at..] && Sorted(cmp, Reading(c, t))
      && AllCompare(cmp, n.key, s[..at], {Equal, Greater}) && AllCompare(cmp, n.key, s[at..], {Less})
  {
    GraftedPending(c, n);
    SortedInsert(cmp, Before(c), n, After(c));
    var s := InOrder(shape);
    assert s == Before(c) + After(c);
    assert s[..|Before(c)|] == Before(c) && s[|Before(c)|..] == After(c);
  }
}
