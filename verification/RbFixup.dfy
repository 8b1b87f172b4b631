/**
  The shape-level steps of `insert_fixup` and `delete_fixup`: what each case does to the
  tree in the hole and to the context, and why the red-black rules come back.
  Every case is stated once, for either side.
 */
module RbFixup {
  import opened RbShape

  /** The in-order sequence of the whole tree. */
  ghost function Reading<K, V>(k: Context<K, V>, t: Tree<K, V>): seq<Node<K, V>> {
    InOrder(Plug(k, t))
  }

  lemma {:induction false} SameReading<K, V>(k: Context<K, V>, t: Tree<K, V>, t': Tree<K, V>)
    requires InOrder(t) == InOrder(t')
    ensures Reading(k, t) == Reading(k, t')
  {
    PlugInOrder(k, t);
    PlugInOrder(k, t');
  }

  /** Insertion: everything is in order except that the red `t` may hang under a red parent. */
  ghost predicate RedPending<K, V>(k: Context<K, V>, t: Tree<K, V>) {
    && t.Fork? && t.c == Red && RedBlack(t)
    && Expects(k, BlackHeight(t)) && BlackTop(k)
  }

  /** A red parent has a black parent of its own. */
  lemma {:induction false} RedParent<K, V>(k: Context<K, V>, t: Tree<K, V>)
    requires RedPending(k, t) && ColorAbove(k) == Red
    ensures k.up.Step? && k.up.c == Black
  {
  }

  // Case 1: the uncle is red.

  ghost function Recolored<K, V>(k: Context<K, V>, t: Tree<K, V>): Tree<K, V>
    requires k.Step? && k.up.Step?
  {
    Make(k.up.side, Make(k.side, t, k.n, Black, k.sib), k.up.n, Red, Paint(k.up.sib, Black))
  }

  lemma {:induction false} RecoloredPending<K, V>(k: Context<K, V>, t: Tree<K, V>)
    requires RedPending(k, t) && ColorAbove(k) == Red && k.up.Step? && ColorOf(k.up.sib) == Red
    ensures RedPending(k.up.up, Recolored(k, t))
    ensures Reading(k.up.up, Recolored(k, t)) == Reading(k, t)
  {
    assert Expects(k.up, BlackHeight(t)) && BlackTop(k.up);
    var p := Make(k.side, t, k.n, Black, k.sib);
    assert RedBlack(p) && BlackHeight(p) == BlackHeight(t) + 1;
    var u := Paint(k.up.sib, Black);
    assert RedBlack(u) && BlackHeight(u) == BlackHeight(k.up.sib) + 1;
    RecoloredReading(k, t);
  }

  lemma {:induction false} RecoloredReading<K, V>(k: Context<K, V>, t: Tree<K, V>)
    requires k.Step? && k.up.Step?
    ensures Reading(k.up.up, Recolored(k, t)) == Reading(k, t)
  {
    var p, p' := Make(k.side, t, k.n, k.c, k.sib), Make(k.side, t, k.n, Black, k.sib);
    assert InOrder(p') == InOrder(p);
    assert InOrder(Paint(k.up.sib, Black)) == InOrder(k.up.sib);
    assert Plug(k, t) == Plug(k.up, p);
    SameReading(k.up.up, Recolored(k, t), Make(k.up.side, p, k.up.n, k.up.c, k.up.sib));
  }

  // Cases 2 and 3: the uncle is black.

  /** Case 3, the red pair leans outwards: after painting and rotating, `t` hangs under a black node. */
  ghost function Lifted<K, V>(k: Context<K, V>): Context<K, V>
    requires k.Step? && k.up.Step?
  {
    Step(k.up.up, k.side, k.n, Black, Make(k.side, k.sib, k.up.n, Red, k.up.sib))
  }

  /** The whole subtree of the grandparent, with parent and grandparent repainted, before the rotation. */
  ghost function Repainted<K, V>(k: Context<K, V>, t: Tree<K, V>): Tree<K, V>
    requires k.Step? && k.up.Step?
  {
    Make(k.up.side, Make(k.side, t, k.n, Black, k.sib), k.up.n, Red, k.up.sib)
  }

  lemma {:induction false} LiftedTurn<K, V>(k: Context<K, V>, t: Tree<K, V>)
    requires k.Step? && k.up.Step? && k.side == k.up.side
    ensures Turned(Repainted(k, t), Other(k.side)) == Make(k.side, t, k.n, Black, Lifted(k).sib)
  {
  }

  lemma {:induction false} LiftedPending<K, V>(k: Context<K, V>, t: Tree<K, V>)
    requires RedPending(k, t) && ColorAbove(k) == Red && k.up.Step?
    requires k.side == k.up.side && ColorOf(k.up.sib) == Black
    ensures RedPending(Lifted(k), t) && ColorAbove(Lifted(k)) == Black
    ensures Reading(Lifted(k), t) == Reading(k, t)
  {
    assert Expects(k.up, BlackHeight(t)) && BlackTop(k.up);
    var s := Lifted(k).sib;
    assert RedBlack(s) && BlackHeight(s) == BlackHeight(t);
    LiftedReading(k, t);
  }

  lemma {:induction false} LiftedReading<K, V>(k: Context<K, V>, t: Tree<K, V>)
    requires k.Step? && k.up.Step? && k.side == k.up.side
    ensures Reading(Lifted(k), t) == Reading(k, t)
  {
    var p, p' := Make(k.side, t, k.n, k.c, k.sib), Make(k.side, t, k.n, Black, k.sib);
    assert InOrder(p') == InOrder(p);
    LiftedTurn(k, t);
    TurnedInOrder(Repainted(k, t), Other(k.side));
    assert Plug(k, t) == Plug(k.up, p);
    SameReading(k.up.up, Turned(Repainted(k, t), Other(k.side)), Make(k.up.side, p, k.up.n, k.up.c, k.up.sib));
  }

  /** Case 2, the red pair leans inwards: rotating the parent makes it lean outwards. */
  ghost function Straightened<K, V>(k: Context<K, V>, t: Tree<K, V>): (Context<K, V>, Tree<K, V>)
    requires k.Step? && k.up.Step? && t.Fork?
  {
    var d := k.up.side;
    (Step(k.up, d, t.n, t.c, Kid(t, Other(d))), Make(d, k.sib, k.n, k.c, Kid(t, d)))
  }

  lemma {:induction false} StraightenedPending<K, V>(k: Context<K, V>, t: Tree<K, V>)
    requires RedPending(k, t) && ColorAbove(k) == Red && k.up.Step? && k.side == Other(k.up.side)
    ensures var (k', t') := Straightened(k, t); RedPending(k', t') && ColorAbove(k') == Red
    ensures var (k', t') := Straightened(k, t); Reading(k', t') == Reading(k, t)
    ensures var (k', t') := Straightened(k, t);
      Turned(Make(k.side, t, k.n, k.c, k.sib), k.up.side) == Make(k'.side, t', k'.n, k'.c, k'.sib)
  {
    var (k', t') := Straightened(k, t);
    var p := Make(k.side, t, k.n, k.c, k.sib);
    TurnedInOrder(p, k.up.side);
    SameReading(k.up, Turned(p, k.up.side), p);
  }

  // ---------- deletion ----------

  /** Deletion: the context wants one more black node than `t` has; `t` is in order but for the colour of its root. */
  ghost predicate ShortByOne<K, V>(k: Context<K, V>, t: Tree<K, V>) {
    && RedBlack(Paint(t, Black)) && Expects(k, BlackHeight(t) + 1) && BlackTop(k)
  }

  /** Painting the root of a short tree black ends the fix-up when that root is red or the tree is the whole one. */
  lemma {:induction false} ShortDone<K, V>(k: Context<K, V>, t: Tree<K, V>)
    requires ShortByOne(k, t) && (k.Top? || ColorOf(t) == Red)
    ensures ValidTree(Plug(k, Paint(t, Black)))
    ensures InOrder(Plug(k, Paint(t, Black))) == Reading(k, t)
  {
    PlugRedBlack(k, Paint(t, Black));
    SameReading(k, Paint(t, Black), t);
  }

  /** A short black tree has a real sibling. */
  lemma {:induction false} ShortSibling<K, V>(k: Context<K, V>, t: Tree<K, V>)
    requires ShortByOne(k, t) && k.Step?
    ensures k.sib.Fork? && (k.sib.c == Red ==> k.c == Black && k.sib.l.Fork? && k.sib.r.Fork?)
  {
    var w := k.sib;
    assert w.Fork? && RedBlack(w);
    if w.c == Red {
      assert BlackHeight(w.l) >= 1 && BlackHeight(w.r) >= 1;
    }
  }

  // Case 1: a red sibling is rotated above the parent.

  ghost function UnderRed<K, V>(k: Context<K, V>): Context<K, V>
    requires k.Step? && k.sib.Fork?
  {
    var w := k.sib;
    Step(Step(k.up, k.side, w.n, Black, Kid(w, Other(k.side))), k.side, k.n, Red, Kid(w, k.side))
  }

  lemma {:induction false} UnderRedShort<K, V>(k: Context<K, V>, t: Tree<K, V>)
    requires ShortByOne(k, t) && k.Step? && k.sib.Fork? && k.sib.c == Red
    ensures ShortByOne(UnderRed(k), t) && ColorOf(UnderRed(k).sib) == Black
    ensures Reading(UnderRed(k), t) == Reading(k, t)
  {
    var w := k.sib;
    assert RedBlack(w) && k.c == Black;
    UnderRedReading(k, t);
  }

  lemma {:induction false} UnderRedReading<K, V>(k: Context<K, V>, t: Tree<K, V>)
    requires k.Step? && k.sib.Fork?
    ensures Reading(UnderRed(k), t) == Reading(k, t)
    ensures var x := Make(k.side, t, k.n, Red, Paint(k.sib, Black));
      var k' := UnderRed(k);
      Turned(x, k.side) == Make(k.side, Make(k.side, t, k.n, Red, k'.sib), k'.up.n, Black, k'.up.sib)
  {
    var k' := UnderRed(k);
    var x := Make(k.side, t, k.n, Red, Paint(k.sib, Black));
    TurnedInOrder(x, k.side);
    assert InOrder(Paint(k.sib, Black)) == InOrder(k.sib);
    assert InOrder(x) == InOrder(Make(k.side, t, k.n, k.c, k.sib));
    assert Plug(k', t) == Plug(k'.up, Make(k.side, t, k.n, Red, k'.sib));
    SameReading(k.up, Turned(x, k.side), Make(k.side, t, k.n, k.c, k.sib));
  }

  // Case 2: a black sibling with black children turns red; the parent is short now.

  ghost function Reddened<K, V>(k: Context<K, V>, t: Tree<K, V>): Tree<K, V>
    requires k.Step?
  {
    Make(k.side, t, k.n, k.c, Paint(k.sib, Red))
  }

  lemma {:induction false} ReddenedShort<K, V>(k: Context<K, V>, t: Tree<K, V>)
    requires ShortByOne(k, t) && k.Step? && k.sib.Fork? && k.sib.c == Black && ColorOf(t) == Black
    requires ColorOf(k.sib.l) == Black && ColorOf(k.sib.r) == Black
    ensures ShortByOne(k.up, Reddened(k, t))
    ensures Reading(k.up, Reddened(k, t)) == Reading(k, t)
  {
    var w := Paint(k.sib, Red);
    assert RedBlack(k.sib) && RedBlack(w) && BlackHeight(w) == BlackHeight(t);
    assert Paint(t, Black) == t;
    assert InOrder(w) == InOrder(k.sib);
    SameReading(k.up, Reddened(k, t), Make(k.side, t, k.n, k.c, k.sib));
  }

  // Case 3: the near child of the sibling is red, the far one black: the sibling is rotated away.

  ghost function FarRed<K, V>(k: Context<K, V>): Context<K, V>
    requires k.Step? && k.sib.Fork? && Kid(k.sib, k.side).Fork?
  {
    var d, w := k.side, k.sib;
    var n := Kid(w, d);
    k.(sib := Make(d, Kid(n, d), n.n, Black, Make(d, Kid(n, Other(d)), w.n, Red, Kid(w, Other(d)))))
  }

  /** The sibling of case 3 with its own and its near child's colour exchanged, before the rotation. */
  ghost function NearSwapped<K, V>(k: Context<K, V>): Tree<K, V>
    requires k.Step? && k.sib.Fork? && Kid(k.sib, k.side).Fork?
  {
    Make(k.side, Paint(Kid(k.sib, k.side), Black), k.sib.n, Red, Kid(k.sib, Other(k.side)))
  }

  lemma {:induction false} FarRedShort<K, V>(k: Context<K, V>, t: Tree<K, V>)
    requires ShortByOne(k, t) && k.Step? && k.sib.Fork? && k.sib.c == Black
    requires ColorOf(Kid(k.sib, k.side)) == Red && ColorOf(Kid(k.sib, Other(k.side))) == Black
    ensures ShortByOne(FarRed(k), t) && FarRed(k).sib.c == Black && ColorOf(Kid(FarRed(k).sib, Other(k.side))) == Red
    ensures Reading(FarRed(k), t) == Reading(k, t)
    ensures Turned(NearSwapped(k), Other(k.side)) == FarRed(k).sib
  {
    FarRedShape(k, t);
    FarRedReading(k, t);
  }

  lemma {:induction false} FarRedShape<K, V>(k: Context<K, V>, t: Tree<K, V>)
    requires ShortByOne(k, t) && k.Step? && k.sib.Fork? && k.sib.c == Black
    requires ColorOf(Kid(k.sib, k.side)) == Red && ColorOf(Kid(k.sib, Other(k.side))) == Black
    ensures ShortByOne(FarRed(k), t) && FarRed(k).sib.c == Black && ColorOf(Kid(FarRed(k).sib, Other(k.side))) == Red
  {
    assert RedBlack(k.sib);
    FarRedTree(k.sib, k.side, FarRed(k).sib);
  }

  /** The sibling of case 3, turned: still in order, with the black height it had. */
  lemma {:induction false} FarRedTree<K, V>(w: Tree<K, V>, d: Side, w': Tree<K, V>)
    requires RedBlack(w) && w.Fork? && w.c == Black && ColorOf(Kid(w, d)) == Red && ColorOf(Kid(w, Other(d))) == Black
    requires var n := Kid(w, d);
      w' == Make(d, Kid(n, d), n.n, Black, Make(d, Kid(n, Other(d)), w.n, Red, Kid(w, Other(d))))
    ensures RedBlack(w') && BlackHeight(w') == BlackHeight(w) && w'.c == Black && ColorOf(Kid(w', Other(d))) == Red
  {
    var n := Kid(w, d);
    assert RedBlack(n) && BlackHeight(w) == BlackHeight(n.l) + 1 == BlackHeight(n.r) + 1;
    var f := Make(d, Kid(n, Other(d)), w.n, Red, Kid(w, Other(d)));
    assert RedBlack(f) && BlackHeight(f) == BlackHeight(n.l);
  }

  lemma {:induction false} FarRedReading<K, V>(k: Context<K, V>, t: Tree<K, V>)
    requires k.Step? && k.sib.Fork? && Kid(k.sib, k.side).Fork?
    ensures Turned(NearSwapped(k), Other(k.side)) == FarRed(k).sib
    ensures Reading(FarRed(k), t) == Reading(k, t)
  {
    var d, w := k.side, k.sib;
    TurnedInOrder(NearSwapped(k), Other(d));
    assert InOrder(Paint(Kid(w, d), Black)) == InOrder(Kid(w, d));
    assert InOrder(NearSwapped(k)) == InOrder(w);
    SameReading(k.up, Make(d, t, k.n, k.c, FarRed(k).sib), Make(d, t, k.n, k.c, w));
  }

  // Case 4: the far child of the sibling is red: one rotation restores the missing black node.

  ghost function Restored<K, V>(k: Context<K, V>, t: Tree<K, V>): Tree<K, V>
    requires k.Step? && k.sib.Fork?
  {
    var d, w := k.side, k.sib;
    Make(d, Make(d, t, k.n, Black, Kid(w, d)), w.n, k.c, Paint(Kid(w, Other(d)), Black))
  }

  /** The parent's subtree of case 4 with all three colours set, before the rotation. */
  ghost function Recast<K, V>(k: Context<K, V>, t: Tree<K, V>): Tree<K, V>
    requires k.Step? && k.sib.Fork?
  {
    var d, w := k.side, k.sib;
    Make(d, t, k.n, Black, Make(d, Kid(w, d), w.n, k.c, Paint(Kid(w, Other(d)), Black)))
  }

  lemma {:induction false} RestoredValid<K, V>(k: Context<K, V>, t: Tree<K, V>)
    requires ShortByOne(k, t) && k.Step? && k.sib.Fork? && k.sib.c == Black && ColorOf(t) == Black
    requires ColorOf(Kid(k.sib, Other(k.side))) == Red
    ensures ValidTree(Plug(k.up, Restored(k, t)))
    ensures InOrder(Plug(k.up, Restored(k, t))) == Reading(k, t)
    ensures Turned(Recast(k, t), k.side) == Restored(k, t)
  {
    var d, w := k.side, k.sib;
    var f := Paint(Kid(w, Other(d)), Black);
    assert Paint(t, Black) == t;
    assert RedBlack(w) && RedBlack(Kid(w, Other(d)));
    assert RedBlack(f) && BlackHeight(f) == BlackHeight(t) + 1;
    var p := Make(d, t, k.n, Black, Kid(w, d));
    assert RedBlack(p) && BlackHeight(p) == BlackHeight(t) + 1;
    PlugRedBlack(k.up, Restored(k, t));
    RestoredReading(k, t);
  }

  lemma {:induction false} RestoredReading<K, V>(k: Context<K, V>, t: Tree<K, V>)
    requires k.Step? && k.sib.Fork?
    ensures Reading(k.up, Restored(k, t)) == Reading(k, t)
  {
    var d, w := k.side, k.sib;
    var f := Kid(w, Other(d));
    assert InOrder(Paint(f, Black)) == InOrder(f);
    assert InOrder(Make(d, Kid(w, d), w.n, k.c, Paint(f, Black))) == InOrder(w);
    assert InOrder(Recast(k, t)) == InOrder(Make(d, t, k.n, k.c, w));
    TurnedInOrder(Recast(k, t), d);
    SameReading(k.up, Restored(k, t), Make(d, t, k.n, k.c, w));
  }
}
