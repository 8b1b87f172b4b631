/** In-order sequences of nodes: key order, uniqueness of positions, and the height of a red-black tree. */
module RbOrder {
  import opened Arith
  import opened RbShape

  datatype Ordering = Less | Equal | Greater

  /** What `Ord` promises of a key type: a total order whose `Equal` is equality. */
  ghost predicate Lawful<K(!new)>(cmp: (K, K) -> Ordering) {
    && (forall a, b :: cmp(a, b) == Equal <==> a == b)
    && (forall a, b :: cmp(a, b) == Less <==> cmp(b, a) == Greater)
    && (forall a, b, c :: cmp(a, b) == Less && cmp(b, c) == Less ==> cmp(a, c) == Less)
  }

  /** Keys never decrease; equal keys may sit side by side. */
  ghost predicate Sorted<K, V>(cmp: (K, K) -> Ordering, s: seq<Node<K, V>>) {
    forall i, j :: 0 <= i < j < |s| ==> cmp(s[j].key, s[i].key) != Less
  }

  /** Every key of `s` compares to `key` as one of `os`, seen from `key`. */
  ghost predicate AllCompare<K, V>(cmp: (K, K) -> Ordering, key: K, s: seq<Node<K, V>>, os: set<Ordering>) {
    forall i :: 0 <= i < |s| ==> cmp(key, s[i].key) in os
  }

  lemma {:induction false} RightOfLess<K(!new), V>(cmp: (K, K) -> Ordering, key: K, s: seq<Node<K, V>>, i: nat, j: nat)
    requires Lawful(cmp) && Sorted(cmp, s) && i <= j < |s| && cmp(key, s[i].key) == Less
    ensures cmp(key, s[j].key) == Less
  {
    if i < j {
      assert cmp(s[j].key, s[i].key) != Less;
    }
  }

  lemma {:induction false} LeftOfGreater<K(!new), V>(
      cmp: (K, K) -> Ordering, key: K, s: seq<Node<K, V>>, i: nat, j: nat)
    requires Lawful(cmp) && Sorted(cmp, s) && j <= i < |s|
    ensures cmp(key, s[i].key) == Greater ==> cmp(key, s[j].key) == Greater
    ensures cmp(key, s[i].key) != Less ==> cmp(key, s[j].key) != Less
  {
    if j < i {
      assert cmp(s[i].key, s[j].key) != Less;
    }
  }

  /** Going left: everything from the node onwards is larger than the key. */
  lemma {:induction false} DescendLeft<K(!new), V>(cmp: (K, K) -> Ordering, key: K, k: Context<K, V>, t: Tree<K, V>)
    requires Lawful(cmp) && Sorted(cmp, InOrder(Plug(k, t))) && t.Fork? && cmp(key, t.n.key) == Less
    ensures AllCompare(cmp, key, After(Step(k, L, t.n, t.c, t.r)), {Less})
  {
    var s, b, a := InOrder(Plug(k, t)), Before(k) + InOrder(t.l), After(Step(k, L, t.n, t.c, t.r));
    PlugInOrder(k, t);
    assert s == b + a && a[0] == t.n;
    LessFrom(cmp, key, b, a);
  }

  lemma {:induction false} LessFrom<K(!new), V>(cmp: (K, K) -> Ordering, key: K, b: seq<Node<K, V>>, a: seq<Node<K, V>>)
    requires Lawful(cmp) && Sorted(cmp, b + a) && a != [] && cmp(key, a[0].key) == Less
    ensures AllCompare(cmp, key, a, {Less})
  {
    forall i | 0 <= i < |a| ensures cmp(key, a[i].key) == Less {
      RightOfLess(cmp, key, b + a, |b|, |b| + i);
    }
  }

  /** Going right: everything up to the node is at most, or less than, the key. */
  lemma {:induction false} DescendRight<K(!new), V>(cmp: (K, K) -> Ordering, key: K, k: Context<K, V>, t: Tree<K, V>)
    requires Lawful(cmp) && Sorted(cmp, InOrder(Plug(k, t))) && t.Fork? && cmp(key, t.n.key) != Less
    ensures AllCompare(cmp, key, Before(Step(k, R, t.n, t.c, t.l)), {Equal, Greater})
    ensures cmp(key, t.n.key) == Greater ==> AllCompare(cmp, key, Before(Step(k, R, t.n, t.c, t.l)), {Greater})
  {
    var b := Before(Step(k, R, t.n, t.c, t.l));
    var a := InOrder(t.r) + After(k);
    PlugInOrder(k, t);
    assert InOrder(Plug(k, t)) == b + a && b[|b| - 1] == t.n;
    NotLessUpTo(cmp, key, b, a);
  }

  lemma {:induction false} NotLessUpTo<K(!new), V>(
      cmp: (K, K) -> Ordering, key: K, b: seq<Node<K, V>>, a: seq<Node<K, V>>)
    requires Lawful(cmp) && Sorted(cmp, b + a) && b != [] && cmp(key, b[|b| - 1].key) != Less
    ensures AllCompare(cmp, key, b, {Equal, Greater})
    ensures cmp(key, b[|b| - 1].key) == Greater ==> AllCompare(cmp, key, b, {Greater})
  {
    forall i | 0 <= i < |b|
      ensures cmp(key, b[i].key) in {Equal, Greater}
      ensures cmp(key, b[|b| - 1].key) == Greater ==> cmp(key, b[i].key) in {Greater}
    {
      LeftOfGreater(cmp, key, b + a, |b| - 1, i);
    }
  }

  /** Placing a key after all keys up to it and before all larger ones keeps the order. */
  lemma {:induction false} SortedInsert<K(!new), V>(
      cmp: (K, K) -> Ordering, b: seq<Node<K, V>>, n: Node<K, V>, a: seq<Node<K, V>>)
    requires Lawful(cmp) && Sorted(cmp, b + a)
    requires AllCompare(cmp, n.key, b, {Equal, Greater}) && AllCompare(cmp, n.key, a, {Less})
    ensures Sorted(cmp, b + [n] + a)
  {
    var s, s' := b + a, b + [n] + a;
    forall i, j | 0 <= i < j < |s'| ensures cmp(s'[j].key, s'[i].key) != Less {
      var i', j' := if i < |b| then i else i - 1, if j < |b| then j else j - 1;
      if i != |b| && j != |b| {
        assert s'[i] == s[i'] && s'[j] == s[j'];
      } else if j == |b| {
        assert s'[i] == b[i];
      } else {
        assert s'[j] == a[j - |b| - 1];
      }
    }
  }

  lemma {:induction false} SortedRemove<K, V>(cmp: (K, K) -> Ordering, s: seq<Node<K, V>>, i: nat)
    requires Sorted(cmp, s) && i < |s|
    ensures Sorted(cmp, s[..i] + s[i + 1..])
  {
    var s' := s[..i] + s[i + 1..];
    forall x, y | 0 <= x < y < |s'| ensures cmp(s'[y].key, s'[x].key) != Less {
      assert s'[x] == s[if x < i then x else x + 1] && s'[y] == s[if y < i then y else y + 1];
    }
  }

  // ---------- each node has one position ----------

  ghost predicate NoRepeat<K, V>(s: seq<Node<K, V>>) {
    forall i, j :: 0 <= i < j < |s| ==> s[i] != s[j]
  }

  lemma {:induction false} JoinNoRepeat<K, V>(a: seq<Node<K, V>>, n: Node<K, V>, b: seq<Node<K, V>>)
    requires NoRepeat(a) && NoRepeat(b) && n !in a && n !in b && forall x <- a :: x !in b
    ensures NoRepeat(a + [n] + b)
  {
    var s := a + [n] + b;
    forall i, j | 0 <= i < j < |s| ensures s[i] != s[j] {
      if i < |a| { assert s[i] in a; }
      if j > |a| { assert s[j] == b[j - |a| - 1] && s[j] in b; }
      if i > |a| { assert s[i] == b[i - |a| - 1]; }
    }
  }

  lemma {:induction false} InOrderNoRepeat<K, V>(t: Tree<K, V>)
    requires Distinct(t)
    ensures NoRepeat(InOrder(t))
  {
    if t.Fork? {
      InOrderNoRepeat(t.l);
      InOrderNoRepeat(t.r);
      InOrderNodes(t.l, t.n);
      InOrderNodes(t.r, t.n);
      forall x <- InOrder(t.l) ensures x !in InOrder(t.r) {
        InOrderNodes(t.l, x);
        InOrderNodes(t.r, x);
      }
      JoinNoRepeat(InOrder(t.l), t.n, InOrder(t.r));
    }
  }

  ghost function Size<K, V>(t: Tree<K, V>): nat {
    if t.Leaf? then 0 else Size(t.l) + 1 + Size(t.r)
  }

  /** The number of nodes before the hole. */
  ghost function Offset<K, V>(k: Context<K, V>): nat {
    match k
    case Top => 0
    case Step(up, L, _, _, _) => Offset(up)
    case Step(up, R, _, _, sib) => Offset(up) + Size(sib) + 1
  }

  lemma {:induction false} SizeIsLength<K, V>(t: Tree<K, V>)
    ensures |InOrder(t)| == Size(t)
  {
    if t.Fork? {
      SizeIsLength(t.l);
      SizeIsLength(t.r);
    }
  }

  lemma {:induction false} OffsetIsLength<K, V>(k: Context<K, V>)
    ensures |Before(k)| == Offset(k)
  {
    if k.Step? {
      OffsetIsLength(k.up);
      SizeIsLength(k.sib);
    }
  }

  /** The node in the hole stands at position `Offset(k) + Size(t.l)`. */
  lemma {:induction false} HoleReading<K, V>(k: Context<K, V>, t: Tree<K, V>)
    requires t.Fork?
    ensures var s := InOrder(Plug(k, t)); var i := Offset(k) + Size(t.l);
      i < Offset(k) + Size(t) <= |s| && s[i] == t.n && (k.Top? ==> |s| == Size(t))
  {
    OffsetIsLength(k);
    SizeIsLength(t.l);
    SizeIsLength(t.r);
    PlugInOrder(k, t);
    assert InOrder(Plug(k, t)) == (Before(k) + InOrder(t.l)) + [t.n] + (InOrder(t.r) + After(k));
  }

  /** A node without a right child ends its hole. */
  lemma {:induction false} LastInHole<K, V>(k: Context<K, V>, t: Tree<K, V>)
    requires t.Fork? && t.r.Leaf?
    ensures var s, j := InOrder(Plug(k, t)), Offset(k) + Size(t); 0 < j <= |s| && s[j - 1] == t.n
  {
    HoleReading(k, t);
    assert Size(t.r) == 0;
  }

  /** The node above comes right behind the subtree on its left, or right before the one on its right. */
  lemma {:induction false} UpReading<K, V>(k: Context<K, V>, t: Tree<K, V>)
    requires t.Fork? && k.Step?
    ensures var s := InOrder(Plug(k, t));
      && (k.side == L ==> Offset(k) + Size(t) < |s| && s[Offset(k) + Size(t)] == k.n)
      && (k.side == R ==> 0 < Offset(k) <= |s| && s[Offset(k) - 1] == k.n)
  {
    HoleReading(k.up, Make(k.side, t, k.n, k.c, k.sib));
  }

  lemma {:induction false} PositionAt<K, V>(k: Context<K, V>, t: Tree<K, V>, i: nat)
    requires t.Fork? && NoRepeat(InOrder(Plug(k, t))) && i < |InOrder(Plug(k, t))| && InOrder(Plug(k, t))[i] == t.n
    ensures i == Offset(k) + Size(t.l)
  {
    HoleReading(k, t);
  }

  // ---------- height ----------

  ghost function Height<K, V>(t: Tree<K, V>): nat {
    match t
    case Leaf => 0
    case Fork(l, _, _, r) => 1 + if Height(l) > Height(r) then Height(l) else Height(r)
  }

  lemma {:induction false} HeightByBlack<K, V>(t: Tree<K, V>)
    requires RedBlack(t)
    ensures Height(t) <= 2 * BlackHeight(t) + (if ColorOf(t) == Red then 1 else 0)
    ensures Pow2(BlackHeight(t)) <= |InOrder(t)| + 1
  {
    if t.Fork? {
      HeightByBlack(t.l);
      HeightByBlack(t.r);
    }
  }

  /** A valid tree of n nodes is at most 2*log2(n + 1) high. */
  lemma {:induction false} HeightBound<K, V>(t: Tree<K, V>)
    requires ValidTree(t)
    ensures Pow2(Height(t)) <= (|InOrder(t)| + 1) * (|InOrder(t)| + 1)
  {
    HeightByBlack(t);
    var b, n := Pow2(BlackHeight(t)), |InOrder(t)| + 1;
    Pow2Mono(Height(t), 2 * BlackHeight(t));
    Pow2Add(BlackHeight(t), BlackHeight(t));
    SquareMono(b, n);
  }

  lemma SquareMono(a: nat, b: nat)
    requires a <= b
    ensures a * a <= b * b
  {
    assert b * b == a * a + (b - a) * (b + a);
  }
}
