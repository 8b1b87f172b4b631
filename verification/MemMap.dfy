/**
  Sorted lists of flagged memory regions and the function from addresses to attributes that they
  stand for.
 */
module MemMap {
  import opened Wrappers

  datatype AreaAttr = Hotplug | Mirror | NoMap | DriverManaged | Reserved
  type Flags = set<AreaAttr>

  datatype Region = Region(base: nat, size: nat, flags: Flags) {
    function End(): nat { base + size }
  }

  predicate Covers(r: Region, x: nat) {
    r.base <= x < r.End()
  }

  /** The attribute of an address: the flags of the region that covers it. */
  ghost function At(rs: seq<Region>, x: nat): Option<Flags> {
    if rs == [] then None else if Covers(rs[0], x) then Some(rs[0].flags) else At(rs[1..], x)
  }

  ghost predicate Same(rs: seq<Region>, ss: seq<Region>) {
    forall x :: At(rs, x) == At(ss, x)
  }

  /** Ascending, disjoint, no empty region. */
  ghost predicate Sorted(rs: seq<Region>) {
    && (forall i :: 0 <= i < |rs| ==> rs[i].size > 0)
    && (forall i, j :: 0 <= i < j < |rs| ==> rs[i].End() <= rs[j].base)
  }

  /** Two regions that the merge leaves apart. */
  predicate Apart(a: Region, b: Region) {
    a.End() != b.base || a.flags != b.flags
  }

  /** The `k`-th region and the next, if there is one, are apart. */
  ghost predicate ApartAt(rs: seq<Region>, k: int) {
    0 <= k < |rs| - 1 ==> Apart(rs[k], rs[k + 1])
  }

  /** Normal form: sorted, and no two neighbours could be merged. */
  ghost predicate Normal(rs: seq<Region>) {
    Sorted(rs) && forall k :: ApartAt(rs, k)
  }

  function Inserted(rs: seq<Region>, i: nat, r: Region): (ss: seq<Region>)
    requires i <= |rs|
    ensures |ss| == |rs| + 1
  {
    rs[..i] + [r] + rs[i..]
  }

  function Removed(rs: seq<Region>, i: nat, j: nat): (ss: seq<Region>)
    requires i <= j <= |rs|
    ensures |ss| == |rs| - (j - i)
  {
    rs[..i] + rs[j..]
  }

  /** Region `i` and the one after it as one region. */
  function Merged(rs: seq<Region>, i: nat): (ss: seq<Region>)
    requires i + 1 < |rs|
    ensures |ss| == |rs| - 1
  {
    rs[..i] + [rs[i].(size := rs[i].size + rs[i + 1].size)] + rs[i + 2..]
  }

  /** Region `i` cut in two at address `x`. */
  function Cut(rs: seq<Region>, i: nat, x: nat): (ss: seq<Region>)
    requires i < |rs| && rs[i].base < x < rs[i].End()
    ensures |ss| == |rs| + 1
  {
    rs[..i] + [rs[i].(size := x - rs[i].base), rs[i].(base := x, size := rs[i].End() - x)] + rs[i + 1..]
  }

  // ---------- the attribute function ----------

  lemma {:induction false} AtConcat(rs: seq<Region>, ss: seq<Region>, x: nat)
    ensures At(rs + ss, x) == if At(rs, x).Some? then At(rs, x) else At(ss, x)
  {
    if rs == [] {
      assert rs + ss == ss;
    } else {
      assert (rs + ss)[0] == rs[0] && (rs + ss)[1..] == rs[1..] + ss;
      AtConcat(rs[1..], ss, x);
    }
  }

  /** An address is covered exactly by a region of the list, and has its flags. */
  lemma {:induction false} AtCovers(rs: seq<Region>, x: nat, k: nat)
    requires Sorted(rs) && k < |rs| && Covers(rs[k], x)
    ensures At(rs, x) == Some(rs[k].flags)
  {
    if k > 0 {
      assert rs[0].End() <= rs[k].base;
      AtCovers(rs[1..], x, k - 1);
    }
  }

  lemma {:induction false} AtNone(rs: seq<Region>, x: nat)
    requires forall k :: 0 <= k < |rs| ==> !Covers(rs[k], x)
    ensures At(rs, x) == None
  {
    if rs != [] {
      AtNone(rs[1..], x);
    }
  }

  lemma {:induction false} AtSome(rs: seq<Region>, x: nat) returns (k: nat)
    requires At(rs, x).Some?
    ensures k < |rs| && Covers(rs[k], x) && rs[k].flags == At(rs, x).value
  {
    if Covers(rs[0], x) {
      k := 0;
    } else {
      k := AtSome(rs[1..], x);
      k := k + 1;
    }
  }

  /** Two lists that differ in their middle only. */
  lemma {:induction false} AtMiddle(p: seq<Region>, m: seq<Region>, m': seq<Region>, q: seq<Region>)
    requires Same(m, m')
    ensures Same(p + m + q, p + m' + q)
  {
    forall x ensures At(p + m + q, x) == At(p + m' + q, x) {
      AtConcat(p + m, q, x);
      AtConcat(p, m, x);
      AtConcat(p + m', q, x);
      AtConcat(p, m', x);
    }
  }

  lemma {:induction false} AtPair(a: Region, b: Region)
    requires a.End() == b.base && a.flags == b.flags
    ensures Same([a, b], [a.(size := a.size + b.size)])
  {
    forall x ensures At([a, b], x) == At([a.(size := a.size + b.size)], x) {
      assert [a, b][1..] == [b];
      assert At([b], x) == if Covers(b, x) then Some(b.flags) else None;
    }
  }

  lemma {:induction false} MergedSame(rs: seq<Region>, i: nat)
    requires i + 1 < |rs| && !Apart(rs[i], rs[i + 1])
    ensures Same(rs, Merged(rs, i))
  {
    AtPair(rs[i], rs[i + 1]);
    AtMiddle(rs[..i], [rs[i], rs[i + 1]], [rs[i].(size := rs[i].size + rs[i + 1].size)], rs[i + 2..]);
    assert rs == rs[..i] + [rs[i], rs[i + 1]] + rs[i + 2..];
  }

  lemma {:induction false} CutSame(rs: seq<Region>, i: nat, x: nat)
    requires i < |rs| && rs[i].base < x < rs[i].End()
    ensures Same(rs, Cut(rs, i, x))
  {
    var a, b := rs[i].(size := x - rs[i].base), rs[i].(base := x, size := rs[i].End() - x);
    AtPair(a, b);
    assert a.(size := a.size + b.size) == rs[i];
    AtMiddle(rs[..i], [rs[i]], [a, b], rs[i + 1..]);
    assert rs == rs[..i] + [rs[i]] + rs[i + 1..];
  }

  /** Inserting a region where nothing is covered. */
  lemma {:induction false} InsertedAt(rs: seq<Region>, i: nat, r: Region, x: nat)
    requires i <= |rs| && Sorted(Inserted(rs, i, r))
    ensures At(Inserted(rs, i, r), x) == if Covers(r, x) then Some(r.flags) else At(rs, x)
    ensures Covers(r, x) ==> At(rs, x) == None
  {
    var ss := Inserted(rs, i, r);
    AtConcat(rs[..i] + [r], rs[i..], x);
    AtConcat(rs[..i], [r], x);
    AtConcat(rs[..i], rs[i..], x);
    assert rs == rs[..i] + rs[i..];
    if Covers(r, x) {
      AtCovers(ss, x, i);
      forall k | 0 <= k < |rs| ensures !Covers(rs[k], x) {
        if k < i { assert ss[k].End() <= ss[i].base; } else { assert ss[i].End() <= ss[k + 1].base; }
      }
      AtNone(rs, x);
    }
  }

  // ---------- order ----------

  lemma {:induction false} InsertedSorted(rs: seq<Region>, i: nat, r: Region)
    requires Sorted(rs) && i <= |rs| && r.size > 0
    requires (i > 0 ==> rs[i - 1].End() <= r.base) && (i < |rs| ==> r.End() <= rs[i].base)
    ensures Sorted(Inserted(rs, i, r))
  {
    forall k | 0 <= k < i ensures rs[k].End() <= r.base {
      if k < i - 1 { assert rs[k].End() <= rs[i - 1].base; }
    }
    forall k | i <= k < |rs| ensures r.End() <= rs[k].base {
      if i < k { assert rs[i].End() <= rs[k].base; }
    }
    var ss := Inserted(rs, i, r);
    forall j, k | 0 <= j < k < |ss| ensures ss[j].End() <= ss[k].base {
      if j != i && k != i { assert rs[if j < i then j else j - 1].End() <= rs[if k < i then k else k - 1].base; }
    }
  }

  lemma {:induction false} MergedSorted(rs: seq<Region>, i: nat)
    requires Sorted(rs) && i + 1 < |rs| && !Apart(rs[i], rs[i + 1])
    ensures Sorted(Merged(rs, i))
  {
    var ss := Merged(rs, i);
    forall p, q | 0 <= p < q < |ss| ensures ss[p].End() <= ss[q].base {
      var p', q' := if p < i then p else p + 1, if q <= i then q else q + 1;
      assert ss[p].End() == rs[p'].End() && ss[q].base == rs[q'].base;
    }
  }

  lemma {:induction false} CutSorted(rs: seq<Region>, i: nat, x: nat)
    requires Sorted(rs) && i < |rs| && rs[i].base < x < rs[i].End()
    ensures Sorted(Cut(rs, i, x))
  {
  }

  lemma {:induction false} RemovedSorted(rs: seq<Region>, i: nat, j: nat)
    requires Sorted(rs) && i <= j <= |rs|
    ensures Sorted(Removed(rs, i, j))
  {
  }

  // ---------- normal forms are unique ----------

  lemma {:induction false} NormalTail(rs: seq<Region>)
    requires Normal(rs) && rs != []
    ensures Normal(rs[1..])
    ensures forall x: nat :: At(rs[1..], x) == if x < rs[0].End() then None else At(rs, x)
  {
    forall k ensures ApartAt(rs[1..], k) {
      assert ApartAt(rs, k + 1);
    }
    forall x: nat ensures At(rs[1..], x) == if x < rs[0].End() then None else At(rs, x) {
      if x < rs[0].End() { AtNone(rs[1..], x); }
    }
  }

  /** What a normal list says about its first region. */
  lemma {:induction false} FirstRegion(rs: seq<Region>)
    requires Normal(rs) && rs != []
    ensures forall x: nat :: x < rs[0].base ==> At(rs, x) == None
    ensures forall x :: Covers(rs[0], x) ==> At(rs, x) == Some(rs[0].flags)
    ensures At(rs, rs[0].End()) != Some(rs[0].flags)
  {
    forall x: nat | x < rs[0].base ensures At(rs, x) == None {
      AtNone(rs, x);
    }
    if At(rs, rs[0].End()).Some? {
      var k := AtSome(rs, rs[0].End());
      assert k > 0 && rs[0].End() <= rs[1].base;
      assert k == 1 && ApartAt(rs, 0);
    }
  }

  /** The region list is determined by the attribute function. */
  lemma {:induction false} NormalUnique(rs: seq<Region>, ss: seq<Region>)
    requires Normal(rs) && Normal(ss) && Same(rs, ss)
    ensures rs == ss
  {
    assert rs == [] <==> ss == [] by {
      assert rs != [] ==> At(rs, rs[0].base) == At(ss, rs[0].base);
      assert ss != [] ==> At(rs, ss[0].base) == At(ss, ss[0].base);
    }
    if rs != [] {
      FirstRegion(rs);
      FirstRegion(ss);
      var a, b := rs[0], ss[0];
      assert At(rs, a.base) == At(ss, a.base) && At(rs, b.base) == At(ss, b.base);
      assert At(rs, a.End()) == At(ss, a.End()) && At(rs, b.End()) == At(ss, b.End());
      assert a == b;
      NormalTail(rs);
      NormalTail(ss);
      NormalUnique(rs[1..], ss[1..]);
      assert rs == [a] + rs[1..] && ss == [b] + ss[1..];
    }
  }
}
