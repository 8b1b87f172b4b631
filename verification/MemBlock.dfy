/**
  The boot memory map of kernel/src/mm/memblock.rs: a fixed array of regions edited in place.
  Where the source panics the model returns `Panic`.
 */
module MemBlock {
  import opened Arith
  import opened MemMap
  import opened Wrappers

  const REGIONS_NUM := 128
  const PAGE_SIZE := 4096
  const USIZE_MAX := 0xffff_ffff_ffff_ffff

  datatype Outcome<T> = Ok(value: T) | NoMemory | Panic

  function PageAlignDown(x: nat): nat { x / PAGE_SIZE * PAGE_SIZE }

  function PageAlignUp(x: nat): nat { (x + PAGE_SIZE - 1) / PAGE_SIZE * PAGE_SIZE }

  // ---------- adding ----------

  /** The number of stretches of [base, end) that no region of the list covers. */
  ghost function Gaps(rs: seq<Region>, base: nat, end: nat): nat {
    if rs == [] || rs[0].base >= end then (if base < end then 1 else 0)
    else if rs[0].End() <= base then Gaps(rs[1..], base, end)
    else (if rs[0].base > base then 1 else 0) + Gaps(rs[1..], Min(rs[0].End(), end), end)
  }

  /** `ss` is `rs` with the uncovered part of [lo, hi) covered with no flags. */
  ghost predicate Filled(rs: seq<Region>, ss: seq<Region>, lo: nat, hi: nat) {
    forall x :: At(ss, x) == FilledAt(rs, lo, hi, x)
  }

  ghost function FilledAt(rs: seq<Region>, lo: nat, hi: nat, x: nat): Option<Flags> {
    if At(rs, x).None? && lo <= x < hi then Some({}) else At(rs, x)
  }

  /** Everything from the window of the coming merge outwards is in normal form already. */
  ghost predicate ApartOutside(rs: seq<Region>, start: int, end: int) {
    forall k :: k + 1 < start || k >= end ==> ApartAt(rs, k)
  }

  /** The pass over the regions stands before region `i`, and [lo, base) has been dealt with. */
  ghost predicate Adding(
      rs: seq<Region>, ss: seq<Region>, lo: nat, base: nat, end: nat, i: nat, start: int, stop: int, added: nat)
  {
    && Sorted(ss) && lo <= base <= end && Filled(rs, ss, lo, base) && i <= |ss| == |rs| + added
    && (base < end && i > 0 ==> ss[i - 1].End() <= base)
    && (base == end ==> lo < base)
    && if start == -1 then stop == -1 && ss == rs && added == 0
       else 0 <= start < stop <= i && added > 0 && ApartOutside(ss, start, stop)
  }

  /** The list in either mode: filled so far, or not touched. */
  ghost predicate Standing(
      rs: seq<Region>, ss: seq<Region>, lo: nat, base: nat, end: nat, i: nat, start: int, stop: int, added: nat,
      insert: bool)
  {
    if insert then Adding(rs, ss, lo, base, end, i, start, stop, added) else ss == rs
  }

  /** The pass in either mode: what is left to count, and where it stands. */
  ghost predicate Passing(
      rs: seq<Region>, ss: seq<Region>, lo: nat, base: nat, end: nat, i: nat, start: int, stop: int, added: nat,
      insert: bool)
  {
    && lo <= base <= end && i <= |ss| && added + Gaps(ss[i..], base, end) == Gaps(rs, lo, end)
    && Standing(rs, ss, lo, base, end, i, start, stop, added, insert)
    && (base == end && i < |ss| ==> end <= ss[i].base)
  }

  lemma {:induction false} PassingStart(rs: seq<Region>, lo: nat, end: nat, insert: bool)
    requires Normal(rs) && lo < end
    ensures Passing(rs, rs, lo, lo, end, 0, -1, -1, 0, insert)
  {
    assert rs[0..] == rs;
  }

  lemma {:induction false} FillGap(
      rs: seq<Region>, ss: seq<Region>, lo: nat, base: nat, end: nat, i: nat, start: int, stop: int, added: nat,
      to: nat)
    requires Normal(rs) && Adding(rs, ss, lo, base, end, i, start, stop, added)
    requires base < to <= end && (i < |ss| ==> to <= ss[i].base)
    ensures var ss' := Inserted(ss, i, Region(base, to - base, {}));
      Adding(rs, ss', lo, to, end, i + 1, if start == -1 then i else start, i + 1, added + 1)
  {
    var r := Region(base, to - base, {});
    var ts := Inserted(ss, i, r);
    InsertedSorted(ss, i, r);
    forall x ensures At(ts, x) == FilledAt(rs, lo, to, x) {
      InsertedAt(ss, i, r, x);
    }
    FillApart(ss, i, r, if start == -1 then i else start);
  }

  lemma {:induction false} FillApart(ss: seq<Region>, i: nat, r: Region, start: int)
    requires i <= |ss| && start <= i && forall k :: k + 1 < start || k >= i ==> ApartAt(ss, k)
    ensures ApartOutside(Inserted(ss, i, r), start, i + 1)
  {
    forall k | k + 1 < start || k >= i + 1 ensures ApartAt(Inserted(ss, i, r), k) {
      if k + 1 < start { assert ApartAt(ss, k); } else { assert ApartAt(ss, k - 1); }
    }
  }

  /** Moving past an overlapping region: its addresses are covered anyway. */
  lemma {:induction false} PassRegion(
      rs: seq<Region>, ss: seq<Region>, lo: nat, base: nat, end: nat, i: nat, start: int, stop: int, added: nat)
    requires Adding(rs, ss, lo, base, end, i, start, stop, added) && i < |ss| && base < end
    requires ss[i].base <= base < ss[i].End()
    ensures Adding(rs, ss, lo, Min(ss[i].End(), end), end, i + 1, start, stop, added)
  {
    var base' := Min(ss[i].End(), end);
    forall x: nat ensures At(ss, x) == FilledAt(rs, lo, base', x) {
      assert At(ss, x) == FilledAt(rs, lo, base, x);
      if base <= x < base' { AtCovers(ss, x, i); }
    }
  }

  /** Blocks may be added in any order: the region lists that result are the same. */
  lemma {:induction false} AddsCommute(
      rs: seq<Region>, b: nat, e: nat, b': nat, e': nat, s: seq<Region>, t: seq<Region>, s': seq<Region>,
      t': seq<Region>)
    requires Filled(rs, s, b, e) && Filled(s, t, b', e') && Filled(rs, s', b', e') && Filled(s', t', b, e)
    requires Normal(t) && Normal(t')
    ensures t == t'
  {
    forall x ensures At(t, x) == At(t', x) {
      assert At(t, x) == FilledAt(s, b', e', x) && At(s, x) == FilledAt(rs, b, e, x);
      assert At(t', x) == FilledAt(s', b, e, x) && At(s', x) == FilledAt(rs, b', e', x);
    }
    NormalUnique(t, t');
  }

  /** Removing a block that was added where nothing was covered gives back the very same region list. */
  lemma {:induction false} RemoveUndoesAdd(rs: seq<Region>, base: nat, end: nat, s: seq<Region>, t: seq<Region>)
    requires Normal(rs) && Normal(t) && Filled(rs, s, base, end) && forall x: nat :: base <= x < end ==>
      At(rs, x) == None
    requires forall x: nat :: At(t, x) == if base <= x < end then None else At(s, x)
    ensures t == rs
  {
    forall x ensures At(t, x) == At(rs, x) {
      assert At(s, x) == FilledAt(rs, base, end, x);
    }
    NormalUnique(t, rs);
  }

  // ---------- isolating ----------

  /** `idx.checked_add(1).unwrap_or(0)` */
  function NextIndex(idx: nat): nat { if idx == USIZE_MAX then 0 else idx + 1 }

  /** Address `x` lies strictly inside a region. */
  ghost predicate Straddled(rs: seq<Region>, x: nat) {
    exists k :: 0 <= k < |rs| && rs[k].base < x < rs[k].End()
  }

  ghost function Cuts(rs: seq<Region>, base: nat, end: nat): nat {
    (if Straddled(rs, base) then 1 else 0) + (if Straddled(rs, end) then 1 else 0)
  }

  /** Neighbours that could be merged meet at `base` or at `end`. */
  ghost predicate ApartButAt(rs: seq<Region>, base: nat, end: nat) {
    forall k :: 0 <= k < |rs| - 1 && rs[k].End() != base && rs[k].End() != end ==> ApartAt(rs, k)
  }

  ghost predicate Inside(r: Region, base: nat, end: nat) { base <= r.base && r.End() <= end }

  ghost predicate Clear(r: Region, base: nat, end: nat) { r.End() <= base || end <= r.base }

  /** Regions start..stop are those inside [base, end), and the others do not meet it. */
  ghost predicate Isolated(rs: seq<Region>, base: nat, end: nat, start: nat, stop: nat) {
    && start <= stop <= |rs|
    && (forall k :: start <= k < stop ==> Inside(rs[k], base, end))
    && (forall k :: 0 <= k < |rs| && !(start <= k < stop) ==> Clear(rs[k], base, end))
  }

  /** The pass stands before region `idx`; start..stop is what it has recorded. */
  ghost predicate Isolating(rs: seq<Region>, ss: seq<Region>, base: nat, end: nat, idx: nat, start: nat, stop: nat) {
    && Sorted(ss) && Same(rs, ss) && ApartButAt(ss, base, end) && idx <= |ss|
    && (if stop == 0 then start == 0 else start < stop == idx)
    && (forall k :: 0 <= k < idx && !(start <= k < stop) ==> ss[k].End() <= base)
    && (forall k :: start <= k < stop ==> Inside(ss[k], base, end))
  }

  lemma {:induction false} InsertedSlots(rs: seq<Region>, i: nat, r: Region, ss: seq<Region>)
    requires i <= |rs| && |ss| == |rs| + 1 && ss[i] == r
    requires (forall k :: 0 <= k < i ==> ss[k] == rs[k]) && (forall k :: i < k < |ss| ==> ss[k] == rs[k - 1])
    ensures ss == Inserted(rs, i, r)
  {
  }

  lemma {:induction false} CutByInsert(rs: seq<Region>, ss: seq<Region>, i: nat, x: nat)
    requires i < |rs| && rs[i].base < x < rs[i].End()
    requires ss == rs[i := rs[i].(base := x, size := rs[i].End() - x)]
    ensures Inserted(ss, i, Region(rs[i].base, x - rs[i].base, rs[i].flags)) == Cut(rs, i, x)
  {
  }

  /** After the cut nothing straddles the place, and the other places are as before. */
  lemma {:induction false} CutHere(rs: seq<Region>, i: nat, x: nat)
    requires Sorted(rs) && i < |rs| && rs[i].base < x < rs[i].End()
    ensures Straddled(rs, x) && !Straddled(Cut(rs, i, x), x)
  {
    var ss := Cut(rs, i, x);
    forall k | 0 <= k < |ss| ensures !(ss[k].base < x < ss[k].End()) {
      if k < i { assert rs[k].End() <= rs[i].base; } else if k > i + 1 { assert rs[i].End() <= rs[k - 1].base; }
    }
  }

  lemma {:induction false} CutElsewhere(rs: seq<Region>, i: nat, x: nat, y: nat)
    requires i < |rs| && rs[i].base < x < rs[i].End() && y != x
    ensures Straddled(Cut(rs, i, x), y) <==> Straddled(rs, y)
  {
    var ss := Cut(rs, i, x);
    if Straddled(rs, y) {
      var k :| 0 <= k < |rs| && rs[k].base < y < rs[k].End();
      var k' := if k < i || (k == i && y < x) then k else k + 1;
      assert ss[k'].base < y < ss[k'].End();
    }
    if Straddled(ss, y) {
      var k :| 0 <= k < |ss| && ss[k].base < y < ss[k].End();
      var k' := if k <= i then k else k - 1;
      assert rs[k'].base < y < rs[k'].End();
    }
  }

  lemma {:induction false} CutApart(rs: seq<Region>, base: nat, end: nat, i: nat, x: nat)
    requires ApartButAt(rs, base, end) && i < |rs| && rs[i].base < x < rs[i].End() && (x == base || x == end)
    ensures ApartButAt(Cut(rs, i, x), base, end)
  {
    var ss := Cut(rs, i, x);
    forall k | 0 <= k < |ss| - 1 && ss[k].End() != base && ss[k].End() != end ensures ApartAt(ss, k) {
      if k < i { assert ApartAt(rs, k); } else if k > i { assert ApartAt(rs, k - 1); }
    }
  }

  lemma {:induction false} CutIsolating(
      rs: seq<Region>, ss: seq<Region>, base: nat, end: nat, idx: nat, start: nat, stop: nat, x: nat)
    requires Isolating(rs, ss, base, end, idx, start, stop) && idx < |ss| && ss[idx].base < x < ss[idx].End()
    requires base < end && (x == base || x == end)
    ensures Isolating(rs, Cut(ss, idx, x), base, end, idx, start, stop)
    ensures Cuts(Cut(ss, idx, x), base, end) == Cuts(ss, base, end) - 1
  {
    CutSorted(ss, idx, x);
    CutSame(ss, idx, x);
    CutApart(ss, base, end, idx, x);
    CutHere(ss, idx, x);
    CutElsewhere(ss, idx, x, if x == base then end else base);
  }

  /** Moving past a region that lies below the range. */
  lemma {:induction false} SkipIsolating(
      rs: seq<Region>, ss: seq<Region>, base: nat, end: nat, idx: nat, start: nat, stop: nat)
    requires Isolating(rs, ss, base, end, idx, start, stop) && idx < |ss| && ss[idx].End() <= base
    ensures Isolating(rs, ss, base, end, idx + 1, start, stop)
  {
    assert stop > 0 ==> Inside(ss[stop - 1], base, end);
  }

  /** Recording a region that lies in the range. */
  lemma {:induction false} RecordIsolating(
      rs: seq<Region>, ss: seq<Region>, base: nat, end: nat, idx: nat, start: nat, stop: nat)
    requires Isolating(rs, ss, base, end, idx, start, stop) && idx < |ss| && Inside(ss[idx], base, end)
    ensures Isolating(rs, ss, base, end, idx + 1, if stop == 0 then idx else start, idx + 1)
  {
  }

  lemma {:induction false} IsolatingDone(
      rs: seq<Region>, ss: seq<Region>, base: nat, end: nat, idx: nat, start: nat, stop: nat)
    requires Isolating(rs, ss, base, end, idx, start, stop) && base < end && (idx < |ss| ==> ss[idx].base >= end)
    ensures Isolated(ss, base, end, start, stop) && Cuts(ss, base, end) == 0
  {
    BeyondClear(ss, end, idx);
    NoneStraddled(ss, base, end, start, stop);
  }

  lemma {:induction false} BeyondClear(ss: seq<Region>, end: nat, idx: nat)
    requires Sorted(ss) && idx <= |ss| && (idx < |ss| ==> ss[idx].base >= end)
    ensures forall k :: idx <= k < |ss| ==> ss[k].base >= end
  {
    forall k | idx <= k < |ss| ensures ss[k].base >= end {
      if k > idx { assert ss[idx].End() <= ss[k].base; }
    }
  }

  lemma {:induction false} NoneStraddled(ss: seq<Region>, base: nat, end: nat, start: nat, stop: nat)
    requires Isolated(ss, base, end, start, stop) && base < end
    ensures Cuts(ss, base, end) == 0
  {
    assert forall k :: 0 <= k < |ss| ==> Clear(ss[k], base, end) || Inside(ss[k], base, end);
  }

  /** Neighbours that could be merged have [base, end) on one side. */
  lemma {:induction false} IsolatedApart(rs: seq<Region>, base: nat, end: nat, start: nat, stop: nat, k: nat)
    requires Sorted(rs) && ApartButAt(rs, base, end) && Isolated(rs, base, end, start, stop) && base < end
    requires k + 1 < |rs| && !(start <= k < stop) && !(start <= k + 1 < stop)
    ensures ApartAt(rs, k)
  {
    assert rs[k].End() <= rs[k + 1].base;
  }

  lemma {:induction false} RemovedNormal(rs: seq<Region>, base: nat, end: nat, start: nat, stop: nat)
    requires Sorted(rs) && ApartButAt(rs, base, end) && Isolated(rs, base, end, start, stop) && base < end
    ensures Normal(Removed(rs, start, stop))
  {
    RemovedSorted(rs, start, stop);
    var ss := Removed(rs, start, stop);
    forall k | 0 <= k < |ss| - 1 ensures ApartAt(ss, k) {
      RemovedApart(rs, ss, base, end, start, stop, k);
    }
  }

  lemma {:induction false} RemovedApart(
      rs: seq<Region>, ss: seq<Region>, base: nat, end: nat, start: nat, stop: nat, k: nat)
    requires Sorted(rs) && ApartButAt(rs, base, end) && Isolated(rs, base, end, start, stop) && base < end
    requires ss == Removed(rs, start, stop) && k + 1 < |ss|
    ensures ApartAt(ss, k)
  {
    if k + 1 < start {
      IsolatedApart(rs, base, end, start, stop, k);
    } else if k >= start {
      IsolatedApart(rs, base, end, start, stop, k + stop - start);
    } else if start < stop {
      assert rs[k].End() <= rs[start].base < rs[start].End() <= rs[stop].base;
    } else {
      IsolatedApart(rs, base, end, start, stop, k);
    }
  }

  lemma {:induction false} RemovedAt(rs0: seq<Region>, rs: seq<Region>, base: nat, end: nat, start: nat, stop: nat)
    requires Same(rs0, rs) && Sorted(rs) && Isolated(rs, base, end, start, stop) && base < end
    ensures forall x: nat :: At(Removed(rs, start, stop), x) == if base <= x < end then None else At(rs0, x)
  {
    forall x: nat ensures At(Removed(rs, start, stop), x) == if base <= x < end then None else At(rs0, x) {
      RemovedAtOne(rs, base, end, start, stop, x);
    }
  }

  lemma {:induction false} RemovedAtOne(rs: seq<Region>, base: nat, end: nat, start: nat, stop: nat, x: nat)
    requires Sorted(rs) && Isolated(rs, base, end, start, stop) && base < end
    ensures At(Removed(rs, start, stop), x) == if base <= x < end then None else At(rs, x)
  {
    var p, m, q := rs[..start], rs[start..stop], rs[stop..];
    assert rs == p + m + q;
    AtConcat(p + m, q, x);
    AtConcat(p, m, x);
    AtConcat(p, q, x);
    if base <= x < end {
      AtNone(p + q, x);
    } else {
      AtNone(m, x);
    }
  }

  // ---------- flags ----------

  function Flagged(f: Flags, set_: bool, g: Flags): Flags { if set_ then f + g else f - g }

  /** Regions start..stop with their flags changed. */
  function Marked(rs: seq<Region>, start: nat, stop: nat, set_: bool, g: Flags): (ss: seq<Region>)
    requires start <= stop <= |rs|
    ensures |ss| == |rs|
  {
    seq(|rs|, k requires 0 <= k < |rs| =>
      if start <= k < stop then rs[k].(flags := Flagged(rs[k].flags, set_, g)) else rs[k])
  }

  /** The attributes of `g` are there exactly if they were to be set, and the others as before. */
  ghost predicate IsFlagged(f: Flags, set_: bool, g: Flags, f': Flags) {
    forall a: AreaAttr :: a in f' <==> if a in g then set_ else a in f
  }

  /** `ss` is `rs` with the attributes of the covered addresses of [base, end) set or cleared. */
  ghost predicate IsMarked(rs: seq<Region>, ss: seq<Region>, base: nat, end: nat, set_: bool, g: Flags) {
    forall x: nat :: MarkedAt(rs, ss, base, end, set_, g, x)
  }

  ghost predicate MarkedAt(rs: seq<Region>, ss: seq<Region>, base: nat, end: nat, set_: bool, g: Flags, x: nat) {
    if base <= x < end && At(rs, x).Some?
    then At(ss, x).Some? && IsFlagged(At(rs, x).value, set_, g, At(ss, x).value)
    else At(ss, x) == At(rs, x)
  }

  lemma {:induction false} MarkedRegions(
      rs: seq<Region>, base: nat, end: nat, start: nat, stop: nat, set_: bool, g: Flags, x: nat)
    requires Sorted(rs) && Isolated(rs, base, end, start, stop) && base < end
    ensures Sorted(Marked(rs, start, stop, set_, g))
    ensures MarkedAt(rs, Marked(rs, start, stop, set_, g), base, end, set_, g, x)
  {
    var ss := Marked(rs, start, stop, set_, g);
    assert forall k :: 0 <= k < |rs| ==> ss[k].base == rs[k].base && ss[k].size == rs[k].size;
    if At(rs, x).Some? {
      var k := AtSome(rs, x);
      AtCovers(ss, x, k);
    } else {
      forall k | 0 <= k < |ss| ensures !Covers(ss[k], x) {
        if Covers(rs[k], x) { AtCovers(rs, x, k); }
      }
      AtNone(ss, x);
    }
  }

  lemma {:induction false} MarkedAll(
      rs: seq<Region>, ss: seq<Region>, base: nat, end: nat, start: nat, stop: nat, set_: bool, g: Flags)
    requires Same(rs, ss) && Sorted(ss) && base <= end && start <= stop <= |ss|
    requires if base < end then Isolated(ss, base, end, start, stop) else start == stop
    ensures var ts := Marked(ss, start, stop, set_, g);
      Sorted(ts) && IsMarked(rs, ts, base, end, set_, g)
  {
    var ts := Marked(ss, start, stop, set_, g);
    forall x: nat ensures Sorted(ts) && MarkedAt(rs, ts, base, end, set_, g, x) {
      assert At(rs, x) == At(ss, x);
      if base < end {
        MarkedRegions(ss, base, end, start, stop, set_, g, x);
      } else {
        assert ts == ss;
      }
    }
  }

  lemma {:induction false} MarkedSame(
      rs: seq<Region>, ss: seq<Region>, ts: seq<Region>, base: nat, end: nat, set_: bool, g: Flags)
    requires IsMarked(rs, ss, base, end, set_, g) && Same(ss, ts)
    ensures IsMarked(rs, ts, base, end, set_, g)
  {
    forall x: nat ensures MarkedAt(rs, ts, base, end, set_, g, x) {
      assert MarkedAt(rs, ss, base, end, set_, g, x) && At(ss, x) == At(ts, x);
    }
  }

  /** The second half of a round: the pass is behind the region. */
  lemma {:induction false} PassedRegion(
      rs: seq<Region>, ss0: seq<Region>, ss: seq<Region>, lo: nat, base: nat, next: nat, end: nat, i0: nat, i: nat,
      start: int, stop: int, added: nat, insert: bool)
    requires Normal(rs) && Standing(rs, ss, lo, base, end, i, start, stop, added, insert) && base < end
    requires i0 < |ss0| && i < |ss| && ss[i..] == ss0[i0..] && next == Min(ss0[i0].End(), end)
    requires insert ==> ss[i].base <= base < ss[i].End()
    ensures Standing(rs, ss, lo, next, end, i + 1, start, stop, added, insert)
    ensures ss[i + 1..] == ss0[i0 + 1..] && (next == end && i + 1 < |ss| ==> end <= ss[i + 1].base)
  {
    assert ss[i] == ss[i..][0] == ss0[i0..][0] == ss0[i0];
    assert ss[i + 1..] == ss[i..][1..] && ss0[i0 + 1..] == ss0[i0..][1..];
    if insert { PassRegion(rs, ss, lo, base, end, i, start, stop, added); }
    assert Sorted(ss);
  }

  /** The gaps from region `i` on: the one before it, if it does not lie before `base`, and those behind it. */
  lemma {:induction false} GapsHere(ss: seq<Region>, i: nat, base: nat, end: nat)
    requires i < |ss| && ss[i].base < end
    ensures Gaps(ss[i..], base, end) ==
      if ss[i].End() <= base then Gaps(ss[i + 1..], base, end)
      else (if ss[i].base > base then 1 else 0) + Gaps(ss[i + 1..], Min(ss[i].End(), end), end)
  {
    assert ss[i..][0] == ss[i] && ss[i..][1..] == ss[i + 1..];
  }

  /** A region before `base` is passed. */
  lemma {:induction false} PassedBefore(
      rs: seq<Region>, ss: seq<Region>, lo: nat, base: nat, end: nat, i: nat, start: int, stop: int, added: nat,
      insert: bool)
    requires Normal(rs) && Passing(rs, ss, lo, base, end, i, start, stop, added, insert)
    requires i < |ss| && ss[i].base < end && ss[i].End() <= base
    ensures Passing(rs, ss, lo, base, end, i + 1, start, stop, added, insert)
  {
    GapsHere(ss, i, base, end);
  }

  /** A region that overlaps [base, end) is passed: one gap is counted, if there was one before it. */
  lemma {:induction false} PassedOver(
      rs: seq<Region>, ss0: seq<Region>, ss: seq<Region>, lo: nat, base0: nat, base: nat, end: nat, i0: nat, i: nat,
      start0: int, stop0: int, start: int, stop: int, added0: nat, added: nat, insert: bool)
    requires Passing(rs, ss0, lo, base0, end, i0, start0, stop0, added0, insert)
    requires i0 < |ss0| && ss0[i0].base < end && base0 < ss0[i0].End()
    requires i <= |ss| && ss[i..] == ss0[i0 + 1..] && lo <= base == Min(ss0[i0].End(), end)
    requires Standing(rs, ss, lo, base, end, i, start, stop, added, insert)
    requires added == added0 + (if ss0[i0].base > base0 then 1 else 0)
    requires base == end && i < |ss| ==> end <= ss[i].base
    ensures Passing(rs, ss, lo, base, end, i, start, stop, added, insert)
  {
    GapsHere(ss0, i0, base0, end);
  }

  /** A gap for which there is no slot. */
  lemma {:induction false} NoSlotLeft(
      rs: seq<Region>, ss: seq<Region>, lo: nat, base: nat, end: nat, i: nat, start: int, stop: int, added: nat)
    requires Passing(rs, ss, lo, base, end, i, start, stop, added, true)
    requires i < |ss| && ss[i].base < end && base < ss[i].base
    ensures |ss| < |rs| + Gaps(rs, lo, end)
  {
    GapsHere(ss, i, base, end);
  }

  lemma {:induction false} RemovedMore(ss: seq<Region>, i: nat, stop: nat)
    requires i < stop <= |ss|
    ensures Removed(Removed(ss, i + 1, stop), i, i + 1) == Removed(ss, i, stop)
  {
  }

  // ---------- merging ----------

  /** The merge stands at `i`: neighbours before it and from `stop` on are apart. */
  ghost predicate Merging(rs: seq<Region>, ss: seq<Region>, i: nat, stop: int) {
    Sorted(ss) && Same(rs, ss) && stop < |ss| && forall k :: k < i || k >= stop ==> ApartAt(ss, k)
  }

  lemma {:induction false} MergeStep(rs: seq<Region>, ss: seq<Region>, i: nat, stop: int)
    requires Merging(rs, ss, i, stop) && i < stop && !Apart(ss[i], ss[i + 1])
    ensures Merging(rs, Merged(ss, i), i, stop - 1)
  {
    MergedSorted(ss, i);
    MergedSame(ss, i);
    var ts := Merged(ss, i);
    forall k | k < i || k >= stop - 1 ensures ApartAt(ts, k) {
      if k < i { assert ApartAt(ss, k); } else { assert ApartAt(ss, k + 1); }
    }
  }

  class MemBlockManager {
    const regions: array<Region>
    var num: nat

    ghost predicate Shaped()
      reads this
    {
      regions.Length == REGIONS_NUM && num <= REGIONS_NUM
    }

    ghost function Contents(): seq<Region>
      requires Shaped()
      reads this, regions
    {
      regions[..num]
    }

    ghost predicate Valid()
      reads this, regions
    {
      Shaped() && Normal(Contents())
    }

    constructor ()
      ensures Valid() && Contents() == [] && fresh(regions)
    {
      regions := new Region[REGIONS_NUM](_ => Region(0, 0, {}));
      num := 0;
    }

    /** `do_insert_area`: the copy panics when there is no free slot. */
    method DoInsertArea(index: nat, r: Region) returns (ok: bool)
      requires Shaped() && index <= num
      modifies `num, regions
      ensures Shaped() && ok == (old(num) < REGIONS_NUM)
      ensures Contents() == if ok then Inserted(old(Contents()), index, r) else old(Contents())
    {
      if num >= REGIONS_NUM {
        return false;
      }
      ghost var rs := Contents();
      forall k | index < k <= num {
        regions[k] := regions[k - 1];
      }
      regions[index] := r;
      num := num + 1;
      InsertedSlots(rs, index, r, Contents());
      ok := true;
    }

    /** Moves the regions behind slot `index` one slot down. */
    method CloseGap(index: nat)
      requires Shaped() && index < num
      modifies `num, regions
      ensures Shaped() && num == old(num) - 1 && Contents() == Removed(old(Contents()), index, index + 1)
    {
      forall k | index <= k < num - 1 {
        regions[k] := regions[k + 1];
      }
      num := num - 1;
    }

    /** `do_remove_region` */
    method DoRemoveRegion(index: nat)
      requires Shaped() && index < num
      modifies `num, regions
      ensures Shaped() && Contents() == Removed(old(Contents()), index, index + 1)
    {
      CloseGap(index);
      if num == 0 {
        regions[0] := regions[0].(base := 0, size := 0);
      }
    }

    /** Joins region `i` with the next one and closes the gap. */
    method Join(i: nat)
      requires Shaped() && i + 1 < num
      modifies `num, regions
      ensures Shaped() && Contents() == Merged(old(Contents()), i)
    {
      regions[i] := regions[i].(size := regions[i].size + regions[i + 1].size);
      ghost var rs := Contents();
      CloseGap(i + 1);
      assert Removed(rs, i + 1, i + 2) == Merged(old(Contents()), i);
    }

    /**
      `do_merge_blocks`.  When everything outside the window is in normal form, all of it is
      afterwards; no address changes its attribute and the overlap panic is not reached.
     */
    method DoMergeBlocks(startIndex: int, endIndex: int)
      requires Shaped() && Sorted(Contents()) && ApartOutside(Contents(), startIndex, endIndex)
      modifies `num, regions
      ensures Valid() && Same(old(Contents()), Contents()) && num <= old(num)
    {
      ghost var rs := Contents();
      var i := if startIndex > 0 then startIndex - 1 else 0;
      var stop := Min(endIndex, num - 1);
      if i >= stop {
        return;
      }
      while i < stop
        invariant 0 <= i && Shaped() && num <= old(num) && Merging(rs, Contents(), i, stop)
        decreases num - i
      {
        var this_, next := regions[i], regions[i + 1];
        assert this_ == Contents()[i] && next == Contents()[i + 1];
        if Apart(this_, next) {
          if this_.End() > next.base {
            assert false;
          }
          i := i + 1;
        } else {
          MergeStep(rs, Contents(), i, stop);
          Join(i);
          stop := stop - 1;
        }
      }
    }

    /** Fills the gap before region `i`. */
    method Fill(
        i: nat, base: nat, to: nat, start: int, stop: int, ghost rs: seq<Region>, ghost lo: nat, ghost end: nat,
        ghost added: nat)
        returns (ok: bool, start': int, stop': int)
      requires Shaped() && Normal(rs) && Adding(rs, Contents(), lo, base, end, i, start, stop, added)
      requires base < to <= end && (i < num ==> to <= Contents()[i].base)
      modifies `num, regions
      ensures Shaped() && ok == (old(num) < REGIONS_NUM)
      ensures ok ==> Contents() == Inserted(old(Contents()), i, Region(base, to - base, {}))
      ensures ok ==> Adding(rs, Contents(), lo, to, end, i + 1, start', stop', added + 1)
      ensures !ok ==> Contents() == old(Contents())
    {
      FillGap(rs, Contents(), lo, base, end, i, start, stop, added, to);
      start' := if start == -1 then i else start;
      stop' := i + 1;
      ok := DoInsertArea(i, Region(base, to - base, {}));
    }

    /** The first half of a round: the gap before region `i0`, if there is one, is counted and filled. */
    method FillBefore(
        i0: nat, base0: nat, start0: int, stop0: int, added: nat, insert: bool, ghost rs: seq<Region>, ghost lo: nat,
        ghost end: nat)
        returns (ok: bool, i: nat, base: nat, start: int, stop: int, numToAdd: nat)
      requires Shaped() && Normal(rs) && i0 < num && lo <= base0 < end
      requires Standing(rs, Contents(), lo, base0, end, i0, start0, stop0, added, insert)
      requires Contents()[i0].base < end && base0 < Contents()[i0].End()
      modifies `num, regions
      ensures Shaped() && (!insert ==> ok)
      ensures !ok ==> num == REGIONS_NUM == old(num) && old(Contents())[i0].base > base0
      ensures ok ==> i < num && num - i == old(num) - i0 && Contents()[i..] == old(Contents())[i0..]
      ensures ok ==> Standing(rs, Contents(), lo, base, end, i, start, stop, numToAdd, insert)
      ensures ok && insert ==> Contents()[i].base <= base < Contents()[i].End()
      ensures ok ==> i0 <= i && base0 <= base < end
      ensures ok ==> numToAdd == added + if old(Contents())[i0].base > base0 then 1 else 0
    {
      ok, i, base, start, stop, numToAdd := true, i0, base0, start0, stop0, added;
      var range := regions[i];
      if range.base > base {
        if insert {
          ok, start, stop := Fill(i, base, range.base, start, stop, rs, lo, end, numToAdd);
          if !ok {
            return;
          }
          i := i + 1;
          base := range.base;
        }
        numToAdd := numToAdd + 1;
      }
    }

    /** One round: region `i0` overlaps [base, end). */
    method PassOver(
        i0: nat, base0: nat, start0: int, stop0: int, added: nat, insert: bool, ghost rs: seq<Region>, ghost lo: nat,
        end: nat)
        returns (ok: bool, i: nat, base: nat, start: int, stop: int, numToAdd: nat)
      requires Shaped() && Normal(rs) && i0 < num && lo <= base0 < end
      requires Standing(rs, Contents(), lo, base0, end, i0, start0, stop0, added, insert)
      requires Contents()[i0].base < end && base0 < Contents()[i0].End()
      modifies `num, regions
      ensures Shaped() && (!insert ==> ok)
      ensures !ok ==> num == REGIONS_NUM == old(num) && old(Contents())[i0].base > base0
      ensures ok ==> i0 < i <= num && lo <= base <= end && num - i < old(num) - i0
      ensures ok ==> Standing(rs, Contents(), lo, base, end, i, start, stop, numToAdd, insert)
      ensures ok ==> Contents()[i..] == old(Contents())[i0 + 1..] && base == Min(old(Contents())[i0].End(), end)
      ensures ok && base == end && i < num ==> end <= Contents()[i].base
      ensures ok ==> numToAdd == added + if old(Contents())[i0].base > base0 then 1 else 0
    {
      ghost var ss0 := Contents();
      var range := regions[i0];
      ok, i, base, start, stop, numToAdd := FillBefore(i0, base0, start0, stop0, added, insert, rs, lo, end);
      if ok {
        var next := Min(range.End(), end);
        PassedRegion(rs, ss0, Contents(), lo, base, next, end, i0, i, start, stop, numToAdd, insert);
        i, base := i + 1, next;
      }
    }

    /** The loop of `do_add_block`. */
    method AddPass(lo: nat, end: nat, insert: bool, ghost rs: seq<Region>)
      returns (ok: bool, i: nat, base: nat, start: int, stop: int, numToAdd: nat)
      requires Valid() && lo < end && rs == Contents()
      modifies `num, regions
      ensures Shaped() && (!insert ==> ok)
      ensures ok ==> Passing(rs, Contents(), lo, base, end, i, start, stop, numToAdd, insert)
      ensures ok ==>
        numToAdd + (if base < end then 1 else 0) == Gaps(rs, lo, end) && (i < num ==> end <= Contents()[i].base)
      ensures !ok ==> num == REGIONS_NUM && num < |rs| + Gaps(rs, lo, end)
    {
      ok, i, base, start, stop, numToAdd := true, 0, lo, -1, -1, 0;
      PassingStart(rs, lo, end, insert);
      while i < num
        invariant Shaped() && i <= num && Passing(rs, Contents(), lo, base, end, i, start, stop, numToAdd, insert)
        decreases num - i
      {
        if regions[i].base >= end {
          break;
        }
        ok, i, base, start, stop, numToAdd := AddRound(i, base, start, stop, numToAdd, insert, rs, lo, end);
        if !ok {
          return;
        }
      }
    }

    /** One round of that loop, for a region that does not lie behind the block. */
    method AddRound(
        i0: nat, base0: nat, start0: int, stop0: int, added: nat, insert: bool, ghost rs: seq<Region>, ghost lo: nat,
        end: nat)
        returns (ok: bool, i: nat, base: nat, start: int, stop: int, numToAdd: nat)
      requires Shaped() && Normal(rs) && i0 < num && Contents()[i0].base < end
      requires Passing(rs, Contents(), lo, base0, end, i0, start0, stop0, added, insert)
      modifies `num, regions
      ensures Shaped() && (!insert ==> ok) && (ok ==> i <= num && num - i < old(num) - i0)
      ensures ok ==> Passing(rs, Contents(), lo, base, end, i, start, stop, numToAdd, insert)
      ensures !ok ==> num == REGIONS_NUM && num < |rs| + Gaps(rs, lo, end)
    {
      ghost var ss := Contents();
      if regions[i0].End() <= base0 {
        ok, i, base, start, stop, numToAdd := true, i0 + 1, base0, start0, stop0, added;
        PassedBefore(rs, ss, lo, base, end, i0, start, stop, added, insert);
        return;
      }
      ok, i, base, start, stop, numToAdd := PassOver(i0, base0, start0, stop0, added, insert, rs, lo, end);
      if ok {
        PassedOver(
          rs, ss, Contents(), lo, base0, base, end, i0, i, start0, stop0, start, stop, added, numToAdd, insert);
      } else {
        NoSlotLeft(rs, ss, lo, base0, end, i0, start0, stop0, added);
      }
    }

    /** `do_add_block`: counts the uncovered stretches of the block and, when asked to, fills them. */
    method DoAddBlock(lo: nat, size: nat, insert: bool) returns (r: Outcome<nat>)
      requires Valid() && size > 0
      modifies `num, regions
      ensures r == if insert && old(num + Gaps(Contents(), lo, lo + size)) > REGIONS_NUM then Panic
                   else Ok(old(Gaps(Contents(), lo, lo + size)))
      ensures Shaped() && (!insert ==> Contents() == old(Contents()))
      ensures insert && r.Ok? ==> Valid() && Filled(old(Contents()), Contents(), lo, lo + size)
    {
      ghost var rs := Contents();
      var end := lo + size;
      var ok, i, base, start, stop, numToAdd := AddPass(lo, end, insert, rs);
      if !ok {
        return Panic;
      }
      if base < end {
        if insert {
          ok, start, stop := Fill(i, base, end, start, stop, rs, lo, end, numToAdd);
          if !ok {
            return Panic;
          }
        }
        numToAdd := numToAdd + 1;
      }
      if numToAdd > 0 && insert {
        DoMergeBlocks(start, stop);
      }
      return Ok(numToAdd);
    }

    /**
      `add_block`: covers the uncovered part of the block with no flags.  A full array panics, and
      a block with too many uncovered stretches is refused with the map unchanged; the counting
      pass is exact, so the inserting pass never runs out of slots.
     */
    method AddBlock(base: nat, size: nat) returns (r: Outcome<()>)
      requires Valid()
      modifies `num, regions
      ensures Valid()
      ensures r == if size == 0 then Ok(()) else if old(num) == REGIONS_NUM then Panic
                   else if old(num + Gaps(Contents(), base, base + size)) > REGIONS_NUM then NoMemory else Ok(())
      ensures if r.Ok? then Filled(old(Contents()), Contents(), base, base + size) else Contents() == old(Contents())
    {
      if size == 0 {
        return Ok(());
      }
      if num >= REGIONS_NUM {
        return Panic;
      }
      if num == 0 {
        regions[0] := Region(base, size, {});
        num := 1;
        FirstBlock(base, size);
        assert Contents() == [Region(base, size, {})];
        return Ok(());
      }
      var count := DoAddBlock(base, size, false);
      if num + count.value > REGIONS_NUM {
        return NoMemory;
      }
      var added := DoAddBlock(base, size, true);
      return Ok(());
    }

    /** Cuts region `idx` at `x`: the upper part stays in place and the lower part is inserted before it. */
    method CutRegion(idx: nat, x: nat) returns (ok: bool)
      requires Shaped() && idx < num && Contents()[idx].base < x < Contents()[idx].End()
      modifies `num, regions
      ensures Shaped() && ok == (old(num) < REGIONS_NUM)
      ensures ok ==> Contents() == Cut(old(Contents()), idx, x)
    {
      ghost var rs := Contents();
      var rangeBase := regions[idx].base;
      regions[idx] := regions[idx].(base := x, size := regions[idx].size - (x - rangeBase));
      ghost var ss := Contents();
      assert ss == rs[idx := rs[idx].(base := x, size := rs[idx].End() - x)];
      CutByInsert(rs, ss, idx, x);
      ok := DoInsertArea(idx, Region(rangeBase, x - rangeBase, regions[idx].flags));
    }

    method CutAt(
        idx: nat, x: nat, ghost rs: seq<Region>, ghost base: nat, ghost end: nat, ghost start: nat, ghost stop: nat)
        returns (ok: bool)
      requires Shaped() && Isolating(rs, Contents(), base, end, idx, start, stop) && base < end
      requires (x == base || x == end)
      requires idx < num && Contents()[idx].base < x < Contents()[idx].End()
      modifies `num, regions
      ensures Shaped() && ok == (old(num) < REGIONS_NUM) && Cuts(old(Contents()), base, end) > 0
      ensures ok ==> num == old(num) + 1 && Isolating(rs, Contents(), base, end, idx, start, stop)
      ensures ok ==> Cuts(Contents(), base, end) == Cuts(old(Contents()), base, end) - 1 && Contents()[idx].End() == x
    {
      CutIsolating(rs, Contents(), base, end, idx, start, stop, x);
      ok := CutRegion(idx, x);
    }

    /** One round of the loop of `isolate_range`, for a region that is not beyond the range. */
    method IsolateRound(idx0: nat, start0: nat, stop0: nat, base: nat, end: nat, ghost rs: seq<Region>)
      returns (ok: bool, idx: nat, start: nat, stop: nat)
      requires Shaped() && base < end && idx0 < num && Isolating(rs, Contents(), base, end, idx0, start0, stop0)
      requires Contents()[idx0].base < end
      modifies `num, regions
      ensures Shaped() && (!ok ==> old(num) == REGIONS_NUM && Cuts(old(Contents()), base, end) > 0)
      ensures ok ==> Isolating(rs, Contents(), base, end, idx, start, stop)
      ensures ok ==> if Cuts(Contents(), base, end) == Cuts(old(Contents()), base, end)
                     then num == old(num) && idx == idx0 + 1
                     else num == old(num) + 1 && Cuts(Contents(), base, end) == Cuts(old(Contents()), base, end) - 1
    {
      ok, idx, start, stop := true, idx0, start0, stop0;
      var range := regions[idx];
      ghost var ss := Contents();
      if range.End() <= base {
        SkipIsolating(rs, ss, base, end, idx, start, stop);
        idx := NextIndex(idx);
        return;
      }
      if range.base < base {
        ok := CutAt(idx, base, rs, base, end, start, stop);
        if !ok {
          return;
        }
        SkipIsolating(rs, Contents(), base, end, idx, start, stop);
      } else if range.End() > end {
        ok := CutAt(idx, end, rs, base, end, start, stop);
        if !ok {
          return;
        }
        if idx == 0 {
          idx := USIZE_MAX;
        } else {
          idx := idx - 1;
        }
      } else {
        RecordIsolating(rs, ss, base, end, idx, start, stop);
        if stop == 0 {
          start := idx;
        }
        stop := idx + 1;
      }
      idx := NextIndex(idx);
    }

    /**
      `isolate_range`: cuts the regions that straddle the ends of the range, and returns the
      indices of the regions inside it.  No address changes its attribute.  It panics exactly when
      the cuts do not fit into the array.
     */
    method IsolateRange(base: nat, size: nat) returns (r: Outcome<(nat, nat)>)
      requires Valid()
      modifies `num, regions
      ensures Shaped() && (size == 0 ==> r == Ok((0, 0)) && Contents() == old(Contents()))
      ensures size > 0 ==>
        (r == Panic <==> old(num + Cuts(Contents(), base, base + size)) > REGIONS_NUM) && r != NoMemory
      ensures r.Ok? ==> Sorted(Contents()) && Same(old(Contents()), Contents())
      ensures r.Ok? && size > 0 ==>
        ApartButAt(Contents(), base, base + size) && Isolated(Contents(), base, base + size, r.value.0, r.value.1)
    {
      ghost var rs := Contents();
      var end := base + size;
      if size == 0 {
        return Ok((0, 0));
      }
      var ok, start, stop := IsolatePass(base, end, rs);
      return if ok then Ok((start, stop)) else Panic;
    }

    /** The loop of `isolate_range`. */
    method IsolatePass(base: nat, end: nat, ghost rs: seq<Region>) returns (ok: bool, start: nat, stop: nat)
      requires Valid() && base < end && rs == Contents()
      modifies `num, regions
      ensures Shaped() && (ok <==> |rs| + Cuts(rs, base, end) <= REGIONS_NUM)
      ensures ok ==>
        && Sorted(Contents()) && Same(rs, Contents()) && ApartButAt(Contents(), base, end)
        && Isolated(Contents(), base, end, start, stop)
    {
      var idx: nat;
      idx, start, stop := 0, 0, 0;
      while idx < num
        invariant Shaped() && idx <= num && Isolating(rs, Contents(), base, end, idx, start, stop)
        invariant num + Cuts(Contents(), base, end) == |rs| + Cuts(rs, base, end)
        decreases Cuts(Contents(), base, end), num - idx
      {
        if regions[idx].base >= end {
          break;
        }
        ok, idx, start, stop := IsolateRound(idx, start, stop, base, end, rs);
        if !ok {
          return;
        }
      }
      IsolatingDone(rs, Contents(), base, end, idx, start, stop);
      ok := true;
    }

    /** `remove_block`: exactly the addresses of the block lose their attribute. */
    method RemoveBlock(base: nat, size: nat) returns (r: Outcome<()>)
      requires Valid()
      modifies `num, regions
      ensures r == if size > 0 && old(num + Cuts(Contents(), base, base + size)) > REGIONS_NUM then Panic else Ok(())
      ensures r.Ok? ==>
        && Valid()
        && forall x: nat :: At(Contents(), x) == if base <= x < base + size then None else At(old(Contents()), x)
    {
      if size == 0 {
        return Ok(());
      }
      if num == 0 {
        assert Contents() == [];
        return Ok(());
      }
      ghost var rs := Contents();
      var range := IsolateRange(base, size);
      if range.Panic? {
        return Panic;
      }
      var (start, stop) := range.value;
      RemovedNormal(Contents(), base, base + size, start, stop);
      RemovedAt(rs, Contents(), base, base + size, start, stop);
      RemoveRegions(start, stop);
      return Ok(());
    }

    method RemoveRegions(start: nat, stop: nat)
      requires Shaped() && start <= stop <= num
      modifies `num, regions
      ensures Shaped() && Contents() == Removed(old(Contents()), start, stop)
    {
      ghost var ss := Contents();
      var i := stop;
      while i > start
        invariant start <= i <= stop && Shaped() && Contents() == Removed(ss, i, stop)
      {
        i := i - 1;
        DoRemoveRegion(i);
        RemovedMore(ss, i, stop);
      }
    }

    /**
      `set_or_clear_flags`: the covered addresses of [base, end), and no others, get the flags set or
      cleared.  That range is the least one of whole pages around the one asked for.
     */
    method SetOrClearFlags(base0: nat, size0: nat, set_: bool, flags: Flags)
        returns (r: Outcome<()>, ghost base: nat, ghost end: nat)
      requires Valid()
      modifies `num, regions
      ensures base % PAGE_SIZE == 0 && end % PAGE_SIZE == 0 && base <= base0 && base0 + size0 <= end
      ensures base0 - base < PAGE_SIZE && end - (base0 + size0) < PAGE_SIZE
      ensures r == (if base < end && old(num + Cuts(Contents(), base, end)) > REGIONS_NUM then Panic else Ok(()))
      ensures r.Ok? ==> Valid() && IsMarked(old(Contents()), Contents(), base, end, set_, flags)
    {
      var rsvdBase := PageAlignDown(base0);
      var size := PageAlignUp(size0 + base0 - rsvdBase);
      base, end := rsvdBase, rsvdBase + size;
      r := SetOrClearAligned(rsvdBase, size, set_, flags, end);
    }

    /** The same for a range whose ends are page boundaries. */
    method SetOrClearAligned(
        base: nat, size: nat, set_: bool, flags: Flags, ghost end: nat)
        returns (r: Outcome<()>)
      requires Valid() && end == base + size
      modifies `num, regions
      ensures r == (if base < end && old(num + Cuts(Contents(), base, end)) > REGIONS_NUM then Panic else Ok(()))
      ensures r.Ok? ==> Valid() && IsMarked(old(Contents()), Contents(), base, end, set_, flags)
    {
      ghost var rs := Contents();
      var range := IsolateRange(base, size);
      if range.Panic? {
        return Panic;
      }
      var (start, stop) := range.value;
      MarkAndMerge(start, stop, set_, flags, rs, base, end);
      assert IsMarked(rs, Contents(), base, end, set_, flags);
      r := Ok(());
    }

    /** The regions that were isolated get their flags, and the list is merged. */
    method MarkAndMerge(
        start: nat, stop: nat, set_: bool, flags: Flags, ghost rs: seq<Region>, ghost base: nat, ghost end: nat)
      requires Shaped() && Sorted(Contents()) && Same(rs, Contents()) && base <= end && start <= stop <= num
      requires if base < end then Isolated(Contents(), base, end, start, stop) else start == stop
      modifies `num, regions
      ensures Valid() && IsMarked(rs, Contents(), base, end, set_, flags)
    {
      MarkedAll(rs, Contents(), base, end, start, stop, set_, flags);
      MarkRegions(start, stop, set_, flags);
      ghost var ts := Contents();
      DoMergeBlocks(0, num);
      MarkedSame(rs, ts, Contents(), base, end, set_, flags);
    }

    method MarkRegions(start: nat, stop: nat, set_: bool, flags: Flags)
      requires Shaped() && start <= stop <= num
      modifies regions
      ensures Contents() == Marked(old(Contents()), start, stop, set_, flags)
    {
      ghost var ss := Contents();
      var i := start;
      while i < stop
        invariant start <= i <= stop && Contents() == Marked(ss, start, i, set_, flags)
      {
        regions[i] := regions[i].(flags := Flagged(regions[i].flags, set_, flags));
        i := i + 1;
        assert forall k :: 0 <= k < num ==> regions[k] == Marked(ss, start, i, set_, flags)[k];
      }
    }

    /** `do_is_overlapped`: whether the range meets a region, or touches one when it is empty. */
    method DoIsOverlapped(base: nat, size: nat, requireReserved: bool) returns (res: bool)
      requires Valid()
      ensures size > 0 ==> (res <==> exists x :: base <= x < base + size && At(Contents(), x).Some? &&
                                       (requireReserved ==> Reserved in At(Contents(), x).value))
      ensures size == 0 ==> (res <==> exists k :: 0 <= k < num && Contents()[k].base <= base <= Contents()[k].End() &&
                                        (requireReserved ==> Reserved in Contents()[k].flags))
    {
      res := false;
      var i := 0;
      while i < num
        invariant i <= num && !res
        invariant forall k :: 0 <= k < i ==> !Hit(Contents()[k], base, size, requireReserved)
      {
        var range := regions[i];
        assert range == Contents()[i];
        if Hit(range, base, size, requireReserved) {
          res := true;
          break;
        }
        i := i + 1;
      }
      Overlap(Contents(), base, size, requireReserved);
      assert res <==> exists k :: 0 <= k < num && Hit(Contents()[k], base, size, requireReserved);
    }
  }

  lemma {:induction false} FirstBlock(base: nat, size: nat)
    requires size > 0
    ensures Normal([Region(base, size, {})]) && Filled([], [Region(base, size, {})], base, base + size)
  {
    var r := Region(base, size, {});
    forall x ensures At([r], x) == FilledAt([], base, base + size, x) {
      assert At([r][1..], x) == None;
    }
  }

  /** The test of `do_is_overlapped` for one region. */
  predicate Hit(r: Region, base: nat, size: nat, requireReserved: bool) {
    && (requireReserved ==> Reserved in r.flags)
    && (  (base >= r.base && base < r.End())
       || (base + size > r.base && base + size <= r.End())
       || (base <= r.base && base + size >= r.End()))
  }

  lemma {:induction false} Overlap(rs: seq<Region>, base: nat, size: nat, requireReserved: bool)
    requires Sorted(rs)
    ensures size > 0 ==> ((exists k :: 0 <= k < |rs| && Hit(rs[k], base, size, requireReserved)) <==>
      exists x :: base <= x < base + size && At(rs, x).Some? && (requireReserved ==> Reserved in At(rs, x).value))
  {
    if size > 0 {
      if k :| 0 <= k < |rs| && Hit(rs[k], base, size, requireReserved) {
        var x := if base < rs[k].base then rs[k].base else base;
        AtCovers(rs, x, k);
        assert base <= x < base + size && At(rs, x).Some?;
      }
      if x: nat :| base <= x < base + size && At(rs, x).Some? && (requireReserved ==> Reserved in At(rs, x).value) {
        var k := AtSome(rs, x);
        assert Hit(rs[k], base, size, requireReserved);
      }
    }
  }

  // ---------- the iterator ----------

  /** The regions the iterator yields, in order. */
  ghost function Selected(rs: seq<Region>, usableOnly: bool): seq<Region> {
    if rs == [] then []
    else if usableOnly && rs[0].flags != {} then Selected(rs[1..], usableOnly)
    else [rs[0]] + Selected(rs[1..], usableOnly)
  }

  class MemBlockIter {
    const inner: MemBlockManager
    var index: nat
    const usableOnly: bool

    constructor (inner: MemBlockManager, usableOnly: bool)
      ensures this.inner == inner && this.usableOnly == usableOnly && index == 0
    {
      this.inner, this.usableOnly, index := inner, usableOnly, 0;
    }

    ghost predicate Valid()
      reads this, inner
    {
      inner.Shaped() && index <= inner.num
    }

    /** What is still to come. */
    ghost function Rest(): seq<Region>
      requires Valid()
      reads this, inner, inner.regions
    {
      Selected(inner.Contents()[index..], usableOnly)
    }

    /** `MemBlockIter::next` */
    method Next() returns (r: Option<Region>)
      requires Valid()
      modifies `index
      ensures Valid()
      ensures if r.None? then old(Rest()) == [] && Rest() == [] else old(Rest()) == [r.value] + Rest()
    {
      ghost var rs := inner.Contents();
      while index < inner.num
        invariant Valid() && Rest() == old(Rest())
      {
        assert rs[index..][0] == inner.regions[index] && rs[index..][1..] == rs[index + 1..];
        if usableOnly && inner.regions[index].flags != {} {
          assert Selected(rs[index..], usableOnly) == Selected(rs[index + 1..], usableOnly);
          index := index + 1;
          if index >= inner.num {
            return None;
          }
          continue;
        }
        break;
      }
      if index >= inner.num {
        return None;
      }
      assert rs[index..][0] == inner.regions[index] && rs[index..][1..] == rs[index + 1..];
      r := Some(inner.regions[index]);
      index := index + 1;
    }
  }
}
