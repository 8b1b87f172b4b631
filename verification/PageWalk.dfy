/**
  The radix tree of page tables of kernel/src/mm/page.rs, as a value: physical frames that
  hold 512 entries each.  `Xlate` is the flat page-to-frame map that a tree of tables denotes;
  the lemmas say what rewriting one entry on the path of a page does to it.
 */
module PageWalk {
  import opened Arith
  import opened Wrappers

  const ENTRY_NUM := 512

  type Frame = nat

  /** The bits of an entry outside its address. */
  datatype Flag =
    | Present | ReadWrite | User | WriteThrough | CacheDisable | Accessed | Dirty | HugePage | Global | NoExec

  type Flags = set<Flag>

  datatype Entry = Entry(frame: Frame, flags: Flags)

  const ZERO := Entry(0, {})

  /** What a walk finds: the entry of the page, and the flags of the entries above it, topmost first. */
  datatype Mapping = Mapping(leaf: Entry, above: seq<Flags>)

  /** The frames used as page tables. */
  type Memory = map<Frame, seq<Entry>>

  predicate IsPresent(e: Entry) { Present in e.flags }

  /** The number of pages that one entry of a table of this level covers. */
  function Span(level: nat): (n: nat)
    ensures n > 0
  {
    if level == 0 then 1 else ENTRY_NUM * Span(level - 1)
  }

  type Slot = i: nat | i < ENTRY_NUM

  /** The entries a walk takes, by level. */
  type Path = seq<Slot>

  function Index(v: Path, level: nat): Slot {
    if level < |v| then v[level] else 0
  }

  /** Nine bits of a page number: shift, then mask. */
  function Digit(page: nat, level: nat): Slot {
    (page / Span(level)) % ENTRY_NUM
  }

  /** The path of a page: nine bits of its number for every level. */
  function PathOf(page: nat, levels: nat): Path {
    seq(levels, l requires l >= 0 => Digit(page, l))
  }

  predicate IsTable(m: Memory, f: Frame) {
    f in m && |m[f]| == ENTRY_NUM
  }

  /** The frames of the tables below and including `f`. */
  ghost function Reach(m: Memory, f: Frame, level: nat): set<Frame>
    decreases level, 1
  {
    if level == 0 || !IsTable(m, f) then {f}
    else {f} + set i, x | 0 <= i < ENTRY_NUM && x in Below(m, f, level, i) :: x
  }

  /** The frames reached through entry `i`. */
  ghost function Below(m: Memory, f: Frame, level: nat, i: nat): set<Frame>
    requires level > 0 && IsTable(m, f) && i < ENTRY_NUM
    decreases level, 0
  {
    if IsPresent(m[f][i]) then Reach(m, m[f][i].frame, level - 1) else {}
  }

  /** A tree of tables: no frame is used twice. */
  ghost predicate WellFormed(m: Memory, f: Frame, level: nat)
    decreases level
  {
    && IsTable(m, f)
    && (level > 0 ==>
          && (forall i :: 0 <= i < ENTRY_NUM && IsPresent(m[f][i]) ==> WellFormed(m, m[f][i].frame, level - 1))
          && (forall i :: 0 <= i < ENTRY_NUM ==> f !in Below(m, f, level, i))
          && (forall i, j :: 0 <= i < j < ENTRY_NUM ==> Below(m, f, level, i) !! Below(m, f, level, j)))
  }

  /** The translation of page `v`: where the walk from `f` ends, if every entry on it is present. */
  ghost function Xlate(m: Memory, f: Frame, level: nat, v: Path): Option<Mapping>
    decreases level
  {
    if !IsTable(m, f) then None
    else
      var e := m[f][Index(v, level)];
      if !IsPresent(e) then None
      else if level == 0 then Some(Mapping(e, []))
      else Under([e.flags], Xlate(m, e.frame, level - 1, v))
  }

  /** The same translation with more entries above it. */
  ghost function Under(above: seq<Flags>, x: Option<Mapping>): Option<Mapping> {
    if x.None? then None else Some(x.value.(above := above + x.value.above))
  }

  /** The flags of the entries on the path of `v` above level `target`, as far as the tables exist. */
  ghost function FlagsAbove(m: Memory, f: Frame, level: nat, v: Path, target: nat): seq<Flags>
    decreases level
  {
    if level <= target || !IsTable(m, f) || !IsPresent(m[f][Index(v, level)]) then []
    else [m[f][Index(v, level)].flags] + FlagsAbove(m, m[f][Index(v, level)].frame, level - 1, v, target)
  }

  /**
    What the processor grants to a page: writing and user mode need every entry on the way, and one
    entry that forbids execution is enough.
   */
  ghost function Granted(x: Mapping): Flags {
    set g | g in x.leaf.flags + {NoExec} &&
      if g == ReadWrite || g == User then forall i :: 0 <= i < |x.above| ==> g in x.above[i]
      else if g == NoExec then NoExec in x.leaf.flags || exists i :: 0 <= i < |x.above| && NoExec in x.above[i]
      else true
  }

  /** The walks of `v` and `w` use the same entries from this level down. */
  ghost predicate SamePath(v: Path, w: Path, level: nat) {
    Index(v, level) == Index(w, level) && (level > 0 ==> SamePath(v, w, level - 1))
  }

  /** The walk of `v` from `f` comes to the table `t` of level `target`. */
  ghost predicate OnPath(m: Memory, f: Frame, level: nat, v: Path, target: nat, t: Frame)
    decreases level
  {
    if level <= target then level == target && t == f
    else
      && IsTable(m, f) && IsPresent(m[f][Index(v, level)])
      && OnPath(m, m[f][Index(v, level)].frame, level - 1, v, target, t)
  }

  // ---------- arithmetic of paths ----------

  lemma {:induction false} DivSpan(v: nat, level: nat)
    ensures v / Span(level) == ENTRY_NUM * (v / Span(level + 1)) + (v / Span(level)) % ENTRY_NUM
  {
    DivDiv(v, Span(level), ENTRY_NUM);
  }

  lemma {:induction false} SameQuotient(v: nat, w: nat, level: nat)
    requires v / Span(level + 1) == w / Span(level + 1) && Digit(v, level) == Digit(w, level)
    ensures v / Span(level) == w / Span(level)
  {
    DivSpan(v, level);
    DivSpan(w, level);
  }

  lemma {:induction false} SamePage(v: nat, w: nat, levels: nat, level: nat)
    requires level < levels && v / Span(level + 1) == w / Span(level + 1)
    requires SamePath(PathOf(v, levels), PathOf(w, levels), level)
    ensures v == w
    decreases level
  {
    assert PathOf(v, levels)[level] == Digit(v, level) && PathOf(w, levels)[level] == Digit(w, level);
    SameQuotient(v, w, level);
    if level > 0 {
      SamePage(v, w, levels, level - 1);
    }
  }

  lemma {:induction false} SamePathSelf(v: Path, level: nat)
    ensures SamePath(v, v, level)
  {
    if level > 0 { SamePathSelf(v, level - 1); }
  }

  /** Distinct pages of the address space never share a path. */
  lemma {:induction false} DistinctPaths(v: nat, w: nat, level: nat)
    requires v < Span(level + 1) && w < Span(level + 1)
    ensures SamePath(PathOf(v, level + 1), PathOf(w, level + 1), level) <==> v == w
  {
    SamePathSelf(PathOf(v, level + 1), level);
    if SamePath(PathOf(v, level + 1), PathOf(w, level + 1), level) {
      DivUnique(v, Span(level + 1), 0, v);
      DivUnique(w, Span(level + 1), 0, w);
      SamePage(v, w, level + 1, level);
    }
  }

  // ---------- what a change leaves alone ----------

  ghost predicate SameXlate(m: Memory, m': Memory, f: Frame, level: nat) {
    forall w :: Xlate(m', f, level, w) == Xlate(m, f, level, w)
  }

  /** Tables none of whose frames changed keep their frames, their shape and their translations. */
  lemma {:induction false} Untouched(m: Memory, m': Memory, f: Frame, level: nat)
    requires WellFormed(m, f, level)
    requires forall x <- Reach(m, f, level) :: x in m ==> x in m' && m'[x] == m[x]
    ensures WellFormed(m', f, level) && Reach(m', f, level) == Reach(m, f, level)
    ensures SameXlate(m, m', f, level)
    decreases level
  {
    assert f in Reach(m, f, level);
    if level > 0 {
      forall i | 0 <= i < ENTRY_NUM && IsPresent(m[f][i])
        ensures WellFormed(m', m[f][i].frame, level - 1)
        ensures Below(m', f, level, i) == Below(m, f, level, i)
        ensures SameXlate(m, m', m[f][i].frame, level - 1)
      {
        assert Below(m, f, level, i) <= Reach(m, f, level);
        Untouched(m, m', m[f][i].frame, level - 1);
      }
      assert forall i :: 0 <= i < ENTRY_NUM ==> Below(m', f, level, i) == Below(m, f, level, i);
    }
  }

  /** The table `f` has the entry `e` at `i` now; the tables below its other entries did not change. */
  ghost predicate Rewires(m: Memory, m': Memory, f: Frame, level: nat, i: nat, e: Entry)
    requires level > 0 && IsTable(m, f) && i < ENTRY_NUM
  {
    && IsTable(m', f) && m'[f] == m[f][i := e]
    && (forall j, x :: 0 <= j < ENTRY_NUM && j != i && x in Below(m, f, level, j) && x in m ==>
          x in m' && m'[x] == m[x])
    && (IsPresent(e) ==>
          && WellFormed(m', e.frame, level - 1) && f !in Reach(m', e.frame, level - 1)
          && forall j :: 0 <= j < ENTRY_NUM && j != i ==> Below(m, f, level, j) !! Reach(m', e.frame, level - 1))
  }

  /** Rewriting one entry of an inner table: the shape stays a tree, and only pages under that entry translate anew. */
  lemma {:induction false} Rewired(m: Memory, m': Memory, f: Frame, level: nat, i: nat, e: Entry)
    requires level > 0 && WellFormed(m, f, level) && i < ENTRY_NUM && Rewires(m, m', f, level, i, e)
    ensures WellFormed(m', f, level)
    ensures forall j :: 0 <= j < ENTRY_NUM && j != i ==> Below(m', f, level, j) == Below(m, f, level, j)
    ensures forall w ::
      Xlate(m', f, level, w) == if Index(w, level) == i then Xlate'(m', e, level, w) else Xlate(m, f, level, w)
  {
    forall j | 0 <= j < ENTRY_NUM && j != i && IsPresent(m[f][j])
      ensures WellFormed(m', m[f][j].frame, level - 1) && Below(m', f, level, j) == Below(m, f, level, j)
      ensures SameXlate(m, m', m[f][j].frame, level - 1)
    {
      assert forall x <- Below(m, f, level, j) :: x in m ==> x in m' && m'[x] == m[x];
      Untouched(m, m', m[f][j].frame, level - 1);
    }
    assert forall j :: 0 <= j < ENTRY_NUM && j != i ==> Below(m', f, level, j) == Below(m, f, level, j);
    assert Below(m', f, level, i) == if IsPresent(e) then Reach(m', e.frame, level - 1) else {};
  }

  /** The walk through an entry of an inner table. */
  ghost function Xlate'(m: Memory, e: Entry, level: nat, v: Path): Option<Mapping>
    requires level > 0
  {
    if IsPresent(e) then Under([e.flags], Xlate(m, e.frame, level - 1, v)) else None
  }

  /** Between `m` and `m'` the tables under `f` lost no shape, grew at most by `grown`, and only the
      translation of `v` may differ: it is `x` now. */
  ghost predicate Changed(m: Memory, m': Memory, f: Frame, level: nat, v: Path, x: Option<Mapping>, grown: set<Frame>) {
    && WellFormed(m', f, level) && Reach(m', f, level) <= Reach(m, f, level) + grown
    && forall w :: Xlate(m', f, level, w) == if SamePath(v, w, level) then x else Xlate(m, f, level, w)
  }

  /** Outside `s` nothing changed. */
  ghost predicate Outside(m: Memory, m': Memory, s: set<Frame>) {
    forall y <- m :: y !in s ==> y in m' && m'[y] == m[y]
  }

  lemma {:induction false} PathReach(m: Memory, f: Frame, level: nat, v: Path, target: nat, t: Frame)
    requires WellFormed(m, f, level) && OnPath(m, f, level, v, target, t)
    ensures Reach(m, t, target) <= Reach(m, f, level) && WellFormed(m, t, target)
    decreases level
  {
    if level > target {
      var i := Index(v, level);
      PathReach(m, m[f][i].frame, level - 1, v, target, t);
      assert Below(m, f, level, i) <= Reach(m, f, level);
    }
  }

  lemma {:induction false} UnderNone(x: Option<Mapping>)
    ensures Under([], x) == x
  {
    if x.Some? { assert [] + x.value.above == x.value.above; }
  }

  lemma {:induction false} UnderTwice(a: seq<Flags>, b: seq<Flags>, x: Option<Mapping>)
    ensures Under(a, Under(b, x)) == Under(a + b, x)
  {
    if x.Some? { assert a + (b + x.value.above) == (a + b) + x.value.above; }
  }

  /** A change at a table on the path of `v` is the same change seen from above. */
  lemma {:induction false} Lift(
      m: Memory, m': Memory, f: Frame, level: nat, v: Path, target: nat, t: Frame, x: Option<Mapping>,
      grown: set<Frame>)
    requires WellFormed(m, f, level) && OnPath(m, f, level, v, target, t)
    requires Changed(m, m', t, target, v, x, grown) && grown !! Reach(m, f, level)
    requires Outside(m, m', Reach(m, t, target) + grown)
    ensures Changed(m, m', f, level, v, Under(FlagsAbove(m, f, level, v, target), x), grown)
    ensures OnPath(m', f, level, v, target, t)
    decreases level
  {
    if level <= target {
      UnderNone(x);
    } else {
      var i := Index(v, level);
      var c := m[f][i].frame;
      assert Below(m, f, level, i) == Reach(m, c, level - 1) && Below(m, f, level, i) <= Reach(m, f, level);
      PathReach(m, c, level - 1, v, target, t);
      Lift(m, m', c, level - 1, v, target, t, x, grown);
      LiftOne(m, m', f, level, i, grown);
      UnderTwice([m[f][i].flags], FlagsAbove(m, c, level - 1, v, target), x);
    }
  }

  /** A change below one entry, seen from the table that holds the entry. */
  lemma {:induction false} LiftOne(m: Memory, m': Memory, f: Frame, level: nat, i: nat, grown: set<Frame>)
    requires level > 0 && WellFormed(m, f, level) && i < ENTRY_NUM && IsPresent(m[f][i])
    requires WellFormed(m', m[f][i].frame, level - 1) && grown !! Reach(m, f, level)
    requires Reach(m', m[f][i].frame, level - 1) <= Below(m, f, level, i) + grown
    requires Outside(m, m', Below(m, f, level, i) + grown)
    ensures WellFormed(m', f, level) && Reach(m', f, level) <= Reach(m, f, level) + grown && m'[f] == m[f]
    ensures forall w ::
      Xlate(m', f, level, w) == if Index(w, level) == i then Xlate'(m', m[f][i], level, w) else Xlate(m, f, level, w)
  {
    assert f in Reach(m, f, level) && m'[f] == m[f] == m[f][i := m[f][i]];
    forall j | 0 <= j < ENTRY_NUM ensures Below(m, f, level, j) <= Reach(m, f, level) {}
    assert Rewires(m, m', f, level, i, m[f][i]) by {
      forall j | 0 <= j < ENTRY_NUM && j != i ensures Below(m, f, level, i) !! Below(m, f, level, j) {}
    }
    Rewired(m, m', f, level, i, m[f][i]);
    assert Below(m', f, level, i) <= Below(m, f, level, i) + grown;
  }

  lemma {:induction false} PathXlate(m: Memory, f: Frame, level: nat, v: Path, target: nat, t: Frame)
    requires OnPath(m, f, level, v, target, t)
    ensures Xlate(m, f, level, v) == Under(FlagsAbove(m, f, level, v, target), Xlate(m, t, target, v))
    decreases level
  {
    if level > target {
      var e := m[f][Index(v, level)];
      PathXlate(m, e.frame, level - 1, v, target, t);
      UnderTwice([e.flags], FlagsAbove(m, e.frame, level - 1, v, target), Xlate(m, t, target, v));
    } else {
      UnderNone(Xlate(m, t, target, v));
    }
  }

  /** One step further along the path. */
  lemma {:induction false} PathStep(m: Memory, f: Frame, level: nat, v: Path, target: nat, t: Frame)
    requires OnPath(m, f, level, v, target, t) && target > 0 && IsTable(m, t) && IsPresent(m[t][Index(v, target)])
    ensures OnPath(m, f, level, v, target - 1, m[t][Index(v, target)].frame)
    decreases level
  {
    if level > target {
      PathStep(m, m[f][Index(v, level)].frame, level - 1, v, target, t);
    } else {
      assert OnPath(m, m[t][Index(v, target)].frame, level - 1, v, target - 1, m[t][Index(v, target)].frame);
    }
  }

  // ---------- single writes ----------

  function Blank(): seq<Entry> {
    seq(ENTRY_NUM, _ => ZERO)
  }

  /** No page below this table translates. */
  ghost predicate MapsNothing(m: Memory, f: Frame, level: nat) {
    forall w :: Xlate(m, f, level, w) == None
  }

  /** Writing an entry of a last-level table. */
  lemma {:induction false} SetLeaf(m: Memory, m': Memory, t: Frame, v: Path, e: Entry)
    requires IsTable(m, t) && m' == m[t := m[t][Index(v, 0) := e]]
    ensures Changed(m, m', t, 0, v, if IsPresent(e) then Some(Mapping(e, [])) else None, {})
  {
  }

  /** Hanging a tree of tables under an entry that was not present. */
  lemma {:induction false} AttachTable(m: Memory, m': Memory, t: Frame, level: nat, i: nat, e: Entry)
    requires level > 0 && WellFormed(m, t, level) && i < ENTRY_NUM && !IsPresent(m[t][i])
    requires IsPresent(e) && WellFormed(m, e.frame, level - 1) && Reach(m, e.frame, level - 1) !! Reach(m, t, level)
    requires m' == m[t := m[t][i := e]]
    ensures WellFormed(m', t, level) && Reach(m', t, level) == Reach(m, t, level) + Reach(m, e.frame, level - 1)
    ensures forall w ::
      Xlate(m', t, level, w) == if Index(w, level) == i then Xlate'(m, e, level, w) else Xlate(m, t, level, w)
  {
    assert t in Reach(m, t, level);
    Untouched(m, m', e.frame, level - 1);
    forall j | 0 <= j < ENTRY_NUM ensures Below(m, t, level, j) <= Reach(m, t, level) {}
    assert Rewires(m, m', t, level, i, e);
    Rewired(m, m', t, level, i, e);
    assert Below(m, t, level, i) == {} && Below(m', t, level, i) == Reach(m, e.frame, level - 1);
  }

  lemma {:induction false} BlankTable(m: Memory, f: Frame, level: nat)
    requires f in m && m[f] == Blank()
    ensures WellFormed(m, f, level) && Reach(m, f, level) == {f} && MapsNothing(m, f, level)
  {
  }

  /** Hanging an empty table on the path of `v`. */
  lemma {:induction false} AddTable(m: Memory, m': Memory, t: Frame, level: nat, v: Path, e: Entry)
    requires level > 0 && WellFormed(m, t, level) && !IsPresent(m[t][Index(v, level)])
    requires IsPresent(e) && e.frame !in Reach(m, t, level)
    requires m' == m[e.frame := Blank()][t := m[t][Index(v, level) := e]]
    ensures Changed(m, m', t, level, v, None, {e.frame})
  {
    var m1 := m[e.frame := Blank()];
    assert t in Reach(m, t, level);
    Untouched(m, m1, t, level);
    BlankTable(m1, e.frame, level - 1);
    AttachTable(m1, m', t, level, Index(v, level), e);
  }

  /** Clearing an entry whose subtable has no present entry. */
  lemma {:induction false} DropTable(m: Memory, m': Memory, t: Frame, level: nat, v: Path)
    requires level > 0 && WellFormed(m, t, level) && IsPresent(m[t][Index(v, level)])
    requires var s := m[t][Index(v, level)].frame;
      IsTable(m, s) && forall j :: 0 <= j < ENTRY_NUM ==> !IsPresent(m[s][j])
    requires m' == m[t := m[t][Index(v, level) := ZERO]]
    ensures Changed(m, m', t, level, v, None, {}) && Xlate(m, t, level, v) == None
    ensures m[t][Index(v, level)].frame in Reach(m, t, level) - Reach(m', t, level)
  {
    var i := Index(v, level);
    var s := m[t][i].frame;
    assert t in Reach(m, t, level) && Below(m, t, level, i) == Reach(m, s, level - 1) && s in Reach(m, s, level - 1);
    forall j | 0 <= j < ENTRY_NUM ensures Below(m, t, level, j) <= Reach(m, t, level) {}
    assert Rewires(m, m', t, level, i, ZERO);
    Rewired(m, m', t, level, i, ZERO);
    assert Below(m', t, level, i) == {};
    assert MapsNothing(m, s, level - 1);
  }

  lemma {:induction false} SamePathXlate(m: Memory, f: Frame, level: nat, v: Path, w: Path)
    requires SamePath(v, w, level)
    ensures Xlate(m, f, level, v) == Xlate(m, f, level, w)
    decreases level
  {
    if level > 0 && IsTable(m, f) {
      SamePathXlate(m, m[f][Index(v, level)].frame, level - 1, v, w);
    }
  }

  /** A change that gives `v` the translation it had changes nothing. */
  lemma {:induction false} NoChange(m: Memory, m': Memory, f: Frame, level: nat, v: Path, grown: set<Frame>)
    requires Changed(m, m', f, level, v, Xlate(m, f, level, v), grown)
    ensures SameXlate(m, m', f, level)
  {
    forall w ensures Xlate(m', f, level, w) == Xlate(m, f, level, w) {
      if SamePath(v, w, level) { SamePathXlate(m, f, level, v, w); }
    }
  }

  /** Seen from a root that covers the whole address space, one page changes. */
  lemma {:induction false} OnlyPage(
      m: Memory, m': Memory, f: Frame, level: nat, v: nat, x: Option<Mapping>, grown: set<Frame>)
    requires Changed(m, m', f, level, PathOf(v, level + 1), x, grown) && v < Span(level + 1)
    ensures forall w :: 0 <= w < Span(level + 1) ==>
      PageXlate(m', f, level, w) == if w == v then x else PageXlate(m, f, level, w)
  {
    forall w | 0 <= w < Span(level + 1)
      ensures PageXlate(m', f, level, w) == if w == v then x else PageXlate(m, f, level, w)
    {
      DistinctPaths(v, w, level);
    }
  }

  /** The flat map of a tree: the translation of a page number. */
  ghost function PageXlate(m: Memory, f: Frame, level: nat, page: nat): Option<Mapping> {
    Xlate(m, f, level, PathOf(page, level + 1))
  }

  /** A tree of tables next to the free frames. */
  ghost predicate Tree(m: Memory, f: Frame, level: nat, free: set<Frame>) {
    WellFormed(m, f, level) && free !! Reach(m, f, level)
  }

  /** From `m` to `m'` the tree took frames only from `free`, and no frame changed that was neither its own nor free. */
  ghost predicate Confined(m: Memory, free: set<Frame>, m': Memory, free': set<Frame>, f: Frame, level: nat) {
    && free' <= free && Reach(m', f, level) <= Reach(m, f, level) + free
    && Outside(m, m', Reach(m, f, level) + free)
  }

  lemma {:induction false} ConfinedTrans(
      m0: Memory, free0: set<Frame>, m1: Memory, free1: set<Frame>, m2: Memory, free2: set<Frame>, f: Frame,
      level: nat)
    requires Confined(m0, free0, m1, free1, f, level) && Confined(m1, free1, m2, free2, f, level)
    ensures Confined(m0, free0, m2, free2, f, level)
  {
  }

  /** Hanging an empty table on the path of `v`, seen from the root. */
  lemma {:induction false} GrowTree(
      m: Memory, m': Memory, f: Frame, level: nat, v: Path, target: nat, t: Frame, e: Entry, free: set<Frame>)
    requires Tree(m, f, level, free) && OnPath(m, f, level, v, target, t) && target > 0
    requires IsTable(m, t) && !IsPresent(m[t][Index(v, target)]) && IsPresent(e) && e.frame in free
    requires m' == m[e.frame := Blank()][t := m[t][Index(v, target) := e]]
    ensures Tree(m', f, level, free - {e.frame}) && Confined(m, free, m', free - {e.frame}, f, level)
    ensures SameXlate(m, m', f, level)
    ensures OnPath(m', f, level, v, target, t) && e.frame in m' && m'[e.frame] == Blank()
  {
    PathReach(m, f, level, v, target, t);
    assert t in Reach(m, t, target);
    AddTable(m, m', t, target, v, e);
    PathXlate(m, f, level, v, target, t);
    Lift(m, m', f, level, v, target, t, None, {e.frame});
    NoChange(m, m', f, level, v, {e.frame});
  }

  /** First a growth that changes no translation, then one leaf entry: one page changes. */
  lemma {:induction false} ChangedSince(
      m0: Memory, free0: set<Frame>, m: Memory, free: set<Frame>, m': Memory, f: Frame, level: nat, v: Path,
      x: Option<Mapping>)
    requires Confined(m0, free0, m, free, f, level) && SameXlate(m0, m, f, level)
    requires Changed(m, m', f, level, v, x, {}) && Outside(m, m', Reach(m, f, level))
    ensures Confined(m0, free0, m', free, f, level) && Changed(m0, m', f, level, v, x, free0)
  {
    ConfinedTrans(m0, free0, m, free, m', free, f, level);
  }

  // ---------- unmapping ----------

  /** The frames that became free were tables of the tree, are tables of it no more, and hold no present entry. */
  ghost predicate Freed(m: Memory, free: set<Frame>, m': Memory, free': set<Frame>, f: Frame, level: nat) {
    && free <= free' && free' - free == Reach(m, f, level) - Reach(m', f, level)
    && forall x <- free' - free :: IsTable(m', x) && forall k :: 0 <= k < ENTRY_NUM ==> !IsPresent(m'[x][k])
  }

  /** Every table on the path below `f` has a present entry. */
  ghost predicate PathUsed(m: Memory, f: Frame, level: nat, v: Path)
    decreases level
  {
    level > 0 && IsTable(m, f) && IsPresent(m[f][Index(v, level)]) ==>
      var c := m[f][Index(v, level)].frame;
      IsTable(m, c) && (exists k :: 0 <= k < ENTRY_NUM && IsPresent(m[c][k])) && PathUsed(m, c, level - 1, v)
  }

  /** Not touching anything where the walk ends early. */
  lemma {:induction false} Unchanged(m: Memory, f: Frame, level: nat, v: Path)
    requires WellFormed(m, f, level) && Xlate(m, f, level, v) == None
    ensures Changed(m, m, f, level, v, None, {})
  {
    forall w | SamePath(v, w, level) ensures Xlate(m, f, level, w) == None { SamePathXlate(m, f, level, v, w); }
  }

  lemma {:induction false} SubTree(m: Memory, f: Frame, level: nat, free: set<Frame>, i: nat)
    requires Tree(m, f, level, free) && level > 0 && i < ENTRY_NUM && IsPresent(m[f][i])
    ensures Tree(m, m[f][i].frame, level - 1, free) && f !in Reach(m, m[f][i].frame, level - 1)
    ensures Reach(m, m[f][i].frame, level - 1) <= Reach(m, f, level)
  {
    assert Below(m, f, level, i) == Reach(m, m[f][i].frame, level - 1);
    assert Below(m, f, level, i) <= Reach(m, f, level);
  }

  /** An unmapping below one entry, seen from the table that holds the entry. */
  lemma {:induction false} UnmapLift(
      m: Memory, free: set<Frame>, m': Memory, free': set<Frame>, f: Frame, level: nat, v: Path)
    requires Tree(m, f, level, free) && level > 0 && IsPresent(m[f][Index(v, level)])
    requires var c := m[f][Index(v, level)].frame;
      && Tree(m', c, level - 1, free') && Changed(m, m', c, level - 1, v, None, {})
      && Outside(m, m', Reach(m, c, level - 1)) && Freed(m, free, m', free', c, level - 1)
    ensures Tree(m', f, level, free') && Changed(m, m', f, level, v, None, {}) && m'[f] == m[f]
    ensures Outside(m, m', Reach(m, f, level)) && Freed(m, free, m', free', f, level)
  {
    var i := Index(v, level);
    var c := m[f][i].frame;
    SubTree(m, f, level, free, i);
    LiftOne(m, m', f, level, i, {});
    UnmapLiftFrames(m, free, m', free', f, level, i);
  }

  lemma {:induction false} UnmapLiftFrames(
      m: Memory, free: set<Frame>, m': Memory, free': set<Frame>, f: Frame, level: nat, i: nat)
    requires Tree(m, f, level, free) && level > 0 && i < ENTRY_NUM && IsPresent(m[f][i])
    requires var c := m[f][i].frame;
      Tree(m', c, level - 1, free') && Freed(m, free, m', free', c, level - 1) && Outside(m, m', Reach(m, c, level - 1))
    requires WellFormed(m', f, level) && Reach(m', f, level) <= Reach(m, f, level) && m'[f] == m[f]
    ensures free' !! Reach(m', f, level) && Freed(m, free, m', free', f, level)
  {
    var c := m[f][i].frame;
    SubTree(m, f, level, free, i);
    forall x <- free' - free ensures x !in Reach(m', f, level) {
      assert x in Below(m, f, level, i) && x !in Below(m', f, level, i);
      assert x != f;
      forall j | 0 <= j < ENTRY_NUM && j != i ensures x !in Below(m', f, level, j) {
        OtherBelow(m, m', f, level, i, j);
      }
    }
    forall x <- Reach(m, f, level) - Reach(m', f, level) ensures x in free' - free {
      LostBelow(m, m', f, level, i, x);
    }
  }

  lemma {:induction false} ReachedBelow(m: Memory, f: Frame, level: nat, x: Frame) returns (j: nat)
    requires level > 0 && IsTable(m, f) && x in Reach(m, f, level) && x != f
    ensures j < ENTRY_NUM && x in Below(m, f, level, j)
  {
    j :| 0 <= j < ENTRY_NUM && x in Below(m, f, level, j);
  }

  /** A frame that is no longer reached was reached through the entry below which something changed. */
  lemma {:induction false} LostBelow(m: Memory, m': Memory, f: Frame, level: nat, i: nat, x: Frame)
    requires WellFormed(m, f, level) && level > 0 && i < ENTRY_NUM
    requires IsTable(m', f) && m'[f] == m[f] && Outside(m, m', Below(m, f, level, i))
    requires x in Reach(m, f, level) && x !in Reach(m', f, level)
    ensures x in Below(m, f, level, i) && x !in Below(m', f, level, i)
  {
    var j := ReachedBelow(m, f, level, x);
    if j != i { OtherBelow(m, m', f, level, i, j); }
  }

  lemma {:induction false} OtherBelow(m: Memory, m': Memory, f: Frame, level: nat, i: nat, j: nat)
    requires WellFormed(m, f, level) && level > 0 && i < ENTRY_NUM && j < ENTRY_NUM && i != j
    requires IsTable(m', f) && m'[f] == m[f] && Outside(m, m', Below(m, f, level, i))
    ensures Below(m', f, level, j) == Below(m, f, level, j) && Below(m, f, level, i) !! Below(m, f, level, j)
  {
    if IsPresent(m[f][j]) {
      assert Below(m, f, level, i) !! Below(m, f, level, j);
      Untouched(m, m', m[f][j].frame, level - 1);
    }
  }

  /** Then the empty subtable itself goes. */
  lemma {:induction false} UnmapDrop(
      m: Memory, free: set<Frame>, m1: Memory, free1: set<Frame>, m': Memory, free': set<Frame>, f: Frame, level: nat,
      v: Path)
    requires Tree(m1, f, level, free1) && level > 0 && Changed(m, m1, f, level, v, None, {})
    requires Outside(m, m1, Reach(m, f, level)) && Freed(m, free, m1, free1, f, level)
    requires IsPresent(m1[f][Index(v, level)])
    requires var s := m1[f][Index(v, level)].frame;
      && IsTable(m1, s) && (forall j :: 0 <= j < ENTRY_NUM ==> !IsPresent(m1[s][j]))
      && m' == m1[f := m1[f][Index(v, level) := ZERO]] && free' == free1 + {s}
    ensures Tree(m', f, level, free') && Changed(m, m', f, level, v, None, {})
    ensures Outside(m, m', Reach(m, f, level)) && Freed(m, free, m', free', f, level)
  {
    assert f in Reach(m1, f, level);
    DropTable(m1, m', f, level, v);
    var s := m1[f][Index(v, level)].frame;
    SubTree(m1, f, level, free1, Index(v, level));
    assert s in Reach(m1, s, level - 1) && f != s;
    DropFrames(m1, m', f, level, Index(v, level));
    assert free' - free == (free1 - free) + {s};
  }

  /** Dropping an entry whose table is empty loses exactly that table. */
  lemma {:induction false} DropFrames(m: Memory, m': Memory, f: Frame, level: nat, i: nat)
    requires level > 0 && WellFormed(m, f, level) && i < ENTRY_NUM && IsPresent(m[f][i])
    requires var s := m[f][i].frame; IsTable(m, s) && forall j :: 0 <= j < ENTRY_NUM ==> !IsPresent(m[s][j])
    requires m' == m[f := m[f][i := ZERO]]
    ensures Reach(m, f, level) <= Reach(m', f, level) + {m[f][i].frame}
  {
    var s := m[f][i].frame;
    assert f in Reach(m', f, level);
    forall x <- Reach(m, f, level) ensures x in Reach(m', f, level) || x == s {
      if x != f {
        var j := ReachedBelow(m, f, level, x);
        if j != i {
          assert f !in Reach(m, m[f][j].frame, level - 1);
          Untouched(m, m', m[f][j].frame, level - 1);
          assert x in Below(m', f, level, j);
        } else {
          EmptyReach(m, s, level - 1);
        }
      }
    }
  }

  lemma {:induction false} EmptyReach(m: Memory, s: Frame, level: nat)
    requires IsTable(m, s) && forall j :: 0 <= j < ENTRY_NUM ==> !IsPresent(m[s][j])
    ensures Reach(m, s, level) == {s}
  {
    if level > 0 {
      forall j | 0 <= j < ENTRY_NUM ensures Below(m, s, level, j) == {} {}
    }
  }
}
