/**
  `PageTable::clone` in copy-on-write mode: both copies map the same frames, neither writably.
 */
module PageClone {
  import opened PageTables
  import opened PageWalk
  import opened Wrappers

  /** A page of the original after the clone: the same frame, not writable, through entries with the same flags. */
  ghost function Ro(x: Option<Mapping>): Option<Mapping> {
    if x.None? then None else Some(x.value.(leaf := x.value.leaf.(flags := x.value.leaf.flags - {ReadWrite})))
  }

  /** A page of the copy: the same frame, neither writable nor dirty, through entries with the same flags. */
  ghost function Cow(x: Option<Mapping>): Option<Mapping> {
    if x.None? then None else Some(x.value.(leaf := x.value.leaf.(flags := x.value.leaf.flags - {ReadWrite, Dirty})))
  }

  ghost predicate IsRo(m0: Memory, m: Memory, f: Frame, level: nat) {
    forall w :: Xlate(m, f, level, w) == Ro(Xlate(m0, f, level, w))
  }

  ghost predicate IsCow(m0: Memory, m: Memory, f: Frame, n: Frame, level: nat) {
    forall w :: Xlate(m, n, level, w) == Cow(Xlate(m0, f, level, w))
  }

  /** Every page translates as before, or as before but for the right to write. */
  ghost predicate IsWeaker(m0: Memory, m: Memory, f: Frame, level: nat) {
    forall w :: Xlate(m, f, level, w) == Xlate(m0, f, level, w) || Xlate(m, f, level, w) == Ro(Xlate(m0, f, level, w))
  }

  /** The tree under `f` kept its frames; changes stayed within its frames and the free ones. */
  ghost predicate Within(m0: Memory, free0: set<Frame>, m: Memory, free: set<Frame>, f: Frame, level: nat) {
    && Tree(m, f, level, free) && Reach(m, f, level) <= Reach(m0, f, level)
    && free <= free0 && Outside(m0, m, Reach(m0, f, level) + free0)
  }

  /** `n` is the root of a tree of frames that were free before. */
  ghost predicate NewTree(free0: set<Frame>, m: Memory, free: set<Frame>, n: Frame, level: nat) {
    Tree(m, n, level, free) && Reach(m, n, level) <= free0 - free
  }

  ghost predicate Cloned(m0: Memory, free0: set<Frame>, m: Memory, free: set<Frame>, f: Frame, n: Frame, level: nat) {
    && Within(m0, free0, m, free, f, level) && NewTree(free0, m, free, n, level)
    && IsRo(m0, m, f, level) && IsCow(m0, m, f, n, level)
  }

  lemma {:induction false} GrantedLess(x: Mapping, gone: Flags)
    requires gone <= {ReadWrite, Dirty}
    ensures Granted(x.(leaf := x.leaf.(flags := x.leaf.flags - gone))) == Granted(x) - gone
  {
  }

  /**
    What the processor grants after a clone, taking the flags of all levels together: the copy has
    every right of the original but writing, and so has the original.
   */
  lemma {:induction false} CloneGrants(
      m0: Memory, free0: set<Frame>, m: Memory, free: set<Frame>, f: Frame, n: Frame, level: nat, w: Path)
    requires Cloned(m0, free0, m, free, f, n, level) && Xlate(m0, f, level, w).Some?
    ensures Xlate(m, f, level, w).Some? && Xlate(m, n, level, w).Some?
    ensures var rights := Granted(Xlate(m0, f, level, w).value);
      && Granted(Xlate(m, f, level, w).value) == rights - {ReadWrite}
      && Granted(Xlate(m, n, level, w).value) == rights - {ReadWrite, Dirty}
  {
    GrantedLess(Xlate(m0, f, level, w).value, {ReadWrite});
    GrantedLess(Xlate(m0, f, level, w).value, {ReadWrite, Dirty});
  }

  // ---------- last-level tables ----------

  /** The first `i` entries of a last-level table have been copied. */
  ghost predicate LeafCopied(s0: seq<Entry>, s: seq<Entry>, c: seq<Entry>, i: nat) {
    && |s0| == |s| == |c| == ENTRY_NUM && i <= ENTRY_NUM
    && forall k :: 0 <= k < ENTRY_NUM ==>
      if k < i && IsPresent(s0[k]) then
        && s[k] == s0[k].(flags := s0[k].flags - {ReadWrite})
        && c[k] == s0[k].(flags := s0[k].flags - {ReadWrite, Dirty})
      else s[k] == s0[k] && c[k] == ZERO
  }

  lemma {:induction false} LeafCloned(m0: Memory, free0: set<Frame>, m: Memory, free: set<Frame>, f: Frame, n: Frame)
    requires Tree(m0, f, 0, free0) && n in free0 && free == free0 - {n}
    requires f in m && n in m && m == m0[f := m[f]][n := m[n]] && LeafCopied(m0[f], m[f], m[n], ENTRY_NUM)
    ensures Cloned(m0, free0, m, free, f, n, 0)
  {
    assert f in Reach(m0, f, 0) && f != n;
  }

  // ---------- inner tables ----------

  /** The tables under `f` have the frames and the translations they had. */
  ghost predicate SameTree(m: Memory, m': Memory, f: Frame, level: nat) {
    SameXlate(m, m', f, level) && Reach(m', f, level) == Reach(m, f, level)
  }

  /** Entry `k` has been cloned. */
  ghost predicate KidDone(m0: Memory, m: Memory, f: Frame, n: Frame, level: nat, k: nat)
    requires level > 0 && IsTable(m0, f) && IsTable(m, n) && k < ENTRY_NUM
  {
    if IsPresent(m0[f][k]) then
      && IsRo(m0, m, m0[f][k].frame, level - 1) && IsPresent(m[n][k]) && m[n][k].flags == m0[f][k].flags
      && IsCow(m0, m, m0[f][k].frame, m[n][k].frame, level - 1)
    else !IsPresent(m[n][k])
  }

  /** Entry `k` has not been looked at. */
  ghost predicate KidTodo(m0: Memory, m: Memory, f: Frame, n: Frame, level: nat, k: nat)
    requires level > 0 && IsTable(m0, f) && IsTable(m, n) && k < ENTRY_NUM
  {
    !IsPresent(m[n][k]) && (IsPresent(m0[f][k]) ==> SameTree(m0, m, m0[f][k].frame, level - 1))
  }

  ghost predicate Cloning(
      m0: Memory, free0: set<Frame>, m: Memory, free: set<Frame>, f: Frame, n: Frame, level: nat, i: nat)
  {
    && level > 0 && i <= ENTRY_NUM && IsTable(m0, f)
    && Within(m0, free0, m, free, f, level) && NewTree(free0, m, free, n, level) && m[f] == m0[f]
    && (forall k :: 0 <= k < i ==> KidDone(m0, m, f, n, level, k))
    && (forall k :: i <= k < ENTRY_NUM ==> KidTodo(m0, m, f, n, level, k))
  }

  lemma {:induction false} CloningStart(
      m0: Memory, free0: set<Frame>, m: Memory, free: set<Frame>, f: Frame, n: Frame, level: nat)
    requires level > 0 && Tree(m0, f, level, free0) && n in free0 && free == free0 - {n} && m == m0[n := Blank()]
    ensures Cloning(m0, free0, m, free, f, n, level, 0)
  {
    assert f in Reach(m0, f, level);
    Untouched(m0, m, f, level);
    BlankTable(m, n, level);
    forall k | 0 <= k < ENTRY_NUM && IsPresent(m0[f][k]) ensures SameTree(m0, m, m0[f][k].frame, level - 1) {
      SubTree(m0, f, level, free0, k);
      Untouched(m0, m, m0[f][k].frame, level - 1);
    }
  }

  lemma {:induction false} CloningEnd(
      m0: Memory, free0: set<Frame>, m: Memory, free: set<Frame>, f: Frame, n: Frame, level: nat)
    requires Cloning(m0, free0, m, free, f, n, level, ENTRY_NUM)
    ensures Cloned(m0, free0, m, free, f, n, level)
  {
    forall w
      ensures Xlate(m, f, level, w) == Ro(Xlate(m0, f, level, w))
      ensures Xlate(m, n, level, w) == Cow(Xlate(m0, f, level, w))
    {
      assert KidDone(m0, m, f, n, level, Index(w, level));
    }
  }

  lemma {:induction false} CloningSkip(
      m0: Memory, free0: set<Frame>, m: Memory, free: set<Frame>, f: Frame, n: Frame, level: nat, i: nat)
    requires Cloning(m0, free0, m, free, f, n, level, i) && i < ENTRY_NUM && !IsPresent(m0[f][i])
    ensures Cloning(m0, free0, m, free, f, n, level, i + 1)
  {
    assert KidTodo(m0, m, f, n, level, i);
  }

  /** Cloning the subtable of entry `i` leaves the original a tree of its own frames. */
  lemma {:induction false} OriginalKept(
      m0: Memory, free0: set<Frame>, m1: Memory, free1: set<Frame>, m2: Memory, free2: set<Frame>, f: Frame,
      level: nat, i: nat)
    requires level > 0 && i < ENTRY_NUM && Tree(m0, f, level, free0) && Within(m0, free0, m1, free1, f, level)
    requires IsPresent(m1[f][i])
    requires Within(m1, free1, m2, free2, m1[f][i].frame, level - 1)
    ensures Within(m0, free0, m2, free2, f, level) && m2[f] == m1[f]
    ensures forall k :: 0 <= k < ENTRY_NUM && k != i && IsPresent(m1[f][k]) ==>
      SameTree(m1, m2, m1[f][k].frame, level - 1)
  {
    SubTree(m1, f, level, free1, i);
    assert Below(m1, f, level, i) == Reach(m1, m1[f][i].frame, level - 1);
    LiftOne(m1, m2, f, level, i, free1);
    forall k | 0 <= k < ENTRY_NUM && k != i
      ensures Below(m2, f, level, k) == Below(m1, f, level, k)
      ensures IsPresent(m1[f][k]) ==> SameTree(m1, m2, m1[f][k].frame, level - 1)
    {
      if IsPresent(m1[f][k]) {
        SubTree(m1, f, level, free1, k);
        assert Below(m1, f, level, i) !! Below(m1, f, level, k);
        Untouched(m1, m2, m1[f][k].frame, level - 1);
      }
    }
    assert Below(m2, f, level, i) <= Below(m1, f, level, i);
    assert Reach(m2, f, level) <= Reach(m1, f, level) by {
      forall k | 0 <= k < ENTRY_NUM ensures Below(m1, f, level, k) <= Reach(m1, f, level) {}
    }
  }

  /** The new table is not touched by cloning a subtable, and can take the clone as entry `i`. */
  lemma {:induction false} CopyGrows(
      m0: Memory, free0: set<Frame>, m1: Memory, free1: set<Frame>, m2: Memory, free2: set<Frame>, m3: Memory,
      n: Frame, level: nat, i: nat, c: Frame, e: Entry)
    requires level > 0 && i < ENTRY_NUM && NewTree(free0, m1, free1, n, level) && !IsPresent(m1[n][i])
    requires Reach(m1, c, level - 1) !! free0 && Within(m1, free1, m2, free2, c, level - 1) && free1 <= free0
    requires IsPresent(e) && NewTree(free1, m2, free2, e.frame, level - 1) && IsTable(m2, n)
    requires m3 == m2[n := m2[n][i := e]]
    ensures NewTree(free0, m3, free2, n, level) && m2[n] == m1[n] && SameXlate(m2, m3, e.frame, level - 1)
    ensures forall k :: 0 <= k < ENTRY_NUM && k != i && IsPresent(m1[n][k]) ==>
      SameXlate(m1, m3, m1[n][k].frame, level - 1)
  {
    Untouched(m1, m2, n, level);
    assert n in Reach(m1, n, level);
    AttachTable(m2, m3, n, level, i, e);
    Untouched(m2, m3, e.frame, level - 1);
    forall k | 0 <= k < ENTRY_NUM && k != i && IsPresent(m1[n][k])
      ensures SameXlate(m1, m3, m1[n][k].frame, level - 1)
    {
      SubtreeKept(m1, free1, m2, n, level, k, m3);
    }
  }

  /** What is below another entry of the new table stays when the table and frames outside its tree change. */
  lemma {:induction false} SubtreeKept(
      m1: Memory, free1: set<Frame>, m2: Memory, n: Frame, level: nat, k: nat, m3: Memory)
    requires Tree(m1, n, level, free1) && level > 0 && k < ENTRY_NUM && IsPresent(m1[n][k])
    requires forall x <- Reach(m1, n, level) :: x in m1 ==> x in m2 && m2[x] == m1[x]
    requires forall x <- m2 :: x != n ==> x in m3 && m3[x] == m2[x]
    ensures SameXlate(m1, m3, m1[n][k].frame, level - 1)
  {
    SubTree(m1, n, level, free1, k);
    Untouched(m1, m3, m1[n][k].frame, level - 1);
  }

  /** One round of the loop over an inner table: the subtable of entry `i` is cloned and entered into the copy. */
  lemma {:induction false} CloningStep(
      m0: Memory, free0: set<Frame>, m1: Memory, free1: set<Frame>, m2: Memory, free2: set<Frame>, m3: Memory,
      f: Frame, n: Frame, level: nat, i: nat, e: Entry)
    requires Tree(m0, f, level, free0) && Cloning(m0, free0, m1, free1, f, n, level, i) && i < ENTRY_NUM
    requires IsPresent(m0[f][i])
    requires IsPresent(e) && e.flags == m0[f][i].flags
    requires Cloned(m1, free1, m2, free2, m0[f][i].frame, e.frame, level - 1)
    requires IsTable(m2, n) && m3 == m2[n := m2[n][i := e]]
    ensures Cloning(m0, free0, m3, free2, f, n, level, i + 1)
  {
    var c := m0[f][i].frame;
    assert KidTodo(m0, m1, f, n, level, i);
    OriginalKept(m0, free0, m1, free1, m2, free2, f, level, i);
    SubTree(m1, f, level, free1, i);
    CopyGrows(m0, free0, m1, free1, m2, free2, m3, n, level, i, c, e);
    assert n in Reach(m1, n, level);
    EnteredElsewhere(m0, free0, m2, free2, m3, f, n, level);
    forall k | 0 <= k < ENTRY_NUM
      ensures k <= i ==> KidDone(m0, m3, f, n, level, k)
      ensures k > i ==> KidTodo(m0, m3, f, n, level, k)
    {
      if k < i { assert KidDone(m0, m1, f, n, level, k); }
      if k > i { assert KidTodo(m0, m1, f, n, level, k); }
    }
  }

  /** Entering something into the copy does not touch the original. */
  lemma {:induction false} EnteredElsewhere(
      m0: Memory, free0: set<Frame>, m2: Memory, free2: set<Frame>, m3: Memory, f: Frame, n: Frame, level: nat)
    requires level > 0 && Tree(m0, f, level, free0) && Within(m0, free0, m2, free2, f, level) && n in free0
    requires n in m2 && n in m3 && m3 == m2[n := m3[n]]
    ensures Within(m0, free0, m3, free2, f, level) && m3[f] == m2[f]
    ensures forall k :: 0 <= k < ENTRY_NUM && IsPresent(m2[f][k]) ==> SameTree(m2, m3, m2[f][k].frame, level - 1)
  {
    assert f in Reach(m2, f, level);
    Untouched(m2, m3, f, level);
    forall k | 0 <= k < ENTRY_NUM && IsPresent(m2[f][k]) ensures SameTree(m2, m3, m2[f][k].frame, level - 1) {
      SubTree(m2, f, level, free2, k);
      Untouched(m2, m3, m2[f][k].frame, level - 1);
    }
  }

  /** When the allocator runs dry, what has happened so far only took away the right to write. */
  lemma {:induction false} CloningFailed(
      m0: Memory, free0: set<Frame>, m1: Memory, free1: set<Frame>, m2: Memory, free2: set<Frame>, f: Frame, n: Frame,
      level: nat, i: nat)
    requires Tree(m0, f, level, free0) && Cloning(m0, free0, m1, free1, f, n, level, i) && i < ENTRY_NUM
    requires IsPresent(m0[f][i])
    requires Within(m1, free1, m2, free2, m0[f][i].frame, level - 1) && IsWeaker(m1, m2, m0[f][i].frame, level - 1)
    ensures Within(m0, free0, m2, free2, f, level) && IsWeaker(m0, m2, f, level)
  {
    OriginalKept(m0, free0, m1, free1, m2, free2, f, level, i);
    forall w
      ensures Xlate(m2, f, level, w) == Xlate(m0, f, level, w) || Xlate(m2, f, level, w) == Ro(Xlate(m0, f, level, w))
    {
      var k := Index(w, level);
      if k < i { assert KidDone(m0, m1, f, n, level, k); } else { assert KidTodo(m0, m1, f, n, level, k); }
    }
  }

  // ---------- how many frames a clone takes ----------

  /** The frames of the tables below the first `i` entries. */
  ghost function KidFrames(m: Memory, f: Frame, level: nat, i: nat): set<Frame>
    requires level > 0 && IsTable(m, f) && i <= ENTRY_NUM
  {
    set k, x | 0 <= k < i && x in Below(m, f, level, k) :: x
  }

  lemma {:induction false} KidFramesGrow(m: Memory, f: Frame, level: nat, i: nat)
    requires level > 0 && WellFormed(m, f, level) && i < ENTRY_NUM
    ensures |KidFrames(m, f, level, i + 1)| == |KidFrames(m, f, level, i)| + |Below(m, f, level, i)|
  {
    forall x | x in Below(m, f, level, i) ensures x !in KidFrames(m, f, level, i) {
      forall k | 0 <= k < i ensures x !in Below(m, f, level, k) {
        assert Below(m, f, level, k) !! Below(m, f, level, i);
      }
    }
    assert KidFrames(m, f, level, i + 1) == KidFrames(m, f, level, i) + Below(m, f, level, i);
    DisjointSize(KidFrames(m, f, level, i), Below(m, f, level, i));
  }

  lemma {:induction false} DisjointSize(a: set<Frame>, b: set<Frame>)
    requires forall x | x in b :: x !in a
    ensures |a + b| == |a| + |b|
  {
    assert a !! b;
  }

  /** A tree of tables is its root and what is below its entries. */
  lemma {:induction false} ReachSize(m: Memory, f: Frame, level: nat)
    requires level > 0 && WellFormed(m, f, level)
    ensures |Reach(m, f, level)| == 1 + |KidFrames(m, f, level, ENTRY_NUM)|
  {
    assert Reach(m, f, level) == {f} + KidFrames(m, f, level, ENTRY_NUM);
    assert f !in KidFrames(m, f, level, ENTRY_NUM);
  }

  lemma {:induction false} KidFramesUpTo(m: Memory, f: Frame, level: nat, i: nat, j: nat)
    requires level > 0 && IsTable(m, f) && i <= j <= ENTRY_NUM
    ensures |KidFrames(m, f, level, i)| <= |KidFrames(m, f, level, j)|
  {
    SubsetSize(KidFrames(m, f, level, i), KidFrames(m, f, level, j));
  }

  lemma {:induction false} SubsetSize(a: set<Frame>, b: set<Frame>)
    requires a <= b
    ensures |a| <= |b|
  {
    assert b == a + (b - a);
  }

  // ---------- PageTable::clone ----------

  /** Copies the entries of a last-level table. */
  method CopyLeaf(mem: PhysMemory, t: PageTable, n: PageTable)
    requires IsTable(mem.tables, t.phys) && n.phys != t.phys && n.phys in mem.tables && mem.tables[n.phys] == Blank()
    modifies mem`tables
    ensures t.phys in mem.tables && n.phys in mem.tables
    ensures mem.tables == old(mem.tables)[t.phys := mem.tables[t.phys]][n.phys := mem.tables[n.phys]]
    ensures LeafCopied(old(mem.tables)[t.phys], mem.tables[t.phys], mem.tables[n.phys], ENTRY_NUM)
  {
    var i := 0;
    while i < ENTRY_NUM
      invariant IsTable(mem.tables, t.phys) && IsTable(mem.tables, n.phys)
      invariant mem.tables == old(mem.tables)[t.phys := mem.tables[t.phys]][n.phys := mem.tables[n.phys]]
      invariant LeafCopied(old(mem.tables)[t.phys], mem.tables[t.phys], mem.tables[n.phys], i)
    {
      var entry := mem.tables[t.phys][i];
      if IsPresent(entry) {
        var flags := entry.flags - {ReadWrite};
        mem.SetEntry(t, i, entry.(flags := flags));
        mem.SetEntry(n, i, entry.(flags := flags - {Dirty}));
      }
      i := i + 1;
    }
  }

  /**
    `PageTable::clone` with `copy_on_write`.  On success the clone is a tree of fresh frames in
    which every page translates to the frame it had, without write permission and clean, and the
    original translates as before without write permission.  It succeeds exactly when there is a
    free frame for every table of the original, and takes one for each.  When the allocator runs
    dry, some pages of the original have lost write permission and nothing else has changed for
    it; no frame is given back.
   */
  method CloneTable(mem: PhysMemory, t: PageTable) returns (r: Option<PageTable>)
    requires Tree(mem.tables, t.phys, t.level, mem.free)
    modifies mem
    decreases t.level
    ensures r.Some? <==> |Reach(old(mem.tables), t.phys, t.level)| <= |old(mem.free)|
    ensures r.Some? ==> |mem.free| == |old(mem.free)| - |Reach(old(mem.tables), t.phys, t.level)|
    ensures r.None? ==> mem.free == {}
    ensures r.Some? ==> r.value.base == t.base && r.value.level == t.level
    ensures r.Some? ==> Cloned(old(mem.tables), old(mem.free), mem.tables, mem.free, t.phys, r.value.phys, t.level)
    ensures r.None? ==> Within(old(mem.tables), old(mem.free), mem.tables, mem.free, t.phys, t.level)
    ensures r.None? ==> IsWeaker(old(mem.tables), mem.tables, t.phys, t.level)
  {
    ghost var m0, free0 := mem.tables, mem.free;
    assert t.phys in Reach(m0, t.phys, t.level);
    var frame := mem.AllocateTable();
    if frame.None? {
      return None;
    }
    var n := PageTable(t.base, frame.value, t.level);
    if t.level == 0 {
      CopyLeaf(mem, t, n);
      LeafCloned(m0, free0, mem.tables, mem.free, t.phys, n.phys);
    } else {
      CloningStart(m0, free0, mem.tables, mem.free, t.phys, n.phys, t.level);
      ReachSize(m0, t.phys, t.level);
      var ok := CloneKids(mem, t, n, ENTRY_NUM, m0, free0);
      if !ok {
        return None;
      }
      CloningEnd(m0, free0, mem.tables, mem.free, t.phys, n.phys, t.level);
    }
    r := Some(n);
  }

  /** The loop over the first entries of an inner table. */
  method CloneKids(mem: PhysMemory, t: PageTable, n: PageTable, count: nat, ghost m0: Memory, ghost free0: set<Frame>)
    returns (ok: bool)
    requires Tree(m0, t.phys, t.level, free0) && count <= ENTRY_NUM
    requires Cloning(m0, free0, mem.tables, mem.free, t.phys, n.phys, t.level, 0)
    modifies mem
    decreases t.level, 2
    ensures ok <==> |KidFrames(m0, t.phys, t.level, count)| <= |old(mem.free)|
    ensures ok ==> |mem.free| == |old(mem.free)| - |KidFrames(m0, t.phys, t.level, count)|
    ensures !ok ==> mem.free == {}
    ensures ok ==> Cloning(m0, free0, mem.tables, mem.free, t.phys, n.phys, t.level, count)
    ensures !ok ==>
      Within(m0, free0, mem.tables, mem.free, t.phys, t.level) && IsWeaker(m0, mem.tables, t.phys, t.level)
  {
    var i := 0;
    while i < count
      invariant i <= count
      invariant Cloning(m0, free0, mem.tables, mem.free, t.phys, n.phys, t.level, i)
      invariant |mem.free| + |KidFrames(m0, t.phys, t.level, i)| == |old(mem.free)|
    {
      KidFramesGrow(m0, t.phys, t.level, i);
      KidFramesUpTo(m0, t.phys, t.level, i + 1, count);
      ok := CloneEntry(mem, t, n, i, m0, free0);
      if !ok {
        return;
      }
      i := i + 1;
    }
    ok := true;
  }

  /** One round of the loop: clones the subtable of entry `i`, if there is one. */
  method CloneEntry(
      mem: PhysMemory, t: PageTable, n: PageTable, i: nat, ghost m0: Memory, ghost free0: set<Frame>)
      returns (ok: bool)
    requires Tree(m0, t.phys, t.level, free0) && i < ENTRY_NUM
    requires Cloning(m0, free0, mem.tables, mem.free, t.phys, n.phys, t.level, i)
    modifies mem
    decreases t.level, 1
    ensures ok <==> |Below(m0, t.phys, t.level, i)| <= |old(mem.free)|
    ensures ok ==> |mem.free| == |old(mem.free)| - |Below(m0, t.phys, t.level, i)|
    ensures !ok ==> mem.free == {}
    ensures ok ==> Cloning(m0, free0, mem.tables, mem.free, t.phys, n.phys, t.level, i + 1)
    ensures !ok ==>
      Within(m0, free0, mem.tables, mem.free, t.phys, t.level) && IsWeaker(m0, mem.tables, t.phys, t.level)
  {
    ghost var m1, free1 := mem.tables, mem.free;
    var next := mem.NextLevelTable(t, i);
    if next.None? {
      CloningSkip(m0, free0, m1, free1, t.phys, n.phys, t.level, i);
      return true;
    }
    ok := CloneKid(mem, t, n, i, next.value, m0, free0);
  }

  /** Entry `i` has not been looked at: its tables are a tree of the frames they were. */
  lemma {:induction false} TodoTree(
      m0: Memory, free0: set<Frame>, m: Memory, free: set<Frame>, f: Frame, n: Frame, level: nat, i: nat)
    requires Cloning(m0, free0, m, free, f, n, level, i) && i < ENTRY_NUM && IsPresent(m0[f][i])
    ensures Tree(m, m0[f][i].frame, level - 1, free)
    ensures |Reach(m, m0[f][i].frame, level - 1)| == |Below(m0, f, level, i)|
  {
    SubTree(m, f, level, free, i);
    assert KidTodo(m0, m, f, n, level, i);
  }

  method CloneKid(
      mem: PhysMemory, t: PageTable, n: PageTable, i: nat, kid: PageTable, ghost m0: Memory, ghost free0: set<Frame>)
      returns (ok: bool)
    requires Tree(m0, t.phys, t.level, free0) && i < ENTRY_NUM
    requires Cloning(m0, free0, mem.tables, mem.free, t.phys, n.phys, t.level, i) && IsPresent(m0[t.phys][i])
    requires kid.phys == m0[t.phys][i].frame && kid.level == t.level - 1
    modifies mem
    decreases t.level, 0
    ensures ok <==> |Below(m0, t.phys, t.level, i)| <= |old(mem.free)|
    ensures ok ==> |mem.free| == |old(mem.free)| - |Below(m0, t.phys, t.level, i)|
    ensures !ok ==> mem.free == {}
    ensures ok ==> Cloning(m0, free0, mem.tables, mem.free, t.phys, n.phys, t.level, i + 1)
    ensures !ok ==>
      Within(m0, free0, mem.tables, mem.free, t.phys, t.level) && IsWeaker(m0, mem.tables, t.phys, t.level)
  {
    ghost var m1, free1 := mem.tables, mem.free;
    TodoTree(m0, free0, m1, free1, t.phys, n.phys, t.level, i);
    var table := CloneTable(mem, kid);
    ok := table.Some?;
    if ok {
      EnterClone(mem, t, n, i, table.value, m0, free0, m1, free1);
    } else {
      CloningFailed(m0, free0, m1, free1, mem.tables, mem.free, t.phys, n.phys, t.level, i);
    }
  }

  /** Enters the clone of the subtable of entry `i` into the copy, with the flags of that entry. */
  method EnterClone(
      mem: PhysMemory, t: PageTable, n: PageTable, i: nat, table: PageTable, ghost m0: Memory,
      ghost free0: set<Frame>, ghost m1: Memory, ghost free1: set<Frame>)
    requires Tree(m0, t.phys, t.level, free0) && i < ENTRY_NUM
    requires Cloning(m0, free0, m1, free1, t.phys, n.phys, t.level, i) && IsPresent(m0[t.phys][i])
    requires Cloned(m1, free1, mem.tables, mem.free, m0[t.phys][i].frame, table.phys, t.level - 1)
    modifies mem`tables
    ensures Cloning(m0, free0, mem.tables, mem.free, t.phys, n.phys, t.level, i + 1)
  {
    ghost var m2 := mem.tables;
    OriginalKept(m0, free0, m1, free1, m2, mem.free, t.phys, t.level, i);
    CopyKept(m0, free0, m1, free1, m2, mem.free, t.phys, n.phys, t.level, i);
    var entry := Entry(table.phys, mem.tables[t.phys][i].flags);
    mem.SetEntry(n, i, entry);
    CloningStep(m0, free0, m1, free1, m2, mem.free, mem.tables, t.phys, n.phys, t.level, i, entry);
  }

  /** Cloning a subtable does not touch the copy. */
  lemma {:induction false} CopyKept(
      m0: Memory, free0: set<Frame>, m1: Memory, free1: set<Frame>, m2: Memory, free2: set<Frame>, f: Frame, n: Frame,
      level: nat, i: nat)
    requires Tree(m0, f, level, free0) && Cloning(m0, free0, m1, free1, f, n, level, i) && i < ENTRY_NUM
    requires IsPresent(m0[f][i])
    requires Within(m1, free1, m2, free2, m0[f][i].frame, level - 1)
    ensures IsTable(m2, n)
  {
    SubTree(m1, f, level, free1, i);
    assert n in Reach(m1, n, level);
  }

  // ---------- the user half of an address space ----------

  datatype SpaceClone = Space(table: PageTable) | NoMemory | Panic

  ghost function RoBelow(x: Option<Mapping>, below: bool): Option<Mapping> { if below then Ro(x) else x }

  /**
    The pages of the first `k` entries of the root are cloned; the others translate as before in
    the original and not at all in the copy.
   */
  ghost predicate UserCloned(
      m0: Memory, free0: set<Frame>, m: Memory, free: set<Frame>, f: Frame, n: Frame, level: nat, k: nat)
  {
    && Within(m0, free0, m, free, f, level) && NewTree(free0, m, free, n, level)
    && (forall w :: Xlate(m, f, level, w) == RoBelow(Xlate(m0, f, level, w), Index(w, level) < k))
    && (forall w :: Xlate(m, n, level, w) == if Index(w, level) < k then Cow(Xlate(m0, f, level, w)) else None)
  }

  lemma {:induction false} UserCloningEnd(
      m0: Memory, free0: set<Frame>, m: Memory, free: set<Frame>, f: Frame, n: Frame, level: nat, k: nat)
    requires Cloning(m0, free0, m, free, f, n, level, k)
    ensures UserCloned(m0, free0, m, free, f, n, level, k)
  {
    forall w
      ensures Xlate(m, f, level, w) == RoBelow(Xlate(m0, f, level, w), Index(w, level) < k)
      ensures Xlate(m, n, level, w) == if Index(w, level) < k then Cow(Xlate(m0, f, level, w)) else None
    {
      var i := Index(w, level);
      if i < k { assert KidDone(m0, m, f, n, level, i); } else { assert KidTodo(m0, m, f, n, level, i); }
    }
  }

  /** The same for the user half of a space. */
  lemma {:induction false} SpaceGrants(
      m0: Memory, free0: set<Frame>, m: Memory, free: set<Frame>, f: Frame, n: Frame, level: nat, k: nat, w: Path)
    requires UserCloned(m0, free0, m, free, f, n, level, k) && Xlate(m0, f, level, w).Some? && Index(w, level) < k
    ensures Xlate(m, f, level, w).Some? && Xlate(m, n, level, w).Some?
    ensures var rights := Granted(Xlate(m0, f, level, w).value);
      && Granted(Xlate(m, f, level, w).value) == rights - {ReadWrite}
      && Granted(Xlate(m, n, level, w).value) == rights - {ReadWrite, Dirty}
  {
    GrantedLess(Xlate(m0, f, level, w).value, {ReadWrite});
    GrantedLess(Xlate(m0, f, level, w).value, {ReadWrite, Dirty});
  }

  /**
    The tables of a new address space: a new root, and `clone_user_mapping` of the entries before
    `kernelIndex`.  Without a frame for the root it fails; without frames for the other tables the
    `unwrap` of `clone_user_mapping` panics.
   */
  method CloneSpace(mem: PhysMemory, t: PageTable, kernelIndex: nat) returns (r: SpaceClone)
    requires Tree(mem.tables, t.phys, t.level, mem.free) && t.level > 0 && kernelIndex <= ENTRY_NUM
    modifies mem
    ensures r == NoMemory <==> old(mem.free) == {}
    ensures r == NoMemory ==> mem.tables == old(mem.tables) && mem.free == old(mem.free)
    ensures r.Space? <==> 1 + |KidFrames(old(mem.tables), t.phys, t.level, kernelIndex)| <= |old(mem.free)|
    ensures r.Space? ==> |mem.free| == |old(mem.free)| - 1 - |KidFrames(old(mem.tables), t.phys, t.level, kernelIndex)|
    ensures r.Space? ==> r.table.level == t.level && r.table.base == t.base
    ensures r.Space? ==>
      UserCloned(old(mem.tables), old(mem.free), mem.tables, mem.free, t.phys, r.table.phys, t.level, kernelIndex)
  {
    ghost var m0, free0 := mem.tables, mem.free;
    assert t.phys in Reach(m0, t.phys, t.level);
    var frame := mem.AllocateTable();
    if frame.None? {
      return NoMemory;
    }
    var n := PageTable(t.base, frame.value, t.level);
    CloningStart(m0, free0, mem.tables, mem.free, t.phys, n.phys, t.level);
    var ok := CloneKids(mem, t, n, kernelIndex, m0, free0);
    if !ok {
      return Panic;
    }
    UserCloningEnd(m0, free0, mem.tables, mem.free, t.phys, n.phys, t.level, kernelIndex);
    r := Space(n);
  }
}
