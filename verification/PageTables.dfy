/**
  `PageTable` and `PageMapper` of kernel/src/mm/page.rs over physical memory.  Virtual
  addresses are bytes; a mapper has `levels` levels of tables (4 on x86_64, 3 on riscv64).
 */
module PageTables {
  import opened Arith
  import opened PageWalk
  import opened Wrappers

  const PAGE_SIZE := 4096

  /** `base` is the first virtual address the table covers. */
  datatype PageTable = PageTable(base: nat, phys: Frame, level: nat)

  /** 1 << (level * PAGE_ENTRY_SHIFT + PAGE_SHIFT) */
  function EntrySize(level: nat): nat { PAGE_SIZE * Span(level) }

  /** The page number that is left of an address under PAGE_ADDRESS_MASK. */
  function PageOf(addr: nat, levels: nat): nat {
    (addr % EntrySize(levels)) / PAGE_SIZE
  }

  /** `index_of` */
  function IndexOf(t: PageTable, addr: nat, levels: nat): Option<nat> {
    var a := PageOf(addr, levels) * PAGE_SIZE;
    var mask := ENTRY_NUM * EntrySize(t.level) - 1;
    if a < t.base || a >= t.base + mask then None
    else Some((a / EntrySize(t.level)) % ENTRY_NUM)
  }

  /** `entry_base` */
  function EntryBase(t: PageTable, i: nat): Option<nat> {
    if i < ENTRY_NUM then Some(t.base + i * EntrySize(t.level)) else None
  }

  /** The table is the one of its level that covers page `v`. */
  ghost predicate Aligned(t: PageTable, v: nat) {
    t.base == EntrySize(t.level + 1) * (v / Span(t.level + 1))
  }

  /** The path of the page of an address. */
  function PathTo(addr: nat, levels: nat): Path {
    PathOf(PageOf(addr, levels), levels)
  }

  /** From this table down, `index_of` follows the path `v`. */
  ghost predicate Covers(t: PageTable, addr: nat, levels: nat, v: Path)
    decreases t.level
  {
    var i := Index(v, t.level);
    && IndexOf(t, addr, levels) == Some(i)
    && (t.level > 0 ==> Covers(PageTable(EntryBase(t, i).value, 0, t.level - 1), addr, levels, v))
  }

  lemma {:induction false} CoversAnyFrame(t: PageTable, addr: nat, levels: nat, v: Path, f: Frame)
    requires Covers(t, addr, levels, v)
    ensures Covers(t.(phys := f), addr, levels, v)
  {
  }

  lemma {:induction false} AlignedCovers(t: PageTable, addr: nat, levels: nat)
    requires Aligned(t, PageOf(addr, levels)) && t.level < levels
    ensures Covers(t, addr, levels, PathTo(addr, levels))
    decreases t.level
  {
    var v, l := PageOf(addr, levels), t.level;
    IndexOfCovered(t, addr, levels);
    assert Index(PathTo(addr, levels), l) == Digit(v, l);
    if l > 0 {
      NextCovers(t, v, 0);
      AlignedCovers(PageTable(EntryBase(t, Digit(v, l)).value, 0, l - 1), addr, levels);
    }
  }

  /** Shifting the address is dividing the page number. */
  lemma {:induction false} ShiftedPage(v: nat, z: nat)
    requires z > 0
    ensures PAGE_SIZE * z > 0 && (v * PAGE_SIZE) / (PAGE_SIZE * z) == v / z
  {
    var q, r := v / z, v % z;
    assert v == q * z + r;
    assert v * PAGE_SIZE == q * (PAGE_SIZE * z) + PAGE_SIZE * r by {
      assert (q * z) * PAGE_SIZE == q * (PAGE_SIZE * z);
    }
    DivUnique(v * PAGE_SIZE, PAGE_SIZE * z, q, PAGE_SIZE * r);
  }

  lemma {:induction false} CoveredRange(v: nat, s: nat)
    requires s > 0
    ensures PAGE_SIZE * s * (v / s) <= v * PAGE_SIZE < PAGE_SIZE * s * (v / s) + (PAGE_SIZE * s - 1)
  {
    var q, r := v / s, v % s;
    assert v == q * s + r;
    assert v * PAGE_SIZE == PAGE_SIZE * s * q + PAGE_SIZE * r by {
      assert (q * s) * PAGE_SIZE == PAGE_SIZE * s * q;
    }
    assert PAGE_SIZE * r <= PAGE_SIZE * (s - 1);
  }

  /** `index_of` finds the entry of every page that the table covers. */
  lemma {:induction false} IndexOfCovered(t: PageTable, addr: nat, levels: nat)
    requires Aligned(t, PageOf(addr, levels))
    ensures IndexOf(t, addr, levels) == Some(Digit(PageOf(addr, levels), t.level))
  {
    var v := PageOf(addr, levels);
    CoveredRange(v, Span(t.level + 1));
    ShiftedPage(v, Span(t.level));
    assert ENTRY_NUM * EntrySize(t.level) == PAGE_SIZE * Span(t.level + 1);
  }

  /** The entry base of the page's entry is the base of the next table. */
  lemma {:induction false} NextCovers(t: PageTable, v: nat, f: Frame)
    requires Aligned(t, v) && t.level > 0
    ensures Aligned(PageTable(EntryBase(t, Digit(v, t.level)).value, f, t.level - 1), v)
  {
    var l := t.level;
    var i, s, q := Digit(v, l), Span(l), v / Span(l + 1);
    DivSpan(v, l);
    assert t.base == PAGE_SIZE * s * (ENTRY_NUM * q) by {
      assert EntrySize(l + 1) == PAGE_SIZE * (ENTRY_NUM * s);
      assert PAGE_SIZE * (ENTRY_NUM * s) * q == PAGE_SIZE * s * (ENTRY_NUM * q);
    }
    assert i * (PAGE_SIZE * s) == PAGE_SIZE * s * i;
    assert PAGE_SIZE * s * (ENTRY_NUM * q) + PAGE_SIZE * s * i == PAGE_SIZE * s * (ENTRY_NUM * q + i);
  }

  lemma {:induction false} RootCovers(addr: nat, f: Frame, levels: nat)
    requires levels > 0
    ensures PageOf(addr, levels) < Span(levels)
    ensures Covers(PageTable(0, f, levels - 1), addr, levels, PathTo(addr, levels))
  {
    PageOfBound(addr, levels);
    assert PageOf(addr, levels) / Span(levels) == 0;
    AlignedCovers(PageTable(0, f, levels - 1), addr, levels);
  }

  lemma {:induction false} PageOfBound(addr: nat, levels: nat)
    ensures PageOf(addr, levels) < Span(levels)
    ensures PageOf(addr % EntrySize(levels), levels) == PageOf(addr, levels)
  {
    PageBound(addr, PAGE_SIZE * Span(levels), Span(levels));
  }

  lemma {:induction false} PageBound(addr: nat, size: nat, z: nat)
    requires size == PAGE_SIZE * z && z > 0
    ensures (addr % size) / PAGE_SIZE < z && addr % size % size == addr % size
  {
    DivUnique(addr % size, size, 0, addr % size);
  }

  // ---------- what the processor does with an address ----------

  const PAGE_SHIFT := 12
  const PAGE_ENTRY_SHIFT := 9

  /** The entries that the processor takes for an address: nine bits of it for every level. */
  ghost function BitsOf(addr: nat, levels: nat): Path {
    seq(levels, l requires l >= 0 => (addr / Pow2(PAGE_SHIFT + PAGE_ENTRY_SHIFT * l)) % ENTRY_NUM)
  }

  /** The addresses lie in one page; the bits above the address space do not matter. */
  ghost predicate OnePage(a: nat, b: nat, levels: nat) {
    var size := Pow2(PAGE_SHIFT + PAGE_ENTRY_SHIFT * levels);
    (a % size) / Pow2(PAGE_SHIFT) == (b % size) / Pow2(PAGE_SHIFT)
  }

  lemma {:induction false} ShiftSize(level: nat)
    ensures EntrySize(level) == Pow2(PAGE_SHIFT + PAGE_ENTRY_SHIFT * level) && Pow2(PAGE_SHIFT) == PAGE_SIZE
    ensures Pow2(PAGE_ENTRY_SHIFT) == ENTRY_NUM
  {
    assert Pow2(3) == 8 && Pow2(6) == 8 * Pow2(3) && Pow2(9) == 8 * Pow2(6) && Pow2(12) == 8 * Pow2(9);
    if level > 0 {
      ShiftSize(level - 1);
      Pow2Add(PAGE_SHIFT + PAGE_ENTRY_SHIFT * (level - 1), PAGE_ENTRY_SHIFT);
    }
  }

  /** The digits of the page number of an address are the bits that the processor takes. */
  lemma {:induction false} DigitIsBits(addr: nat, levels: nat, level: nat)
    requires level < levels
    ensures Digit(PageOf(addr, levels), level) == (addr / Pow2(PAGE_SHIFT + PAGE_ENTRY_SHIFT * level)) % ENTRY_NUM
  {
    ShiftSize(level);
    var z, k := Span(level), SpanBetween(level, levels);
    assert EntrySize(levels) == (k * ENTRY_NUM) * (z * PAGE_SIZE) by {
      assert PAGE_SIZE * ((k * ENTRY_NUM) * z) == (k * ENTRY_NUM) * (z * PAGE_SIZE);
    }
    DivDiv(addr % EntrySize(levels), PAGE_SIZE, z);
    LowBits(addr, z * PAGE_SIZE, ENTRY_NUM, k);
  }

  /** How often the entries of one level go into the address space, divided by the entries of a table. */
  ghost function SpanBetween(level: nat, levels: nat): (k: nat)
    requires level < levels
    ensures k > 0 && Span(levels) == (k * ENTRY_NUM) * Span(level)
    decreases levels
  {
    if level + 1 == levels then 1
    else
      var k := SpanBetween(level, levels - 1);
      assert ENTRY_NUM * ((k * ENTRY_NUM) * Span(level)) == ((k * ENTRY_NUM) * ENTRY_NUM) * Span(level);
      k * ENTRY_NUM
  }

  /** The bits above a field do not matter to it. */
  lemma {:induction false} LowBits(a: nat, d: nat, n: nat, k: nat)
    requires d > 0 && n > 0 && k > 0
    ensures (k * n) * d > 0 && ((a % ((k * n) * d)) / d) % n == (a / d) % n
  {
    var w, b := k * n, a / d;
    DivDiv(b, n, k);
    DivDiv(a, d, w);
    DivUnique(a % (w * d), d, b % w, a % d);
    DivUnique(b % w, n, (b / n) % k, b % n);
  }

  /** `index_of` of any table: the nine bits of its level for the addresses it covers, nothing for others. */
  lemma {:induction false} IndexOfExact(t: PageTable, addr: nat, levels: nat)
    requires t.level < levels && t.base % Pow2(PAGE_SHIFT + PAGE_ENTRY_SHIFT * (t.level + 1)) == 0
    ensures var a := addr % Pow2(PAGE_SHIFT + PAGE_ENTRY_SHIFT * levels);
      IndexOf(t, addr, levels) ==
        if t.base <= a < t.base + Pow2(PAGE_SHIFT + PAGE_ENTRY_SHIFT * (t.level + 1))
        then Some((addr / Pow2(PAGE_SHIFT + PAGE_ENTRY_SHIFT * t.level)) % ENTRY_NUM)
        else None
  {
    ShiftSize(levels);
    ShiftSize(t.level);
    ShiftSize(t.level + 1);
    ShiftedPage(PageOf(addr, levels), Span(t.level));
    DigitIsBits(addr, levels, t.level);
    WholePages(t.base, Span(t.level + 1));
    InRange(addr % EntrySize(levels), t.base, EntrySize(t.level + 1));
    assert ENTRY_NUM * EntrySize(t.level) == EntrySize(t.level + 1);
  }

  /** The range test on the start of the page is the range test on the address. */
  lemma {:induction false} InRange(a: nat, base: nat, size: nat)
    requires base % PAGE_SIZE == 0 && size % PAGE_SIZE == 0 && size > 0
    ensures var p := a / PAGE_SIZE * PAGE_SIZE;
      (p < base || p >= base + (size - 1)) <==> !(base <= a < base + size)
  {
  }

  lemma {:induction false} WholePages(base: nat, z: nat)
    requires z > 0 && base % (PAGE_SIZE * z) == 0
    ensures base % PAGE_SIZE == 0 && (PAGE_SIZE * z) % PAGE_SIZE == 0
  {
    var q := base / (PAGE_SIZE * z);
    assert base == (q * z) * PAGE_SIZE by {
      assert base == q * (PAGE_SIZE * z);
    }
  }

  /** `index_of` follows the processor. */
  lemma {:induction false} PathIsBits(addr: nat, levels: nat)
    ensures PathTo(addr, levels) == BitsOf(addr, levels)
  {
    forall l | 0 <= l < levels ensures PathTo(addr, levels)[l] == BitsOf(addr, levels)[l] {
      DigitIsBits(addr, levels, l);
    }
  }

  /** The addresses in page `v` have its path. */
  lemma {:induction false} BitsOfPage(v: nat, o: nat, levels: nat)
    requires v < Span(levels) && o < PAGE_SIZE
    ensures BitsOf(v * PAGE_SIZE + o, levels) == PathOf(v, levels)
  {
    PathIsBits(v * PAGE_SIZE + o, levels);
    var a, size := v * PAGE_SIZE + o, EntrySize(levels);
    MulLess(v, Span(levels), PAGE_SIZE);
    assert size == Span(levels) * PAGE_SIZE;
    DivUnique(a, size, 0, a);
    DivUnique(a, PAGE_SIZE, v, o);
  }

  /** Two addresses have one path exactly if they lie in one page. */
  lemma {:induction false} OnePath(a: nat, b: nat, levels: nat)
    requires levels > 0
    ensures SamePath(BitsOf(a, levels), BitsOf(b, levels), levels - 1) <==> OnePage(a, b, levels)
  {
    ShiftSize(levels);
    PathIsBits(a, levels);
    PathIsBits(b, levels);
    PageOfBound(a, levels);
    PageOfBound(b, levels);
    DistinctPaths(PageOf(a, levels), PageOf(b, levels), levels - 1);
  }

  /** The addresses of one page translate to `x` now, and every other address as before. */
  ghost predicate PageNow(m: Memory, m': Memory, root: Frame, levels: nat, virt: nat, x: Option<Mapping>)
    requires levels > 0
  {
    forall a: nat :: Xlate(m', root, levels - 1, BitsOf(a, levels)) ==
      if OnePage(a, virt, levels) then x else Xlate(m, root, levels - 1, BitsOf(a, levels))
  }

  lemma {:induction false} ChangedPage(
      m: Memory, m': Memory, root: Frame, levels: nat, virt: nat, x: Option<Mapping>, grown: set<Frame>)
    requires levels > 0 && Changed(m, m', root, levels - 1, BitsOf(virt, levels), x, grown)
    ensures PageNow(m, m', root, levels, virt, x)
  {
    forall a: nat ensures Xlate(m', root, levels - 1, BitsOf(a, levels)) ==
      if OnePage(a, virt, levels) then x else Xlate(m, root, levels - 1, BitsOf(a, levels))
    {
      OnePath(virt, a, levels);
    }
  }

  /** `new_page_table`: tables for addresses below USER_END_VADDR are open to user mode. */
  function NewTableFlags(addr: nat, levels: nat): (f: Flags)
    ensures Present in f
  {
    {Present, ReadWrite} + if addr < EntrySize(levels) / 2 - PAGE_SIZE then {User} else {}
  }

  /** Below USER_END_VADDR: in the lower half of the address space, but for its last page. */
  ghost predicate IsUser(addr: nat, levels: nat) {
    var size := Pow2(PAGE_SHIFT + PAGE_ENTRY_SHIFT * levels);
    addr % size + Pow2(PAGE_SHIFT) < size / 2
  }

  /** `map_phys` works on the address without the bits above the address space. */
  lemma {:induction false} MaskedAddress(virt: nat, levels: nat)
    ensures BitsOf(virt % EntrySize(levels), levels) == BitsOf(virt, levels)
    ensures NewTableFlags(virt % EntrySize(levels), levels) ==
      {Present, ReadWrite} + if IsUser(virt, levels) then {User} else {}
  {
    ShiftSize(levels);
    PageOfBound(virt, levels);
    PathIsBits(virt, levels);
    PathIsBits(virt % EntrySize(levels), levels);
  }

  /** The translation of `v` after its missing tables were entered with `flags`, and `entry` for the page itself. */
  ghost function Mapped(m: Memory, f: Frame, level: nat, v: Path, entry: Entry, flags: Flags): Option<Mapping> {
    if !IsPresent(entry) then None
    else Some(Mapping(entry, FlagsAbove(m, f, level, v, 0) + Repeat(flags, Missing(m, f, level, v))))
  }

  ghost function Repeat(flags: Flags, n: nat): seq<Flags> {
    seq(n, _ => flags)
  }

  lemma {:induction false} RepeatMore(s: seq<Flags>, flags: Flags, n: nat, k: nat)
    ensures (s + Repeat(flags, n)) + Repeat(flags, k) == s + Repeat(flags, n + k)
  {
  }

  ghost function FrameAndFlags(x: Option<Mapping>): Option<(Frame, Flags)> {
    match x case None => None case Some(y) => Some((y.leaf.frame, y.leaf.flags))
  }

  /** Physical memory: the frames that hold tables, and the frames the allocator may hand out. */
  lemma {:induction false} TableNotFree(
      m: Memory, f: Frame, level: nat, v: Path, target: nat, t: Frame, free: set<Frame>)
    requires Tree(m, f, level, free) && OnPath(m, f, level, v, target, t)
    ensures t !in free
  {
    PathReach(m, f, level, v, target, t);
    assert t in Reach(m, t, target);
  }

  /** From `m` to `m'` the path of `v` got `n` tables, entered with `flags`, and no translation changed. */
  ghost predicate Grown(
      m: Memory, free: set<Frame>, m': Memory, free': set<Frame>, f: Frame, level: nat, v: Path, flags: Flags, n: nat)
  {
    && Confined(m, free, m', free', f, level) && SameXlate(m, m', f, level) && |free'| + n == |free|
    && FlagsAbove(m', f, level, v, 0) == FlagsAbove(m, f, level, v, 0) + Repeat(flags, n)
  }

  lemma {:induction false} NothingGrown(
      m: Memory, free: set<Frame>, m': Memory, free': set<Frame>, f: Frame, level: nat, v: Path, flags: Flags, n: nat)
    requires m' == m && free' == free && n == 0
    ensures Grown(m, free, m', free', f, level, v, flags, n)
    ensures Tree(m, f, level, free) ==> Tree(m', f, level, free')
  {
    assert Repeat(flags, 0) == [];
  }

  lemma {:induction false} GrownTwice(
      m0: Memory, free0: set<Frame>, m1: Memory, free1: set<Frame>, m2: Memory, free2: set<Frame>, f: Frame,
      level: nat, v: Path, flags: Flags, n: nat, k: nat, all: nat)
    requires Grown(m0, free0, m1, free1, f, level, v, flags, n) && Grown(m1, free1, m2, free2, f, level, v, flags, k)
    requires all == n + k
    ensures Grown(m0, free0, m2, free2, f, level, v, flags, all)
  {
    ConfinedTrans(m0, free0, m1, free1, m2, free2, f, level);
    RepeatMore(FlagsAbove(m0, f, level, v, 0), flags, n, k);
  }

  /** A new table on the path of `v`: no translation changes, and one table less is missing. */
  lemma {:induction false} NewOnPath(
      m: Memory, m': Memory, f: Frame, level: nat, v: Path, target: nat, t: Frame, e: Entry, free: set<Frame>,
      free': set<Frame>, flags: Flags, made: nat)
    requires Tree(m, f, level, free) && OnPath(m, f, level, v, target, t) && target > 0
    requires e.flags == flags && made == 1
    requires IsTable(m, t) && !IsPresent(m[t][Index(v, target)]) && IsPresent(e) && e.frame in free
    requires m' == m[e.frame := Blank()][t := m[t][Index(v, target) := e]] && free' == free - {e.frame} && t !in free
    ensures Tree(m', f, level, free') && Grown(m, free, m', free', f, level, v, flags, made)
    ensures OnPath(m', f, level, v, target, t) && IsTable(m', t) && m'[t][Index(v, target)] == e
    ensures Missing(m', e.frame, target - 1, v) == target - 1
  {
    assert Repeat(e.flags, 1) == [e.flags];
    GrowTree(m, m', f, level, v, target, t, e, free);
    GrownFlags(m, m', f, level, v, target, t, e);
  }

  lemma {:induction false} GrownFlags(
      m: Memory, m': Memory, f: Frame, level: nat, v: Path, target: nat, t: Frame, e: Entry)
    requires WellFormed(m, f, level) && OnPath(m, f, level, v, target, t) && target > 0
    requires IsTable(m, t) && !IsPresent(m[t][Index(v, target)]) && IsPresent(e) && e.frame !in Reach(m, f, level)
    requires m' == m[e.frame := Blank()][t := m[t][Index(v, target) := e]]
    ensures FlagsAbove(m', f, level, v, 0) == FlagsAbove(m, f, level, v, 0) + [e.flags]
    decreases level
  {
    assert f in Reach(m, f, level);
    if level == target {
      assert FlagsAbove(m', e.frame, level - 1, v, 0) == [];
    } else {
      var i := Index(v, level);
      var c := m[f][i].frame;
      assert Below(m, f, level, i) <= Reach(m, f, level);
      PathReach(m, c, level - 1, v, target, t);
      assert t in Reach(m, t, target);
      GrownFlags(m, m', c, level - 1, v, target, t, e);
    }
  }

  class PhysMemory {
    var tables: Memory
    var free: set<Frame>

    constructor (free: set<Frame>)
      ensures this.free == free && tables == map[]
    {
      this.free, tables := free, map[];
    }

    /** `allocate_one`, then clearing the frame: a frame not in use, or nothing when none is left. */
    method AllocateTable() returns (f: Option<Frame>)
      modifies this
      ensures f.None? ==> old(free) == {} && tables == old(tables) && free == old(free)
      ensures f.Some? ==>
        f.value in old(free) && free == old(free) - {f.value} && tables == old(tables)[f.value := Blank()]
    {
      if free == {} {
        return None;
      }
      var frame :| frame in free;
      free := free - {frame};
      tables := tables[frame := Blank()];
      f := Some(frame);
    }

    /** `set_entry` */
    method SetEntry(t: PageTable, i: nat, e: Entry)
      requires IsTable(tables, t.phys) && i < ENTRY_NUM
      modifies `tables
      ensures tables == old(tables)[t.phys := old(tables)[t.phys][i := e]]
    {
      tables := tables[t.phys := tables[t.phys][i := e]];
    }

    /** Allocates a table and enters it at `i`. */
    method NewTableAt(t: PageTable, i: nat, flags: Flags) returns (e: Option<Entry>)
      requires IsTable(tables, t.phys) && i < ENTRY_NUM && t.phys !in free
      modifies this
      ensures e.None? ==> old(free) == {} && tables == old(tables) && free == old(free)
      ensures e.Some? ==> e.value.frame in old(free) && e.value.flags == flags && free == old(free) - {e.value.frame}
      ensures e.Some? ==> tables == old(tables)[e.value.frame := Blank()][t.phys := old(tables)[t.phys][i := e.value]]
    {
      var frame := AllocateTable();
      if frame.None? {
        return None;
      }
      e := Some(Entry(frame.value, flags));
      SetEntry(t, i, e.value);
    }

    /** `next_level_table` */
    function NextLevelTable(t: PageTable, i: nat): (r: Option<PageTable>)
      requires IsTable(tables, t.phys)
      reads this
    {
      if t.level == 0 || i >= ENTRY_NUM then None
      else
        var e := tables[t.phys][i];
        if IsPresent(e) then Some(PageTable(EntryBase(t, i).value, e.frame, t.level - 1)) else None
    }
  }

  /** The number of tables missing on the path of `v`. */
  ghost function Missing(m: Memory, f: Frame, level: nat, v: Path): nat
    decreases level
  {
    if level == 0 || !IsTable(m, f) then 0
    else if IsPresent(m[f][Index(v, level)]) then Missing(m, m[f][Index(v, level)].frame, level - 1, v)
    else level
  }

  class PageMapper {
    const mem: PhysMemory
    const root: Frame
    const levels: nat

    ghost predicate Valid()
      reads mem
    {
      levels > 0 && Tree(mem.tables, root, levels - 1, mem.free)
    }

    /** The flat map: what the page with path `v` translates to. */
    ghost function Flat(v: Path): Option<Mapping>
      requires levels > 0
      reads mem
    {
      Xlate(mem.tables, root, levels - 1, v)
    }

    /** What an address translates to. */
    ghost function At(addr: nat): Option<Mapping>
      requires levels > 0
      reads mem
    {
      Flat(BitsOf(addr, levels))
    }

    /** The frames of this mapper's tables. */
    ghost function Frames(): set<Frame>
      requires levels > 0
      reads mem
    {
      Reach(mem.tables, root, levels - 1)
    }

    /** `PageMapper::create` on an allocated frame: an empty address space. */
    constructor (mem: PhysMemory, root: Frame, levels: nat)
      requires levels > 0 && root in mem.tables && mem.tables[root] == Blank() && root !in mem.free
      ensures Valid() && this.mem == mem && this.root == root && this.levels == levels
      ensures forall v :: Flat(v) == None
    {
      this.mem, this.root, this.levels := mem, root, levels;
      BlankTable(mem.tables, root, levels - 1);
    }

    function RootTable(): PageTable
      requires levels > 0
    {
      PageTable(0, root, levels - 1)
    }

    /** Where a walk along `v`, the path of an address, stands. */
    ghost predicate Walking(t: PageTable, addr: nat, v: Path)
      reads mem
    {
      levels > 0 && Covers(t, addr, levels, v) && OnPath(mem.tables, root, levels - 1, v, t.level, t.phys)
    }

    lemma WalkFacts(t: PageTable, addr: nat, v: Path)
      requires Valid() && Walking(t, addr, v)
      ensures IndexOf(t, addr, levels) == Some(Index(v, t.level))
      ensures WellFormed(mem.tables, t.phys, t.level) && Reach(mem.tables, t.phys, t.level) <= Frames()
      ensures Xlate(mem.tables, root, levels - 1, v) ==
        Under(FlagsAbove(mem.tables, root, levels - 1, v, t.level), Xlate(mem.tables, t.phys, t.level, v))
      ensures t.level > 0 && IsPresent(mem.tables[t.phys][Index(v, t.level)]) ==>
        var next := mem.NextLevelTable(t, Index(v, t.level));
        next.Some? && Walking(next.value, addr, v)
    {
      PathReach(mem.tables, root, levels - 1, v, t.level, t.phys);
      PathXlate(mem.tables, root, levels - 1, v, t.level, t.phys);
      var e := mem.tables[t.phys][Index(v, t.level)];
      if t.level > 0 && IsPresent(e) {
        CoversAnyFrame(PageTable(EntryBase(t, Index(v, t.level)).value, 0, t.level - 1), addr, levels, v, e.frame);
        PathStep(mem.tables, root, levels - 1, v, t.level, t.phys);
      }
    }

    lemma StartWalk(addr: nat)
      requires Valid()
      ensures Walking(RootTable(), addr, BitsOf(addr, levels))
    {
      RootCovers(addr, root, levels);
      PathIsBits(addr, levels);
    }

    /** `visit`: the last-level table and the index of the entry of the page, when all tables on the way exist. */
    method Visit(virt: nat, ghost v: Path) returns (r: Option<(PageTable, nat)>)
      requires Valid() && Walking(RootTable(), virt, v)
      ensures r.None? <==> Missing(mem.tables, root, levels - 1, v) > 0
      ensures r.Some? ==> Walking(r.value.0, virt, v) && r.value.0.level == 0 && r.value.1 == Index(v, 0)
    {
      var table := RootTable();
      while true
        invariant Walking(table, virt, v)
        invariant Missing(mem.tables, table.phys, table.level, v) == Missing(mem.tables, root, levels - 1, v)
        decreases table.level
      {
        WalkFacts(table, virt, v);
        var i := IndexOf(table, virt, levels);
        if i.None? {
          return None;
        }
        if table.level == 0 {
          return Some((table, i.value));
        }
        var next := mem.NextLevelTable(table, i.value);
        if next.None? {
          return None;
        }
        table := next.value;
      }
    }

    /** `translate`: the flat map. */
    method Translate(virt: nat) returns (r: Option<(Frame, Flags)>)
      requires Valid()
      ensures r == FrameAndFlags(At(virt))
    {
      ghost var v := BitsOf(virt, levels);
      StartWalk(virt);
      MissingXlate(mem.tables, root, levels - 1, v);
      var p := Visit(virt, v);
      if p.None? {
        return None;
      }
      WalkFacts(p.value.0, virt, v);
      var entry := mem.tables[p.value.0.phys][p.value.1];
      if IsPresent(entry) {
        return Some((entry.frame, entry.flags));
      }
      return None;
    }

    /**
      `map_phys`: after success the addresses of the page translate to the frame and every other
      address as before.  The tables that were missing are open to user mode exactly if the address
      is below USER_END_VADDR.  It fails for unaligned addresses and when the tables missing on the
      path outnumber the free frames, and then changes no translation.
     */
    method MapPhys(virt: nat, phys: nat, flags: Flags) returns (ok: bool)
      requires Valid()
      modifies mem
      ensures Valid() && Confined(old(mem.tables), old(mem.free), mem.tables, mem.free, root, levels - 1)
      ensures ok <==>
        && virt % PAGE_SIZE == 0 && phys % PAGE_SIZE == 0
        && old(Missing(mem.tables, root, levels - 1, BitsOf(virt, levels))) <= |old(mem.free)|
      ensures ok ==>
        var v, added := BitsOf(virt, levels), {Present, ReadWrite} + if IsUser(virt, levels) then {User} else {};
        var x := Mapped(old(mem.tables), root, levels - 1, v, Entry(phys / PAGE_SIZE, flags), added);
        && Changed(old(mem.tables), mem.tables, root, levels - 1, v, x, old(mem.free))
        && PageNow(old(mem.tables), mem.tables, root, levels, virt, x)
      ensures !ok ==> SameXlate(old(mem.tables), mem.tables, root, levels - 1)
    {
      if virt % PAGE_SIZE != 0 || phys % PAGE_SIZE != 0 {
        return false;
      }
      var addr := virt % EntrySize(levels);
      MaskedAddress(virt, levels);
      StartWalk(addr);
      ghost var v, entry := BitsOf(virt, levels), Entry(phys / PAGE_SIZE, flags);
      ghost var x := Mapped(mem.tables, root, levels - 1, v, entry, NewTableFlags(addr, levels));
      ok := MapEntry(addr, Entry(phys / PAGE_SIZE, flags), NewTableFlags(addr, levels), v);
      if ok { ChangedPage(old(mem.tables), mem.tables, root, levels, virt, x, old(mem.free)); }
    }

    /** `map_phys` after the alignment checks. */
    method MapEntry(addr: nat, entry: Entry, flags: Flags, ghost v: Path) returns (ok: bool)
      requires Valid() && Walking(RootTable(), addr, v) && Present in flags
      modifies mem
      ensures Valid() && Confined(old(mem.tables), old(mem.free), mem.tables, mem.free, root, levels - 1)
      ensures ok <==> old(Missing(mem.tables, root, levels - 1, v)) <= |old(mem.free)|
      ensures ok ==> var x := Mapped(old(mem.tables), root, levels - 1, v, entry, flags);
        Changed(old(mem.tables), mem.tables, root, levels - 1, v, x, old(mem.free))
      ensures !ok ==> SameXlate(old(mem.tables), mem.tables, root, levels - 1)
    {
      ghost var m0, free0 := mem.tables, mem.free;
      var p := EnsurePath(addr, flags, v);
      if p.None? {
        return false;
      }
      ghost var m := mem.tables;
      ghost var x := Mapped(m0, root, levels - 1, v, entry, flags);
      SetLastLevel(p.value.0, p.value.1, v, entry);
      ChangedSince(m0, free0, m, mem.free, mem.tables, root, levels - 1, v, x);
      ok := true;
    }

    /** The loop of `map_phys` up to its last-level table: missing tables are allocated on the way. */
    method EnsurePath(addr: nat, flags: Flags, ghost v: Path) returns (r: Option<(PageTable, nat)>)
      requires Valid() && Walking(RootTable(), addr, v) && Present in flags
      modifies mem
      ensures Valid() && Confined(old(mem.tables), old(mem.free), mem.tables, mem.free, root, levels - 1)
      ensures SameXlate(old(mem.tables), mem.tables, root, levels - 1)
      ensures r.Some? <==> old(Missing(mem.tables, root, levels - 1, v)) <= |old(mem.free)|
      ensures r.Some? ==> Walking(r.value.0, addr, v) && r.value.0.level == 0 && r.value.1 == Index(v, 0)
      ensures r.Some? ==> IsTable(mem.tables, r.value.0.phys)
      ensures r.Some? ==>
        FlagsAbove(mem.tables, root, levels - 1, v, 0) ==
        FlagsAbove(old(mem.tables), root, levels - 1, v, 0) +
        Repeat(flags, old(Missing(mem.tables, root, levels - 1, v)))
    {
      ghost var m0, free0 := mem.tables, mem.free;
      var table := RootTable();
      ghost var n: nat := 0;
      NothingGrown(m0, free0, mem.tables, mem.free, root, levels - 1, v, flags, n);
      while true
        invariant Valid() && Walking(table, addr, v)
        invariant Grown(m0, free0, mem.tables, mem.free, root, levels - 1, v, flags, n)
        invariant Missing(mem.tables, table.phys, table.level, v) + n == Missing(m0, root, levels - 1, v)
        decreases table.level
      {
        var i := FindIndex(table, addr, v);
        if i.None? {
          return None;
        }
        if table.level == 0 {
          return Some((table, i.value));
        }
        ghost var m1, free1 := mem.tables, mem.free;
        var next;
        ghost var made;
        next, made := NextOrNewTable(table, i.value, addr, flags, v);
        ghost var all := n + made;
        GrownTwice(m0, free0, m1, free1, mem.tables, mem.free, root, levels - 1, v, flags, n, made, all);
        if next.None? {
          return None;
        }
        n, table := all, next.value;
      }
    }

    /** `index_of` on the way down finds the entry on the path. */
    method FindIndex(table: PageTable, addr: nat, ghost v: Path) returns (i: Option<nat>)
      requires Valid() && Walking(table, addr, v)
      ensures i == Some(Index(v, table.level)) && IsTable(mem.tables, table.phys)
    {
      WalkFacts(table, addr, v);
      i := IndexOf(table, addr, levels);
    }

    /** One step down: into the next table, or into a new empty one. */
    method NextOrNewTable(
        table: PageTable, i: nat, addr: nat, flags: Flags, ghost v: Path)
        returns (r: Option<PageTable>, ghost made: nat)
      requires Present in flags && Valid() && Walking(table, addr, v) && IsTable(mem.tables, table.phys)
      requires table.level > 0 && i == Index(v, table.level)
      modifies mem
      ensures Valid() && Grown(old(mem.tables), old(mem.free), mem.tables, mem.free, root, levels - 1, v, flags, made)
      ensures r.None? ==> mem.free == {} && old(Missing(mem.tables, table.phys, table.level, v)) > 0 && made == 0
      ensures r.Some? ==> Walking(r.value, addr, v) && r.value.level == table.level - 1
      ensures r.Some? ==>
        Missing(mem.tables, r.value.phys, r.value.level, v) + made ==
        old(Missing(mem.tables, table.phys, table.level, v))
    {
      made := 0;
      r := Descend(table, i, addr, v);
      if r.None? {
        var e;
        e, made := GrowPath(table, i, flags, v);
        if e.None? {
          return None, made;
        }
        r := Descend(table, i, addr, v);
      } else {
        NothingGrown(mem.tables, mem.free, mem.tables, mem.free, root, levels - 1, v, flags, made);
      }
    }

    /** `next_level_table` on the way down. */
    method Descend(table: PageTable, i: nat, addr: nat, ghost v: Path) returns (r: Option<PageTable>)
      requires Valid() && Walking(table, addr, v) && IsTable(mem.tables, table.phys) && table.level > 0
      requires i == Index(v, table.level)
      ensures r.Some? <==> IsPresent(mem.tables[table.phys][i])
      ensures r.Some? ==>
        Walking(r.value, addr, v) && r.value.level == table.level - 1 && r.value.phys == mem.tables[table.phys][i].frame
    {
      WalkFacts(table, addr, v);
      r := mem.NextLevelTable(table, i);
    }

    /** The allocating branch of `map_phys`: an empty table one level down. */
    method GrowPath(table: PageTable, i: nat, flags: Flags, ghost v: Path)
        returns (e: Option<Entry>, ghost made: nat)
      requires Present in flags && Valid() && OnPath(mem.tables, root, levels - 1, v, table.level, table.phys)
      requires table.level > 0 && i == Index(v, table.level)
      requires IsTable(mem.tables, table.phys) && !IsPresent(mem.tables[table.phys][i])
      modifies mem
      ensures Valid() && Grown(old(mem.tables), old(mem.free), mem.tables, mem.free, root, levels - 1, v, flags, made)
      ensures e.None? ==> old(mem.free) == {} && mem.free == {} && made == 0
      ensures e.Some? ==>
        made == 1 && IsPresent(e.value) && OnPath(mem.tables, root, levels - 1, v, table.level, table.phys)
      ensures e.Some? ==> IsTable(mem.tables, table.phys) && mem.tables[table.phys][i] == e.value
      ensures e.Some? ==> Missing(mem.tables, e.value.frame, table.level - 1, v) == table.level - 1
    {
      ghost var m, free, level := mem.tables, mem.free, levels - 1;
      TableNotFree(m, root, level, v, table.level, table.phys, free);
      e := mem.NewTableAt(table, i, flags);
      ghost var m', free' := mem.tables, mem.free;
      made := if e.Some? then 1 else 0;
      if e.Some? {
        NewOnPath(m, m', root, level, v, table.level, table.phys, e.value, free, free', flags, made);
      } else {
        NothingGrown(m, free, m', free', root, level, v, flags, made);
      }
      assert Tree(m', root, level, free') && Grown(m, free, m', free', root, level, v, flags, made);
    }

    /** Writing the entry of the page in its last-level table. */
    method SetLastLevel(table: PageTable, i: nat, ghost v: Path, entry: Entry)
      requires Valid() && OnPath(mem.tables, root, levels - 1, v, 0, table.phys) && IsTable(mem.tables, table.phys)
      requires i == Index(v, 0)
      modifies mem`tables
      ensures Valid() && Frames() <= old(Frames()) && Outside(old(mem.tables), mem.tables, old(Frames()))
      ensures var above := FlagsAbove(old(mem.tables), root, levels - 1, v, 0);
        var x := if IsPresent(entry) then Some(Mapping(entry, above)) else None;
        Changed(old(mem.tables), mem.tables, root, levels - 1, v, x, {})
    {
      ghost var m := mem.tables;
      ghost var x := if IsPresent(entry) then Some(Mapping(entry, [])) else None;
      mem.SetEntry(table, i, entry);
      SetLeaf(m, mem.tables, table.phys, v, entry);
      PathReach(m, root, levels - 1, v, 0, table.phys);
      Lift(m, mem.tables, root, levels - 1, v, 0, table.phys, x, {});
      ghost var above := FlagsAbove(m, root, levels - 1, v, 0);
      assert above + [] == above;
    }

    /** `remap`: new flags for the entry of the page, whose frame stays; fails only where a table is missing. */
    method Remap(virt: nat, flags: Flags) returns (r: Option<Entry>)
      requires Valid()
      modifies mem
      ensures Valid() && mem.free == old(mem.free) && Outside(old(mem.tables), mem.tables, old(Frames()))
      ensures r.None? <==> old(Missing(mem.tables, root, levels - 1, BitsOf(virt, levels))) > 0
      ensures r.None? ==> mem.tables == old(mem.tables)
      ensures r.Some? ==> r.value.flags == flags
      ensures r.Some? && old(At(virt)).Some? ==> r.value.frame == old(At(virt)).value.leaf.frame
      ensures r.Some? ==> var v := BitsOf(virt, levels);
        var above := FlagsAbove(old(mem.tables), root, levels - 1, v, 0);
        var x := if Present in flags then Some(Mapping(r.value, above)) else None;
        && Changed(old(mem.tables), mem.tables, root, levels - 1, v, x, {})
        && PageNow(old(mem.tables), mem.tables, root, levels, virt, x)
    {
      StartWalk(virt);
      r := RemapAt(virt, flags, BitsOf(virt, levels));
      if r.Some? {
        ghost var above := FlagsAbove(old(mem.tables), root, levels - 1, BitsOf(virt, levels), 0);
        ghost var x := if Present in flags then Some(Mapping(r.value, above)) else None;
        ChangedPage(old(mem.tables), mem.tables, root, levels, virt, x, {});
      }
    }

    method RemapAt(virt: nat, flags: Flags, ghost v: Path) returns (r: Option<Entry>)
      requires Valid() && Walking(RootTable(), virt, v)
      modifies mem
      ensures Valid() && mem.free == old(mem.free) && Outside(old(mem.tables), mem.tables, old(Frames()))
      ensures r.None? <==> old(Missing(mem.tables, root, levels - 1, v)) > 0
      ensures r.None? ==> mem.tables == old(mem.tables)
      ensures r.Some? ==> r.value.flags == flags
      ensures r.Some? && old(Flat(v)).Some? ==> r.value.frame == old(Flat(v)).value.leaf.frame
      ensures r.Some? ==> var above := FlagsAbove(old(mem.tables), root, levels - 1, v, 0);
        var x := if Present in flags then Some(Mapping(r.value, above)) else None;
        Changed(old(mem.tables), mem.tables, root, levels - 1, v, x, {})
    {
      var p := Visit(virt, v);
      if p.None? {
        return None;
      }
      WalkFacts(p.value.0, virt, v);
      var entry := mem.tables[p.value.0.phys][p.value.1].(flags := flags);
      SetLastLevel(p.value.0, p.value.1, v, entry);
      r := Some(entry);
    }

    /** `unmap_phys`: the page loses its translation, no other page does; subtables left without a present entry are
        freed when `unmapParents` holds, and no freed frame is reachable any more. */
    method UnmapPhys(virt: nat, unmapParents: bool) returns (r: Option<(Frame, Flags)>)
      requires Valid()
      modifies mem
      ensures Valid() && Outside(old(mem.tables), mem.tables, old(Frames()))
      ensures virt % PAGE_SIZE != 0 ==> r.None? && mem.tables == old(mem.tables) && mem.free == old(mem.free)
      ensures virt % PAGE_SIZE == 0 ==>
        && Changed(old(mem.tables), mem.tables, root, levels - 1, BitsOf(virt, levels), None, {})
        && PageNow(old(mem.tables), mem.tables, root, levels, virt, None)
        && r == FrameAndFlags(old(At(virt)))
      ensures Freed(old(mem.tables), old(mem.free), mem.tables, mem.free, root, levels - 1)
      ensures !unmapParents ==> mem.free == old(mem.free)
      ensures unmapParents && r.Some? ==> PathUsed(mem.tables, root, levels - 1, BitsOf(virt, levels))
    {
      if virt % PAGE_SIZE != 0 {
        return None;
      }
      StartWalk(virt);
      r := UnmapInner(virt, RootTable(), unmapParents, BitsOf(virt, levels));
      ChangedPage(old(mem.tables), mem.tables, root, levels, virt, None, {});
    }

    /** `unmap_phys_inner`, on the tables from `table` down. */
    method UnmapInner(
        virt: nat, table: PageTable, unmapParents: bool, ghost v: Path)
        returns (r: Option<(Frame, Flags)>)
      requires Tree(mem.tables, table.phys, table.level, mem.free) && Covers(table, virt, levels, v)
      modifies mem
      ensures Tree(mem.tables, table.phys, table.level, mem.free)
      ensures Changed(old(mem.tables), mem.tables, table.phys, table.level, v, None, {})
      ensures Outside(old(mem.tables), mem.tables, Reach(old(mem.tables), table.phys, table.level))
      ensures r == FrameAndFlags(Xlate(old(mem.tables), table.phys, table.level, v))
      ensures Freed(old(mem.tables), old(mem.free), mem.tables, mem.free, table.phys, table.level)
      ensures !unmapParents ==> mem.free == old(mem.free)
      ensures unmapParents && r.Some? ==> PathUsed(mem.tables, table.phys, table.level, v)
      decreases table.level
    {
      ghost var m, free := mem.tables, mem.free;
      var i := IndexOf(table, virt, levels).value;
      if table.level == 0 {
        var entry := mem.tables[table.phys][i];
        mem.SetEntry(table, i, ZERO);
        SetLeaf(m, mem.tables, table.phys, v, ZERO);
        return if IsPresent(entry) then Some((entry.frame, entry.flags)) else None;
      }
      var subtable := mem.NextLevelTable(table, i);
      if subtable.None? {
        Unchanged(m, table.phys, table.level, v);
        return None;
      }
      CoversAnyFrame(PageTable(EntryBase(table, i).value, 0, table.level - 1), virt, levels, v, subtable.value.phys);
      SubTree(m, table.phys, table.level, free, i);
      r := UnmapInner(virt, subtable.value, unmapParents, v);
      UnmapLift(m, free, mem.tables, mem.free, table.phys, table.level, v);
      if r.None? {
        return;
      }
      if unmapParents {
        var any := AnyPresent(subtable.value);
        if !any {
          ghost var m1, free1 := mem.tables, mem.free;
          mem.SetEntry(table, i, ZERO);
          mem.free := mem.free + {subtable.value.phys};
          UnmapDrop(m, free, m1, free1, mem.tables, mem.free, table.phys, table.level, v);
        }
      }
    }

    /** Whether a table has a present entry. */
    method AnyPresent(table: PageTable) returns (any: bool)
      requires IsTable(mem.tables, table.phys)
      ensures any <==> exists k :: 0 <= k < ENTRY_NUM && IsPresent(mem.tables[table.phys][k])
    {
      any := false;
      var k := 0;
      while k < ENTRY_NUM && !any
        invariant 0 <= k <= ENTRY_NUM
        invariant any <==> exists j :: 0 <= j < k && IsPresent(mem.tables[table.phys][j])
      {
        any := IsPresent(mem.tables[table.phys][k]);
        k := k + 1;
      }
    }
  }

  lemma {:induction false} MissingXlate(m: Memory, f: Frame, level: nat, v: Path)
    ensures Missing(m, f, level, v) > 0 ==> Xlate(m, f, level, v) == None
    decreases level
  {
    if level > 0 && IsTable(m, f) && IsPresent(m[f][Index(v, level)]) {
      MissingXlate(m, m[f][Index(v, level)].frame, level - 1, v);
    }
  }
}
