/**
  The buddy pool for memory-mapped I/O of kernel/src/mm/mmio_buddy.rs: per-size free lists of
  power-of-two blocks, split on demand and given back on release.
 */
module MmioBuddy {
  import opened Arith

  const MIN_EXP := 12
  const MAX_EXP := 30
  const REGION_COUNT := MAX_EXP - MIN_EXP + 1
  const PAGE_4K_SIZE := 0x1000
  const PAGE_1G_SIZE := 0x4000_0000

  datatype Block = Block(addr: nat, exp: nat)

  /** `Stuck`: the request waits for a lock that it already holds. */
  datatype Result<T> = Ok(value: T) | NotPermitted | NoMemory | Stuck | Invalid | TryAgain | Panic

  lemma {:induction false} Pow2Values()
    ensures Pow2(12) == PAGE_4K_SIZE && Pow2(30) == PAGE_1G_SIZE
  {
    assert Pow2(6) == 64;
    assert Pow2(12) == 64 * Pow2(6);
    assert Pow2(18) == 64 * Pow2(12);
    assert Pow2(24) == 64 * Pow2(18);
    assert Pow2(30) == 64 * Pow2(24);
  }

  // ---------- coverage ----------

  predicate Covers(b: Block, x: nat) { b.addr <= x < b.addr + Pow2(b.exp) }

  /** How many blocks cover an address. */
  ghost function Cover(bs: seq<Block>, x: nat): nat {
    if bs == [] then 0 else Cover(bs[..|bs| - 1], x) + Bit(Covers(bs[|bs| - 1], x))
  }

  /** The blocks of one free list. */
  function BlocksOf(l: seq<nat>, exp: nat): (bs: seq<Block>)
    ensures |bs| == |l|
  {
    seq(|l|, k requires 0 <= k < |l| => Block(l[k], exp))
  }

  /** All free blocks, smallest first. */
  function FreeBlocks(lists: seq<seq<nat>>): seq<Block> {
    if lists == [] then [] else FreeBlocks(lists[..|lists| - 1]) + BlocksOf(lists[|lists| - 1], MIN_EXP + |lists| - 1)
  }

  lemma {:induction false} CoverConcat(bs: seq<Block>, cs: seq<Block>, x: nat)
    ensures Cover(bs + cs, x) == Cover(bs, x) + Cover(cs, x)
  {
    if cs == [] {
      assert bs + cs == bs;
    } else {
      assert (bs + cs)[..|bs + cs| - 1] == bs + cs[..|cs| - 1];
      CoverConcat(bs, cs[..|cs| - 1], x);
    }
  }

  lemma {:induction false} CoverOne(b: Block, x: nat)
    ensures Cover([b], x) == Bit(Covers(b, x))
  {
    assert [b][..0] == [];
  }

  /** A block that is there covers what it covers. */
  lemma {:induction false} CoverAt(bs: seq<Block>, i: nat, x: nat)
    requires i < |bs|
    ensures Cover(bs, x) == Cover(bs[..i] + bs[i + 1..], x) + Bit(Covers(bs[i], x))
  {
    assert bs == bs[..i] + [bs[i]] + bs[i + 1..];
    CoverConcat(bs[..i] + [bs[i]], bs[i + 1..], x);
    CoverConcat(bs[..i], [bs[i]], x);
    CoverConcat(bs[..i], bs[i + 1..], x);
    CoverOne(bs[i], x);
  }

  lemma {:induction false} CoverTwo(bs: seq<Block>, i: nat, j: nat, x: nat)
    requires i < j < |bs| && Covers(bs[i], x) && Covers(bs[j], x)
    ensures Cover(bs, x) >= 2
  {
    CoverAt(bs, i, x);
    var cs := bs[..i] + bs[i + 1..];
    assert cs[j - 1] == bs[j];
    CoverAt(cs, j - 1, x);
  }

  /** Replacing one list changes the coverage by the difference of the two lists. */
  lemma {:induction false} CoverLast(lists: seq<seq<nat>>, x: nat)
    requires lists != []
    ensures var n := |lists| - 1;
      Cover(FreeBlocks(lists), x) == Cover(FreeBlocks(lists[..n]), x) + Cover(BlocksOf(lists[n], MIN_EXP + n), x)
  {
    var n := |lists| - 1;
    CoverConcat(FreeBlocks(lists[..n]), BlocksOf(lists[n], MIN_EXP + n), x);
  }

  lemma {:induction false} CoverUpdate(lists: seq<seq<nat>>, i: nat, l: seq<nat>, x: nat)
    requires i < |lists|
    ensures Cover(FreeBlocks(lists[i := l]), x) + Cover(BlocksOf(lists[i], MIN_EXP + i), x)
         == Cover(FreeBlocks(lists), x) + Cover(BlocksOf(l, MIN_EXP + i), x)
  {
    var n := |lists| - 1;
    var ls := lists[i := l];
    CoverLast(lists, x);
    CoverLast(ls, x);
    if i < n {
      assert ls[..n] == lists[..n][i := l];
      CoverUpdate(lists[..n], i, l, x);
    } else {
      assert ls[..n] == lists[..n];
    }
  }

  function Pushed(lists: seq<seq<nat>>, i: nat, a: nat): (r: seq<seq<nat>>)
    requires i < |lists|
    ensures |r| == |lists|
  {
    lists[i := lists[i] + [a]]
  }

  function Popped(lists: seq<seq<nat>>, i: nat): (r: seq<seq<nat>>)
    requires i < |lists| && lists[i] != []
    ensures |r| == |lists|
  {
    lists[i := lists[i][..|lists[i]| - 1]]
  }

  lemma {:induction false} PushCover(lists: seq<seq<nat>>, i: nat, a: nat, x: nat)
    requires i < |lists|
    ensures Cover(FreeBlocks(Pushed(lists, i, a)), x) ==
      Cover(FreeBlocks(lists), x) + Bit(Covers(Block(a, MIN_EXP + i), x))
  {
    var l, e := lists[i], MIN_EXP + i;
    CoverUpdate(lists, i, l + [a], x);
    assert BlocksOf(l + [a], e) == BlocksOf(l, e) + [Block(a, e)];
    CoverConcat(BlocksOf(l, e), [Block(a, e)], x);
    CoverOne(Block(a, e), x);
  }

  lemma {:induction false} PopCover(lists: seq<seq<nat>>, i: nat, x: nat)
    requires i < |lists| && lists[i] != []
    ensures Cover(FreeBlocks(lists), x)
         == Cover(FreeBlocks(Popped(lists, i)), x) + Bit(Covers(Block(lists[i][|lists[i]| - 1], MIN_EXP + i), x))
  {
    var l := lists[i];
    var ls := Popped(lists, i);
    PushCover(ls, i, l[|l| - 1], x);
    assert Pushed(ls, i, l[|l| - 1]) == lists by { assert l == l[..|l| - 1] + [l[|l| - 1]]; }
  }

  // ---------- buddies ----------

  /** `vaddr ^ (1 << exp)` */
  function FlipBit(v: nat, exp: nat): nat {
    if (v / Pow2(exp)) % 2 == 1 then v - Pow2(exp) else v + Pow2(exp)
  }

  /** Exactly one bit changes, so that two buddies are buddies of each other. */
  lemma {:induction false} OneBitFlipped(v: nat, exp: nat)
    ensures var f := FlipBit(v, exp);
      && f % Pow2(exp) == v % Pow2(exp) && f / Pow2(exp) / 2 == v / Pow2(exp) / 2
      && (f / Pow2(exp)) % 2 != (v / Pow2(exp)) % 2 && FlipBit(f, exp) == v
  {
    var z, f := Pow2(exp), FlipBit(v, exp);
    var q, r := v / z, v % z;
    assert v == q * z + r;
    if q % 2 == 1 {
      assert f == (q - 1) * z + r;
      DivUnique(f, z, q - 1, r);
    } else {
      assert f == (q + 1) * z + r;
      DivUnique(f, z, q + 1, r);
    }
  }

  /** The buddy of the lower half of an aligned block is the upper half. */
  lemma {:induction false} UpperHalf(v: nat, exp: nat)
    requires v % Pow2(exp + 1) == 0
    ensures FlipBit(v, exp) == v + Pow2(exp) && v % Pow2(exp) == 0 && (v + Pow2(exp)) % Pow2(exp) == 0
  {
    var z := Pow2(exp);
    var k := v / (2 * z);
    assert v == (2 * k) * z;
    DivUnique(v, z, 2 * k, 0);
    assert v + z == (2 * k + 1) * z;
    DivUnique(v + z, z, 2 * k + 1, 0);
  }

  lemma {:induction false} HalvesCover(v: nat, exp: nat, x: nat)
    ensures Bit(Covers(Block(v, exp + 1), x)) ==
      Bit(Covers(Block(v, exp), x)) + Bit(Covers(Block(v + Pow2(exp), exp), x))
  {
    assert Pow2(exp + 1) == 2 * Pow2(exp);
  }

  /** Taking the last block of list `i + 1` apart and putting both halves into list `i`. */
  lemma {:induction false} SplitCover(lists: seq<seq<nat>>, i: nat, x: nat)
    requires i + 1 < |lists| && lists[i + 1] != []
    ensures var a := lists[i + 1][|lists[i + 1]| - 1];
      var ls := Pushed(Pushed(Popped(lists, i + 1), i, a), i, a + Pow2(MIN_EXP + i));
      Cover(FreeBlocks(ls), x) == Cover(FreeBlocks(lists), x)
  {
    var a := lists[i + 1][|lists[i + 1]| - 1];
    var ls := Popped(lists, i + 1);
    PopCover(lists, i + 1, x);
    PushCover(ls, i, a, x);
    PushCover(Pushed(ls, i, a), i, a + Pow2(MIN_EXP + i), x);
    HalvesCover(a, MIN_EXP + i, x);
  }

  // ---------- the pool ----------

  ghost predicate AllAligned(lists: seq<seq<nat>>) {
    && |lists| == REGION_COUNT
    && forall i, k :: 0 <= i < |lists| && 0 <= k < |lists[i]| ==> lists[i][k] % Pow2(MIN_EXP + i) == 0
  }

  ghost predicate LiveOk(live: seq<Block>) {
    forall k :: 0 <= k < |live| ==> MIN_EXP <= live[k].exp <= MAX_EXP && live[k].addr % Pow2(live[k].exp) == 0
  }

  /** Free and live blocks together cover every address of [lo, hi) once, and nothing else. */
  ghost predicate Tiles(lists: seq<seq<nat>>, live: seq<Block>, lo: nat, hi: nat) {
    forall x: nat :: Cover(FreeBlocks(lists) + live, x) == Bit(lo <= x < hi)
  }

  ghost predicate Inv(lists: seq<seq<nat>>, live: seq<Block>, lo: nat, hi: nat) {
    AllAligned(lists) && LiveOk(live) && Tiles(lists, live, lo, hi)
  }

  ghost predicate Disjoint(a: Block, b: Block) {
    a.addr + Pow2(a.exp) <= b.addr || b.addr + Pow2(b.exp) <= a.addr
  }

  /** No two blocks, free or live, share an address, and all of them lie in the seeded range. */
  lemma {:induction false} BlocksDisjoint(lists: seq<seq<nat>>, live: seq<Block>, lo: nat, hi: nat, i: nat, j: nat)
    requires Tiles(lists, live, lo, hi) && i < j < |FreeBlocks(lists) + live|
    ensures var bs := FreeBlocks(lists) + live;
      Disjoint(bs[i], bs[j]) && lo <= bs[i].addr && bs[i].addr + Pow2(bs[i].exp) <= hi
  {
    var bs := FreeBlocks(lists) + live;
    BlockInRange(lists, live, lo, hi, i);
    if !Disjoint(bs[i], bs[j]) {
      var x := if bs[i].addr < bs[j].addr then bs[j].addr else bs[i].addr;
      CoverTwo(bs, i, j, x);
      assert false;
    }
  }

  lemma {:induction false} BlockInRange(lists: seq<seq<nat>>, live: seq<Block>, lo: nat, hi: nat, i: nat)
    requires Tiles(lists, live, lo, hi) && i < |FreeBlocks(lists) + live|
    ensures var b := (FreeBlocks(lists) + live)[i]; lo <= b.addr && b.addr + Pow2(b.exp) <= hi
  {
    var bs := FreeBlocks(lists) + live;
    CoverAt(bs, i, bs[i].addr);
    CoverAt(bs, i, bs[i].addr + Pow2(bs[i].exp) - 1);
  }

  lemma {:induction false} SameCoverTiles(
      lists: seq<seq<nat>>, lists': seq<seq<nat>>, live: seq<Block>, lo: nat, hi: nat)
    requires Tiles(lists, live, lo, hi) && forall x :: Cover(FreeBlocks(lists'), x) == Cover(FreeBlocks(lists), x)
    ensures Tiles(lists', live, lo, hi)
  {
    forall x: nat ensures Cover(FreeBlocks(lists') + live, x) == Bit(lo <= x < hi) {
      CoverConcat(FreeBlocks(lists), live, x);
      CoverConcat(FreeBlocks(lists'), live, x);
    }
  }

  /** The last block of list `i` becomes live. */
  lemma {:induction false} TakeTiles(lists: seq<seq<nat>>, live: seq<Block>, lo: nat, hi: nat, i: nat)
    requires Inv(lists, live, lo, hi) && i < |lists| && lists[i] != []
    ensures Inv(Popped(lists, i), live + [Block(lists[i][|lists[i]| - 1], MIN_EXP + i)], lo, hi)
  {
    var b := Block(lists[i][|lists[i]| - 1], MIN_EXP + i);
    var ls := Popped(lists, i);
    forall x: nat ensures Cover(FreeBlocks(ls) + (live + [b]), x) == Bit(lo <= x < hi) {
      CoverConcat(FreeBlocks(lists), live, x);
      CoverConcat(FreeBlocks(ls), live + [b], x);
      CoverConcat(live, [b], x);
      CoverOne(b, x);
      PopCover(lists, i, x);
    }
  }

  /** Live block `k` becomes free again. */
  lemma {:induction false} GiveTiles(lists: seq<seq<nat>>, live: seq<Block>, lo: nat, hi: nat, k: nat)
    requires Inv(lists, live, lo, hi) && k < |live|
    ensures Inv(Pushed(lists, live[k].exp - MIN_EXP, live[k].addr), live[..k] + live[k + 1..], lo, hi)
  {
    var b, rest := live[k], live[..k] + live[k + 1..];
    var ls := Pushed(lists, b.exp - MIN_EXP, b.addr);
    PushAligned(lists, b.exp - MIN_EXP, b.addr);
    forall x: nat ensures Cover(FreeBlocks(ls) + rest, x) == Bit(lo <= x < hi) {
      CoverConcat(FreeBlocks(lists), live, x);
      CoverConcat(FreeBlocks(ls), rest, x);
      CoverAt(live, k, x);
      PushCover(lists, b.exp - MIN_EXP, b.addr, x);
    }
  }

  // ---------- seeding ----------

  /** `v & (1 << s) != 0` */
  predicate HasBit(v: nat, s: nat) { (v / Pow2(s)) % 2 == 1 }

  /** Bit `s` of a number whose part below bit `s + 1` is `low`. */
  lemma {:induction false} TopBit(low: nat, k: nat, s: nat)
    requires low < 2 * Pow2(s)
    ensures HasBit(low + k * (2 * Pow2(s)), s) <==> low >= Pow2(s)
  {
    var z, b := Pow2(s), if low >= Pow2(s) then 1 else 0;
    assert low + k * (2 * z) == (b + 2 * k) * z + (low - b * z) by {
      assert (b + 2 * k) * z == b * z + k * (2 * z);
    }
    DivUnique(low + k * (2 * z), z, b + 2 * k, low - b * z);
  }

  /** A multiple of 2^t is one of 2^s for smaller s, and stays one when 2^s is added. */
  lemma {:induction false} Multiple(v: nat, s: nat, t: nat)
    requires s <= t && v % Pow2(t) == 0
    ensures v % Pow2(s) == 0 && (v + Pow2(s)) % Pow2(s) == 0
  {
    Pow2Add(s, t - s);
    var z, j := Pow2(s), v / Pow2(t) * Pow2(t - s);
    assert v == v / Pow2(t) * Pow2(t);
    assert v == j * z by { assert v / Pow2(t) * (z * Pow2(t - s)) == (v / Pow2(t) * Pow2(t - s)) * z; }
    DivUnique(v, z, j, 0);
    assert v + z == (j + 1) * z;
    DivUnique(v + z, z, j + 1, 0);
  }

  /** `low` is the part of a number below bit `s + 1`. */
  ghost predicate LowPart(v: nat, low: nat, k: nat, s: nat) {
    low < 2 * Pow2(s) && v == low + k * (2 * Pow2(s))
  }

  lemma {:induction false} NextLowPart(v: nat, low: nat, k: nat, s: nat)
    requires LowPart(v, low, k, s) && s > 0
    ensures if HasBit(v, s) then low >= Pow2(s) && v >= Pow2(s) && LowPart(v - Pow2(s), low - Pow2(s), 2 * k, s - 1)
            else LowPart(v, low, 2 * k, s - 1)
  {
    TopBit(low, k, s);
    assert k * (2 * Pow2(s)) == (2 * k) * (2 * Pow2(s - 1)) && k * (2 * Pow2(s)) >= 0;
  }

  /** The place where bit `s` would go. */
  ghost predicate Reached(base: nat, size: nat, vaddr: nat, low: nat, s: int) {
    && MIN_EXP - 1 <= s <= MAX_EXP && base <= vaddr && vaddr + low == base + size % (2 * PAGE_1G_SIZE)
    && vaddr % Pow2(if s == MAX_EXP then MAX_EXP else s + 1) == 0
  }

  /** Before bit `s` is looked at: the higher bits of the size are covered, `low` is the rest of bits 0 to 30. */
  ghost predicate Seeding(
      lists: seq<seq<nat>>, base: nat, size: nat, vaddr: nat, remain: nat, s: int, low: nat, k: nat)
  {
    Reached(base, size, vaddr, low, s) && Inv(lists, [], base, vaddr) && LowPart(remain, low, k, s)
  }

  lemma {:induction false} SeedingStart(base: nat, size: nat)
    requires base % PAGE_1G_SIZE == 0
    ensures var low, k := size % (2 * PAGE_1G_SIZE), size / (2 * PAGE_1G_SIZE);
      Seeding(seq(REGION_COUNT, _ => []), base, size, base, size, MAX_EXP, low, k)
  {
    var lists: seq<seq<nat>> := seq(REGION_COUNT, _ => []);
    Pow2Values();
    NoBlocks(lists);
    forall x: nat ensures Cover(FreeBlocks(lists) + [], x) == 0 {
      assert FreeBlocks(lists) + [] == [];
    }
  }

  lemma {:induction false} NoBlocks(lists: seq<seq<nat>>)
    requires forall i :: 0 <= i < |lists| ==> lists[i] == []
    ensures FreeBlocks(lists) == []
  {
    if lists != [] { NoBlocks(lists[..|lists| - 1]); }
  }

  lemma {:induction false} SeedingSkip(
      lists: seq<seq<nat>>, base: nat, size: nat, vaddr: nat, remain: nat, s: nat, low: nat, k: nat)
    requires Seeding(lists, base, size, vaddr, remain, s, low, k) && MIN_EXP <= s && !HasBit(remain, s)
    ensures Seeding(lists, base, size, vaddr, remain, s - 1, low, 2 * k)
  {
    NextLowPart(remain, low, k, s);
    Multiple(vaddr, s, if s == MAX_EXP then MAX_EXP else s + 1);
  }

  lemma {:induction false} SeedingTake(
      lists: seq<seq<nat>>, base: nat, size: nat, vaddr: nat, remain: nat, s: nat, low: nat, k: nat)
    requires Seeding(lists, base, size, vaddr, remain, s, low, k) && MIN_EXP <= s && HasBit(remain, s)
    ensures vaddr % Pow2(s) == 0 && remain >= Pow2(s) && low >= Pow2(s)
    ensures var ls := Pushed(lists, s - MIN_EXP, vaddr);
      Seeding(ls, base, size, vaddr + Pow2(s), remain - Pow2(s), s - 1, low - Pow2(s), 2 * k)
  {
    NextLowPart(remain, low, k, s);
    Multiple(vaddr, s, if s == MAX_EXP then MAX_EXP else s + 1);
    SeedTiles(lists, base, vaddr, s);
  }

  /** A new block right behind the range. */
  lemma {:induction false} SeedTiles(lists: seq<seq<nat>>, base: nat, vaddr: nat, s: nat)
    requires Inv(lists, [], base, vaddr) && MIN_EXP <= s <= MAX_EXP && vaddr % Pow2(s) == 0 && base <= vaddr
    ensures Inv(Pushed(lists, s - MIN_EXP, vaddr), [], base, vaddr + Pow2(s))
  {
    var ls := Pushed(lists, s - MIN_EXP, vaddr);
    PushAligned(lists, s - MIN_EXP, vaddr);
    forall x: nat ensures Cover(FreeBlocks(ls) + [], x) == Bit(base <= x < vaddr + Pow2(s)) {
      assert FreeBlocks(ls) + [] == FreeBlocks(ls) && FreeBlocks(lists) + [] == FreeBlocks(lists);
      PushCover(lists, s - MIN_EXP, vaddr, x);
    }
  }

  lemma {:induction false} SeedingEnd(
      lists: seq<seq<nat>>, base: nat, size: nat, vaddr: nat, remain: nat, low: nat, k: nat)
    requires Seeding(lists, base, size, vaddr, remain, MIN_EXP - 1, low, k) && base % PAGE_1G_SIZE == 0
    ensures vaddr == base + Seeded(size)
  {
    Pow2Values();
    assert 2 * Pow2(11) == Pow2(12);
    WholePages(base, vaddr, size % (2 * PAGE_1G_SIZE), low);
  }

  lemma {:induction false} WholePages(base: nat, vaddr: nat, m: nat, low: nat)
    requires base % PAGE_1G_SIZE == 0 && vaddr % PAGE_4K_SIZE == 0 && base <= vaddr && vaddr + low == base + m
    requires low < PAGE_4K_SIZE
    ensures vaddr == base + m / PAGE_4K_SIZE * PAGE_4K_SIZE
  {
  }

  /** The lists above bit `s` have one block for each bit of the size, the others none. */
  ghost predicate OnePerBit(lists: seq<seq<nat>>, size: nat, s: int) {
    && |lists| == REGION_COUNT
    && forall i :: 0 <= i < REGION_COUNT ==> |lists[i]| == if MIN_EXP + i > s then Bit(HasBit(size, MIN_EXP + i)) else 0
  }

  /** The bit that is looked at is the bit of the whole size, and it goes into its list. */
  lemma {:induction false} BitSeeded(
      lists: seq<seq<nat>>, size: nat, vaddr: nat, remain: nat, s: nat, low: nat, k: nat, j: nat)
    requires OnePerBit(lists, size, s) && MIN_EXP <= s <= MAX_EXP
    requires LowPart(remain, low, k, s) && LowPart(size, low, j, s)
    ensures HasBit(remain, s) <==> HasBit(size, s)
    ensures OnePerBit(if HasBit(remain, s) then Pushed(lists, s - MIN_EXP, vaddr) else lists, size, s - 1)
  {
    TopBit(low, k, s);
    TopBit(low, j, s);
  }

  lemma {:induction false} SizeLowPart(v: nat, low: nat, j: nat, s: nat)
    requires LowPart(v, low, j, s) && s > 0
    ensures if low >= Pow2(s) then LowPart(v, low - Pow2(s), 2 * j + 1, s - 1) else LowPart(v, low, 2 * j, s - 1)
  {
    assert j * (2 * Pow2(s)) == (2 * j) * (2 * Pow2(s - 1));
    assert (2 * j + 1) * (2 * Pow2(s - 1)) == (2 * j) * (2 * Pow2(s - 1)) + Pow2(s);
  }

  /** Bits 12 to 30 of a size. */
  function Seeded(size: nat): nat { size % (2 * PAGE_1G_SIZE) / PAGE_4K_SIZE * PAGE_4K_SIZE }

  /** Each address of the range that the size stands for, cut to whole pages below 2 GiB, is in one free block. */
  ghost predicate SeededCover(lists: seq<seq<nat>>, start: nat, size: nat) {
    forall x: nat :: Cover(FreeBlocks(lists), x) ==
      Bit(start <= x && x + size % PAGE_4K_SIZE < start + size % (2 * PAGE_1G_SIZE))
  }

  lemma {:induction false} SeededCovers(lists: seq<seq<nat>>, start: nat, size: nat)
    requires start % PAGE_1G_SIZE == 0 && Tiles(lists, [], start, start + Seeded(size))
    ensures SeededCover(lists, start, size)
  {
    assert FreeBlocks(lists) + [] == FreeBlocks(lists);
    assert Seeded(size) + size % PAGE_4K_SIZE == size % (2 * PAGE_1G_SIZE);
  }

  // ---------- requests ----------

  /** 63 - size.leading_zeros() */
  function Log2(size: nat): (e: nat)
    requires size > 0
    ensures Pow2(e) <= size < Pow2(e + 1)
  {
    if size == 1 then 0 else Log2(size / 2) + 1
  }

  function TrailingZeros(n: nat): nat
    requires n > 0
  {
    if n % 2 == 1 then 0 else 1 + TrailingZeros(n / 2)
  }

  /** The number is an odd multiple of that power of two. */
  lemma {:induction false} ZerosExact(n: nat) returns (q: nat)
    requires n > 0
    ensures n == (2 * q + 1) * Pow2(TrailingZeros(n))
  {
    if n % 2 == 1 {
      q := n / 2;
    } else {
      q := ZerosExact(n / 2);
      assert n == 2 * ((2 * q + 1) * Pow2(TrailingZeros(n / 2)));
    }
  }

  lemma {:induction false} PowerZeros(e: nat)
    ensures TrailingZeros(Pow2(e)) == e
  {
    if e > 0 { PowerZeros(e - 1); }
  }

  /** The smallest block exponent, at least 12, that holds `size` bytes. */
  ghost predicate Fits(size: nat, exp: nat) {
    exp >= MIN_EXP && size <= Pow2(exp) && (exp > MIN_EXP ==> size > Pow2(exp - 1))
  }

  lemma {:induction false} LogBound(size: nat)
    requires 0 < size <= PAGE_1G_SIZE
    ensures Log2(size) < MAX_EXP || (Log2(size) == MAX_EXP && size == Pow2(MAX_EXP))
    ensures Log2(size) < MIN_EXP ==> size <= PAGE_4K_SIZE
  {
    Pow2Values();
    var e := Log2(size);
    if e > MAX_EXP { Pow2Mono(MAX_EXP + 1, e); }
    if e < MIN_EXP { Pow2Mono(e + 1, MIN_EXP); }
  }

  /** The exponent and the size that `create_mmio` asks for. */
  function Rounded(size: nat): (r: (nat, nat))
    requires 0 < size <= PAGE_1G_SIZE
    ensures Fits(size, r.0) && r.0 <= MAX_EXP && r.1 == Pow2(r.0)
  {
    var e := Log2(size);
    LogBound(size);
    Pow2Values();
    if e < MIN_EXP then (MIN_EXP, PAGE_4K_SIZE)
    else if size != Pow2(e) then (e + 1, Pow2(e + 1))
    else (e, size)
  }

  /** The blocks of list `i` hold `size` bytes. */
  predicate BigEnough(i: nat, size: nat) { size <= Pow2(MIN_EXP + i) }

  /** The blocks that are large enough are those of the exponent that fits, and of the larger ones. */
  lemma {:induction false} FitsLeast(size: nat, exp: nat, e: nat)
    requires Fits(size, exp) && e >= MIN_EXP
    ensures size <= Pow2(e) <==> exp <= e
  {
    if exp <= e { Pow2Mono(exp, e); } else { Pow2Mono(e, exp - 1); }
  }

  class MmioBuddyMemPool {
    const start: nat
    const size: nat
    var lists: seq<seq<nat>>
    /** The blocks that have been handed out. */
    ghost var live: seq<Block>

    /**
      `new`: the pool starts with one free block for each of bits 12 to 30 of its size, laid out
      from the start address on.
     */
    constructor (start: nat, size: nat)
      requires start % PAGE_1G_SIZE == 0
      ensures Valid() && this.start == start && this.size == size && live == []
      ensures forall i :: 0 <= i < REGION_COUNT ==> |lists[i]| == Bit(HasBit(size, MIN_EXP + i))
      ensures SeededCover(lists, start, size)
    {
      this.start, this.size := start, size;
      live := [];
      lists := seq(REGION_COUNT, _ => []);
      new;
      SeedingStart(start, size);
      var vaddr: nat, remain: nat := start, size;
      ghost var low: nat, k: nat := size % (2 * PAGE_1G_SIZE), size / (2 * PAGE_1G_SIZE);
      ghost var j: nat := k;
      var shift := MAX_EXP;
      while shift >= MIN_EXP
        invariant Seeding(lists, start, size, vaddr, remain, shift, low, k)
        invariant OnePerBit(lists, size, shift) && LowPart(size, low, j, shift)
        invariant this.start == start && this.size == size && live == []
      {
        vaddr, remain, low, j := SeedBit(vaddr, remain, shift, low, k, j);
        k := 2 * k;
        shift := shift - 1;
      }
      SeedingEnd(lists, start, size, vaddr, remain, low, k);
      SeededCovers(lists, start, size);
    }

    /** One round of the loop of `new`. */
    method SeedBit(vaddr: nat, remain: nat, shift: nat, ghost low: nat, ghost k: nat, ghost j: nat)
      returns (vaddr': nat, remain': nat, ghost low': nat, ghost j': nat)
      requires MIN_EXP <= shift <= MAX_EXP && Seeding(lists, start, size, vaddr, remain, shift, low, k)
      requires OnePerBit(lists, size, shift) && LowPart(size, low, j, shift)
      modifies `lists
      ensures Seeding(lists, start, size, vaddr', remain', shift - 1, low', 2 * k)
      ensures OnePerBit(lists, size, shift - 1) && LowPart(size, low', j', shift - 1)
    {
      BitSeeded(lists, size, vaddr, remain, shift, low, k, j);
      SizeLowPart(size, low, j, shift);
      TopBit(low, k, shift);
      if HasBit(remain, shift) {
        SeedingTake(lists, start, size, vaddr, remain, shift, low, k);
        var ok := GiveBackBlock(vaddr, shift);
        return vaddr + Pow2(shift), remain - Pow2(shift), low - Pow2(shift), 2 * j + 1;
      } else {
        SeedingSkip(lists, start, size, vaddr, remain, shift, low, k);
        return vaddr, remain, low, 2 * j;
      }
    }

    ghost predicate Valid()
      reads this
    {
      Inv(lists, live, start, start + Seeded(size))
    }

    /** `give_back_block` */
    method GiveBackBlock(vaddr: nat, exp: nat) returns (ok: bool)
      requires |lists| == REGION_COUNT && MIN_EXP <= exp <= MAX_EXP
      modifies `lists
      ensures ok == (vaddr % Pow2(exp) == 0)
      ensures lists == if ok then Pushed(old(lists), exp - MIN_EXP, vaddr) else old(lists)
    {
      if vaddr % Pow2(exp) != 0 {
        return false;
      }
      lists := Pushed(lists, exp - MIN_EXP, vaddr);
      ok := true;
    }

    /** `pop_block` and `split_block`: the last block of size 2^exp becomes two of half the size. */
    method PopAndSplit(exp: nat)
      requires Valid() && MIN_EXP < exp <= MAX_EXP && lists[exp - MIN_EXP] != []
      modifies `lists
      ensures Valid() && lists[exp - 1 - MIN_EXP] != []
      ensures |lists[exp - 1 - MIN_EXP]| == old(|lists[exp - 1 - MIN_EXP]|) + 2
      ensures forall i :: 0 <= i < REGION_COUNT && i < exp - 1 - MIN_EXP ==> lists[i] == old(lists[i])
    {
      ghost var ls := lists;
      var i := exp - MIN_EXP;
      var region := lists[i][|lists[i]| - 1];
      lists := Popped(lists, i);
      var buddy := FlipBit(region, exp - 1);
      lists := Pushed(lists, i - 1, region);
      lists := Pushed(lists, i - 1, buddy);
      SplitInv(ls, live, start, start + Seeded(size), i - 1, region, lists);
    }

    /** The exponent of the smallest larger block that is free. */
    method LargerBlock(exp: nat) returns (e: nat)
      requires |lists| == REGION_COUNT && MIN_EXP <= exp <= MAX_EXP && lists[exp - MIN_EXP] == []
      ensures exp < e <= MAX_EXP + 1 && forall k :: exp - MIN_EXP <= k < e - MIN_EXP ==> lists[k] == []
      ensures e <= MAX_EXP ==> lists[e - MIN_EXP] != []
    {
      e := exp + 1;
      while e < MAX_EXP + 1 && |lists[e - MIN_EXP]| == 0
        invariant exp < e <= MAX_EXP + 1 && forall k :: exp - MIN_EXP <= k < e - MIN_EXP ==> lists[k] == []
      {
        e := e + 1;
      }
    }

    /** Splits blocks of size 2^e and below until there is one of size 2^exp. */
    method SplitDown(e: nat, exp: nat)
      requires Valid() && MIN_EXP <= exp <= e <= MAX_EXP && lists[e - MIN_EXP] != []
      modifies `lists
      ensures Valid() && lists[exp - MIN_EXP] != []
    {
      var e2 := e;
      while e2 > exp
        invariant exp <= e2 <= e && Valid() && lists[e2 - MIN_EXP] != []
      {
        PopAndSplit(e2);
        e2 := e2 - 1;
      }
    }

    /**
      `query_addr_region`: takes a block of exactly the size asked for, splitting the smallest
      larger one when there is none.  When no free block is large enough a 4 KiB request fails;
      for a larger one the code goes on to merge small blocks, for which it waits for the list
      lock that it holds.
     */
    method QueryAddrRegion(exp: nat) returns (r: Result<nat>)
      requires Valid() && MIN_EXP <= exp <= MAX_EXP
      modifies this
      ensures Valid()
      ensures r.Ok? <==> exists i :: exp - MIN_EXP <= i < REGION_COUNT && old(lists)[i] != []
      ensures r.Ok? ==> live == old(live) + [Block(r.value, exp)]
      ensures !r.Ok? ==> lists == old(lists) && live == old(live) && r == if exp == MIN_EXP then NoMemory else Stuck
    {
      var i := exp - MIN_EXP;
      if |lists[i]| == 0 {
        var e := LargerBlock(exp);
        if e == MAX_EXP + 1 {
          return if exp == MIN_EXP then NoMemory else Stuck;
        }
        SplitDown(e, exp);
        assert old(lists)[e - MIN_EXP] != [];
      } else {
        assert old(lists)[i] != [];
      }
      var addr := lists[i][|lists[i]| - 1];
      TakeTiles(lists, live, start, start + Seeded(size), i);
      lists := Popped(lists, i);
      live := live + [Block(addr, exp)];
      r := Ok(addr);
    }

    /**
      `create_mmio`: the block handed out is the least power of two, at least 4 KiB, that holds
      the request; it is aligned to its size and lies in the pool, as `from_raw` demands, and the
      request is served exactly when some free block is large enough.
     */
    method CreateMmio(want: nat) returns (r: Result<(nat, nat)>)
      requires Valid()
      modifies this
      ensures Valid()
      ensures r == NotPermitted <==> want == 0 || want > PAGE_1G_SIZE
      ensures !r.Ok? ==> lists == old(lists) && live == old(live)
      ensures r.Ok? ==> |live| == |old(live)| + 1 && var b := live[|old(live)|];
        && live == old(live) + [b] && r.value == (b.addr, Pow2(b.exp)) && Fits(want, b.exp)
        && b.addr % Pow2(b.exp) == 0 && start <= b.addr && b.addr + Pow2(b.exp) <= start + size
      ensures 0 < want <= PAGE_1G_SIZE ==>
        (r.Ok? <==> exists i :: 0 <= i < REGION_COUNT && old(lists)[i] != [] && BigEnough(i, want))
      ensures 0 < want <= PAGE_1G_SIZE && !r.Ok? ==> r == if want <= PAGE_4K_SIZE then NoMemory else Stuck
    {
      if want > PAGE_1G_SIZE || want == 0 {
        return NotPermitted;
      }
      var (exp, newSize) := Rounded(want);
      SomeBigEnough(lists, want, exp);
      SmallRequest(want, exp);
      var region := QueryAddrRegion(exp);
      if !region.Ok? {
        return if exp == MIN_EXP then NoMemory else Stuck;
      }
      LiveInRange(lists, live, start, size, |live| - 1);
      r := Ok((region.value, newSize));
    }

    /**
      `release_mmio`: the address and the length must be multiples of 4 KiB and the address must be
      in the range of the pool; then the block of the size of the lowest bit of the length is pushed,
      and it is a panic if it is too large or not aligned.  The pool stays a tiling exactly if the
      block is one that was handed out.
     */
    method ReleaseMmio(vaddr: nat, length: nat, mapperReadOnly: bool, ghost k: nat) returns (r: Result<()>)
      requires Valid()
      modifies this
      ensures r == ReleaseResult(start, size, vaddr, length, mapperReadOnly)
      ensures !(start <= vaddr < start + size) ==> !r.Ok?
      ensures var aligned := vaddr % PAGE_4K_SIZE == 0 && length % PAGE_4K_SIZE == 0;
        var inside := start <= vaddr < start + size;
        && (r == Invalid <==> aligned && !inside)
        && (r == TryAgain <==> aligned && inside && mapperReadOnly)
        && (r.Ok? <==>
              && aligned && inside && !mapperReadOnly && length > 0
              && TrailingZeros(length) <= MAX_EXP && vaddr % Pow2(TrailingZeros(length)) == 0)
        && (r.Ok? || r == Invalid || r == TryAgain || r == Panic)
      ensures !r.Ok? ==> lists == old(lists) && live == old(live)
      ensures r.Ok? ==>
        && MIN_EXP <= TrailingZeros(length) <= MAX_EXP
        && lists == Pushed(old(lists), TrailingZeros(length) - MIN_EXP, vaddr)
      ensures r.Ok? ==>
        if k < |old(live)| && old(live)[k] == Block(vaddr, TrailingZeros(length))
        then live == old(live[..k] + live[k + 1..]) && Valid()
        else live == old(live) && !Valid()
    {
      if vaddr % PAGE_4K_SIZE != 0 || length % PAGE_4K_SIZE != 0 {
        return Panic;
      }
      if vaddr < start || vaddr >= start + size {
        return Invalid;
      }
      if mapperReadOnly {
        return TryAgain;
      }
      if length == 0 || TrailingZeros(length) > MAX_EXP {
        return Panic;
      }
      ghost var exp := TrailingZeros(length);
      PageZeros(length);
      GiveExact(lists, live, start, start + Seeded(size), exp, vaddr, k);
      var ok := GiveBackBlock(vaddr, TrailingZeros(length));
      if !ok {
        return Panic;
      }
      if k < |live| && live[k] == Block(vaddr, exp) {
        live := live[..k] + live[k + 1..];
      }
      r := Ok(());
    }
  }

  function ReleaseResult(start: nat, size: nat, vaddr: nat, length: nat, mapperReadOnly: bool): Result<()> {
    if vaddr % PAGE_4K_SIZE != 0 || length % PAGE_4K_SIZE != 0 then Panic
    else if vaddr < start || vaddr >= start + size then Invalid
    else if mapperReadOnly then TryAgain
    else if length == 0 || TrailingZeros(length) > MAX_EXP || vaddr % Pow2(TrailingZeros(length)) != 0 then Panic
    else Ok(())
  }

  lemma {:induction false} PageZeros(n: nat)
    requires n > 0 && n % PAGE_4K_SIZE == 0
    ensures TrailingZeros(n) >= MIN_EXP
  {
    ZerosOf(n, MIN_EXP);
  }

  lemma {:induction false} ZerosOf(n: nat, e: nat)
    requires n > 0 && n % Pow2(e) == 0
    ensures TrailingZeros(n) >= e
    decreases e
  {
    if e > 0 {
      HalfMultiple(n, Pow2(e - 1));
      ZerosOf(n / 2, e - 1);
    }
  }

  lemma {:induction false} HalfMultiple(n: nat, p: nat)
    requires p > 0 && n % (2 * p) == 0
    ensures n % 2 == 0 && (n / 2) % p == 0
  {
    var q := n / (2 * p);
    assert n == 2 * (p * q);
    DivUnique(n / 2, p, q, 0);
  }

  /** A block that is already accounted for cannot be given to the pool a second time. */
  lemma {:induction false} GiveForeign(lists: seq<seq<nat>>, live: seq<Block>, lo: nat, hi: nat, i: nat, a: nat)
    requires Inv(lists, live, lo, hi) && i < REGION_COUNT
    ensures !Inv(Pushed(lists, i, a), live, lo, hi)
  {
    var ls := Pushed(lists, i, a);
    CoverConcat(FreeBlocks(lists), live, a);
    CoverConcat(FreeBlocks(ls), live, a);
    PushCover(lists, i, a, a);
    assert Cover(FreeBlocks(lists) + live, a) == Bit(lo <= a < hi);
  }

  lemma {:induction false} GiveExact(
      lists: seq<seq<nat>>, live: seq<Block>, lo: nat, hi: nat, exp: nat, a: nat, k: nat)
    requires Inv(lists, live, lo, hi) && MIN_EXP <= exp <= MAX_EXP
    ensures var ls := Pushed(lists, exp - MIN_EXP, a);
      if k < |live| && live[k] == Block(a, exp) then Inv(ls, live[..k] + live[k + 1..], lo, hi)
      else !Inv(ls, live, lo, hi)
  {
    if k < |live| && live[k] == Block(a, exp) {
      GiveTiles(lists, live, lo, hi, k);
    } else {
      GiveForeign(lists, live, lo, hi, exp - MIN_EXP, a);
    }
  }

  /** A block that was handed out, released with its length, is neither refused nor a panic. */
  lemma {:induction false} LiveReleased(
      lists: seq<seq<nat>>, live: seq<Block>, start: nat, size: nat, k: nat, mapperReadOnly: bool)
    requires Inv(lists, live, start, start + Seeded(size)) && k < |live|
    ensures TrailingZeros(Pow2(live[k].exp)) == live[k].exp
    ensures ReleaseResult(start, size, live[k].addr, Pow2(live[k].exp), mapperReadOnly) ==
      if mapperReadOnly then TryAgain else Ok(())
  {
    var e := live[k].exp;
    LiveInRange(lists, live, start, size, k);
    PowerZeros(e);
    PageMultiples(live[k].addr, e);
  }

  lemma {:induction false} PageMultiples(a: nat, e: nat)
    requires e >= MIN_EXP && a % Pow2(e) == 0
    ensures a % PAGE_4K_SIZE == 0 && Pow2(e) % PAGE_4K_SIZE == 0
  {
    Pow2Values();
    Multiple(a, MIN_EXP, e);
    assert Pow2(e) == 1 * Pow2(e) + 0;
    DivUnique(Pow2(e), Pow2(e), 1, 0);
    Multiple(Pow2(e), MIN_EXP, e);
  }

  lemma {:induction false} SmallRequest(want: nat, exp: nat)
    requires Fits(want, exp)
    ensures exp == MIN_EXP <==> want <= PAGE_4K_SIZE
  {
    Pow2Values();
    if exp > MIN_EXP { Pow2Mono(MIN_EXP, exp - 1); }
  }

  lemma {:induction false} SomeBigEnough(lists: seq<seq<nat>>, want: nat, exp: nat)
    requires |lists| == REGION_COUNT && Fits(want, exp)
    ensures (exists i :: exp - MIN_EXP <= i < REGION_COUNT && lists[i] != []) <==>
      (exists i :: 0 <= i < REGION_COUNT && lists[i] != [] && BigEnough(i, want))
  {
    forall i | 0 <= i < REGION_COUNT ensures BigEnough(i, want) <==> exp - MIN_EXP <= i {
      FitsLeast(want, exp, MIN_EXP + i);
    }
  }

  /** A live block lies in the pool and is aligned to its size. */
  lemma {:induction false} LiveInRange(lists: seq<seq<nat>>, live: seq<Block>, start: nat, size: nat, k: nat)
    requires Inv(lists, live, start, start + Seeded(size)) && k < |live|
    ensures start <= live[k].addr && live[k].addr + Pow2(live[k].exp) <= start + size
    ensures live[k].addr % Pow2(live[k].exp) == 0
  {
    BlockInRange(lists, live, start, start + Seeded(size), |FreeBlocks(lists)| + k);
  }

  lemma {:induction false} PushAligned(lists: seq<seq<nat>>, i: nat, a: nat)
    requires AllAligned(lists) && i < REGION_COUNT && a % Pow2(MIN_EXP + i) == 0
    ensures AllAligned(Pushed(lists, i, a))
  {
  }

  lemma {:induction false} PopAligned(lists: seq<seq<nat>>, i: nat)
    requires AllAligned(lists) && i < REGION_COUNT && lists[i] != []
    ensures AllAligned(Popped(lists, i)) && lists[i][|lists[i]| - 1] % Pow2(MIN_EXP + i) == 0
  {
  }

  lemma {:induction false} SplitAligned(lists: seq<seq<nat>>, i: nat, a: nat, ls': seq<seq<nat>>)
    requires AllAligned(lists) && i + 1 < REGION_COUNT && lists[i + 1] != [] && a == lists[i + 1][|lists[i + 1]| - 1]
    requires ls' == Pushed(Pushed(Popped(lists, i + 1), i, a), i, a + Pow2(MIN_EXP + i))
    ensures AllAligned(ls') && FlipBit(a, MIN_EXP + i) == a + Pow2(MIN_EXP + i)
  {
    var ls := Popped(lists, i + 1);
    PopAligned(lists, i + 1);
    UpperHalf(a, MIN_EXP + i);
    PushAligned(ls, i, a);
    PushAligned(Pushed(ls, i, a), i, a + Pow2(MIN_EXP + i));
  }

  lemma {:induction false} SplitInv(
      lists: seq<seq<nat>>, live: seq<Block>, lo: nat, hi: nat, i: nat, a: nat, ls': seq<seq<nat>>)
    requires Inv(lists, live, lo, hi) && i + 1 < REGION_COUNT && lists[i + 1] != []
    requires a == lists[i + 1][|lists[i + 1]| - 1]
    requires ls' == Pushed(Pushed(Popped(lists, i + 1), i, a), i, FlipBit(a, MIN_EXP + i))
    ensures Inv(ls', live, lo, hi)
  {
    var ls1 := Pushed(Pushed(Popped(lists, i + 1), i, a), i, a + Pow2(MIN_EXP + i));
    SplitAligned(lists, i, a, ls1);
    SplitCovers(lists, i, a, ls1);
    SameCoverTiles(lists, ls1, live, lo, hi);
  }

  lemma {:induction false} SplitCovers(lists: seq<seq<nat>>, i: nat, a: nat, ls': seq<seq<nat>>)
    requires i + 1 < |lists| && lists[i + 1] != [] && a == lists[i + 1][|lists[i + 1]| - 1]
    requires ls' == Pushed(Pushed(Popped(lists, i + 1), i, a), i, a + Pow2(MIN_EXP + i))
    ensures forall x: nat :: Cover(FreeBlocks(ls'), x) == Cover(FreeBlocks(lists), x)
  {
    forall x: nat ensures Cover(FreeBlocks(ls'), x) == Cover(FreeBlocks(lists), x) {
      SplitCover(lists, i, x);
    }
  }
}
