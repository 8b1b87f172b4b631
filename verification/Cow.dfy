/**
  Copy-on-write of anonymous memory: the page-fault handlers, the cloning of an address space
  and the unmapping of areas, over flat address spaces.  A page manager keeps for each frame the
  set of areas that map it, and the write-protection fault decides by the size of that set
  whether to copy.  The machine is shown to behave like one that copies every page at the clone.
 */
module Cow {
  const PAGE_SIZE := 4096

  type Frame = nat
  type Vma = nat
  type Bytes = seq<bv8>

  datatype Page = Page(space: nat, vpn: nat)
  datatype Pte = Pte(frame: Frame, write: bool)
  datatype Area = Area(shared: bool, write: bool)

  /** `owner` is the lookup of a page among the areas; `rmap` is the `vma_set` of each managed frame. */
  datatype State = State(
    owner: map<Page, Vma>, areas: map<Vma, Area>, pt: map<Page, Pte>,
    rmap: map<Frame, set<Vma>>, bytes: map<Frame, Bytes>, free: set<Frame>)

  /** What a cleared frame holds. */
  function ZeroPage(): (z: Bytes)
    ensures |z| == PAGE_SIZE && forall k :: 0 <= k < PAGE_SIZE ==> z[k] == 0
  {
    seq(PAGE_SIZE, _ => 0)
  }

  ghost predicate Maps(s: State, p: Page, f: Frame, v: Vma) {
    p in s.pt && p in s.owner && s.pt[p].frame == f && s.owner[p] == v
  }

  ghost predicate Typed(s: State) {
    && (forall p :: p in s.owner ==> s.owner[p] in s.areas)
    && (forall p :: p in s.pt ==> p in s.owner && s.pt[p].frame in s.rmap)
    && s.rmap.Keys == s.bytes.Keys && s.rmap.Keys !! s.free
    && (forall f :: f in s.bytes ==> |s.bytes[f]| == PAGE_SIZE)
  }

  predicate Shared(s: State, p: Page)
    requires p in s.owner && s.owner[p] in s.areas
  {
    s.areas[s.owner[p]].shared
  }

  /** Every area that maps a frame is in its `vma_set`. */
  ghost predicate Registered(s: State)
    requires Typed(s)
  {
    forall p :: p in s.pt ==> s.owner[p] in s.rmap[s.pt[p].frame]
  }

  /** Every area in the `vma_set` of a frame maps it, and no managed frame is without an area. */
  ghost predicate NoneStale(s: State) {
    && (forall f, v :: f in s.rmap && v in s.rmap[f] ==> exists p :: Maps(s, p, f, v))
    && (forall f :: f in s.rmap ==> s.rmap[f] != {})
  }

  /** What pages that share a frame have in common. */
  ghost predicate SharingOk(s: State, p: Page, q: Page)
    requires Typed(s) && p in s.pt && q in s.pt
  {
    s.pt[p].frame == s.pt[q].frame ==>
      && (s.owner[p] == s.owner[q] ==> p == q)
      && Shared(s, p) == Shared(s, q)
      && (!Shared(s, p) && s.pt[p].write ==> p == q)
  }

  ghost predicate Sound(s: State) {
    Typed(s) && Registered(s) && forall p, q :: p in s.pt && q in s.pt ==> SharingOk(s, p, q)
  }

  ghost predicate Inv(s: State) {
    Sound(s) && NoneStale(s)
  }

  /** `TakeTables` and `GiveTables` are frames that become page tables and come back. */
  datatype Step =
    | NewArea(v: Vma, pages: set<Page>, area: Area)
    | AnonFault(page: Page, frame: Frame)
    | WpFault(page: Page, frame: Frame)
    | Fork(from: nat, to: nat, ids: map<Vma, Vma>)
    | UnmapPage(page: Page)
    | DropArea(v: Vma)
    | Store(page: Page, index: nat, value: bv8)
    | TakeTables(frames: set<Frame>)
    | GiveTables(frames: set<Frame>)

  /** `ids` gives each area of the space a new area of its own. */
  ghost predicate FreshIds(s: State, from: nat, ids: map<Vma, Vma>)
    requires Typed(s)
  {
    && (forall p :: p in s.owner && p.space == from ==> s.owner[p] in ids)
    && (forall v :: v in ids ==> v in s.areas && ids[v] !in s.areas)
    && (forall v, w :: v in ids && w in ids && ids[v] == ids[w] ==> v == w)
  }

  ghost predicate CanFork(s: State, a: nat, b: nat, ids: map<Vma, Vma>)
    requires Typed(s)
  {
    a != b && FreshIds(s, a, ids) && forall p :: p in s.owner ==> p.space != b
  }

  /** Only one area maps the frame of the page. */
  predicate Alone(s: State, p: Page)
    requires p in s.pt && s.pt[p].frame in s.rmap
  {
    |s.rmap[s.pt[p].frame]| == 1
  }

  ghost predicate Enabled(s: State, e: Step)
    requires Typed(s)
  {
    match e
    case NewArea(v, pages, _) => v !in s.areas && pages !! s.owner.Keys
    case AnonFault(p, f) => p in s.owner && p !in s.pt && f in s.free
    case WpFault(p, f) => p in s.pt && !s.pt[p].write && (Shared(s, p) || Alone(s, p) || f in s.free)
    case Fork(a, b, ids) => CanFork(s, a, b, ids)
    case UnmapPage(p) => p in s.pt
    case DropArea(v) => v in s.areas && forall p :: p in s.pt ==> s.owner[p] != v
    case Store(p, i, _) => p in s.pt && s.pt[p].write && i < PAGE_SIZE
    case TakeTables(fs) => fs <= s.free
    case GiveTables(fs) => fs !! s.free && fs !! s.rmap.Keys
  }

  /** `do_anonymous_page`: a cleared frame, known to be mapped by the area of the page. */
  function AnonFaulted(s: State, p: Page, f: Frame): State
    requires p in s.owner && s.owner[p] in s.areas
  {
    s.(pt := s.pt[p := Pte(f, s.areas[s.owner[p]].write)], rmap := s.rmap[f := {s.owner[p]}],
       bytes := s.bytes[f := ZeroPage()], free := s.free - {f})
  }

  /** `do_wp_page` */
  function WpFaulted(s: State, p: Page, f: Frame): State
    requires p in s.pt && p in s.owner && s.owner[p] in s.areas && s.pt[p].frame in s.rmap && s.pt[p].frame in s.bytes
  {
    var g := s.pt[p].frame;
    if Shared(s, p) || Alone(s, p) then s.(pt := s.pt[p := Pte(g, true)])
    else s.(pt := s.pt[p := Pte(f, true)], rmap := s.rmap[g := s.rmap[g] - {s.owner[p]}][f := {s.owner[p]}],
            bytes := s.bytes[f := s.bytes[g]], free := s.free - {f})
  }

  /** The page of the original that a page of the clone was made from; other pages are themselves. */
  function Origin(a: nat, b: nat, p: Page): Page {
    if p.space == b then Page(a, p.vpn) else p
  }

  /** Area `w` of the clone was made from an area that maps the frame in the original. */
  ghost predicate Inherits(s: State, a: nat, f: Frame, ids: map<Vma, Vma>, w: Vma) {
    exists p, v :: Maps(s, p, f, v) && p.space == a && v in ids && ids[v] == w
  }

  /** The clone has a copy of each area, at the same pages. */
  ghost predicate AreasCopied(
      owner: map<Page, Vma>, areas: map<Vma, Area>, a: nat, b: nat, ids: map<Vma, Vma>, owner': map<Page, Vma>,
      areas': map<Vma, Area>)
  {
    && areas'.Keys == areas.Keys + ids.Values
    && (forall v :: v in areas && v in areas' ==> areas'[v] == areas[v])
    && (forall v :: v in ids && v in areas && ids[v] in areas' ==> areas'[ids[v]] == areas[v])
    && (forall p :: p in owner' <==> Origin(a, b, p) in owner)
    && (forall p :: p in owner' && p.space != b ==> owner'[p] == owner[p])
    && (forall p :: p in owner' && p.space == b ==>
          var o := Origin(a, b, p); owner[o] in ids && owner'[p] == ids[owner[o]])
  }

  ghost function ForkPte(s: State, a: nat, b: nat, p: Page): Pte
    requires Origin(a, b, p) in s.pt
  {
    var e := s.pt[Origin(a, b, p)];
    if p.space == a || p.space == b then Pte(e.frame, false) else e
  }

  /** The page tables become read-only on both sides. */
  ghost predicate TablesForked(s: State, t: State, a: nat, b: nat) {
    && (forall p :: p in t.pt <==> Origin(a, b, p) in s.pt)
    && (forall p :: p in t.pt ==> t.pt[p] == ForkPte(s, a, b, p))
  }

  /** The new areas join the `vma_set`s of the frames that they map, and no others. */
  ghost predicate RmapForked(s: State, t: State, a: nat, ids: map<Vma, Vma>)
    requires Typed(s) && FreshIds(s, a, ids)
  {
    && t.rmap.Keys == s.rmap.Keys
    && (forall f, w :: f in t.rmap && w in t.rmap[f] ==> w in s.rmap[f] || Inherits(s, a, f, ids, w))
    && (forall f :: f in t.rmap ==> s.rmap[f] <= t.rmap[f])
    && (forall p :: p in s.pt && p.space == a ==> ids[s.owner[p]] in t.rmap[s.pt[p].frame])
  }

  /** `try_clone` */
  ghost predicate IsFork(s: State, t: State, a: nat, b: nat, ids: map<Vma, Vma>)
    requires Typed(s) && FreshIds(s, a, ids)
  {
    && AreasCopied(s.owner, s.areas, a, b, ids, t.owner, t.areas)
    && TablesForked(s, t, a, b) && RmapForked(s, t, a, ids)
    && t.bytes == s.bytes && t.free == s.free
  }

  /** One round of `LockedVMA::unmap`: the last area to let go of a frame frees it. */
  function Unmapped(s: State, p: Page): State
    requires p in s.pt && p in s.owner && s.pt[p].frame in s.rmap
  {
    var g := s.pt[p].frame;
    var left := s.rmap[g] - {s.owner[p]};
    if left == {} then s.(pt := s.pt - {p}, rmap := s.rmap - {g}, bytes := s.bytes - {g}, free := s.free + {g})
    else s.(pt := s.pt - {p}, rmap := s.rmap[g := left])
  }

  function AreaAdded(s: State, v: Vma, pages: set<Page>, area: Area): State {
    s.(owner := s.owner + map p | p in pages :: v, areas := s.areas[v := area])
  }

  function AreaDropped(s: State, v: Vma): State {
    s.(owner := map p | p in s.owner && s.owner[p] != v :: s.owner[p], areas := s.areas - {v})
  }

  /** A store of the processor through a writable page table entry. */
  function Stored(s: State, p: Page, i: nat, x: bv8): State
    requires p in s.pt && s.pt[p].frame in s.bytes && i < |s.bytes[s.pt[p].frame]|
  {
    s.(bytes := s.bytes[s.pt[p].frame := s.bytes[s.pt[p].frame][i := x]])
  }

  ghost predicate Next(s: State, e: Step, t: State)
    requires Typed(s)
  {
    Enabled(s, e) &&
    match e
    case NewArea(v, pages, area) => t == AreaAdded(s, v, pages, area)
    case AnonFault(p, f) => t == AnonFaulted(s, p, f)
    case WpFault(p, f) => t == WpFaulted(s, p, f)
    case Fork(a, b, ids) => IsFork(s, t, a, b, ids)
    case UnmapPage(p) => t == Unmapped(s, p)
    case DropArea(v) => t == AreaDropped(s, v)
    case Store(p, i, x) => t == Stored(s, p, i, x)
    case TakeTables(fs) => t == s.(free := s.free - fs)
    case GiveTables(fs) => t == s.(free := s.free + fs)
  }

  // ---------- every step keeps the invariant ----------

  lemma {:induction false} SameMapsNoneStale(s: State, t: State)
    requires NoneStale(s) && t.rmap == s.rmap
    requires forall p, f, v :: Maps(s, p, f, v) ==> Maps(t, p, f, v)
    ensures NoneStale(t)
  {
    forall f, w | f in t.rmap && w in t.rmap[f] ensures exists p :: Maps(t, p, f, w) {
      var p :| Maps(s, p, f, w);
      assert Maps(t, p, f, w);
    }
  }

  lemma {:induction false} NewAreaSound(s: State, t: State, v: Vma, pages: set<Page>, area: Area)
    requires Sound(s) && Enabled(s, NewArea(v, pages, area)) && t == AreaAdded(s, v, pages, area)
    ensures Sound(t)
  {
    forall p, q | p in t.pt && q in t.pt ensures SharingOk(t, p, q) {
      assert SharingOk(s, p, q);
    }
  }

  lemma {:induction false} AnonFaultSound(s: State, t: State, p: Page, f: Frame)
    requires Sound(s) && Enabled(s, AnonFault(p, f)) && t == AnonFaulted(s, p, f)
    ensures Sound(t)
  {
    forall q, r | q in t.pt && r in t.pt ensures SharingOk(t, q, r) {
      if q != p && r != p { assert SharingOk(s, q, r); }
    }
  }

  lemma {:induction false} AnonFaultStale(s: State, t: State, p: Page, f: Frame)
    requires Typed(s) && NoneStale(s) && Enabled(s, AnonFault(p, f)) && t == AnonFaulted(s, p, f)
    ensures NoneStale(t)
  {
    forall g, w | g in t.rmap && w in t.rmap[g] ensures exists q :: Maps(t, q, g, w) {
      if g == f {
        assert Maps(t, p, g, w);
      } else {
        var q :| Maps(s, q, g, w);
        assert Maps(t, q, g, w);
      }
    }
  }

  /** A frame with one area in its `vma_set` is mapped by one page. */
  lemma {:induction false} AloneMeansOnly(s: State, p: Page, q: Page)
    requires Sound(s) && p in s.pt && q in s.pt && s.pt[p].frame == s.pt[q].frame && Alone(s, p)
    ensures p == q
  {
    Singleton(s.rmap[s.pt[p].frame], s.owner[p], s.owner[q]);
    assert SharingOk(s, p, q);
  }

  lemma {:induction false} Singleton<T>(s: set<T>, x: T, y: T)
    requires |s| == 1 && x in s && y in s
    ensures x == y
  {
    assert s == (s - {x}) + {x};
  }

  lemma {:induction false} OthersLeft<T>(s: set<T>, x: T)
    requires s != {} && |s| != 1
    ensures s - {x} != {}
  {
    assert x in s ==> s == (s - {x}) + {x};
    assert x !in s ==> s == s - {x};
  }

  lemma {:induction false} WpInPlaceSound(s: State, t: State, p: Page, f: Frame)
    requires Sound(s) && Enabled(s, WpFault(p, f)) && t == WpFaulted(s, p, f) && (Shared(s, p) || Alone(s, p))
    ensures Sound(t)
  {
    forall q, r | q in t.pt && r in t.pt ensures SharingOk(t, q, r) {
      assert SharingOk(s, q, r);
      if t.pt[q].frame == t.pt[r].frame && q == p && !Shared(s, p) { AloneMeansOnly(s, p, r); }
    }
  }

  lemma {:induction false} WpInPlaceStale(s: State, t: State, p: Page, f: Frame)
    requires Typed(s) && NoneStale(s) && Enabled(s, WpFault(p, f)) && t == WpFaulted(s, p, f)
    requires Shared(s, p) || Alone(s, p)
    ensures NoneStale(t)
  {
    SameMapsNoneStale(s, t);
  }

  lemma {:induction false} WpCopySound(s: State, t: State, p: Page, f: Frame)
    requires Sound(s) && Enabled(s, WpFault(p, f)) && t == WpFaulted(s, p, f) && !Shared(s, p) && !Alone(s, p)
    ensures Sound(t)
  {
    forall q | q in t.pt ensures t.owner[q] in t.rmap[t.pt[q].frame] {
      if q != p { assert SharingOk(s, p, q); }
    }
    forall q, r | q in t.pt && r in t.pt ensures SharingOk(t, q, r) {
      if q != p && r != p { assert SharingOk(s, q, r); }
    }
  }

  lemma {:induction false} WpCopyStale(s: State, t: State, p: Page, f: Frame)
    requires Typed(s) && NoneStale(s) && Enabled(s, WpFault(p, f)) && t == WpFaulted(s, p, f) && !Shared(s, p)
    requires !Alone(s, p)
    ensures NoneStale(t)
  {
    OthersLeft(s.rmap[s.pt[p].frame], s.owner[p]);
    forall h, w | h in t.rmap && w in t.rmap[h] ensures exists q :: Maps(t, q, h, w) {
      if h == f {
        assert Maps(t, p, h, w);
      } else {
        var q :| Maps(s, q, h, w);
        assert Maps(t, q, h, w);
      }
    }
  }

  lemma {:induction false} UnmapSound(s: State, t: State, p: Page)
    requires Sound(s) && p in s.pt && t == Unmapped(s, p)
    ensures Sound(t)
  {
    forall q | q in t.pt ensures t.pt[q].frame in t.rmap && t.owner[q] in t.rmap[t.pt[q].frame] {
      assert SharingOk(s, p, q) && s.owner[q] in s.rmap[s.pt[q].frame];
      if s.pt[q].frame == s.pt[p].frame { assert s.owner[q] in s.rmap[s.pt[p].frame] - {s.owner[p]}; }
    }
    forall q, r | q in t.pt && r in t.pt ensures SharingOk(t, q, r) {
      assert SharingOk(s, q, r);
    }
  }

  lemma {:induction false} UnmapStale(s: State, t: State, p: Page)
    requires Typed(s) && NoneStale(s) && p in s.pt && t == Unmapped(s, p)
    ensures NoneStale(t)
  {
    forall h, w | h in t.rmap && w in t.rmap[h] ensures exists q :: Maps(t, q, h, w) {
      var q :| Maps(s, q, h, w);
      assert Maps(t, q, h, w);
    }
  }

  lemma {:induction false} DropAreaSound(s: State, t: State, v: Vma)
    requires Sound(s) && Enabled(s, DropArea(v)) && t == AreaDropped(s, v)
    ensures Sound(t)
  {
    forall p, q | p in t.pt && q in t.pt ensures SharingOk(t, p, q) {
      assert SharingOk(s, p, q);
    }
  }

  lemma {:induction false} StoreSound(s: State, t: State, p: Page, i: nat, x: bv8)
    requires Sound(s) && Enabled(s, Store(p, i, x)) && t == Stored(s, p, i, x)
    ensures Sound(t)
  {
    forall q, r | q in t.pt && r in t.pt ensures SharingOk(t, q, r) {
      assert SharingOk(s, q, r);
    }
  }

  lemma {:induction false} ForkTyped(s: State, t: State, a: nat, b: nat, ids: map<Vma, Vma>)
    requires Typed(s) && CanFork(s, a, b, ids) && IsFork(s, t, a, b, ids)
    ensures Typed(t)
    ensures forall p :: p in t.owner ==> Shared(t, p) == Shared(s, Origin(a, b, p))
  {
    forall p | p in t.owner ensures t.owner[p] in t.areas && Shared(t, p) == Shared(s, Origin(a, b, p)) {
      assert s.owner[Origin(a, b, p)] in s.areas;
    }
    forall p | p in t.pt ensures p in t.owner && t.pt[p].frame in t.rmap {
      assert Origin(a, b, p) in s.pt;
    }
  }

  lemma {:induction false} ForkRegistered(s: State, t: State, a: nat, b: nat, ids: map<Vma, Vma>)
    requires Typed(s) && Registered(s) && CanFork(s, a, b, ids) && IsFork(s, t, a, b, ids) && Typed(t)
    ensures Registered(t)
  {
    forall p | p in t.pt ensures t.owner[p] in t.rmap[t.pt[p].frame] {
      var o := Origin(a, b, p);
      assert s.owner[o] in s.rmap[s.pt[o].frame];
    }
  }

  lemma {:induction false} ForkSharing(s: State, t: State, a: nat, b: nat, ids: map<Vma, Vma>, p: Page, q: Page)
    requires Sound(s) && CanFork(s, a, b, ids) && IsFork(s, t, a, b, ids) && Typed(t) && p in t.pt && q in t.pt
    requires forall p :: p in t.owner ==> Shared(t, p) == Shared(s, Origin(a, b, p))
    ensures SharingOk(t, p, q)
  {
    var o, r := Origin(a, b, p), Origin(a, b, q);
    assert o in s.pt && r in s.pt && SharingOk(s, o, r) && SharingOk(s, r, o);
    assert s.owner[o] in s.areas && s.owner[r] in s.areas;
  }

  /** A mapping of the original is still there, and is there again in the clone. */
  lemma {:induction false} ForkMaps(s: State, t: State, a: nat, b: nat, ids: map<Vma, Vma>, p: Page, f: Frame, v: Vma)
    requires Typed(s) && CanFork(s, a, b, ids) && IsFork(s, t, a, b, ids) && Maps(s, p, f, v)
    ensures Maps(t, p, f, v) && (p.space == a && v in ids ==> Maps(t, Page(b, p.vpn), f, ids[v]))
  {
    assert Origin(a, b, p) == p && p in t.pt && p in t.owner;
    if p.space == a {
      var q := Page(b, p.vpn);
      assert Origin(a, b, q) == p && q in t.pt && q in t.owner;
    }
  }

  lemma {:induction false} ForkStale(s: State, t: State, a: nat, b: nat, ids: map<Vma, Vma>, f: Frame, w: Vma)
    requires Typed(s) && NoneStale(s) && CanFork(s, a, b, ids) && IsFork(s, t, a, b, ids) && f in t.rmap
    requires w in t.rmap[f]
    ensures exists p :: Maps(t, p, f, w)
  {
    if w in s.rmap[f] {
      var p :| Maps(s, p, f, w);
      ForkMaps(s, t, a, b, ids, p, f, w);
    } else {
      var o, v :| Maps(s, o, f, v) && o.space == a && v in ids && ids[v] == w;
      ForkMaps(s, t, a, b, ids, o, f, v);
    }
  }

  lemma {:induction false} ForkNoneStale(s: State, t: State, a: nat, b: nat, ids: map<Vma, Vma>)
    requires Typed(s) && NoneStale(s) && CanFork(s, a, b, ids) && IsFork(s, t, a, b, ids)
    ensures NoneStale(t)
  {
    forall f, w | f in t.rmap && w in t.rmap[f] ensures exists p :: Maps(t, p, f, w) {
      ForkStale(s, t, a, b, ids, f, w);
    }
  }

  lemma {:induction false} ForkSound(s: State, t: State, a: nat, b: nat, ids: map<Vma, Vma>)
    requires Sound(s) && CanFork(s, a, b, ids) && IsFork(s, t, a, b, ids)
    ensures Sound(t)
  {
    ForkTyped(s, t, a, b, ids);
    ForkRegistered(s, t, a, b, ids);
    forall p, q | p in t.pt && q in t.pt ensures SharingOk(t, p, q) {
      ForkSharing(s, t, a, b, ids, p, q);
    }
  }

  lemma {:induction false} ForkInv(s: State, t: State, a: nat, b: nat, ids: map<Vma, Vma>)
    requires Inv(s) && CanFork(s, a, b, ids) && IsFork(s, t, a, b, ids)
    ensures Inv(t)
  {
    ForkSound(s, t, a, b, ids);
    ForkNoneStale(s, t, a, b, ids);
  }

  lemma {:induction false} WpFaultInv(s: State, t: State, p: Page, f: Frame)
    requires Inv(s) && Enabled(s, WpFault(p, f)) && t == WpFaulted(s, p, f)
    ensures Inv(t)
  {
    if Shared(s, p) || Alone(s, p) {
      WpInPlaceSound(s, t, p, f);
      WpInPlaceStale(s, t, p, f);
    } else {
      WpCopySound(s, t, p, f);
      WpCopyStale(s, t, p, f);
    }
  }

  lemma {:induction false} AreasInv(s: State, e: Step, t: State)
    requires Inv(s) && Next(s, e, t) && (e.NewArea? || e.DropArea?)
    ensures Inv(t)
  {
    match e {
      case NewArea(v, pages, area) => NewAreaSound(s, t, v, pages, area);
      case DropArea(v) => DropAreaSound(s, t, v);
    }
    SameMapsNoneStale(s, t);
  }

  lemma {:induction false} TablesInv(s: State, t: State)
    requires Inv(s) && t == s.(free := t.free) && t.free !! s.rmap.Keys
    ensures Inv(t)
  {
    forall p, q | p in t.pt && q in t.pt ensures SharingOk(t, p, q) {
      assert SharingOk(s, p, q);
    }
    SameMapsNoneStale(s, t);
  }

  /** Every step of every handler keeps the invariant. */
  lemma {:induction false} StepInv(s: State, e: Step, t: State)
    requires Inv(s) && Next(s, e, t)
    ensures Inv(t)
  {
    match e
    case NewArea(_, _, _) => AreasInv(s, e, t);
    case AnonFault(p, f) => AnonFaultSound(s, t, p, f); AnonFaultStale(s, t, p, f);
    case WpFault(p, f) => WpFaultInv(s, t, p, f);
    case Fork(a, b, ids) => ForkInv(s, t, a, b, ids);
    case UnmapPage(p) => UnmapSound(s, t, p); UnmapStale(s, t, p);
    case DropArea(_) => AreasInv(s, e, t);
    case Store(p, i, x) => StoreSound(s, t, p, i, x); SameMapsNoneStale(s, t);
    case TakeTables(_) => TablesInv(s, t);
    case GiveTables(_) => TablesInv(s, t);
  }

  // ---------- the simple machine: every page is copied at the fork ----------

  /** `view` is what each mapped page reads; `link` names the object behind each page of a shared area. */
  datatype Simple = Simple(owner: map<Page, Vma>, areas: map<Vma, Area>, view: map<Page, Bytes>, link: map<Page, Frame>)

  /** What each mapped page reads. */
  ghost function View(s: State): map<Page, Bytes>
    requires Typed(s)
  {
    map p | p in s.pt :: s.bytes[s.pt[p].frame]
  }

  ghost function Link(s: State): map<Page, Frame>
    requires Typed(s)
  {
    map p | p in s.pt && Shared(s, p) :: s.pt[p].frame
  }

  ghost function Abs(s: State): Simple
    requires Typed(s)
  {
    Simple(s.owner, s.areas, View(s), Link(s))
  }

  /** The pages that see a store to `p`: only `p` itself, unless it belongs to a shared area. */
  ghost predicate Sees(a: Simple, p: Page, q: Page) {
    q == p || (p in a.link && q in a.link && a.link[p] == a.link[q])
  }

  /** A copy of every page of the space. */
  ghost predicate Copied<T>(m: map<Page, T>, from: nat, to: nat, n: map<Page, T>) {
    && (forall p :: p in n <==> Origin(from, to, p) in m)
    && (forall p :: p in n ==> n[p] == m[Origin(from, to, p)])
  }

  ghost function Written(a: Simple, p: Page, i: nat, x: bv8): map<Page, Bytes>
    requires p in a.view && i < |a.view[p]|
  {
    map q | q in a.view :: if Sees(a, p, q) then a.view[p][i := x] else a.view[q]
  }

  /** The simple machine: no page tables, no write protection, no counting. */
  ghost predicate SimpleNext(a: Simple, e: Step, b: Simple) {
    match e
    case NewArea(v, pages, area) =>
      b == a.(owner := a.owner + map p | p in pages :: v, areas := a.areas[v := area])
    case AnonFault(p, f) =>
      && p in a.owner && a.owner[p] in a.areas
      && b == a.(view := a.view[p := ZeroPage()], link := if a.areas[a.owner[p]].shared then a.link[p := f] else a.link)
    case WpFault(_, _) => b == a
    case Fork(from, to, ids) =>
      && AreasCopied(a.owner, a.areas, from, to, ids, b.owner, b.areas)
      && Copied(a.view, from, to, b.view) && Copied(a.link, from, to, b.link)
    case UnmapPage(p) => b == a.(view := a.view - {p}, link := a.link - {p})
    case DropArea(v) =>
      b == a.(owner := map p | p in a.owner && a.owner[p] != v :: a.owner[p], areas := a.areas - {v})
    case Store(p, i, x) => p in a.view && i < |a.view[p]| && b == a.(view := Written(a, p, i, x))
    case TakeTables(_) => b == a
    case GiveTables(_) => b == a
  }

  lemma {:induction false} WpFaultRefines(s: State, t: State, p: Page, f: Frame)
    requires Typed(s) && Enabled(s, WpFault(p, f)) && t == WpFaulted(s, p, f) && Typed(t)
    ensures View(t) == View(s) && Link(t) == Link(s)
  {
  }

  lemma {:induction false} AnonFaultView(s: State, t: State, p: Page, f: Frame)
    requires Typed(s) && Enabled(s, AnonFault(p, f)) && t == AnonFaulted(s, p, f) && Typed(t)
    ensures View(t) == View(s)[p := ZeroPage()]
  {
  }

  lemma {:induction false} AnonFaultLink(s: State, t: State, p: Page, f: Frame)
    requires Typed(s) && Enabled(s, AnonFault(p, f)) && t == AnonFaulted(s, p, f) && Typed(t)
    ensures Link(t) == if Shared(s, p) then Link(s)[p := f] else Link(s)
  {
  }

  lemma {:induction false} ForkView(s: State, t: State, a: nat, b: nat)
    requires Typed(s) && TablesForked(s, t, a, b) && Typed(t) && t.bytes == s.bytes
    ensures Copied(View(s), a, b, View(t))
  {
    forall p | p in View(t) ensures View(t)[p] == View(s)[Origin(a, b, p)] {
      assert t.pt[p] == ForkPte(s, a, b, p);
    }
  }

  lemma {:induction false} ForkLink(s: State, t: State, a: nat, b: nat)
    requires Typed(s) && TablesForked(s, t, a, b) && Typed(t)
    requires forall p :: p in t.pt ==> Shared(t, p) == Shared(s, Origin(a, b, p))
    ensures Copied(Link(s), a, b, Link(t))
  {
    forall p | p in Link(t) ensures Link(t)[p] == Link(s)[Origin(a, b, p)] {
      assert t.pt[p] == ForkPte(s, a, b, p);
    }
  }

  lemma {:induction false} UnmapRefines(s: State, t: State, p: Page)
    requires Typed(s) && p in s.pt && t == Unmapped(s, p) && Typed(t)
    ensures View(t) == View(s) - {p} && Link(t) == Link(s) - {p}
  {
  }

  /** A page sees a store exactly when it maps the frame: it is the page itself, or shared with it. */
  lemma {:induction false} SeesFrame(s: State, p: Page, q: Page)
    requires Sound(s) && p in s.pt && q in s.pt && s.pt[p].write
    ensures Sees(Abs(s), p, q) <==> s.pt[q].frame == s.pt[p].frame
  {
    assert SharingOk(s, p, q);
  }

  lemma {:induction false} StoreRefines(s: State, t: State, p: Page, i: nat, x: bv8)
    requires Sound(s) && Enabled(s, Store(p, i, x)) && t == Stored(s, p, i, x) && Typed(t)
    ensures View(t) == Written(Abs(s), p, i, x) && Link(t) == Link(s)
  {
    forall q | q in s.pt ensures View(t)[q] == Written(Abs(s), p, i, x)[q] {
      SeesFrame(s, p, q);
    }
  }

  lemma {:induction false} AreasRefine(s: State, e: Step, t: State)
    requires Typed(s) && Next(s, e, t) && Typed(t) && (e.NewArea? || e.DropArea?)
    ensures View(t) == View(s) && Link(t) == Link(s)
  {
  }

  lemma {:induction false} ForkRefines(s: State, t: State, a: nat, b: nat, ids: map<Vma, Vma>)
    requires Typed(s) && CanFork(s, a, b, ids) && IsFork(s, t, a, b, ids) && Typed(t)
    ensures SimpleNext(Abs(s), Fork(a, b, ids), Abs(t))
  {
    ForkTyped(s, t, a, b, ids);
    ForkView(s, t, a, b);
    ForkLink(s, t, a, b);
  }

  lemma {:induction false} AnonFaultRefines(s: State, t: State, p: Page, f: Frame)
    requires Typed(s) && Enabled(s, AnonFault(p, f)) && t == AnonFaulted(s, p, f) && Typed(t)
    ensures SimpleNext(Abs(s), AnonFault(p, f), Abs(t))
  {
    AnonFaultView(s, t, p, f);
    AnonFaultLink(s, t, p, f);
  }

  lemma {:induction false} TablesRefine(s: State, t: State)
    requires Typed(s) && Typed(t) && t == s.(free := t.free)
    ensures Abs(t) == Abs(s)
  {
    assert View(t) == View(s) && Link(t) == Link(s);
  }

  lemma {:induction false} StepRefines(s: State, e: Step, t: State)
    requires Inv(s) && Next(s, e, t)
    ensures Inv(t) && SimpleNext(Abs(s), e, Abs(t))
  {
    StepInv(s, e, t);
    match e
    case NewArea(_, _, _) => AreasRefine(s, e, t);
    case AnonFault(p, f) => AnonFaultRefines(s, t, p, f);
    case WpFault(p, f) => WpFaultRefines(s, t, p, f);
    case Fork(a, b, ids) => ForkRefines(s, t, a, b, ids);
    case UnmapPage(p) => UnmapRefines(s, t, p);
    case DropArea(_) => AreasRefine(s, e, t);
    case Store(p, i, x) => StoreRefines(s, t, p, i, x);
    case TakeTables(_) => TablesRefine(s, t);
    case GiveTables(_) => TablesRefine(s, t);
  }

  // ---------- the right to write ----------

  /** What can be stored to lies in an area that may be written. */
  ghost predicate Rights(s: State)
    requires Typed(s)
  {
    forall p :: p in s.pt && s.pt[p].write ==> s.areas[s.owner[p]].write
  }

  /** The check of the access before a fault is handled. */
  ghost predicate Permitted(s: State, e: Step) {
    e.WpFault? ==> e.page in s.owner && s.owner[e.page] in s.areas && s.areas[s.owner[e.page]].write
  }

  /**
    No step gives away the right to write, but for a write-protection fault in an area that may not
    be written, which the check of the access before the fault is there to keep out.
   */
  lemma {:induction false} StepRights(s: State, e: Step, t: State)
    requires Typed(s) && Typed(t) && Next(s, e, t) && Rights(s)
    ensures Rights(t) <==> Permitted(s, e)
  {
    match e
    case NewArea(_, _, _) =>
    case AnonFault(p, f) =>
    case WpFault(p, f) => WpFaultRights(s, t, p, f);
    case Fork(a, b, ids) => ForkRights(s, t, a, b, ids);
    case UnmapPage(_) =>
    case DropArea(_) =>
    case Store(_, _, _) =>
    case TakeTables(_) =>
    case GiveTables(_) =>
  }

  lemma {:induction false} WpFaultRights(s: State, t: State, p: Page, f: Frame)
    requires Typed(s) && Typed(t) && Next(s, WpFault(p, f), t) && Rights(s)
    ensures Rights(t) <==> s.areas[s.owner[p]].write
  {
    assert t.areas == s.areas && t.owner == s.owner && p in t.pt && t.pt[p].write;
    assert forall q :: q != p && q in t.pt ==> q in s.pt && t.pt[q] == s.pt[q];
  }

  lemma {:induction false} ForkRights(s: State, t: State, a: nat, b: nat, ids: map<Vma, Vma>)
    requires Typed(s) && CanFork(s, a, b, ids) && IsFork(s, t, a, b, ids) && Typed(t) && Rights(s)
    ensures Rights(t)
  {
    forall p | p in t.pt && t.pt[p].write ensures t.areas[t.owner[p]].write {
      assert t.pt[p] == ForkPte(s, a, b, p) && Origin(a, b, p) == p;
    }
  }

  // ---------- whole runs ----------

  ghost predicate Initial(s: State) {
    s.owner == map[] && s.areas == map[] && s.pt == map[] && s.rmap == map[] && s.bytes == map[]
  }

  /** `ss` is a run: it starts with no memory mapped and takes one step after the other. */
  ghost predicate Run(ss: seq<State>, es: seq<Step>) {
    && |ss| == |es| + 1 && Initial(ss[0])
    && forall i :: 0 <= i < |es| ==> Typed(ss[i]) && Next(ss[i], es[i], ss[i + 1])
  }

  /** The state of every run satisfies the invariant. */
  lemma {:induction false} RunInv(ss: seq<State>, es: seq<Step>, k: nat)
    requires Run(ss, es) && k < |ss|
    ensures Inv(ss[k])
  {
    if k > 0 {
      RunInv(ss, es, k - 1);
      StepInv(ss[k - 1], es[k - 1], ss[k]);
    }
  }

  /** Along a run whose write-protection faults are in areas that may be written, nothing else can be stored to. */
  lemma {:induction false} RunRights(ss: seq<State>, es: seq<Step>, k: nat)
    requires Run(ss, es) && k < |ss|
    requires forall i :: 0 <= i < k ==> Permitted(ss[i], es[i])
    ensures Inv(ss[k]) && Rights(ss[k])
  {
    RunInv(ss, es, k);
    if k > 0 {
      RunRights(ss, es, k - 1);
      StepRights(ss[k - 1], es[k - 1], ss[k]);
    }
  }

  /** Copy-on-write refines copying: along every run the pages read what the simple machine says. */
  lemma {:induction false} CopyOnWriteRefinesCopy(ss: seq<State>, es: seq<Step>, k: nat)
    requires Run(ss, es) && k < |es|
    ensures Inv(ss[k]) && Inv(ss[k + 1]) && SimpleNext(Abs(ss[k]), es[k], Abs(ss[k + 1]))
  {
    RunInv(ss, es, k);
    StepRefines(ss[k], es[k], ss[k + 1]);
  }

  /** In the simple machine only a store to a private page, or its mapping or unmapping, changes what it reads. */
  lemma {:induction false} SimpleIsolation(a: Simple, e: Step, b: Simple, q: Page)
    requires SimpleNext(a, e, b) && q in a.view && q !in a.link
    requires !e.AnonFault? && e != UnmapPage(q) && !(e.Store? && e.page == q) && (e.Fork? ==> q.space != e.to)
    ensures q in b.view && b.view[q] == a.view[q]
  {
    if e.Fork? { assert Origin(e.from, e.to, q) == q; }
  }

  /** Whatever step is taken, a private page that was not stored to or unmapped by it reads as before. */
  lemma {:induction false} PrivateIsolation(ss: seq<State>, es: seq<Step>, k: nat, q: Page)
    requires Run(ss, es) && k < |es| && Typed(ss[k]) && q in ss[k].pt && !Shared(ss[k], q)
    requires es[k] != UnmapPage(q) && !(es[k].Store? && es[k].page == q)
    ensures Typed(ss[k + 1]) && q in View(ss[k + 1]) && View(ss[k + 1])[q] == View(ss[k])[q]
  {
    CopyOnWriteRefinesCopy(ss, es, k);
    NotNew(ss[k], es[k], ss[k + 1], q);
    if es[k].AnonFault? {
      OtherPageMapped(Abs(ss[k]), es[k], Abs(ss[k + 1]), q);
    } else {
      SimpleIsolation(Abs(ss[k]), es[k], Abs(ss[k + 1]), q);
    }
  }

  lemma {:induction false} NotNew(s: State, e: Step, t: State, q: Page)
    requires Typed(s) && Next(s, e, t) && q in s.pt
    ensures e.Fork? ==> q.space != e.to
    ensures e.AnonFault? ==> q != e.page
  {
  }

  lemma {:induction false} OtherPageMapped(a: Simple, e: Step, b: Simple, q: Page)
    requires SimpleNext(a, e, b) && e.AnonFault? && q in a.view && q != e.page
    ensures q in b.view && b.view[q] == a.view[q]
  {
  }
}
