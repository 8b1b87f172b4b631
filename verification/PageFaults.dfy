/**
  The handlers themselves: the page-fault paths of kernel/src/mm/fault.rs, and the cloning and
  unmapping of kernel/src/mm/ucontext.rs, each proved to take steps of the machine of module Cow.
 */
module PageFaults {
  import opened Cow

  datatype FaultReason = Completed | OutOfMemory
  datatype CloneResult = Cloned | NoMemory | Panic

  // ---------- a clone in progress ----------

  /** `ids` gives some areas of the original a new area, `done` holds the pages of the original that were copied. */
  ghost predicate Cloning(s0: State, s: State, a: nat, b: nat, ids: map<Vma, Vma>, done: set<Page>)
    requires Typed(s0)
  {
    && PartIds(s0.areas, ids) && PartAreas(s0.areas, ids, s.areas) && PartOwner(s0.owner, s.owner, a, b, ids, done)
    && PartRmap(s0, s.rmap, a, ids, done) && TablesCloned(s0, s.pt, a, b)
    && s.bytes == s0.bytes && s.free == s0.free
  }

  ghost predicate PartIds(areas: map<Vma, Area>, ids: map<Vma, Vma>) {
    && (forall v :: v in ids ==> v in areas && ids[v] !in areas)
    && (forall v, w :: v in ids && w in ids && ids[v] == ids[w] ==> v == w)
  }

  ghost predicate PartAreas(areas: map<Vma, Area>, ids: map<Vma, Vma>, areas': map<Vma, Area>) {
    && areas'.Keys == areas.Keys + ids.Values
    && (forall v :: v in areas && v in areas' ==> areas'[v] == areas[v])
    && (forall v :: v in ids && v in areas && ids[v] in areas' ==> areas'[ids[v]] == areas[v])
  }

  ghost predicate PartOwner(
      owner: map<Page, Vma>, owner': map<Page, Vma>, a: nat, b: nat, ids: map<Vma, Vma>, done: set<Page>)
  {
    && (forall p :: p in done ==> p in owner && p.space == a && owner[p] in ids)
    && (forall p :: p in owner' <==> (if p.space == b then Origin(a, b, p) in done else p in owner))
    && (forall p :: p in owner' && p.space != b ==> owner'[p] == owner[p])
    && (forall p :: p in owner' && p.space == b ==> owner'[p] == ids[owner[Origin(a, b, p)]])
  }

  ghost predicate PartRmap(s0: State, rmap: map<Frame, set<Vma>>, a: nat, ids: map<Vma, Vma>, done: set<Page>)
    requires Typed(s0)
  {
    && rmap.Keys == s0.rmap.Keys
    && (forall f, w :: f in rmap && w in rmap[f] ==> w in s0.rmap[f] || Inherits(s0, a, f, ids, w))
    && (forall f :: f in rmap ==> s0.rmap[f] <= rmap[f])
    && (forall p :: p in done && p in s0.pt && s0.owner[p] in ids ==> ids[s0.owner[p]] in rmap[s0.pt[p].frame])
  }

  ghost predicate TablesCloned(s0: State, pt: map<Page, Pte>, a: nat, b: nat) {
    && (forall p :: p in pt <==> Origin(a, b, p) in s0.pt)
    && (forall p :: p in pt ==> pt[p] == ForkPte(s0, a, b, p))
  }

  /** The entries of the original, which lose the right to write in the space that is cloned. */
  function ReadOnly(pt: map<Page, Pte>, a: nat): map<Page, Pte> {
    map p | p in pt :: if p.space == a then Pte(pt[p].frame, false) else pt[p]
  }

  /** The entries of the copy. */
  function Copies(pt: map<Page, Pte>, a: nat, b: nat): map<Page, Pte> {
    map p | p in pt && p.space == a :: Page(b, p.vpn) := Pte(pt[p].frame, false)
  }

  lemma {:induction false} CopiesExact(pt: map<Page, Pte>, a: nat, b: nat, p: Page)
    ensures p in Copies(pt, a, b) <==> p.space == b && Page(a, p.vpn) in pt
    ensures p in Copies(pt, a, b) ==> Copies(pt, a, b)[p] == Pte(pt[Page(a, p.vpn)].frame, false)
  {
    if p.space == b && Page(a, p.vpn) in pt { assert p == Page(b, Page(a, p.vpn).vpn); }
  }

  lemma {:induction false} TablesCopied(s: State, a: nat, b: nat)
    requires a != b && forall p :: p in s.pt ==> p.space != b
    ensures TablesCloned(s, ReadOnly(s.pt, a) + Copies(s.pt, a, b), a, b)
  {
    var pt := ReadOnly(s.pt, a) + Copies(s.pt, a, b);
    forall p ensures p in pt <==> Origin(a, b, p) in s.pt
      ensures p in pt ==> pt[p] == ForkPte(s, a, b, p)
    {
      CopiesExact(s.pt, a, b, p);
    }
  }

  lemma {:induction false} NothingCloned(s0: State, s: State, a: nat, b: nat)
    requires Typed(s0) && (forall p :: p in s0.owner ==> p.space != b)
    requires s == s0.(pt := s.pt) && TablesCloned(s0, s.pt, a, b)
    ensures Cloning(s0, s, a, b, map[], {})
  {
  }

  lemma {:induction false} CloningDone(s0: State, s: State, a: nat, b: nat, ids: map<Vma, Vma>, done: set<Page>)
    requires Typed(s0) && a != b && (forall p :: p in s0.owner ==> p.space != b) && Cloning(s0, s, a, b, ids, done)
    requires forall p :: p in s0.owner && p.space == a ==> p in done
    ensures Next(s0, Fork(a, b, ids), s)
  {
    IdsDone(s0, s, a, b, ids, done);
    RmapDone(s0, s, a, ids, done);
  }

  lemma {:induction false} IdsDone(s0: State, s: State, a: nat, b: nat, ids: map<Vma, Vma>, done: set<Page>)
    requires Typed(s0) && a != b && (forall p :: p in s0.owner ==> p.space != b)
    requires PartIds(s0.areas, ids) && PartAreas(s0.areas, ids, s.areas)
    requires PartOwner(s0.owner, s.owner, a, b, ids, done)
    requires forall p :: p in s0.owner && p.space == a ==> p in done
    ensures FreshIds(s0, a, ids) && AreasCopied(s0.owner, s0.areas, a, b, ids, s.owner, s.areas)
  {
  }

  lemma {:induction false} RmapDone(s0: State, s: State, a: nat, ids: map<Vma, Vma>, done: set<Page>)
    requires Typed(s0) && FreshIds(s0, a, ids) && PartRmap(s0, s.rmap, a, ids, done)
    requires forall p :: p in s0.owner && p.space == a ==> p in done
    ensures RmapForked(s0, s, a, ids)
  {
    forall p | p in s0.pt && p.space == a ensures ids[s0.owner[p]] in s.rmap[s0.pt[p].frame] {
      assert p in done;
    }
  }

  lemma {:induction false} IdsGrow(areas: map<Vma, Area>, ids: map<Vma, Vma>, areas': map<Vma, Area>, v: Vma, id: Vma)
    requires PartIds(areas, ids) && PartAreas(areas, ids, areas') && v in areas && v !in ids && id !in areas'
    ensures PartIds(areas, ids[v := id]) && PartAreas(areas, ids[v := id], areas'[id := areas[v]])
  {
    var ids' := ids[v := id];
    assert ids'.Values == ids.Values + {id} by {
      assert forall w :: w in ids ==> w in ids' && ids'[w] == ids[w];
      assert v in ids';
    }
    forall w | w in ids ensures ids[w] != id {
      assert ids[w] in ids.Values;
    }
  }

  lemma {:induction false} OwnerGrows(
      owner: map<Page, Vma>, owner': map<Page, Vma>, a: nat, b: nat, ids: map<Vma, Vma>, done: set<Page>, v: Vma,
      id: Vma)
    requires PartOwner(owner, owner', a, b, ids, done) && v !in ids
    ensures PartOwner(owner, owner', a, b, ids[v := id], done)
  {
  }

  lemma {:induction false} RmapGrows(
      s0: State, rmap: map<Frame, set<Vma>>, a: nat, ids: map<Vma, Vma>, done: set<Page>, v: Vma, id: Vma)
    requires Typed(s0) && PartRmap(s0, rmap, a, ids, done) && v !in ids && forall p :: p in done ==>
      p in s0.owner && s0.owner[p] in ids
    ensures PartRmap(s0, rmap, a, ids[v := id], done)
  {
    var ids' := ids[v := id];
    forall f, w | f in rmap && w in rmap[f] && w !in s0.rmap[f] ensures Inherits(s0, a, f, ids', w) {
      var p, u :| Maps(s0, p, f, u) && p.space == a && u in ids && ids[u] == w;
      assert u in ids' && ids'[u] == w;
    }
  }

  /** A new area is known before any page of it is. */
  lemma {:induction false} CloningArea(
      s0: State, s: State, a: nat, b: nat, ids: map<Vma, Vma>, done: set<Page>, v: Vma, id: Vma)
    requires Typed(s0) && Cloning(s0, s, a, b, ids, done) && v in s0.areas && v !in ids && id !in s.areas
    ensures v in s.areas && Cloning(s0, s.(areas := s.areas[id := s.areas[v]]), a, b, ids[v := id], done)
  {
    IdsGrow(s0.areas, ids, s.areas, v, id);
    OwnerGrows(s0.owner, s.owner, a, b, ids, done, v, id);
    RmapGrows(s0, s.rmap, a, ids, done, v, id);
  }

  /** The pages of an area of the original are where they were. */
  lemma {:induction false} OriginalPages(
      owner: map<Page, Vma>, owner': map<Page, Vma>, a: nat, b: nat, ids: map<Vma, Vma>, done: set<Page>, v: Vma,
      pages: set<Page>)
    requires a != b && PartOwner(owner, owner', a, b, ids, done)
    requires forall p :: p in pages <==> p in owner' && p.space == a && owner'[p] == v
    ensures forall p :: p in pages <==> p in owner && p.space == a && owner[p] == v
  {
  }

  /** The state with one more page copied. */
  function PageCopied(s: State, b: nat, id: Vma, p: Page): State {
    var q := Page(b, p.vpn);
    s.(owner := s.owner[q := id], rmap := if q in s.pt then Joined(s.rmap, s.pt[q].frame, id) else s.rmap)
  }

  lemma {:induction false} CopyPage(s0: State, s: State, a: nat, b: nat, ids: map<Vma, Vma>, done: set<Page>, p: Page)
    requires Typed(s0) && Cloning(s0, s, a, b, ids, done) && a != b && p in s0.owner && p.space == a
    requires s0.owner[p] in ids
    ensures Cloning(s0, PageCopied(s, b, ids[s0.owner[p]], p), a, b, ids, done + {p})
  {
    assert Origin(a, b, Page(b, p.vpn)) == p;
    CopyOwner(s0.owner, s.owner, a, b, ids, done, p);
    CopyRmap(s0, s.rmap, PageCopied(s, b, ids[s0.owner[p]], p).rmap, a, ids, done, p);
  }

  lemma {:induction false} CopyOwner(
      owner: map<Page, Vma>, owner': map<Page, Vma>, a: nat, b: nat, ids: map<Vma, Vma>, done: set<Page>, p: Page)
    requires PartOwner(owner, owner', a, b, ids, done) && a != b && p in owner && p.space == a && owner[p] in ids
    ensures PartOwner(owner, owner'[Page(b, p.vpn) := ids[owner[p]]], a, b, ids, done + {p})
  {
    assert Origin(a, b, Page(b, p.vpn)) == p;
    forall q: Page | q.space == b && Origin(a, b, q) == p ensures q == Page(b, p.vpn) {}
  }

  lemma {:induction false} CopyRmap(
      s0: State, r: map<Frame, set<Vma>>, r': map<Frame, set<Vma>>, a: nat, ids: map<Vma, Vma>, done: set<Page>,
      p: Page)
    requires Typed(s0) && PartRmap(s0, r, a, ids, done) && p in s0.owner && p.space == a && s0.owner[p] in ids
    requires r' == if p in s0.pt then Joined(r, s0.pt[p].frame, ids[s0.owner[p]]) else r
    ensures PartRmap(s0, r', a, ids, done + {p})
  {
    if p in s0.pt { assert Maps(s0, p, s0.pt[p].frame, s0.owner[p]); }
  }

  /** `insert_vma` */
  function Joined(rmap: map<Frame, set<Vma>>, f: Frame, v: Vma): map<Frame, set<Vma>> {
    if f in rmap then rmap[f := rmap[f] + {v}] else rmap
  }

  /** What a fault leaves behind for the process. */
  lemma {:induction false} FaultSeen(s: State, e: Step, t: State, p: Page)
    requires Inv(s) && Next(s, e, t) && (e.AnonFault? || e.WpFault?) && e.page == p
    ensures Inv(t) && t.owner == s.owner && t.areas == s.areas
    ensures p in t.pt && t.pt[p].write == (e.WpFault? || s.areas[s.owner[p]].write)
    ensures View(t) == if e.WpFault? then View(s) else View(s)[p := ZeroPage()]
    ensures Rights(s) && Permitted(s, e) ==> Rights(t)
  {
    StepRefines(s, e, t);
    if Rights(s) { StepRights(s, e, t); }
  }

  /** All user memory: the areas, the page tables (flat) and the page manager. */
  class UserMemory {
    var owner: map<Page, Vma>
    var areas: map<Vma, Area>
    var pt: map<Page, Pte>
    var rmap: map<Frame, set<Vma>>
    var bytes: map<Frame, Bytes>
    var free: set<Frame>

    ghost function State(): State
      reads this
    {
      Cow.State(owner, areas, pt, rmap, bytes, free)
    }

    constructor (free: set<Frame>)
      ensures Initial(State()) && Inv(State()) && this.free == free
    {
      owner, areas, pt, rmap, bytes, this.free := map[], map[], map[], map[], map[], free;
    }

    /** `do_anonymous_page` */
    method DoAnonymousPage(p: Page) returns (r: FaultReason, ghost f: Frame)
      requires Inv(State()) && p in owner && p !in pt
      modifies this
      ensures r == OutOfMemory <==> old(free) == {}
      ensures r == OutOfMemory ==> State() == old(State())
      ensures r == Completed ==> Next(old(State()), AnonFault(p, f), State()) && Inv(State())
    {
      ghost var s := State();
      f := 0;
      if free == {} {
        return OutOfMemory, f;
      }
      var frame :| frame in free;
      var v := owner[p];
      free := free - {frame};
      bytes := bytes[frame := ZeroPage()];
      pt := pt[p := Pte(frame, areas[v].write)];
      rmap := rmap[frame := {v}];
      assert Next(s, AnonFault(p, frame), State());
      StepInv(s, AnonFault(p, frame), State());
      return Completed, frame;
    }

    /** `do_wp_page` for anonymous areas: in place when shared or alone, else into a copy. */
    method DoWpPage(p: Page) returns (r: FaultReason, ghost f: Frame)
      requires Inv(State()) && p in pt && !pt[p].write
      modifies this
      ensures r == OutOfMemory <==> old(!Shared(State(), p) && !Alone(State(), p) && free == {})
      ensures r == OutOfMemory ==> State() == old(State())
      ensures r == Completed ==> Next(old(State()), WpFault(p, f), State()) && Inv(State()) && pt[p].write
    {
      ghost var s := State();
      f := 0;
      r := Completed;
      var oldFrame := pt[p].frame;
      var v := owner[p];
      var mapCount := |rmap[oldFrame]|;
      if areas[v].shared {
        pt := pt[p := Pte(oldFrame, true)];
      } else if mapCount == 1 {
        pt := pt[p := Pte(oldFrame, true)];
      } else if free == {} {
        return OutOfMemory, f;
      } else {
        var frame :| frame in free;
        f := frame;
        free := free - {frame};
        pt := pt[p := Pte(frame, true)];
        rmap := rmap[oldFrame := rmap[oldFrame] - {v}];
        rmap := rmap[frame := {v}];
        bytes := bytes[frame := bytes[oldFrame]];
      }
      assert Next(s, WpFault(p, f), State());
      StepInv(s, WpFault(p, f), State());
    }

    /**
      `handle_pte_fault` for an anonymous area.  Unless memory runs out, a write access to a
      writable area finds a writable page afterwards, and nothing that was mapped reads differently.
     */
    method HandlePteFault(p: Page, write: bool) returns (r: FaultReason)
      requires Inv(State()) && p in owner && (write ==> areas[owner[p]].write)
      modifies this
      ensures Inv(State()) && owner == old(owner) && areas == old(areas)
      ensures r == Completed ==> p in pt && (write ==> pt[p].write)
      ensures r == Completed && p !in old(pt) ==> pt[p].write == areas[owner[p]].write
      ensures Rights(old(State())) ==> Rights(State())
      ensures r == OutOfMemory <==>
        old(free == {} && (p !in pt || (write && !pt[p].write && !Shared(State(), p) && !Alone(State(), p))))
      ensures r == OutOfMemory ==> State() == old(State())
      ensures r == Completed ==>
        View(State()) == if p in old(pt) then View(old(State())) else View(old(State()))[p := ZeroPage()]
    {
      ghost var s := State();
      ghost var f;
      if p in pt {
        r := Completed;
        if write && !pt[p].write {
          r, f := DoWpPage(p);
          if r == Completed { FaultSeen(s, WpFault(p, f), State(), p); }
        }
      } else {
        r, f := DoAnonymousPage(p);
        if r == Completed { FaultSeen(s, AnonFault(p, f), State(), p); }
      }
    }

    /** One round of `LockedVMA::unmap`. */
    method UnmapOne(p: Page)
      requires Inv(State()) && p in pt
      modifies `pt, `rmap, `bytes, `free
      ensures Next(old(State()), UnmapPage(p), State()) && Inv(State())
    {
      ghost var s := State();
      var frame, v := pt[p].frame, owner[p];
      pt := pt - {p};
      var left := rmap[frame] - {v};
      RemoveUpdated(rmap, frame, left);
      rmap := rmap[frame := left];
      if |left| == 0 {
        rmap := rmap - {frame};
        bytes := bytes - {frame};
        free := free + {frame};
      }
      assert State() == Unmapped(s, p);
      StepInv(s, UnmapPage(p), State());
    }

    /**
      `LockedVMA::unmap` and the removal of the area: the pages of the area are gone, a frame is
      free exactly if it was free or nobody else maps it, and other areas have the pages they had,
      mapped or not, and read what they read.
     */
    method Unmap(v: Vma)
      requires Inv(State()) && v in areas
      modifies this
      ensures Inv(State()) && areas == old(areas) - {v} && Gone(old(State()), State(), v)
    {
      ghost var s := State();
      UnmapAll(v);
      ghost var t := State();
      owner := map p | p in owner && owner[p] != v :: owner[p];
      areas := areas - {v};
      AreaGone(s, t, State(), v);
    }

    /** The loop of `LockedVMA::unmap`. */
    method UnmapAll(v: Vma)
      requires Inv(State())
      modifies `pt, `rmap, `bytes, `free
      ensures Inv(State()) && Freed(old(State()), State(), v) && Trimmed(old(State()), State(), v, {})
    {
      ghost var s := State();
      var todo := set p | p in owner && owner[p] == v;
      while todo != {}
        invariant Inv(State()) && Freed(s, State(), v) && Trimmed(s, State(), v, todo)
        decreases |todo|
      {
        var p :| p in todo;
        ghost var t, all := State(), todo;
        todo := todo - {p};
        if p in pt {
          UnmapOne(p);
        }
        UnmapRound(s, t, State(), v, all, p);
      }
    }

    /**
      `try_clone` of a space whose root table has `tables` tables below its user half.  Without a
      frame for the new root it fails, without frames for the other tables it panics; otherwise the
      tables take their frames and the fork step is made.
     */
    method TryClone(
        a: nat, b: nat, tables: nat)
        returns (r: CloneResult, ghost taken: set<Frame>, ghost ids: map<Vma, Vma>)
      requires Inv(State()) && a != b && forall p :: p in owner ==> p.space != b
      modifies this
      ensures r == if old(free) == {} then NoMemory else if 1 + tables > |old(free)| then Panic else Cloned
      ensures r == NoMemory ==> State() == old(State())
      ensures r == Cloned ==>
        |taken| == 1 + tables && Inv(State()) && ClonedVia(old(State()), State(), a, b, taken, ids)
    {
      ids, taken := map[], {};
      var root := TakeFrames(1);
      if !root {
        return NoMemory, taken, ids;
      }
      var ok := TakeFrames(tables);
      if !ok {
        return Panic, taken, ids;
      }
      taken := old(free) - free;
      TakenSize(old(free), free);
      assert Next(old(State()), TakeTables(taken), State());
      StepInv(old(State()), TakeTables(taken), State());
      ids := CloneSpace(a, b);
      r := Cloned;
    }

    /** Frames for page tables. */
    method TakeFrames(n: nat) returns (ok: bool)
      modifies `free
      ensures ok <==> n <= |old(free)|
      ensures free <= old(free) && (ok ==> |free| == |old(free)| - n) && (!ok ==> free == {})
    {
      var i := 0;
      while i < n
        invariant i <= n && free <= old(free) && |free| + i == |old(free)|
      {
        if free == {} {
          return false;
        }
        var frame :| frame in free;
        free := free - {frame};
        i := i + 1;
      }
      ok := true;
    }

    /** The rest of `try_clone`: takes the fork step. */
    method CloneSpace(a: nat, b: nat) returns (ghost ids: map<Vma, Vma>)
      requires Inv(State()) && a != b && forall p :: p in owner ==> p.space != b
      modifies this
      ensures Next(old(State()), Fork(a, b, ids), State()) && Inv(State())
    {
      ghost var s0 := State();
      CloneTables(a, b);
      NothingCloned(s0, State(), a, b);
      ghost var done;
      ids, done := CloneAreas(a, b, s0);
      CloningDone(s0, State(), a, b, ids, done);
      ForkInv(s0, State(), a, b, ids);
    }

    /** The loop over the areas. */
    method CloneAreas(a: nat, b: nat, ghost s0: State) returns (ghost ids: map<Vma, Vma>, ghost done: set<Page>)
      requires Typed(s0) && a != b && owner == s0.owner && Cloning(s0, State(), a, b, map[], {})
      modifies `owner, `areas, `rmap
      ensures Cloning(s0, State(), a, b, ids, done) && forall p :: p in s0.owner && p.space == a ==> p in done
    {
      ids, done := map[], {};
      var todo := set p | p in owner && p.space == a :: owner[p];
      while todo != {}
        invariant Cloning(s0, State(), a, b, ids, done)
        invariant forall v :: v in todo ==> v in s0.areas && v !in ids
        invariant forall p :: p in s0.owner && p.space == a ==> p in done || s0.owner[p] in todo
        decreases |todo|
      {
        var v :| v in todo;
        todo := todo - {v};
        ghost var id;
        id, done := CloneArea(a, b, v, s0, ids, done);
        ids := ids[v := id];
      }
    }

    /** The page tables of the new space, as `PageTable::clone` leaves both sides. */
    method CloneTables(a: nat, b: nat)
      requires Typed(State()) && a != b && forall p :: p in pt ==> p.space != b
      modifies `pt
      ensures TablesCloned(old(State()), pt, a, b)
    {
      TablesCopied(State(), a, b);
      pt := ReadOnly(pt, a) + Copies(pt, a, b);
    }

    /** Copies one area and registers the copy with the pages it maps. */
    method CloneArea(a: nat, b: nat, v: Vma, ghost s0: State, ghost ids: map<Vma, Vma>, ghost done: set<Page>)
      returns (ghost id: Vma, ghost done': set<Page>)
      requires Typed(s0) && a != b && Cloning(s0, State(), a, b, ids, done) && v in s0.areas && v !in ids
      modifies `owner, `areas, `rmap
      ensures Cloning(s0, State(), a, b, ids[v := id], done') && done <= done'
      ensures forall p :: p in s0.owner && p.space == a && s0.owner[p] == v ==> p in done'
    {
      var newId := CopyArea(a, b, v, s0, ids, done);
      id := newId;
      var pages := PagesOf(a, v);
      OriginalPages(s0.owner, owner, a, b, ids[v := id], done, v, pages);
      done' := ClonePages(a, b, v, newId, pages, s0, ids[v := id], done);
    }

    method CopyArea(
        a: nat, b: nat, v: Vma, ghost s0: State, ghost ids: map<Vma, Vma>, ghost done: set<Page>)
        returns (id: Vma)
      requires Typed(s0) && Cloning(s0, State(), a, b, ids, done) && v in s0.areas && v !in ids
      modifies `areas
      ensures Cloning(s0, State(), a, b, ids[v := id], done)
    {
      ghost var s := State();
      id := FreshId(areas.Keys);
      CloningArea(s0, s, a, b, ids, done, v, id);
      areas := areas[id := areas[v]];
      assert State() == s.(areas := s.areas[id := s.areas[v]]);
    }

    method PagesOf(a: nat, v: Vma) returns (pages: set<Page>)
      ensures forall p :: p in pages <==> p in owner && p.space == a && owner[p] == v
    {
      pages := set p | p in owner && p.space == a && owner[p] == v;
    }

    method ClonePages(
        a: nat, b: nat, v: Vma, id: Vma, pages: set<Page>, ghost s0: State, ghost ids: map<Vma, Vma>,
        ghost done: set<Page>)
        returns (ghost done': set<Page>)
      requires Typed(s0) && a != b && Cloning(s0, State(), a, b, ids, done) && v in ids && ids[v] == id
      requires forall p :: p in pages ==> p in s0.owner && p.space == a && s0.owner[p] == v
      modifies `owner, `rmap
      ensures Cloning(s0, State(), a, b, ids, done') && done + pages <= done'
    {
      var left := pages;
      done' := done;
      while left != {}
        invariant Cloning(s0, State(), a, b, ids, done') && left <= pages && done <= done' && pages - left <= done'
        decreases |left|
      {
        var p :| p in left;
        left := left - {p};
        CopyPage(s0, State(), a, b, ids, done', p);
        ClonePage(b, id, p);
        done' := done' + {p};
      }
    }

    method ClonePage(b: nat, id: Vma, p: Page)
      modifies `owner, `rmap
      ensures State() == PageCopied(old(State()), b, id, p)
    {
      var q := Page(b, p.vpn);
      owner := owner[q := id];
      if q in pt {
        rmap := Joined(rmap, pt[q].frame, id);
      }
    }

    /** An area number that is not in use. */
    method FreshId(used: set<Vma>) returns (id: Vma)
      ensures id !in used
    {
      id := 0;
      var left := used;
      while id in left
        invariant left <= used && forall v :: v in used && v !in left ==> v < id
        decreases |left|
      {
        left := left - {id};
        id := id + 1;
      }
      if id in used { assert false; }
    }
  }

  /** A clone is two steps: frames become page tables, and the space is forked. */
  ghost predicate ClonedVia(s: State, t: State, a: nat, b: nat, taken: set<Frame>, ids: map<Vma, Vma>)
    requires Typed(s)
  {
    var mid := s.(free := s.free - taken);
    Next(s, TakeTables(taken), mid) && Typed(mid) && Next(mid, Fork(a, b, ids), t)
  }

  lemma {:induction false} TakenSize(free: set<Frame>, left: set<Frame>)
    requires left <= free
    ensures |free - left| == |free| - |left| && free - (free - left) == left
  {
    assert free == left + (free - left);
  }

  // ---------- an unmapping in progress ----------

  lemma {:induction false} RemoveUpdated<K, V>(m: map<K, V>, k: K, v: V)
    ensures m[k := v] - {k} == m - {k}
  {
  }

  /** Only pages of `v` outside `todo` have gone; the others map and read what they did. */
  ghost predicate Trimmed(s: State, t: State, v: Vma, todo: set<Page>) {
    && t.owner == s.owner && t.areas == s.areas && Typed(s) && Typed(t)
    && (forall p :: p in todo ==> p in s.owner && s.owner[p] == v)
    && (forall p :: p in t.pt <==> p in s.pt && (s.owner[p] != v || p in todo))
    && (forall p :: p in t.pt ==> t.pt[p] == s.pt[p] && t.bytes[t.pt[p].frame] == s.bytes[s.pt[p].frame])
  }

  lemma {:induction false} UnmapTrims(s: State, t: State, u: State, v: Vma, todo: set<Page>, p: Page)
    requires Trimmed(s, t, v, todo) && p in todo && (if p in t.pt then u == Unmapped(t, p) else u == t) && Typed(u)
    ensures Trimmed(s, u, v, todo - {p})
  {
  }

  lemma {:induction false} UnmapRound(s: State, t: State, u: State, v: Vma, todo: set<Page>, p: Page)
    requires Inv(t) && Freed(s, t, v) && Trimmed(s, t, v, todo) && p in todo
    requires (if p in t.pt then u == Unmapped(t, p) else u == t) && Typed(u)
    ensures Freed(s, u, v) && Trimmed(s, u, v, todo - {p})
  {
    UnmapTrims(s, t, u, v, todo, p);
    if p in t.pt { UnmapFrees(s, t, u, v, p); }
  }

  /** Between the two states only mappings of `v` were given up, and frames with no area left were freed. */
  ghost predicate Freed(s: State, t: State, v: Vma) {
    && t.rmap.Keys <= s.rmap.Keys
    && (forall f :: f in t.rmap ==> t.rmap[f] == s.rmap[f] || t.rmap[f] == s.rmap[f] - {v})
    && (forall f :: f in s.rmap && f !in t.rmap ==> s.rmap[f] == {v})
    && (forall f :: f in t.free <==> f in s.free || (f in s.rmap && f !in t.rmap))
  }

  lemma {:induction false} UnmapFrees(s: State, t: State, u: State, v: Vma, p: Page)
    requires Inv(t) && Freed(s, t, v) && p in t.pt && t.owner[p] == v && u == Unmapped(t, p)
    ensures Freed(s, u, v)
  {
    assert v in t.rmap[t.pt[p].frame];
  }

  /** Without area `v`, the other pages read what they read; the frames that only `v` mapped are free. */
  ghost predicate Gone(s: State, t: State, v: Vma)
    requires Typed(s) && Typed(t)
  {
    && t.owner == (map p | p in s.owner && s.owner[p] != v :: s.owner[p])
    && (forall p :: p in t.pt <==> p in s.pt && s.owner[p] != v)
    && (forall p :: p in t.pt ==> t.pt[p] == s.pt[p] && View(t)[p] == View(s)[p])
    && (forall f :: f in t.free <==> f in s.free || (f in s.rmap && s.rmap[f] == {v}))
  }

  lemma {:induction false} AreaGone(s: State, t: State, u: State, v: Vma)
    requires Inv(t) && v in t.areas && Freed(s, t, v) && Trimmed(s, t, v, {}) && u == AreaDropped(t, v)
    ensures Inv(u) && Gone(s, u, v)
  {
    AreasInv(t, DropArea(v), u);
    GoneView(s, t, u, v);
    AllFreed(s, t, v);
  }

  lemma {:induction false} GoneView(s: State, t: State, u: State, v: Vma)
    requires Trimmed(s, t, v, {}) && u == AreaDropped(t, v) && Typed(u)
    ensures forall p :: p in u.pt <==> p in s.pt && s.owner[p] != v
    ensures forall p :: p in u.pt ==> u.pt[p] == s.pt[p] && View(u)[p] == View(s)[p]
  {
  }

  lemma {:induction false} AllFreed(s: State, t: State, v: Vma)
    requires Freed(s, t, v) && Typed(t) && NoneStale(t) && forall p :: p in t.pt ==> t.owner[p] != v
    ensures forall f :: f in t.free <==> f in s.free || (f in s.rmap && s.rmap[f] == {v})
  {
    forall f | f in t.rmap ensures s.rmap[f] != {v} {
      var w :| w in t.rmap[f];
      var p :| Maps(t, p, f, w);
    }
  }
}
