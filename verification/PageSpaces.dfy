/**
  The trees of page tables and the flat maps of module Cow: what the operations on the tables do to
  the entries of one page is what the handlers do to the flat map, for all address spaces at once.
 */
module PageSpaces {
  import opened PageClone
  import opened PageWalk
  import opened Wrappers

  import C = Cow
  import F = PageFaults

  /** What an entry is to the flat map. */
  function Flat(e: Entry): C.Pte { C.Pte(e.frame, ReadWrite in e.flags) }

  /** The pages under the first `k` entries of the root. */
  predicate IsUser(page: nat, level: nat, k: nat) {
    page < Span(level + 1) && Digit(page, level) < k
  }

  /** Page `v` of space `a` is in the flat map what it translates to. */
  ghost predicate Shows(pt: map<C.Page, C.Pte>, a: nat, m: Memory, f: Frame, level: nat, k: nat, v: nat) {
    var p := C.Page(a, v);
    if IsUser(v, level, k) && PageXlate(m, f, level, v).Some?
    then p in pt && pt[p] == Flat(PageXlate(m, f, level, v).value.leaf)
    else p !in pt
  }

  /** The tree under `f` is the flat map of space `a`. */
  ghost predicate Represents(pt: map<C.Page, C.Pte>, a: nat, m: Memory, f: Frame, level: nat, k: nat) {
    forall v: nat :: Shows(pt, a, m, f, level, k, v)
  }

  /** Every space has a tree of its own, and together they are the flat map. */
  ghost predicate Spaces(
      pt: map<C.Page, C.Pte>, roots: map<nat, Frame>, m: Memory, free: set<Frame>, level: nat, k: nat)
  {
    && (forall c :: c in roots ==> Tree(m, roots[c], level, free) && Represents(pt, c, m, roots[c], level, k))
    && (forall c, d :: c in roots && d in roots && c != d ==> Apart(m, roots[c], roots[d], level))
    && (forall p :: p in pt ==> p.space in roots)
  }

  ghost predicate Apart(m: Memory, f: Frame, g: Frame, level: nat) {
    Reach(m, f, level) !! Reach(m, g, level)
  }

  /** The two flat maps agree outside space `a`. */
  ghost predicate SameElsewhere(pt: map<C.Page, C.Pte>, pt': map<C.Page, C.Pte>, a: nat) {
    forall p: C.Page :: p.space != a ==> (p in pt' <==> p in pt) && (p in pt ==> pt'[p] == pt[p])
  }

  // ---------- one space changes ----------

  /** A tree that was not touched represents what it did. */
  lemma {:induction false} OtherSpace(
      pt: map<C.Page, C.Pte>, pt': map<C.Page, C.Pte>, a: nat, c: nat, m: Memory, m': Memory, g: Frame, level: nat,
      k: nat)
    requires c != a && SameElsewhere(pt, pt', a) && SameXlate(m, m', g, level) && Represents(pt, c, m, g, level, k)
    ensures Represents(pt', c, m', g, level, k)
  {
    forall v: nat ensures Shows(pt', c, m', g, level, k, v) {
      assert Shows(pt, c, m, g, level, k, v);
      assert C.Page(c, v).space != a;
    }
  }

  /** A space whose tree changed within its own frames and the free ones leaves the other spaces alone. */
  lemma {:induction false} OtherTree(
      m: Memory, m': Memory, free: set<Frame>, free': set<Frame>, f: Frame, g: Frame, level: nat)
    requires Tree(m, g, level, free) && Apart(m, f, g, level) && Outside(m, m', Reach(m, f, level) + free)
    requires Reach(m', f, level) <= Reach(m, f, level) + free && free' <= free + Reach(m, f, level)
    ensures Tree(m', g, level, free') && Reach(m', g, level) == Reach(m, g, level) && SameXlate(m, m', g, level)
    ensures Apart(m', f, g, level) && Apart(m', g, f, level)
  {
    forall x | x in Reach(m, g, level) && x in m ensures x in m' && m'[x] == m[x] {
      assert x !in Reach(m, f, level) + free;
    }
    Untouched(m, m', g, level);
  }

  lemma {:induction false} SpaceStep(
      pt: map<C.Page, C.Pte>, pt': map<C.Page, C.Pte>, roots: map<nat, Frame>, a: nat, m: Memory, m': Memory,
      free: set<Frame>, free': set<Frame>, level: nat, k: nat)
    requires a in roots && Spaces(pt, roots, m, free, level, k) && SameElsewhere(pt, pt', a)
    requires Tree(m', roots[a], level, free') && Represents(pt', a, m', roots[a], level, k)
    requires Outside(m, m', Reach(m, roots[a], level) + free)
    requires Reach(m', roots[a], level) <= Reach(m, roots[a], level) + free
    requires free' <= free + Reach(m, roots[a], level)
    ensures Spaces(pt', roots, m', free', level, k)
  {
    forall c | c in roots && c != a
      ensures Tree(m', roots[c], level, free') && Represents(pt', c, m', roots[c], level, k)
      ensures Reach(m', roots[c], level) == Reach(m, roots[c], level)
      ensures Apart(m', roots[a], roots[c], level) && Apart(m', roots[c], roots[a], level)
    {
      assert Apart(m, roots[a], roots[c], level);
      OtherTree(m, m', free, free', roots[a], roots[c], level);
      OtherSpace(pt, pt', a, c, m, m', roots[c], level, k);
    }
    forall c, d | c in roots && d in roots && c != d ensures Apart(m', roots[c], roots[d], level) {
      if c != a && d != a { assert Apart(m, roots[c], roots[d], level); }
    }
  }

  /** The flat map with the entry `x` for page `p`. */
  function Entered(pt: map<C.Page, C.Pte>, p: C.Page, x: Option<Mapping>): map<C.Page, C.Pte> {
    match x case None => pt - {p} case Some(y) => pt[p := Flat(y.leaf)]
  }

  lemma {:induction false} PageEntered(
      pt: map<C.Page, C.Pte>, a: nat, m: Memory, m': Memory, f: Frame, level: nat, k: nat, v: nat, x: Option<Mapping>,
      grown: set<Frame>)
    requires Represents(pt, a, m, f, level, k) && IsUser(v, level, k)
    requires Changed(m, m', f, level, PathOf(v, level + 1), x, grown)
    ensures Represents(Entered(pt, C.Page(a, v), x), a, m', f, level, k)
  {
    OnlyPage(m, m', f, level, v, x, grown);
    forall w: nat ensures Shows(Entered(pt, C.Page(a, v), x), a, m', f, level, k, w) {
      assert Shows(pt, a, m, f, level, k, w);
    }
  }

  /** `map_phys` and `remap` of a user page: its entry in the flat map, and nothing else, changes. */
  lemma {:induction false} PageMapped(
      pt: map<C.Page, C.Pte>, roots: map<nat, Frame>, a: nat, m: Memory, m': Memory, free: set<Frame>,
      free': set<Frame>, level: nat, k: nat, v: nat, x: Option<Mapping>, grown: set<Frame>)
    requires a in roots && Spaces(pt, roots, m, free, level, k) && IsUser(v, level, k)
    requires Changed(m, m', roots[a], level, PathOf(v, level + 1), x, grown)
    requires Tree(m', roots[a], level, free') && Confined(m, free, m', free', roots[a], level)
    ensures Spaces(Entered(pt, C.Page(a, v), x), roots, m', free', level, k)
  {
    PageEntered(pt, a, m, m', roots[a], level, k, v, x, grown);
    SpaceStep(pt, Entered(pt, C.Page(a, v), x), roots, a, m, m', free, free', level, k);
  }

  /** `unmap_phys` of a user page: its entry leaves the flat map, and the tables it freed are free. */
  lemma {:induction false} PageUnmapped(
      pt: map<C.Page, C.Pte>, roots: map<nat, Frame>, a: nat, m: Memory, m': Memory, free: set<Frame>,
      free': set<Frame>, level: nat, k: nat, v: nat)
    requires a in roots && Spaces(pt, roots, m, free, level, k) && IsUser(v, level, k)
    requires Changed(m, m', roots[a], level, PathOf(v, level + 1), None, {}) && Tree(m', roots[a], level, free')
    requires Outside(m, m', Reach(m, roots[a], level)) && Freed(m, free, m', free', roots[a], level)
    ensures Spaces(pt - {C.Page(a, v)}, roots, m', free', level, k)
  {
    PageEntered(pt, a, m, m', roots[a], level, k, v, None, {});
    assert free' == free + (free' - free);
    SpaceStep(pt, pt - {C.Page(a, v)}, roots, a, m, m', free, free', level, k);
  }

  // ---------- the handlers ----------

  /** Mapping the new frame with the rights of the area is what `do_anonymous_page` does to the flat map. */
  lemma {:induction false} AnonFaultTables(
      s: C.State, p: C.Page, e: Entry, roots: map<nat, Frame>, m: Memory, m': Memory, free: set<Frame>,
      free': set<Frame>, level: nat, k: nat, above: seq<Flags>, grown: set<Frame>)
    requires C.Typed(s) && C.Enabled(s, C.AnonFault(p, e.frame))
    requires (ReadWrite in e.flags <==> s.areas[s.owner[p]].write)
    requires p.space in roots && Spaces(s.pt, roots, m, free, level, k) && IsUser(p.vpn, level, k)
    requires Changed(m, m', roots[p.space], level, PathOf(p.vpn, level + 1), Some(Mapping(e, above)), grown)
    requires Tree(m', roots[p.space], level, free') && Confined(m, free, m', free', roots[p.space], level)
    ensures Spaces(C.AnonFaulted(s, p, e.frame).pt, roots, m', free', level, k)
  {
    PageMapped(s.pt, roots, p.space, m, m', free, free', level, k, p.vpn, Some(Mapping(e, above)), grown);
  }

  /** A writable entry for the frame that stays, or for the copy, is what `do_wp_page` does to the flat map. */
  lemma {:induction false} WpFaultTables(
      s: C.State, p: C.Page, f: Frame, e: Entry, roots: map<nat, Frame>, m: Memory, m': Memory, free: set<Frame>,
      free': set<Frame>, level: nat, k: nat, above: seq<Flags>, grown: set<Frame>)
    requires C.Typed(s) && C.Enabled(s, C.WpFault(p, f)) && ReadWrite in e.flags
    requires e.frame == if C.Shared(s, p) || C.Alone(s, p) then s.pt[p].frame else f
    requires p.space in roots && Spaces(s.pt, roots, m, free, level, k) && IsUser(p.vpn, level, k)
    requires Changed(m, m', roots[p.space], level, PathOf(p.vpn, level + 1), Some(Mapping(e, above)), grown)
    requires Tree(m', roots[p.space], level, free') && Confined(m, free, m', free', roots[p.space], level)
    ensures Spaces(C.WpFaulted(s, p, f).pt, roots, m', free', level, k)
  {
    PageMapped(s.pt, roots, p.space, m, m', free, free', level, k, p.vpn, Some(Mapping(e, above)), grown);
  }

  /** Unmapping the page is what a round of `LockedVMA::unmap` does to the flat map. */
  lemma {:induction false} UnmapTables(
      s: C.State, p: C.Page, roots: map<nat, Frame>, m: Memory, m': Memory, free: set<Frame>, free': set<Frame>,
      level: nat, k: nat)
    requires C.Typed(s) && p in s.pt
    requires p.space in roots && Spaces(s.pt, roots, m, free, level, k) && IsUser(p.vpn, level, k)
    requires Changed(m, m', roots[p.space], level, PathOf(p.vpn, level + 1), None, {})
    requires Tree(m', roots[p.space], level, free')
    requires Outside(m, m', Reach(m, roots[p.space], level)) && Freed(m, free, m', free', roots[p.space], level)
    ensures Spaces(C.Unmapped(s, p).pt, roots, m', free', level, k)
  {
    PageUnmapped(s.pt, roots, p.space, m, m', free, free', level, k, p.vpn);
  }

  // ---------- the clone ----------

  /** The flat map after a clone. */
  function ClonedTables(pt: map<C.Page, C.Pte>, a: nat, b: nat): map<C.Page, C.Pte> {
    F.ReadOnly(pt, a) + F.Copies(pt, a, b)
  }

  function ClonedPte(pt: map<C.Page, C.Pte>, a: nat, b: nat, p: C.Page): C.Pte
    requires C.Origin(a, b, p) in pt
  {
    if p.space == a || p.space == b then C.Pte(pt[C.Origin(a, b, p)].frame, false) else pt[p]
  }

  lemma {:induction false} ClonedAt(pt: map<C.Page, C.Pte>, a: nat, b: nat, p: C.Page)
    requires a != b && forall q :: q in pt ==> q.space != b
    ensures var pt' := ClonedTables(pt, a, b);
      && (p in pt' <==> C.Origin(a, b, p) in pt)
      && (p in pt' ==> pt'[p] == ClonedPte(pt, a, b, p))
  {
    F.CopiesExact(pt, a, b, p);
  }

  /** The index of a page at the root is its highest nine bits. */
  lemma {:induction false} RootIndex(v: nat, level: nat)
    ensures Index(PathOf(v, level + 1), level) == Digit(v, level)
  {
  }

  /** The original and the copy represent the two sides of the clone. */
  lemma {:induction false} CloneShows(
      pt: map<C.Page, C.Pte>, a: nat, b: nat, m: Memory, free: set<Frame>, m': Memory, free': set<Frame>, f: Frame,
      n: Frame, level: nat, k: nat, v: nat)
    requires a != b && (forall q :: q in pt ==> q.space != b)
    requires Represents(pt, a, m, f, level, k) && UserCloned(m, free, m', free', f, n, level, k)
    ensures Shows(ClonedTables(pt, a, b), a, m', f, level, k, v)
    ensures Shows(ClonedTables(pt, a, b), b, m', n, level, k, v)
  {
    assert Shows(pt, a, m, f, level, k, v);
    ClonedAt(pt, a, b, C.Page(a, v));
    ClonedAt(pt, a, b, C.Page(b, v));
    RootIndex(v, level);
    var w := PathOf(v, level + 1);
    assert Xlate(m', f, level, w) == RoBelow(Xlate(m, f, level, w), Index(w, level) < k);
    assert Xlate(m', n, level, w) == if Index(w, level) < k then Cow(Xlate(m, f, level, w)) else None;
  }

  /** The tree of the copy shares no frame with any tree there was. */
  lemma {:induction false} CopyApart(
      m: Memory, free: set<Frame>, m': Memory, free': set<Frame>, f: Frame, n: Frame, g: Frame, level: nat, k: nat)
    requires UserCloned(m, free, m', free', f, n, level, k) && free !! Reach(m, g, level)
    requires Reach(m', g, level) <= Reach(m, g, level)
    ensures Apart(m', g, n, level)
  {
  }

  lemma {:induction false} CloneOriginal(
      pt: map<C.Page, C.Pte>, roots: map<nat, Frame>, a: nat, b: nat, m: Memory, m': Memory, free: set<Frame>,
      free': set<Frame>, n: Frame, level: nat, k: nat)
    requires a in roots && b !in roots && Spaces(pt, roots, m, free, level, k)
    requires UserCloned(m, free, m', free', roots[a], n, level, k)
    ensures var pt' := map p | p in ClonedTables(pt, a, b) && p.space != b :: ClonedTables(pt, a, b)[p];
      Spaces(pt', roots, m', free', level, k)
  {
    var pt' := map p | p in ClonedTables(pt, a, b) && p.space != b :: ClonedTables(pt, a, b)[p];
    forall p: C.Page | p.space != a ensures (p in pt' <==> p in pt) && (p in pt ==> pt'[p] == pt[p]) {
      ClonedAt(pt, a, b, p);
    }
    forall v: nat ensures Shows(pt', a, m', roots[a], level, k, v) {
      CloneShows(pt, a, b, m, free, m', free', roots[a], n, level, k, v);
    }
    SpaceStep(pt, pt', roots, a, m, m', free, free', level, k);
  }

  /** A space with a tree of its own can be added. */
  lemma {:induction false} SpaceAdded(
      pt: map<C.Page, C.Pte>, pt': map<C.Page, C.Pte>, roots: map<nat, Frame>, b: nat, n: Frame, m: Memory,
      free: set<Frame>, level: nat, k: nat)
    requires b !in roots && Spaces(pt, roots, m, free, level, k) && SameElsewhere(pt, pt', b)
    requires Tree(m, n, level, free) && Represents(pt', b, m, n, level, k)
    requires forall c :: c in roots ==> Apart(m, roots[c], n, level)
    ensures Spaces(pt', roots[b := n], m, free, level, k)
  {
    var rs := roots[b := n];
    forall c | c in rs ensures Tree(m, rs[c], level, free) && Represents(pt', c, m, rs[c], level, k) {
      if c != b { OtherSpace(pt, pt', b, c, m, m, roots[c], level, k); }
    }
    forall c, d | c in rs && d in rs && c != d ensures Apart(m, rs[c], rs[d], level) {
      if c == b {
        assert Apart(m, roots[d], n, level);
      } else if d == b {
        assert Apart(m, roots[c], n, level);
      } else {
        assert Apart(m, roots[c], roots[d], level);
      }
    }
    forall p | p in pt' ensures p.space in rs {
      if p.space != b { assert p in pt; }
    }
  }

  /** The tree of the copy is apart from all there was. */
  lemma {:induction false} CopyApartFromAll(
      pt: map<C.Page, C.Pte>, roots: map<nat, Frame>, a: nat, m: Memory, m': Memory, free: set<Frame>,
      free': set<Frame>, n: Frame, level: nat, k: nat)
    requires a in roots && Spaces(pt, roots, m, free, level, k)
    requires UserCloned(m, free, m', free', roots[a], n, level, k)
    ensures forall c :: c in roots ==> Apart(m', roots[c], n, level)
  {
    forall c | c in roots ensures Apart(m', roots[c], n, level) {
      CloneKeeps(pt, roots, a, c, m, m', free, free', n, level, k);
      CopyApart(m, free, m', free', roots[a], n, roots[c], level, k);
    }
  }

  /**
    `clone_user_mapping` into a new root: the trees of all spaces and the new one are the flat map
    that the fork step of module Cow ends in.
   */
  lemma {:induction false} SpaceCloned(
      s: C.State, roots: map<nat, Frame>, a: nat, b: nat, m: Memory, m': Memory, free: set<Frame>, free': set<Frame>,
      n: Frame, level: nat, k: nat)
    requires a in roots && b !in roots && Spaces(s.pt, roots, m, free, level, k)
    requires UserCloned(m, free, m', free', roots[a], n, level, k)
    ensures F.TablesCloned(s, ClonedTables(s.pt, a, b), a, b)
    ensures Spaces(ClonedTables(s.pt, a, b), roots[b := n], m', free', level, k)
  {
    var pt' := ClonedTables(s.pt, a, b);
    var pt1 := map p | p in pt' && p.space != b :: pt'[p];
    F.TablesCopied(s, a, b);
    CloneOriginal(s.pt, roots, a, b, m, m', free, free', n, level, k);
    forall v: nat ensures Shows(pt', b, m', n, level, k, v) {
      CloneShows(s.pt, a, b, m, free, m', free', roots[a], n, level, k, v);
    }
    CopyApartFromAll(s.pt, roots, a, m, m', free, free', n, level, k);
    SpaceAdded(pt1, pt', roots, b, n, m', free', level, k);
  }

  /** No tree grows in a clone. */
  lemma {:induction false} CloneKeeps(
      pt: map<C.Page, C.Pte>, roots: map<nat, Frame>, a: nat, c: nat, m: Memory, m': Memory, free: set<Frame>,
      free': set<Frame>, n: Frame, level: nat, k: nat)
    requires a in roots && c in roots && Spaces(pt, roots, m, free, level, k)
    requires UserCloned(m, free, m', free', roots[a], n, level, k)
    ensures Reach(m', roots[c], level) <= Reach(m, roots[c], level)
  {
    if c != a {
      assert Apart(m, roots[a], roots[c], level);
      OtherTree(m, m', free, free', roots[a], roots[c], level);
    }
  }
}
