/**
  The reader/upgrader/writer spin lock of kernel/src/libs/rwlock.rs: one 32-bit word, changed by
  atomic operations.  An agent is one attempt to take the lock together with the guard it leads
  to; each step is one atomic operation of one agent, and any interleaving is allowed.
 */
module RwLock {
  import opened Arith

  const READER := 4
  const UPGRADED := 2
  const WRITER := 1
  const WORDS := 0x1_0000_0000

  /** MAX_READERS << READER_BIT */
  const READER_LIMIT := 0x7fff_fffc

  /**
    Where an agent is.  `Undoing` has added itself to the readers and has to take that back;
    `UpgradeableUndoing` and `WritingUndoing` are the same within a downgrade.  `UpgradeableLeaving`
    and `WritingLeaving` have added themselves and have yet to drop the guard they came with.
   */
  datatype Phase =
    | Idle | Undoing | Reading
    | Upgradeable | UpgradeableUndoing | UpgradeableLeaving
    | Writing | WritingUndoing | WritingLeaving

  datatype State = State(word: nat, agents: seq<Phase>)

  /** Counted among the readers in the word. */
  predicate Counted(p: Phase) {
    p.Undoing? || p.Reading? || p.UpgradeableUndoing? || p.UpgradeableLeaving? || p.WritingUndoing? || p.WritingLeaving?
  }

  predicate HoldsRead(p: Phase) { p.Reading? }
  predicate HoldsUpgradeable(p: Phase) { p.Upgradeable? || p.UpgradeableUndoing? || p.UpgradeableLeaving? }
  predicate HoldsWrite(p: Phase) { p.Writing? || p.WritingUndoing? || p.WritingLeaving? }

  ghost function Num(ps: seq<Phase>, f: Phase -> bool): nat {
    if ps == [] then 0 else (if f(ps[0]) then 1 else 0) + Num(ps[1..], f)
  }

  // ---------- the word ----------

  function FlagsOf(w: nat): nat { w % READER }
  function Add(w: nat, d: nat): nat { (w + d) % WORDS }
  function Sub(w: nat, d: nat): nat { (w + WORDS - d % WORDS) % WORDS }
  function OrUpgraded(w: nat): nat { if (w / UPGRADED) % 2 == 1 then w else w + UPGRADED }
  function ClearFlags(w: nat): nat { w - FlagsOf(w) }

  /** Every atomic operation of the lock. */
  datatype Op =
    | TryRead | UndoRead | DropRead
    | TryWrite | DropWrite
    | TryUpgradeable | TryUpgrade | DropUpgradeable
    | DowngradeUpgradeable | UndoUpgradeable | LeaveUpgradeable
    | DowngradeWrite | UndoWrite | LeaveWrite

  /** What one operation does to the word and to the agent that performs it; nothing if the agent is elsewhere. */
  function Act(w: nat, p: Phase, op: Op): (nat, Phase) {
    match op
    // `inner_try_read`: the fetch_add of `current_reader`, which decides
    case TryRead =>
      if p == Idle then (Add(w, READER), if w > READER_LIMIT || FlagsOf(w) != 0 then Undoing else Reading)
      else (w, p)
    case UndoRead => if p == Undoing then (Sub(w, READER), Idle) else (w, p)
    case DropRead => if p == Reading then (Sub(w, READER), Idle) else (w, p)
    // `inner_try_write`
    case TryWrite => if p == Idle && w == 0 then (WRITER, Writing) else (w, p)
    case DropWrite => if p == Writing then (ClearFlags(w), Idle) else (w, p)
    // `inner_try_upgradeable_read`: a failed attempt leaves the bit set
    case TryUpgradeable => if p == Idle then (OrUpgraded(w), if FlagsOf(w) == 0 then Upgradeable else Idle) else (w, p)
    case TryUpgrade => if p == Upgradeable && w == UPGRADED then (WRITER, Writing) else (w, p)
    case DropUpgradeable => if p == Upgradeable then (Sub(w, UPGRADED), Idle) else (w, p)
    // the two `downgrade`s: become a reader, then drop the guard
    case DowngradeUpgradeable =>
      if p == Upgradeable then (Add(w, READER), if w > READER_LIMIT then UpgradeableUndoing else UpgradeableLeaving)
      else (w, p)
    case UndoUpgradeable => if p == UpgradeableUndoing then (Sub(w, READER), Upgradeable) else (w, p)
    case LeaveUpgradeable => if p == UpgradeableLeaving then (Sub(w, UPGRADED), Reading) else (w, p)
    case DowngradeWrite =>
      if p == Writing then (Add(w, READER), if w > READER_LIMIT then WritingUndoing else WritingLeaving)
      else (w, p)
    case UndoWrite => if p == WritingUndoing then (Sub(w, READER), Writing) else (w, p)
    case LeaveWrite => if p == WritingLeaving then (ClearFlags(w), Reading) else (w, p)
  }

  function Next(s: State, i: nat, op: Op): (t: State)
    requires i < |s.agents|
    ensures |t.agents| == |s.agents|
  {
    var (w, p) := Act(s.word, s.agents[i], op);
    State(w, s.agents[i := p])
  }

  // ---------- the invariant ----------

  /** The word and the numbers of agents that count as readers, hold a read, an upgradeable, a write guard. */
  ghost predicate Fits(w: nat, counted: nat, readers: nat, upgraders: nat, writers: nat) {
    var flags := w - READER * counted;
    && 0 <= flags < READER && readers <= counted <= 0x3fff_ffff
    && writers == Bit(flags == WRITER || flags == WRITER + UPGRADED)
    && if writers == 1 then upgraders == 0 && readers == 0 else upgraders == Bit(flags == UPGRADED)
  }

  ghost predicate Inv(s: State) {
    && |s.agents| <= 0x3fff_ffff
    && Fits(s.word, Num(s.agents, Counted), Num(s.agents, HoldsRead),
         Num(s.agents, HoldsUpgradeable), Num(s.agents, HoldsWrite))
  }

  lemma {:induction false} NumBound(ps: seq<Phase>, f: Phase -> bool)
    ensures Num(ps, f) <= |ps|
  {
    if ps != [] { NumBound(ps[1..], f); }
  }

  lemma {:induction false} NumUpdate(ps: seq<Phase>, i: nat, p: Phase, f: Phase -> bool)
    requires i < |ps|
    ensures Num(ps[i := p], f) == Num(ps, f) - Bit(f(ps[i])) + Bit(f(p)) && Num(ps, f) >= Bit(f(ps[i]))
  {
    if i == 0 {
      assert ps[0 := p][1..] == ps[1..];
    } else {
      assert ps[i := p][1..] == ps[1..][i - 1 := p];
      NumUpdate(ps[1..], i - 1, p, f);
    }
  }

  lemma {:induction false} NumOne(ps: seq<Phase>, i: nat, f: Phase -> bool)
    requires i < |ps| && f(ps[i])
    ensures Num(ps, f) >= 1
  {
    NumUpdate(ps, i, Idle, f);
  }

  lemma {:induction false} NumTwo(ps: seq<Phase>, i: nat, j: nat, f: Phase -> bool)
    requires i < |ps| && j < |ps| && i != j && f(ps[i]) && f(ps[j]) && !f(Idle)
    ensures Num(ps, f) >= 2
  {
    NumUpdate(ps, i, Idle, f);
    NumUpdate(ps[i := Idle], j, Idle, f);
  }

  /** Readers are counted. */
  lemma {:induction false} ReadsCounted(ps: seq<Phase>)
    ensures Num(ps, HoldsRead) <= Num(ps, Counted)
  {
    if ps != [] { ReadsCounted(ps[1..]); }
  }

  lemma {:induction false} FlagsOfParts(c: nat, f: nat)
    requires f < READER
    ensures FlagsOf(READER * c + f) == f
  {
  }

  lemma {:induction false} OrParts(c: nat, f: nat)
    requires f < READER
    ensures var w := READER * c + f; OrUpgraded(w) == if f >= 2 then w else w + 2
  {
    assert (READER * c + f) / UPGRADED == 2 * c + f / UPGRADED;
  }

  lemma {:induction false} AddSmall(w: nat, d: nat)
    requires w + d < WORDS
    ensures Add(w, d) == w + d
  {
  }

  lemma {:induction false} SubSmall(w: nat, d: nat)
    requires d <= w < WORDS
    ensures Sub(w, d) == w - d
  {
    assert d % WORDS == d && (w - d + WORDS) % WORDS == w - d;
  }

  /** The operations on the word, when it is read as a count and two flags. */
  lemma {:induction false} WordParts(c: nat, f: nat)
    requires f < READER && c <= 0x3fff_ffff
    ensures var w := READER * c + f;
      && FlagsOf(w) == f && ClearFlags(w) == READER * c
      && OrUpgraded(w) == (if f >= 2 then w else w + 2)
      && (c < 0x3fff_ffff ==> Add(w, READER) == READER * (c + 1) + f)
      && (c > 0 ==> Sub(w, READER) == READER * (c - 1) + f)
      && (f >= 2 ==> Sub(w, UPGRADED) == w - UPGRADED)
  {
    var w := READER * c + f;
    FlagsOfParts(c, f);
    OrParts(c, f);
    if c < 0x3fff_ffff { AddSmall(w, READER); }
    if c > 0 { SubSmall(w, READER); }
    if f >= 2 { SubSmall(w, UPGRADED); }
  }

  /** One operation of an agent that is counted `Bit(Counted(p))` times, on the count and the flags. */
  function ActParts(c: nat, f: nat, p: Phase, op: Op): (nat, nat, Phase)
    requires Counted(p) ==> c > 0
  {
    var full := READER * c + f > READER_LIMIT;
    match op
    case TryRead => if p == Idle then (c + 1, f, if full || f != 0 then Undoing else Reading) else (c, f, p)
    case UndoRead => if p == Undoing then (c - 1, f, Idle) else (c, f, p)
    case DropRead => if p == Reading then (c - 1, f, Idle) else (c, f, p)
    case TryWrite => if p == Idle && c == 0 && f == 0 then (0, 1, Writing) else (c, f, p)
    case DropWrite => if p == Writing then (c, 0, Idle) else (c, f, p)
    case TryUpgradeable =>
      if p == Idle then (c, if f >= 2 then f else f + 2, if f == 0 then Upgradeable else Idle) else (c, f, p)
    case TryUpgrade => if p == Upgradeable && c == 0 && f == 2 then (0, 1, Writing) else (c, f, p)
    case DropUpgradeable => if p == Upgradeable then (c, if f >= 2 then f - 2 else f, Idle) else (c, f, p)
    case DowngradeUpgradeable =>
      if p == Upgradeable then (c + 1, f, if full then UpgradeableUndoing else UpgradeableLeaving) else (c, f, p)
    case UndoUpgradeable => if p == UpgradeableUndoing then (c - 1, f, Upgradeable) else (c, f, p)
    case LeaveUpgradeable => if p == UpgradeableLeaving then (c, if f >= 2 then f - 2 else f, Reading) else (c, f, p)
    case DowngradeWrite =>
      if p == Writing then (c + 1, f, if full then WritingUndoing else WritingLeaving) else (c, f, p)
    case UndoWrite => if p == WritingUndoing then (c - 1, f, Writing) else (c, f, p)
    case LeaveWrite => if p == WritingLeaving then (c, 0, Reading) else (c, f, p)
  }

  predicate IsReadOp(op: Op) { op.TryRead? || op.UndoRead? || op.DropRead? }
  predicate IsWriteOp(op: Op) {
    op.TryWrite? || op.DropWrite? || op.DowngradeWrite? || op.UndoWrite? || op.LeaveWrite?
  }

  /** The count and the flags that an operation of this agent meets. */
  predicate Meets(c: nat, f: nat, p: Phase) {
    && f < READER && c <= 0x3fff_ffff && (if Counted(p) then c > 0 else c < 0x3fff_ffff)
    && (HoldsUpgradeable(p) ==> f >= 2)
  }

  lemma {:induction false} ActIsParts(c: nat, f: nat, p: Phase, op: Op)
    requires Meets(c, f, p)
    ensures var (c', f', q) := ActParts(c, f, p, op); Act(READER * c + f, p, op) == (READER * c' + f', q)
  {
    if IsReadOp(op) {
      ReadIsParts(c, f, p, op);
    } else if IsWriteOp(op) {
      WriteIsParts(c, f, p, op);
    } else {
      UpgradeIsParts(c, f, p, op);
    }
  }

  lemma {:induction false} ReadIsParts(c: nat, f: nat, p: Phase, op: Op)
    requires Meets(c, f, p) && IsReadOp(op)
    ensures var (c', f', q) := ActParts(c, f, p, op); Act(READER * c + f, p, op) == (READER * c' + f', q)
  {
    WordParts(c, f);
  }

  lemma {:induction false} WriteIsParts(c: nat, f: nat, p: Phase, op: Op)
    requires Meets(c, f, p) && IsWriteOp(op)
    ensures var (c', f', q) := ActParts(c, f, p, op); Act(READER * c + f, p, op) == (READER * c' + f', q)
  {
    WordParts(c, f);
  }

  lemma {:induction false} UpgradeIsParts(c: nat, f: nat, p: Phase, op: Op)
    requires Meets(c, f, p) && !IsReadOp(op) && !IsWriteOp(op)
    ensures var (c', f', q) := ActParts(c, f, p, op); Act(READER * c + f, p, op) == (READER * c' + f', q)
  {
    WordParts(c, f);
  }

  /** `Fits` on the parts. */
  ghost predicate PartsFit(c: nat, f: nat, r: int, u: int, x: int) {
    && f < READER && 0 <= r <= c <= 0x3fff_ffff && x == Bit(f == WRITER || f == WRITER + UPGRADED)
    && if x == 1 then u == 0 && r == 0 else u == Bit(f == UPGRADED)
  }

  lemma {:induction false} PartsMove(c: nat, f: nat, p: Phase, op: Op, r: nat, u: nat, x: nat)
    requires PartsFit(c, f, r, u, x) && 0 <= r - Bit(HoldsRead(p)) <= c - Bit(Counted(p)) < 0x3fff_ffff
    requires u >= Bit(HoldsUpgradeable(p)) && x >= Bit(HoldsWrite(p))
    ensures var (c', f', q) := ActParts(c, f, p, op);
      && c' == c - Bit(Counted(p)) + Bit(Counted(q))
      && PartsFit(c', f', r - Bit(HoldsRead(p)) + Bit(HoldsRead(q)),
           u - Bit(HoldsUpgradeable(p)) + Bit(HoldsUpgradeable(q)),
           x - Bit(HoldsWrite(p)) + Bit(HoldsWrite(q)))
  {
  }

  /** The word and the numbers after agent `p` became `q`. */
  ghost predicate Moved(w: nat, p: Phase, q: Phase, c: nat, r: nat, u: nat, x: nat) {
    && c >= Bit(Counted(p)) && r >= Bit(HoldsRead(p)) && u >= Bit(HoldsUpgradeable(p)) && x >= Bit(HoldsWrite(p))
    && Fits(w, c - Bit(Counted(p)) + Bit(Counted(q)), r - Bit(HoldsRead(p)) + Bit(HoldsRead(q)),
        u - Bit(HoldsUpgradeable(p)) + Bit(HoldsUpgradeable(q)), x - Bit(HoldsWrite(p)) + Bit(HoldsWrite(q)))
  }

  /** The count and the flags after one operation. */
  lemma {:induction false} ActCounts(
      w: nat, p: Phase, op: Op, w': nat, q: Phase, c: nat, f: nat, r: nat, u: nat, x: nat)
      returns (c': nat, f': nat)
    requires PartsFit(c, f, r, u, x) && 0 <= r - Bit(HoldsRead(p)) <= c - Bit(Counted(p)) < 0x3fff_ffff
    requires u >= Bit(HoldsUpgradeable(p)) && x >= Bit(HoldsWrite(p))
    requires w == READER * c + f && (w', q) == Act(w, p, op)
    ensures w' == READER * c' + f' && c' == c - Bit(Counted(p)) + Bit(Counted(q))
    ensures PartsFit(c', f', r - Bit(HoldsRead(p)) + Bit(HoldsRead(q)),
              u - Bit(HoldsUpgradeable(p)) + Bit(HoldsUpgradeable(q)), x - Bit(HoldsWrite(p)) + Bit(HoldsWrite(q)))
  {
    ActIsParts(c, f, p, op);
    PartsMove(c, f, p, op, r, u, x);
    var parts := ActParts(c, f, p, op);
    c', f' := parts.0, parts.1;
  }

  /** The effect of one operation on the numbers. */
  lemma {:induction false} ActFits(w: nat, p: Phase, op: Op, w': nat, q: Phase, c: nat, r: nat, u: nat, x: nat)
    requires Moved(w, p, p, c, r, u, x) && r - Bit(HoldsRead(p)) <= c - Bit(Counted(p)) < 0x3fff_ffff
    requires (w', q) == Act(w, p, op)
    ensures Moved(w', p, q, c, r, u, x)
  {
    var c', f' := ActCounts(w, p, op, w', q, c, w - READER * c, r, u, x);
    MovedParts(w', p, q, c', f', c, r, u, x);
  }

  lemma {:induction false} MovedParts(w: nat, p: Phase, q: Phase, c': nat, f': nat, c: nat, r: nat, u: nat, x: nat)
    requires w == READER * c' + f' && c' == c - Bit(Counted(p)) + Bit(Counted(q))
    requires c >= Bit(Counted(p)) && r >= Bit(HoldsRead(p)) && u >= Bit(HoldsUpgradeable(p)) && x >= Bit(HoldsWrite(p))
    requires PartsFit(c', f', r - Bit(HoldsRead(p)) + Bit(HoldsRead(q)),
               u - Bit(HoldsUpgradeable(p)) + Bit(HoldsUpgradeable(q)), x - Bit(HoldsWrite(p)) + Bit(HoldsWrite(q)))
    ensures Moved(w, p, q, c, r, u, x)
  {
    FitsParts(c', f', r - Bit(HoldsRead(p)) + Bit(HoldsRead(q)),
      u - Bit(HoldsUpgradeable(p)) + Bit(HoldsUpgradeable(q)),
      x - Bit(HoldsWrite(p)) + Bit(HoldsWrite(q)));
  }

  lemma {:induction false} FitsParts(c: nat, f: nat, r: nat, u: nat, x: nat)
    requires PartsFit(c, f, r, u, x)
    ensures Fits(READER * c + f, c, r, u, x)
  {
  }

  /** Without agent `i` there are as many, or one fewer. */
  lemma {:induction false} WithoutAgent(ps: seq<Phase>, i: nat)
    requires i < |ps|
    ensures 0 <= Num(ps, HoldsRead) - Bit(HoldsRead(ps[i])) <= Num(ps, Counted) - Bit(Counted(ps[i])) < |ps|
  {
    NumUpdate(ps, i, Idle, Counted);
    NumUpdate(ps, i, Idle, HoldsRead);
    ReadsCounted(ps[i := Idle]);
    NumUpdate(ps, i, Reading, Counted);
    NumBound(ps[i := Reading], Counted);
  }

  /** Replacing one agent moves the numbers. */
  lemma {:induction false} Replaced(w: nat, ps: seq<Phase>, i: nat, q: Phase)
    requires i < |ps|
    ensures var qs := ps[i := q];
      Moved(w, ps[i], q, Num(ps, Counted), Num(ps, HoldsRead), Num(ps, HoldsUpgradeable), Num(ps, HoldsWrite)) <==>
      Fits(w, Num(qs, Counted), Num(qs, HoldsRead), Num(qs, HoldsUpgradeable), Num(qs, HoldsWrite))
  {
    NumUpdate(ps, i, q, Counted);
    NumUpdate(ps, i, q, HoldsRead);
    NumUpdate(ps, i, q, HoldsUpgradeable);
    NumUpdate(ps, i, q, HoldsWrite);
  }

  /** Every atomic step keeps the invariant; in particular the word never wraps. */
  lemma {:induction false} StepInv(s: State, i: nat, op: Op)
    requires Inv(s) && i < |s.agents|
    ensures Inv(Next(s, i, op))
  {
    var ps, p := s.agents, s.agents[i];
    var r := Act(s.word, p, op);
    WithoutAgent(ps, i);
    assert ps[i := p] == ps;
    Replaced(s.word, ps, i, p);
    ActFits(s.word, p, op, r.0, r.1,
      Num(ps, Counted), Num(ps, HoldsRead), Num(ps, HoldsUpgradeable), Num(ps, HoldsWrite));
    Replaced(r.0, ps, i, r.1);
  }

  // ---------- whole runs ----------

  datatype Event = Event(agent: nat, op: Op)

  ghost predicate Initial(s: State) {
    s.word == 0 && |s.agents| <= 0x3fff_ffff && forall i :: 0 <= i < |s.agents| ==> s.agents[i] == Idle
  }

  ghost function Run(s: State, es: seq<Event>): State
    requires forall k :: 0 <= k < |es| ==> es[k].agent < |s.agents|
    decreases |es|
  {
    if es == [] then s else Run(Next(s, es[0].agent, es[0].op), es[1..])
  }

  lemma {:induction false} AllIdle(ps: seq<Phase>, f: Phase -> bool)
    requires !f(Idle) && forall i :: 0 <= i < |ps| ==> ps[i] == Idle
    ensures Num(ps, f) == 0
  {
    if ps != [] { AllIdle(ps[1..], f); }
  }

  lemma {:induction false} RunFromInv(s: State, es: seq<Event>)
    requires Inv(s) && forall k :: 0 <= k < |es| ==> es[k].agent < |s.agents|
    ensures Inv(Run(s, es)) && |Run(s, es).agents| == |s.agents|
    decreases |es|
  {
    if es != [] {
      StepInv(s, es[0].agent, es[0].op);
      RunFromInv(Next(s, es[0].agent, es[0].op), es[1..]);
    }
  }

  lemma {:induction false} RunInv(s: State, es: seq<Event>)
    requires Initial(s) && forall k :: 0 <= k < |es| ==> es[k].agent < |s.agents|
    ensures Inv(Run(s, es)) && |Run(s, es).agents| == |s.agents|
  {
    AllIdle(s.agents, Counted);
    AllIdle(s.agents, HoldsRead);
    AllIdle(s.agents, HoldsUpgradeable);
    AllIdle(s.agents, HoldsWrite);
    RunFromInv(s, es);
  }

  /**
    Mutual exclusion over every interleaving: while one agent holds a write guard no other agent
    holds a guard of any kind, and two agents never both hold upgradeable guards.
   */
  lemma {:induction false} Exclusion(s: State, es: seq<Event>, i: nat, j: nat)
    requires Initial(s) && (forall k :: 0 <= k < |es| ==> es[k].agent < |s.agents|) && i < |s.agents| && j < |s.agents|
    requires i != j
    ensures |Run(s, es).agents| == |s.agents|
    ensures var (p, q) := (Run(s, es).agents[i], Run(s, es).agents[j]);
      && (HoldsWrite(p) ==> !HoldsRead(q) && !HoldsUpgradeable(q) && !HoldsWrite(q))
      && (HoldsUpgradeable(p) ==> !HoldsUpgradeable(q))
  {
    RunInv(s, es);
    var ps := Run(s, es).agents;
    if HoldsWrite(ps[i]) { NumOne(ps, i, HoldsWrite); }
    if HoldsRead(ps[j]) { NumOne(ps, j, HoldsRead); }
    if HoldsUpgradeable(ps[j]) { NumOne(ps, j, HoldsUpgradeable); }
    if HoldsWrite(ps[i]) && HoldsWrite(ps[j]) { NumTwo(ps, i, j, HoldsWrite); }
    if HoldsUpgradeable(ps[i]) && HoldsUpgradeable(ps[j]) { NumTwo(ps, i, j, HoldsUpgradeable); }
  }

  /**
    The word is exact: four times the readers and the attempts that are still to be undone, plus
    the flags.  The writer flag is set exactly while a write guard exists; without a writer the
    upgraded flag is set exactly while an upgradeable guard exists.
   */
  lemma {:induction false} WordExact(s: State, es: seq<Event>)
    requires Initial(s) && forall k :: 0 <= k < |es| ==> es[k].agent < |s.agents|
    ensures var t := Run(s, es);
      && t.word < WORDS && t.word / READER == Num(t.agents, Counted)
      && FlagsOf(t.word) % 2 == Num(t.agents, HoldsWrite)
      && (Num(t.agents, HoldsWrite) == 0 ==> FlagsOf(t.word) / 2 == Num(t.agents, HoldsUpgradeable))
  {
    RunInv(s, es);
  }

  /** The debug assertions of the three `drop`s hold in every run. */
  lemma {:induction false} DropAssertions(s: State, es: seq<Event>, i: nat)
    requires Initial(s) && (forall k :: 0 <= k < |es| ==> es[k].agent < |s.agents|) && i < |s.agents|
    ensures var t := Run(s, es);
      && |t.agents| == |s.agents|
      && (t.agents[i] == Reading ==> ClearFlags(t.word) > 0)
      && (HoldsUpgradeable(t.agents[i]) ==> FlagsOf(t.word) == UPGRADED)
      && (HoldsWrite(t.agents[i]) ==> FlagsOf(t.word) % 2 == WRITER)
  {
    RunInv(s, es);
    GuardFlags(Run(s, es), i);
  }

  lemma {:induction false} GuardFlags(s: State, i: nat)
    requires Inv(s) && i < |s.agents|
    ensures s.agents[i] == Reading ==> ClearFlags(s.word) > 0
    ensures HoldsUpgradeable(s.agents[i]) ==> FlagsOf(s.word) == UPGRADED
    ensures HoldsWrite(s.agents[i]) ==> FlagsOf(s.word) % 2 == WRITER
  {
    var ps, c := s.agents, Num(s.agents, Counted);
    FlagsOfParts(c, s.word - READER * c);
    if s.agents[i] == Reading { NumOne(ps, i, Counted); }
    if HoldsUpgradeable(s.agents[i]) { NumOne(ps, i, HoldsUpgradeable); }
    if HoldsWrite(s.agents[i]) { NumOne(ps, i, HoldsWrite); }
  }

  /** With fewer than 2^29 agents no reader is ever turned away for overflow. */
  lemma {:induction false} NoOverflow(s: State, es: seq<Event>, i: nat)
    requires Initial(s) && (forall k :: 0 <= k < |es| ==> es[k].agent < |s.agents|) && i < |s.agents| < 0x2000_0000
    ensures var t := Run(s, es); |t.agents| == |s.agents| && (!Counted(t.agents[i]) ==> t.word <= READER_LIMIT)
  {
    RunInv(s, es);
    var ps := Run(s, es).agents;
    NumUpdate(ps, i, Reading, Counted);
    NumBound(ps[i := Reading], Counted);
  }

  // ---------- which attempts succeed ----------

  /** Nobody holds a write or an upgradeable guard. */
  ghost predicate OpenToReaders(ps: seq<Phase>) {
    forall j :: 0 <= j < |ps| ==> !HoldsWrite(ps[j]) && !HoldsUpgradeable(ps[j])
  }

  ghost predicate NoneCounted(ps: seq<Phase>) {
    forall j :: 0 <= j < |ps| ==> !Counted(ps[j])
  }

  lemma {:induction false} NumNone(ps: seq<Phase>, f: Phase -> bool)
    ensures Num(ps, f) == 0 <==> forall j :: 0 <= j < |ps| ==> !f(ps[j])
  {
    if ps != [] {
      NumNone(ps[1..], f);
      assert forall j :: 0 <= j < |ps[1..]| ==> ps[1..][j] == ps[j + 1];
      if Num(ps, f) == 0 {
        forall j | 0 <= j < |ps| ensures !f(ps[j]) {
          if j > 0 { assert ps[j] == ps[1..][j - 1]; }
        }
      }
    }
  }

  /** The word says who holds what: its flags are clear exactly if it is open to readers, and it counts the readers. */
  lemma {:induction false} WordSays(s: State)
    requires Inv(s)
    ensures FlagsOf(s.word) == 0 <==> OpenToReaders(s.agents)
    ensures s.word - FlagsOf(s.word) == READER * Num(s.agents, Counted)
    ensures s.word < READER <==> NoneCounted(s.agents)
  {
    var ps, c := s.agents, Num(s.agents, Counted);
    FlagsOfParts(c, s.word - READER * c);
    NumNone(ps, Counted);
    NumNone(ps, HoldsWrite);
    NumNone(ps, HoldsUpgradeable);
  }

  /**
    After every run: an attempt to read or to get an upgradeable guard succeeds exactly if nobody
    holds a write or an upgradeable guard, for reading also below 2^29 readers.  An attempt to write
    succeeds exactly if moreover nobody is counted as a reader.  A holder of the upgradeable guard
    becomes the writer exactly if nobody is counted as a reader.  A downgrade goes through below 2^29 - 1
    readers.
   */
  lemma {:induction false} AttemptsExact(s: State, es: seq<Event>, i: nat)
    requires Initial(s) && (forall k :: 0 <= k < |es| ==> es[k].agent < |s.agents|) && i < |s.agents|
    ensures |Run(s, es).agents| == |s.agents|
    ensures var t := Run(s, es); var ps := t.agents;
      && (ps[i] == Idle ==>
            && Next(t, i, TryRead).agents[i] ==
               (if OpenToReaders(ps) && Num(ps, Counted) < 0x2000_0000 then Reading else Undoing)
            && Next(t, i, TryUpgradeable).agents[i] == (if OpenToReaders(ps) then Upgradeable else Idle)
            && Next(t, i, TryWrite).agents[i] == (if OpenToReaders(ps) && NoneCounted(ps) then Writing else Idle))
      && (ps[i] == Upgradeable ==>
            && Next(t, i, TryUpgrade).agents[i] == (if NoneCounted(ps) then Writing else Upgradeable)
            && Next(t, i, DowngradeUpgradeable).agents[i] ==
               if Num(ps, Counted) < 0x1fff_ffff then UpgradeableLeaving else UpgradeableUndoing)
      && (ps[i] == Writing ==>
            Next(t, i, DowngradeWrite).agents[i] ==
            if Num(ps, Counted) < 0x1fff_ffff then WritingLeaving else WritingUndoing)
  {
    RunInv(s, es);
    WordSays(Run(s, es));
    GuardFlags(Run(s, es), i);
  }

  /** With fewer than 2^29 agents the count of readers is no obstacle. */
  lemma {:induction false} FewAgents(s: State, es: seq<Event>, i: nat)
    requires Initial(s) && (forall k :: 0 <= k < |es| ==> es[k].agent < |s.agents|) && i < |s.agents| < 0x2000_0000
    ensures |Run(s, es).agents| == |s.agents|
    ensures var t := Run(s, es);
      t.agents[i] == Idle ==> (Next(t, i, TryRead).agents[i] == Reading <==> OpenToReaders(t.agents))
  {
    AttemptsExact(s, es, i);
    NumBound(Run(s, es).agents, Counted);
  }

  // ---------- every agent can let go ----------

  /** The operations by which an agent lets go of what it holds. */
  ghost function LetGo(p: Phase): seq<Op> {
    match p
    case Idle => []
    case Undoing => [UndoRead]
    case Reading => [DropRead]
    case Upgradeable => [DropUpgradeable]
    case UpgradeableUndoing => [UndoUpgradeable, DropUpgradeable]
    case UpgradeableLeaving => [LeaveUpgradeable, DropRead]
    case Writing => [DropWrite]
    case WritingUndoing => [UndoWrite, DropWrite]
    case WritingLeaving => [LeaveWrite, DropRead]
  }

  ghost function EventsOf(i: nat, ops: seq<Op>): (es: seq<Event>)
    ensures |es| == |ops| && forall k :: 0 <= k < |es| ==> es[k].agent == i
  {
    seq(|ops|, k requires 0 <= k < |ops| => Event(i, ops[k]))
  }

  lemma {:induction false} LetsGo(s: State, i: nat)
    requires i < |s.agents|
    ensures Run(s, EventsOf(i, LetGo(s.agents[i]))).agents == s.agents[i := Idle]
  {
    var ops := LetGo(s.agents[i]);
    var es := EventsOf(i, ops);
    if |es| == 1 {
      assert es[1..] == [];
    } else if |es| == 2 {
      assert es[1..][1..] == [];
      var s1 := Next(s, i, ops[0]);
      assert Run(s, es) == Run(s1, es[1..]) == Run(Next(s1, i, ops[1]), es[1..][1..]);
    }
  }

  lemma {:induction false} RunTwice(s: State, es: seq<Event>, fs: seq<Event>)
    requires forall k :: 0 <= k < |es| ==> es[k].agent < |s.agents|
    requires forall k :: 0 <= k < |fs| ==> fs[k].agent < |s.agents|
    ensures |Run(s, es).agents| == |s.agents| && Run(s, es + fs) == Run(Run(s, es), fs)
    decreases |es|
  {
    if es == [] {
      assert es + fs == fs;
    } else {
      assert (es + fs)[1..] == es[1..] + fs;
      RunTwice(Next(s, es[0].agent, es[0].op), es[1..], fs);
    }
  }

  /** The first `n` agents let go, one after the other. */
  lemma {:induction false} LetGoUpTo(s: State, n: nat) returns (es: seq<Event>)
    requires n <= |s.agents|
    ensures forall k :: 0 <= k < |es| ==> es[k].agent < |s.agents|
    ensures |Run(s, es).agents| == |s.agents|
    ensures forall j :: 0 <= j < |s.agents| ==> Run(s, es).agents[j] == if j < n then Idle else s.agents[j]
  {
    es := [];
    if n > 0 {
      es := LetGoUpTo(s, n - 1);
      var t := Run(s, es);
      var fs := EventsOf(n - 1, LetGo(t.agents[n - 1]));
      LetsGo(t, n - 1);
      RunTwice(s, es, fs);
      es := es + fs;
    }
  }

  /** No run gets stuck: from every state that can be reached there is a way back to the free lock. */
  lemma {:induction false} NeverStuck(s: State, es: seq<Event>) returns (fs: seq<Event>)
    requires Initial(s) && forall k :: 0 <= k < |es| ==> es[k].agent < |s.agents|
    ensures forall k :: 0 <= k < |fs| ==> fs[k].agent < |s.agents|
    ensures |Run(s, es).agents| == |s.agents| && Run(Run(s, es), fs) == s
  {
    RunInv(s, es);
    var t := Run(s, es);
    fs := LetGoUpTo(t, |t.agents|);
    RunFromInv(t, fs);
    var u := Run(t, fs);
    WordSays(u);
    assert u.agents == s.agents;
  }

  // ---------- downgrade_to_upgradeable ----------

  /** `downgrade_to_upgradeable` stores UPGRADED instead of changing bits. */
  function StoreUpgraded(s: State, i: nat): State
    requires i < |s.agents| && s.agents[i] == Writing
  {
    State(UPGRADED, s.agents[i := Upgradeable])
  }

  /**
    The store keeps the invariant exactly when no attempt to read is waiting to be undone, which
    the caller can see: the word has no readers.  It also passes the debug assertion before it
    exactly when the word is the writer flag alone.
   */
  lemma {:induction false} StoreUpgradedExact(s: State, i: nat)
    requires Inv(s) && i < |s.agents| && s.agents[i] == Writing
    ensures Inv(StoreUpgraded(s, i)) <==> Num(s.agents, Counted) == 0
    ensures Num(s.agents, Counted) == 0 <==> s.word < READER
    ensures DebugAssertion(s) && Inv(StoreUpgraded(s, i)) <==> s.word == WRITER
  {
    var ps := s.agents;
    NumUpdate(ps, i, Upgradeable, Counted);
    NumUpdate(ps, i, Upgradeable, HoldsRead);
    NumUpdate(ps, i, Upgradeable, HoldsUpgradeable);
    NumUpdate(ps, i, Upgradeable, HoldsWrite);
  }

  /** The debug assertion of `downgrade_to_upgradeable`: of the two flags the writer's alone is set. */
  predicate DebugAssertion(s: State) { FlagsOf(s.word) == WRITER }

  /** Somewhere in the run an agent tries for an upgradeable guard. */
  ghost predicate Attempted(s: State, es: seq<Event>)
    requires forall k :: 0 <= k < |es| ==> es[k].agent < |s.agents|
    decreases |es|
  {
    es != [] &&
    ( || (es[0].op == TryUpgradeable && s.agents[es[0].agent] == Idle)
      || Attempted(Next(s, es[0].agent, es[0].op), es[1..]))
  }

  /** While one agent writes, the others change the flags in one way: by an attempt for an upgradeable guard. */
  lemma {:induction false} FlagsUnderWriter(s: State, i: nat, j: nat, op: Op)
    requires Inv(s) && i < |s.agents| && j < |s.agents| && i != j && s.agents[i] == Writing
    ensures FlagsOf(Next(s, j, op).word) ==
      if op == TryUpgradeable && s.agents[j] == Idle then WRITER + UPGRADED else FlagsOf(s.word)
  {
    OthersUnderWriter(s, i, j);
    var c := Num(s.agents, Counted);
    FlagsOfOthers(c, s.word - READER * c, s.agents[j], op);
  }

  /** While one agent writes, the others are idle or about to undo an attempt to read. */
  lemma {:induction false} OthersUnderWriter(s: State, i: nat, j: nat)
    requires Inv(s) && i < |s.agents| && j < |s.agents| && i != j && s.agents[i] == Writing
    ensures s.agents[j] == Idle || s.agents[j] == Undoing
    ensures var c := Num(s.agents, Counted);
      && (s.word == READER * c + WRITER || s.word == READER * c + WRITER + UPGRADED)
      && c <= 0x3fff_ffff && if s.agents[j] == Undoing then c > 0 else c < 0x3fff_ffff
  {
    var ps, p := s.agents, s.agents[j];
    NumOne(ps, i, HoldsWrite);
    if HoldsRead(p) { NumOne(ps, j, HoldsRead); }
    if HoldsUpgradeable(p) { NumOne(ps, j, HoldsUpgradeable); }
    if HoldsWrite(p) { NumTwo(ps, i, j, HoldsWrite); }
    WithoutAgent(ps, j);
    NumUpdate(ps, j, Idle, Counted);
  }

  lemma {:induction false} FlagsOfOthers(c: nat, f: nat, p: Phase, op: Op)
    requires (f == WRITER || f == WRITER + UPGRADED) && (p == Idle || p == Undoing)
    requires c <= 0x3fff_ffff && if p == Undoing then c > 0 else c < 0x3fff_ffff
    ensures FlagsOf(READER * c + f) == f
    ensures FlagsOf(Act(READER * c + f, p, op).0) == if op == TryUpgradeable && p == Idle then WRITER + UPGRADED else f
  {
    ActIsParts(c, f, p, op);
    var (c', f', _) := ActParts(c, f, p, op);
    FlagsOfParts(c, f);
    FlagsOfParts(c', f');
  }

  /**
    From the moment a write guard was taken, when the writer flag alone is set, the debug assertion
    holds exactly until another agent tries for an upgradeable guard.
   */
  lemma {:induction false} DebugAssertionExact(s: State, i: nat, es: seq<Event>)
    requires Inv(s) && i < |s.agents| && s.agents[i] == Writing && DebugAssertion(s)
    requires forall k :: 0 <= k < |es| ==> es[k].agent < |s.agents| && es[k].agent != i
    ensures |Run(s, es).agents| == |s.agents| && Run(s, es).agents[i] == Writing
    ensures DebugAssertion(Run(s, es)) <==> !Attempted(s, es)
    decreases |es|
  {
    if es != [] {
      var t := Next(s, es[0].agent, es[0].op);
      StepInv(s, es[0].agent, es[0].op);
      FlagsUnderWriter(s, i, es[0].agent, es[0].op);
      if DebugAssertion(t) {
        DebugAssertionExact(t, i, es[1..]);
      } else {
        BothFlagsStay(t, i, es[1..]);
      }
    }
  }

  lemma {:induction false} BothFlagsStay(s: State, i: nat, es: seq<Event>)
    requires Inv(s) && i < |s.agents| && s.agents[i] == Writing && FlagsOf(s.word) == WRITER + UPGRADED
    requires forall k :: 0 <= k < |es| ==> es[k].agent < |s.agents| && es[k].agent != i
    ensures |Run(s, es).agents| == |s.agents| && Run(s, es).agents[i] == Writing
    ensures FlagsOf(Run(s, es).word) == WRITER + UPGRADED
    decreases |es|
  {
    if es != [] {
      StepInv(s, es[0].agent, es[0].op);
      FlagsUnderWriter(s, i, es[0].agent, es[0].op);
      BothFlagsStay(Next(s, es[0].agent, es[0].op), i, es[1..]);
    }
  }

  /** A writer that downgrades while a reader is about to undo its attempt: the word wraps. */
  lemma {:induction false} StoreUpgradedWraps()
    ensures var s := Run(State(0, [Idle, Idle]), [Event(0, TryWrite), Event(1, TryRead)]);
      && s.agents == [Writing, Undoing]
      && Next(StoreUpgraded(s, 0), 1, UndoRead).word == 0xffff_fffe
  {
    var s0 := State(0, [Idle, Idle]);
    var es := [Event(0, TryWrite), Event(1, TryRead)];
    var s1 := Next(s0, 0, TryWrite);
    var s2 := Next(s1, 1, TryRead);
    assert es[1..] == [Event(1, TryRead)] && es[1..][1..] == [];
    assert Run(s0, es) == Run(s1, es[1..]) == Run(s2, es[1..][1..]) == s2;
  }
}
