/**
  The page cache of kernel/src/filesystem/page_cache.rs, against the flat file that it caches:
  a resident page stands for its part of the file, and what is not resident is on disk.
 */
module PageCache {
  import opened Arith

  const PAGE_SIZE := 4096

  type Byte = bv8
  type Pages = map<nat, seq<Byte>>

  datatype Result<T> = Ok(value: T) | NoMemory | IoError

  function PageAlignUp(x: nat): nat { (x + PAGE_SIZE - 1) / PAGE_SIZE * PAGE_SIZE }

  // ---------- the flat file ----------

  /** What the disk holds, zero behind its end. */
  function DiskAt(disk: seq<Byte>, x: nat): Byte { if x < |disk| then disk[x] else 0 }

  ghost predicate WellFormed(pages: Pages) { forall p :: p in pages ==> |pages[p]| == PAGE_SIZE }

  /** The byte of the logical file at `x`. */
  ghost function At(pages: Pages, disk: seq<Byte>, x: nat): Byte
    requires WellFormed(pages)
  {
    if x / PAGE_SIZE in pages then pages[x / PAGE_SIZE][x % PAGE_SIZE] else DiskAt(disk, x)
  }

  ghost predicate SameFile(pages: Pages, pages': Pages, disk: seq<Byte>) {
    WellFormed(pages) && WellFormed(pages') && forall x :: At(pages', disk, x) == At(pages, disk, x)
  }

  lemma {:induction false} SameAgain(pages: Pages, pages': Pages, pages'': Pages, disk: seq<Byte>)
    requires SameFile(pages, pages', disk) && SameFile(pages', pages'', disk)
    ensures SameFile(pages, pages'', disk)
  {
    forall x: nat ensures At(pages'', disk, x) == At(pages, disk, x) {
      assert At(pages', disk, x) == At(pages, disk, x);
    }
  }

  // ---------- how a range is cut into pages ----------

  function PageNum(offset: nat, len: nat): nat
    requires len > 0
  {
    PageAlignUp(offset + len) / PAGE_SIZE - offset / PAGE_SIZE
  }

  function PageOffset(offset: nat, i: nat): nat { if i == 0 then offset % PAGE_SIZE else 0 }

  function SubLen(offset: nat, len: nat, i: nat): nat
    requires len > 0
  {
    if i == 0 then Min(len, PAGE_SIZE - PageOffset(offset, i))
    else if i == PageNum(offset, len) - 1 then (offset + len - 1) % PAGE_SIZE + 1
    else PAGE_SIZE
  }

  /** How many bytes of the range lie before page `p`. */
  function Upto(offset: nat, len: nat, p: nat): nat {
    if p * PAGE_SIZE <= offset then 0 else if p * PAGE_SIZE >= offset + len then len else p * PAGE_SIZE - offset
  }

  /** The lengths that the loops compute are the parts of the range in each page, and they add up. */
  lemma {:induction false} Cutting(offset: nat, len: nat, i: nat)
    requires len > 0 && i < PageNum(offset, len)
    ensures var p := offset / PAGE_SIZE + i;
      && offset + Upto(offset, len, p) == p * PAGE_SIZE + PageOffset(offset, i)
      && Upto(offset, len, p + 1) == Upto(offset, len, p) + SubLen(offset, len, i)
      && PageOffset(offset, i) + SubLen(offset, len, i) <= PAGE_SIZE && SubLen(offset, len, i) > 0
  {
  }

  lemma {:induction false} CuttingEnds(offset: nat, len: nat)
    requires len > 0
    ensures Upto(offset, len, offset / PAGE_SIZE) == 0
    ensures Upto(offset, len, offset / PAGE_SIZE + PageNum(offset, len)) == len
    ensures PageNum(offset, len) > 0
  {
  }

  // ---------- copying ----------

  function Patched(s: seq<Byte>, a: nat, t: seq<Byte>): (r: seq<Byte>)
    requires a + |t| <= |s|
    ensures |r| == |s|
  {
    s[..a] + t + s[a + |t|..]
  }

  /** Of the first `n` bytes of the buffer, those from resident pages are right. */
  ghost predicate Filled(s: seq<Byte>, n: nat, pages: Pages, disk: seq<Byte>, offset: nat)
    requires WellFormed(pages)
  {
    n <= |s| && forall k :: 0 <= k < n && (offset + k) / PAGE_SIZE in pages ==> s[k] == At(pages, disk, offset + k)
  }

  lemma {:induction false} InPage(p: nat, o: nat)
    requires o < PAGE_SIZE
    ensures (p * PAGE_SIZE + o) / PAGE_SIZE == p && (p * PAGE_SIZE + o) % PAGE_SIZE == o
  {
  }

  lemma {:induction false} PageCopied(
      s: seq<Byte>, a: nat, pages: Pages, disk: seq<Byte>, offset: nat, p: nat, o: nat, n: nat)
    requires WellFormed(pages) && Filled(s, a, pages, disk, offset) && p in pages
    requires offset + a == p * PAGE_SIZE + o && o + n <= PAGE_SIZE && a + n <= |s|
    ensures Filled(Patched(s, a, pages[p][o..o + n]), a + n, pages, disk, offset)
  {
    var t := Patched(s, a, pages[p][o..o + n]);
    forall k | 0 <= k < a + n && (offset + k) / PAGE_SIZE in pages ensures t[k] == At(pages, disk, offset + k) {
      if k >= a { InPage(p, o + (k - a)); }
    }
  }

  lemma {:induction false} PageSkipped(
      s: seq<Byte>, a: nat, pages: Pages, disk: seq<Byte>, offset: nat, p: nat, o: nat, n: nat)
    requires WellFormed(pages) && Filled(s, a, pages, disk, offset) && p !in pages
    requires offset + a == p * PAGE_SIZE + o && o + n <= PAGE_SIZE && a + n <= |s|
    ensures Filled(s, a + n, pages, disk, offset)
  {
    forall k | 0 <= k < a + n && (offset + k) / PAGE_SIZE in pages ensures s[k] == At(pages, disk, offset + k) {
      if k >= a { InPage(p, o + (k - a)); }
    }
  }

  // ---------- runs of missing pages ----------

  datatype Run = Run(index: nat, count: nat)

  /** The runs are the maximal stretches of missing pages in [lo, hi). */
  ghost predicate RunsOf(runs: seq<Run>, pages: Pages, lo: nat, hi: nat) {
    && Ascending(runs, lo, hi)
    && (forall p {:trigger InRuns(runs, p)} :: lo <= p < hi ==> (p !in pages <==> InRuns(runs, p)))
  }

  ghost predicate InRuns(runs: seq<Run>, p: nat) {
    exists j :: 0 <= j < |runs| && runs[j].index <= p < runs[j].index + runs[j].count
  }

  /** The step of the loop that records a missing page. */
  function Recorded(runs: seq<Run>, p: nat): seq<Run> {
    if runs != [] && runs[|runs| - 1].index + runs[|runs| - 1].count == p
    then runs[..|runs| - 1] + [Run(runs[|runs| - 1].index, runs[|runs| - 1].count + 1)]
    else runs + [Run(p, 1)]
  }

  /** The bytes of the range that lie in the runs. */
  ghost function RunBytes(runs: seq<Run>, offset: nat, len: nat): int {
    if runs == [] then 0
    else
      var last := runs[|runs| - 1];
      RunBytes(runs[..|runs| - 1], offset, len)
      + Upto(offset, len, last.index + last.count) - Upto(offset, len, last.index)
  }

  /** The runs lie in [lo, hi), in order and apart. */
  ghost predicate Ascending(runs: seq<Run>, lo: nat, hi: nat) {
    && (forall j :: 0 <= j < |runs| ==> runs[j].count > 0 && lo <= runs[j].index && runs[j].index + runs[j].count <= hi)
    && (forall j, k :: 0 <= j < k < |runs| ==> runs[j].index + runs[j].count < runs[k].index)
  }

  lemma {:induction false} RecordOrder(runs: seq<Run>, lo: nat, hi: nat)
    requires Ascending(runs, lo, hi) && lo <= hi
    ensures Ascending(Recorded(runs, hi), lo, hi + 1)
  {
  }

  lemma {:induction false} RecordMember(runs: seq<Run>, p: nat, q: nat)
    ensures InRuns(Recorded(runs, p), q) <==> InRuns(runs, q) || q == p
  {
    var rs, n := Recorded(runs, p), |runs|;
    if InRuns(runs, q) {
      var j :| 0 <= j < |runs| && runs[j].index <= q < runs[j].index + runs[j].count;
      assert rs[j].index <= q < rs[j].index + rs[j].count;
    }
    if q == p {
      assert rs[|rs| - 1].index <= q < rs[|rs| - 1].index + rs[|rs| - 1].count;
    }
    if InRuns(rs, q) {
      var j :| 0 <= j < |rs| && rs[j].index <= q < rs[j].index + rs[j].count;
      if q != p { assert runs[j].index <= q < runs[j].index + runs[j].count; }
    }
  }

  lemma {:induction false} RecordMissing(runs: seq<Run>, pages: Pages, lo: nat, hi: nat)
    requires RunsOf(runs, pages, lo, hi) && hi !in pages && lo <= hi
    ensures RunsOf(Recorded(runs, hi), pages, lo, hi + 1)
  {
    RecordOrder(runs, lo, hi);
    forall p | lo <= p < hi + 1 ensures p !in pages <==> InRuns(Recorded(runs, hi), p) {
      RecordMember(runs, hi, p);
    }
  }

  lemma {:induction false} RecordPresent(runs: seq<Run>, pages: Pages, lo: nat, hi: nat)
    requires RunsOf(runs, pages, lo, hi) && hi in pages
    ensures RunsOf(runs, pages, lo, hi + 1)
  {
  }

  lemma {:induction false} RecordBytes(runs: seq<Run>, p: nat, offset: nat, len: nat)
    ensures RunBytes(Recorded(runs, p), offset, len) ==
      RunBytes(runs, offset, len) + Upto(offset, len, p + 1) - Upto(offset, len, p)
  {
    var rs := Recorded(runs, p);
    if |rs| == |runs| {
      assert rs[..|rs| - 1] == runs[..|runs| - 1];
    } else {
      assert rs[..|rs| - 1] == runs;
    }
  }

  lemma {:induction false} RunBytesHead(runs: seq<Run>, offset: nat, len: nat)
    requires runs != []
    ensures var r := runs[0];
      RunBytes(runs, offset, len) ==
      Upto(offset, len, r.index + r.count) - Upto(offset, len, r.index) + RunBytes(runs[1..], offset, len)
  {
    var n := |runs| - 1;
    if n > 0 {
      RunBytesHead(runs[..n], offset, len);
      assert runs[..n][1..] == runs[1..][..n - 1] && runs[1..][n - 1] == runs[n];
    }
  }

  lemma {:induction false} RunInRange(runs: seq<Run>, pages: Pages, offset: nat, len: nat)
    requires len > 0 && runs != [] && RunsOf(runs, pages, offset / PAGE_SIZE, offset / PAGE_SIZE + PageNum(offset, len))
    ensures forall p :: runs[0].index <= p < runs[0].index + runs[0].count ==> p !in pages
    ensures runs[0].index * PAGE_SIZE < offset + len && offset < (runs[0].index + runs[0].count) * PAGE_SIZE
  {
    forall p | runs[0].index <= p < runs[0].index + runs[0].count ensures p !in pages {
      assert InRuns(runs, p);
    }
  }

  /** Once the first run is resident the other runs are what is missing. */
  lemma {:induction false} RunDone(runs: seq<Run>, pages: Pages, pages': Pages, lo: nat, hi: nat)
    requires runs != [] && RunsOf(runs, pages, lo, hi)
    requires forall p :: p in pages' <==> p in pages || runs[0].index <= p < runs[0].index + runs[0].count
    ensures RunsOf(runs[1..], pages', lo, hi)
  {
    forall p | lo <= p < hi ensures p !in pages' <==> InRuns(runs[1..], p) {
      if InRuns(runs[1..], p) {
        var j :| 0 <= j < |runs[1..]| && runs[1..][j].index <= p < runs[1..][j].index + runs[1..][j].count;
        assert runs[j + 1].index <= p < runs[j + 1].index + runs[j + 1].count;
        assert InRuns(runs, p) && runs[0].index + runs[0].count < runs[j + 1].index;
      }
      if p !in pages' {
        assert InRuns(runs, p);
        var j :| 0 <= j < |runs| && runs[j].index <= p < runs[j].index + runs[j].count;
        assert runs[1..][j - 1] == runs[j];
      }
    }
  }

  lemma {:induction false} NoRunsLeft(pages: Pages, lo: nat, hi: nat)
    requires RunsOf([], pages, lo, hi)
    ensures forall p :: lo <= p < hi ==> p in pages
  {
    forall p | lo <= p < hi ensures p in pages {
      assert !InRuns([], p);
    }
  }

  // ---------- the frames that a range needs ----------

  /** How many pages of [lo, hi) are not resident. */
  ghost function Missing(pages: Pages, lo: nat, hi: nat): nat {
    |MissingSet(pages, lo, hi)|
  }

  ghost function MissingSet(pages: Pages, lo: nat, hi: nat): set<nat> {
    set p: nat | lo <= p < hi && p !in pages
  }

  lemma {:induction false} MissingNext(pages: Pages, lo: nat, hi: nat)
    requires lo <= hi
    ensures Missing(pages, lo, hi + 1) == Missing(pages, lo, hi) + Bit(hi !in pages)
  {
    var next := MissingSet(pages, lo, hi + 1);
    if hi in pages {
      assert next == MissingSet(pages, lo, hi);
    } else {
      assert next == MissingSet(pages, lo, hi) + {hi};
    }
  }

  /** The pages of a range of bytes that are not resident. */
  ghost function MissingPages(pages: Pages, offset: nat, len: nat): nat {
    if len == 0 then 0 else Missing(pages, offset / PAGE_SIZE, offset / PAGE_SIZE + PageNum(offset, len))
  }

  /** The page starts a stretch of missing pages: the disk is read from here. */
  ghost predicate RunStart(pages: Pages, lo: nat, p: nat) {
    p !in pages && (p == lo || (p > 0 && p - 1 in pages))
  }

  /** The missing pages of [lo, upto) have been made. */
  ghost predicate Fetched(pages0: Pages, pages: Pages, lo: nat, upto: nat) {
    forall p :: p in pages <==> p in pages0 || lo <= p < upto
  }

  lemma {:induction false} MissingGrows(pages: Pages, lo: nat, a: nat, b: nat)
    requires lo <= a <= b
    ensures Missing(pages, lo, a) <= Missing(pages, lo, b)
    decreases b
  {
    if a < b {
      MissingGrows(pages, lo, a, b - 1);
      MissingNext(pages, lo, b - 1);
    }
  }

  lemma {:induction false} MissingRun(pages: Pages, lo: nat, a: nat, b: nat)
    requires lo <= a <= b && forall p :: a <= p < b ==> p !in pages
    ensures Missing(pages, lo, b) == Missing(pages, lo, a) + (b - a)
    decreases b
  {
    if a < b {
      MissingRun(pages, lo, a, b - 1);
      MissingNext(pages, lo, b - 1);
    }
  }

  lemma {:induction false} MissingNone(pages: Pages, lo: nat, a: nat, b: nat)
    requires lo <= a <= b && forall p :: a <= p < b ==> p in pages
    ensures Missing(pages, lo, b) == Missing(pages, lo, a)
    decreases b
  {
    if a < b {
      MissingNone(pages, lo, a, b - 1);
      MissingNext(pages, lo, b - 1);
    }
  }

  /** Where the loop over the runs is: all before `q` is resident, at the cost of the frames that were missing. */
  ghost predicate Fetching(
      pages0: Pages, pages: Pages, frames0: nat, frames: nat, broken: set<nat>, lo: nat, q: nat, hi: nat)
  {
    && lo <= q <= hi && Fetched(pages0, pages, lo, q)
    && frames + Missing(pages0, lo, q) == frames0
    && (lo < q < hi ==> q in pages0)
    && (forall p {:trigger RunStart(pages0, lo, p)} :: lo <= p < q && RunStart(pages0, lo, p) ==> p !in broken)
  }

  /** The next run, seen from the pages that were resident at the start. */
  lemma {:induction false} NextRun(runs: seq<Run>, pages0: Pages, pages: Pages, lo: nat, q: nat, hi: nat)
    requires RunsOf(runs, pages, lo, hi) && runs != [] && lo <= q <= hi && Fetched(pages0, pages, lo, q)
    requires lo < q < hi ==> q in pages0
    ensures var a, b := runs[0].index, runs[0].index + runs[0].count;
      && q <= a < b <= hi && RunStart(pages0, lo, a)
      && (forall p :: q <= p < a ==> p in pages0) && (forall p :: a <= p < b ==> p !in pages0)
      && (b < hi ==> b in pages0)
  {
    var a, b := runs[0].index, runs[0].index + runs[0].count;
    assert InRuns(runs, a);
    forall p | a <= p < b ensures p !in pages0 {
      assert InRuns(runs, p);
    }
    forall p | q <= p < a ensures p in pages0 {
      assert !InRuns(runs, p);
    }
    if b < hi {
      assert !InRuns(runs, b);
    }
  }

  /** The run has been made. */
  lemma {:induction false} RunFetched(
      runs: seq<Run>, pages0: Pages, pages: Pages, pages': Pages, frames0: nat, frames: nat, broken: set<nat>,
      lo: nat, q: nat, hi: nat)
    requires RunsOf(runs, pages, lo, hi) && runs != []
    requires Fetching(pages0, pages, frames0, frames, broken, lo, q, hi)
    requires runs[0].index !in broken && runs[0].count <= frames
    requires Fetched(pages, pages', runs[0].index, runs[0].index + runs[0].count)
    ensures var b := runs[0].index + runs[0].count;
      Fetching(pages0, pages', frames0, frames - runs[0].count, broken, lo, b, hi)
  {
    var a, b := runs[0].index, runs[0].index + runs[0].count;
    NextRun(runs, pages0, pages, lo, q, hi);
    MissingNone(pages0, lo, q, a);
    MissingRun(pages0, lo, a, b);
  }

  /** The run cannot be read. */
  lemma {:induction false} RunBroken(
      runs: seq<Run>, pages0: Pages, pages: Pages, pages': Pages, frames0: nat, frames: nat, broken: set<nat>,
      lo: nat, q: nat, hi: nat)
    requires RunsOf(runs, pages, lo, hi) && runs != []
    requires Fetching(pages0, pages, frames0, frames, broken, lo, q, hi) && runs[0].index in broken
    requires Fetched(pages, pages', runs[0].index, runs[0].index)
    ensures Fetches(IoError, pages0, pages', frames0, frames, broken, lo, hi)
  {
    var a := runs[0].index;
    NextRun(runs, pages0, pages, lo, q, hi);
    MissingNone(pages0, lo, q, a);
    assert Unreadable(pages0, frames0, broken, lo, hi, a);
    assert FetchedTo(IoError, pages0, pages', frames0, frames, broken, lo, hi, a);
  }

  /** There are frames for a part of the run alone. */
  lemma {:induction false} RunCut(
      runs: seq<Run>, pages0: Pages, pages: Pages, pages': Pages, frames0: nat, frames: nat, broken: set<nat>,
      lo: nat, q: nat, hi: nat)
    requires RunsOf(runs, pages, lo, hi) && runs != []
    requires Fetching(pages0, pages, frames0, frames, broken, lo, q, hi)
    requires runs[0].index !in broken && frames < runs[0].count
    requires Fetched(pages, pages', runs[0].index, runs[0].index + frames)
    ensures Fetches(NoMemory, pages0, pages', frames0, 0, broken, lo, hi)
  {
    var a, b := runs[0].index, runs[0].index + runs[0].count;
    NextRun(runs, pages0, pages, lo, q, hi);
    MissingNone(pages0, lo, q, a);
    MissingRun(pages0, lo, a, a + frames);
    MissingRun(pages0, lo, a, b);
    MissingGrows(pages0, lo, b, hi);
    forall p: nat ensures !Unreadable(pages0, frames0, broken, lo, hi, p) {
      if lo <= p < hi && RunStart(pages0, lo, p) && p in broken {
        MissingGrows(pages0, lo, b, p);
      }
    }
    assert FetchedTo(NoMemory, pages0, pages', frames0, 0, broken, lo, hi, a + frames);
  }

  lemma {:induction false} AllFetched(
      pages0: Pages, pages: Pages, frames0: nat, frames: nat, broken: set<nat>, lo: nat, q: nat, hi: nat, n: nat)
    requires RunsOf([], pages, lo, hi) && Fetching(pages0, pages, frames0, frames, broken, lo, q, hi)
    ensures Fetches(Ok(n), pages0, pages, frames0, frames, broken, lo, hi)
  {
    NoRunsLeft(pages, lo, hi);
    MissingNone(pages0, lo, q, hi);
    assert FetchedTo(Ok(n), pages0, pages, frames0, frames, broken, lo, hi, hi);
  }

  /** A page from which the disk cannot be read, and which the frames reach. */
  ghost predicate Unreadable(pages: Pages, frames: nat, broken: set<nat>, lo: nat, hi: nat, p: nat) {
    lo <= p < hi && RunStart(pages, lo, p) && p in broken && Missing(pages, lo, p) <= frames
  }

  /**
    What comes of fetching the pages [lo, hi): an input error exactly when a stretch of missing
    pages that the frames reach cannot be read, success exactly when there is no such stretch and
    there are frames for all missing pages, and no memory otherwise.  The pages that were made are
    the missing ones before some page, and each cost one frame.
   */
  ghost predicate Fetches(
      res: Result<nat>, pages0: Pages, pages: Pages, frames0: nat, frames: nat, broken: set<nat>, lo: nat, hi: nat)
  {
    && lo <= hi
    && (res.IoError? <==> exists p: nat :: Unreadable(pages0, frames0, broken, lo, hi, p))
    && (res.Ok? <==>
        && Missing(pages0, lo, hi) <= frames0
        && forall p :: lo <= p < hi && RunStart(pages0, lo, p) ==> p !in broken)
    && (exists q: nat :: FetchedTo(res, pages0, pages, frames0, frames, broken, lo, hi, q))
  }

  ghost predicate FetchedTo(
      res: Result<nat>, pages0: Pages, pages: Pages, frames0: nat, frames: nat, broken: set<nat>, lo: nat, hi: nat,
      q: nat)
  {
    && lo <= q <= hi && Fetched(pages0, pages, lo, q) && frames + Missing(pages0, lo, q) == frames0
    && (res.Ok? ==> q == hi)
    && (res.IoError? ==> Unreadable(pages0, frames0, broken, lo, hi, q))
    && (res.NoMemory? ==> frames == 0 && q < hi && q !in pages0)
  }

  /** What comes of making the pages of one run: an input error, all of them, or as many as there are frames for. */
  ghost predicate RunFills(
      res: Result<nat>, r: Run, pages: Pages, pages': Pages, frames: nat, frames': nat, broken: set<nat>)
  {
    && (res.IoError? <==> r.index in broken)
    && (res.Ok? <==> r.index !in broken && r.count <= frames)
    && var made := if res.IoError? then 0 else Min(r.count, frames);
       Fetched(pages, pages', r.index, r.index + made) && frames' == frames - made
  }

  ghost predicate ToFetch(
      rest: seq<Run>, pages0: Pages, pages: Pages, frames0: nat, frames: nat, broken: set<nat>, lo: nat, q: nat,
      hi: nat)
  {
    RunsOf(rest, pages, lo, hi) && Fetching(pages0, pages, frames0, frames, broken, lo, q, hi)
  }

  lemma {:induction false} FetchStep(
      res: Result<nat>, rest: seq<Run>, tail: seq<Run>, pages0: Pages, pages: Pages, pages': Pages, frames0: nat,
      frames: nat, frames': nat, broken: set<nat>, lo: nat, q: nat, b: nat, hi: nat)
    requires rest != [] && tail == rest[1..] && b == rest[0].index + rest[0].count
    requires ToFetch(rest, pages0, pages, frames0, frames, broken, lo, q, hi)
    requires RunFills(res, rest[0], pages, pages', frames, frames', broken)
    ensures !res.Ok? ==> Fetches(res, pages0, pages', frames0, frames', broken, lo, hi)
    ensures res.Ok? ==> ToFetch(tail, pages0, pages', frames0, frames', broken, lo, b, hi)
  {
    match res {
      case IoError => RunBroken(rest, pages0, pages, pages', frames0, frames, broken, lo, q, hi);
      case NoMemory => RunCut(rest, pages0, pages, pages', frames0, frames, broken, lo, q, hi);
      case Ok(_) =>
        RunFetched(rest, pages0, pages, pages', frames0, frames, broken, lo, q, hi);
        RunDone(rest, pages, pages', lo, hi);
    }
  }

  /** With every page resident there is nothing to fetch. */
  lemma {:induction false} NothingMissing(pages: Pages, offset: nat, len: nat)
    requires len > 0 && forall p :: Touched(offset, len, p) ==> p in pages
    ensures MissingPages(pages, offset, len) == 0
    ensures forall p :: RunStart(pages, offset / PAGE_SIZE, p) ==> !Touched(offset, len, p)
  {
    var lo := offset / PAGE_SIZE;
    TouchedPages(offset, len);
    forall p: nat | lo <= p < lo + PageNum(offset, len) ensures p in pages {
      assert Touched(offset, len, p);
    }
    MissingNone(pages, lo, lo, lo + PageNum(offset, len));
  }

  /** The range has a byte on the page. */
  ghost predicate Touched(offset: nat, len: nat, p: nat)
    requires len > 0
  {
    offset / PAGE_SIZE <= p <= (offset + len - 1) / PAGE_SIZE
  }

  lemma {:induction false} TouchedPages(offset: nat, len: nat)
    requires len > 0
    ensures var lo := offset / PAGE_SIZE;
      forall p: nat :: Touched(offset, len, p) <==> lo <= p < lo + PageNum(offset, len)
  {
  }

  // ---------- writing ----------

  function ZeroPage(): (s: seq<Byte>)
    ensures |s| == PAGE_SIZE
  {
    seq(PAGE_SIZE, _ => 0)
  }

  function PageWritten(pages: Pages, page: nat, o: nat, part: seq<Byte>): Pages
    requires page in pages ==> |pages[page]| == PAGE_SIZE
    requires o + |part| <= PAGE_SIZE
  {
    pages[page := Patched(if page in pages then pages[page] else ZeroPage(), o, part)]
  }

  /** The byte of the file at `x` after `data` was stored at `offset`. */
  ghost function AfterWrite(pages: Pages, disk: seq<Byte>, offset: nat, data: seq<Byte>, x: nat): Byte
    requires WellFormed(pages)
  {
    if offset <= x < offset + |data| then data[x - offset]
    else if data != [] && Touched(offset, |data|, x / PAGE_SIZE) && x / PAGE_SIZE !in pages then 0
    else At(pages, disk, x)
  }

  /** `n` bytes have been stored, on pages [lo, hi). */
  ghost function PartAt(
      pages: Pages, disk: seq<Byte>, offset: nat, data: seq<Byte>, n: nat, lo: nat, hi: nat, x: nat): Byte
    requires WellFormed(pages) && n <= |data|
  {
    if offset <= x < offset + n then data[x - offset]
    else if lo <= x / PAGE_SIZE < hi && x / PAGE_SIZE !in pages then 0
    else At(pages, disk, x)
  }

  ghost predicate Writing(
      pages0: Pages, pages: Pages, dirty0: set<nat>, dirty: set<nat>, disk: seq<Byte>, offset: nat, data: seq<Byte>,
      lo: nat, hi: nat, n: nat)
  {
    && WellFormed(pages0) && WellFormed(pages) && n <= |data|
    && (forall p :: p in pages <==> p in pages0 || lo <= p < hi)
    && (forall p :: p in dirty <==> p in dirty0 || lo <= p < hi)
    && (forall x :: At(pages, disk, x) == PartAt(pages0, disk, offset, data, n, lo, hi, x))
  }

  lemma {:induction false} WritingStep(
      pages0: Pages, pages: Pages, pages': Pages, dirty0: set<nat>, dirty: set<nat>, dirty': set<nat>,
      disk: seq<Byte>, offset: nat, data: seq<Byte>, lo: nat, page: nat, n: nat, o: nat, k: nat)
    requires Writing(pages0, pages, dirty0, dirty, disk, offset, data, lo, page, n) && lo <= page && n + k <= |data|
    requires offset + n == page * PAGE_SIZE + o && o + k <= PAGE_SIZE && (n > 0 ==> o == 0)
    requires pages' == PageWritten(pages, page, o, data[n..n + k]) && dirty' == dirty + {page}
    ensures Writing(pages0, pages', dirty0, dirty', disk, offset, data, lo, page + 1, n + k)
  {
    forall x: nat ensures At(pages', disk, x) == PartAt(pages0, disk, offset, data, n + k, lo, page + 1, x) {
      assert At(pages, disk, x) == PartAt(pages0, disk, offset, data, n, lo, page, x);
      StoredByte(pages, pages', disk, offset, data, page, n, o, k, x);
    }
  }

  /** The effect of storing into one page, byte by byte. */
  lemma {:induction false} StoredByte(
      pages: Pages, pages': Pages, disk: seq<Byte>, offset: nat, data: seq<Byte>, page: nat, n: nat, o: nat, k: nat,
      x: nat)
    requires WellFormed(pages) && n + k <= |data| && offset + n == page * PAGE_SIZE + o && o + k <= PAGE_SIZE
    requires pages' == PageWritten(pages, page, o, data[n..n + k])
    ensures WellFormed(pages')
    ensures At(pages', disk, x) ==
      if offset + n <= x < offset + n + k then data[x - offset]
      else if x / PAGE_SIZE == page && page !in pages then 0
      else At(pages, disk, x)
  {
    if x / PAGE_SIZE == page {
      var base := if page in pages then pages[page] else ZeroPage();
      assert pages'[page] == Patched(base, o, data[n..n + k]);
      assert x == page * PAGE_SIZE + x % PAGE_SIZE;
    }
  }

  lemma {:induction false} WritingTouched(
      pages0: Pages, pages: Pages, dirty0: set<nat>, dirty: set<nat>, disk: seq<Byte>, offset: nat, data: seq<Byte>,
      i: nat, n: nat)
    requires data != [] && i <= PageNum(offset, |data|) && n == Upto(offset, |data|, offset / PAGE_SIZE + i)
    requires Writing(pages0, pages, dirty0, dirty, disk, offset, data, offset / PAGE_SIZE, offset / PAGE_SIZE + i, n)
    ensures forall p :: p in pages <==> p in pages0 || (n > 0 && Touched(offset, n, p))
    ensures forall p :: p in dirty <==> p in dirty0 || (n > 0 && Touched(offset, n, p))
    ensures forall x :: At(pages, disk, x) == AfterWrite(pages0, disk, offset, data[..n], x)
  {
    var lo := offset / PAGE_SIZE;
    Reached(offset, |data|, i);
    forall p: nat ensures lo <= p < lo + i <==> n > 0 && Touched(offset, n, p) {}
    forall x: nat ensures At(pages, disk, x) == AfterWrite(pages0, disk, offset, data[..n], x) {
      assert At(pages, disk, x) == PartAt(pages0, disk, offset, data, n, lo, lo + i, x);
    }
  }

  /** The pages of the first `i` parts of a range. */
  lemma {:induction false} Reached(offset: nat, len: nat, i: nat)
    requires len > 0 && i <= PageNum(offset, len)
    ensures var n := Upto(offset, len, offset / PAGE_SIZE + i);
      (i == 0 <==> n == 0) && (n > 0 ==> (offset + n - 1) / PAGE_SIZE == offset / PAGE_SIZE + i - 1)
  {
  }

  /** The pages missing for the first `i` parts of a range. */
  lemma {:induction false} ReachedMissing(pages: Pages, offset: nat, len: nat, i: nat)
    requires len > 0 && i <= PageNum(offset, len)
    ensures var lo := offset / PAGE_SIZE;
      && MissingPages(pages, offset, Upto(offset, len, lo + i)) == Missing(pages, lo, lo + i)
      && (i < PageNum(offset, len) ==> (offset + Upto(offset, len, lo + i)) / PAGE_SIZE == lo + i)
  {
    var n := Upto(offset, len, offset / PAGE_SIZE + i);
    Reached(offset, len, i);
    if n > 0 { assert PageNum(offset, n) == i; }
  }

  /** A part of a range for which there is no frame: the whole range needs more than what has been used. */
  lemma {:induction false} WriteStopped(pages: Pages, offset: nat, len: nat, i: nat)
    requires len > 0 && i < PageNum(offset, len) && offset / PAGE_SIZE + i !in pages
    ensures var n := Upto(offset, len, offset / PAGE_SIZE + i);
      && (offset + n) / PAGE_SIZE == offset / PAGE_SIZE + i
      && MissingPages(pages, offset, n) == Missing(pages, offset / PAGE_SIZE, offset / PAGE_SIZE + i)
      && MissingPages(pages, offset, len) > MissingPages(pages, offset, n)
  {
    var lo := offset / PAGE_SIZE;
    ReachedMissing(pages, offset, len, i);
    MissingNext(pages, lo, lo + i);
    MissingGrows(pages, lo, lo + i + 1, lo + PageNum(offset, len));
  }

  // ---------- filling runs from the disk ----------

  /** `read_sync` into a zeroed buffer. */
  function ReadSync(disk: seq<Byte>, offset: nat, n: nat): (s: seq<Byte>)
    ensures |s| == n
  {
    seq(n, k requires 0 <= k < n => DiskAt(disk, offset + k))
  }

  /** `n` pages made from a buffer. */
  function Created(pages: Pages, index: nat, n: nat, buf: seq<Byte>): Pages
    requires n * PAGE_SIZE <= |buf|
  {
    if n == 0 then pages
    else Created(pages, index, n - 1, buf)[index + n - 1 := buf[(n - 1) * PAGE_SIZE..n * PAGE_SIZE]]
  }

  lemma {:induction false} CreatedPages(pages: Pages, index: nat, n: nat, buf: seq<Byte>)
    requires n * PAGE_SIZE <= |buf|
    ensures var ps := Created(pages, index, n, buf);
      && (forall p :: p in ps <==> p in pages || index <= p < index + n)
      && (forall p :: p in ps && !(index <= p < index + n) ==> ps[p] == pages[p])
      && (forall p :: index <= p < index + n ==>
            p in ps && ps[p] == buf[(p - index) * PAGE_SIZE..(p - index + 1) * PAGE_SIZE])
      && (WellFormed(pages) ==> WellFormed(ps))
  {
    if n > 0 { CreatedPages(pages, index, n - 1, buf); }
  }

  lemma {:induction false} OneCreated(pages: Pages, index: nat, buf: seq<Byte>)
    requires |buf| == PAGE_SIZE
    ensures Created(pages, index, 1, buf) == pages[index := buf]
  {
    assert buf[0 * PAGE_SIZE..1 * PAGE_SIZE] == buf;
    assert Created(pages, index, 0, buf) == pages;
  }

  /** Pages that were not resident, filled from the disk, do not change the file. */
  lemma {:induction false} CreatedSame(pages: Pages, disk: seq<Byte>, index: nat, count: nat, n: nat)
    requires WellFormed(pages) && n <= count && forall p :: index <= p < index + count ==> p !in pages
    ensures SameFile(pages, Created(pages, index, n, ReadSync(disk, index * PAGE_SIZE, count * PAGE_SIZE)), disk)
  {
    var buf := ReadSync(disk, index * PAGE_SIZE, count * PAGE_SIZE);
    var ps := Created(pages, index, n, buf);
    CreatedPages(pages, index, n, buf);
    forall x: nat ensures At(ps, disk, x) == At(pages, disk, x) {
      var p, o := x / PAGE_SIZE, x % PAGE_SIZE;
      if index <= p < index + n {
        assert ps[p][o] == buf[(p - index) * PAGE_SIZE + o];
      }
    }
  }

  /** The buffer after the bytes of a run have been copied from the disk. */
  lemma {:induction false} RunCopied(
      s: seq<Byte>, pages: Pages, pages': Pages, disk: seq<Byte>, offset: nat, len: nat, r: Run)
    requires SameFile(pages, pages', disk) && len > 0 && Filled(s, len, pages, disk, offset)
    requires forall p :: p in pages' <==> p in pages || r.index <= p < r.index + r.count
    requires forall p :: r.index <= p < r.index + r.count ==> p !in pages
    ensures var a, b := Upto(offset, len, r.index), Upto(offset, len, r.index + r.count);
      a <= b <= len && Filled(Patched(s, a, ReadSync(disk, offset + a, b - a)), len, pages', disk, offset)
  {
    var a, b := Upto(offset, len, r.index), Upto(offset, len, r.index + r.count);
    var t := Patched(s, a, ReadSync(disk, offset + a, b - a));
    forall k | 0 <= k < len && (offset + k) / PAGE_SIZE in pages' ensures t[k] == At(pages', disk, offset + k) {
      assert At(pages', disk, offset + k) == At(pages, disk, offset + k);
      var p := (offset + k) / PAGE_SIZE;
      assert p * PAGE_SIZE <= offset + k < (p + 1) * PAGE_SIZE;
      assert r.index <= p < r.index + r.count <==> a <= k < b;
    }
  }

  class InnerPageCache {
    var pages: Pages
    var dirty: set<nat>
    /** The inode: its bytes and its size, the pages at which reading it fails, and the frames that are left. */
    const disk: seq<Byte>
    const fileSize: nat
    const broken: set<nat>
    var frames: nat

    ghost predicate Valid()
      reads this
    {
      WellFormed(pages)
    }

    constructor (disk: seq<Byte>, fileSize: nat, broken: set<nat>, frames: nat)
      ensures Valid() && pages == map[] && dirty == {} && this.disk == disk && this.fileSize == fileSize
      ensures this.broken == broken && this.frames == frames
    {
      pages, dirty := map[], {};
      this.disk, this.fileSize, this.broken, this.frames := disk, fileSize, broken, frames;
    }

    /** `create_pages`: as many pages as there are frames for. */
    method CreatePages(index: nat, buf: seq<Byte>) returns (ok: bool, ghost made: nat)
      requires Valid() && |buf| % PAGE_SIZE == 0
      modifies `pages, `frames
      ensures Valid() && made == Min(|buf| / PAGE_SIZE, old(frames)) && (ok <==> |buf| / PAGE_SIZE <= old(frames))
      ensures pages == Created(old(pages), index, made, buf) && frames == old(frames) - made
    {
      made := 0;
      var n := |buf| / PAGE_SIZE;
      var i := 0;
      while i < n
        invariant i <= n && Valid() && made == i && pages == Created(old(pages), index, i, buf)
        invariant frames + i == old(frames)
      {
        if frames == 0 {
          return false, made;
        }
        frames := frames - 1;
        pages := pages[index + i := buf[i * PAGE_SIZE..i * PAGE_SIZE + PAGE_SIZE]];
        i := i + 1;
        made := i;
      }
      ok := true;
    }

    method CopyInto(buf: array<Byte>, a: nat, t: seq<Byte>)
      requires a + |t| <= buf.Length
      modifies buf
      ensures buf[..] == Patched(old(buf[..]), a, t)
    {
      forall k | 0 <= k < |t| {
        buf[a + k] := t[k];
      }
    }

    /** Copies the part of one resident page. */
    method CopyPage(buf: array<Byte>, a: nat, page: nat, o: nat, n: nat, ghost offset: nat)
      requires Valid() && page in pages && Filled(buf[..], a, pages, disk, offset)
      requires offset + a == page * PAGE_SIZE + o && o + n <= PAGE_SIZE && a + n <= buf.Length
      modifies buf
      ensures Filled(buf[..], a + n, pages, disk, offset) && buf[a + n..] == old(buf[a + n..])
    {
      PageCopied(buf[..], a, pages, disk, offset, page, o, n);
      CopyInto(buf, a, pages[page][o..o + n]);
    }

    /** The first loop of `read`: copies what is resident and collects the runs of missing pages. */
    method CopyResident(offset: nat, len: nat, buf: array<Byte>) returns (runs: seq<Run>, ret: nat)
      requires Valid() && 0 < len <= buf.Length
      modifies buf
      ensures RunsOf(runs, pages, offset / PAGE_SIZE, offset / PAGE_SIZE + PageNum(offset, len))
      ensures Filled(buf[..], len, pages, disk, offset) && buf[len..] == old(buf[len..])
      ensures ret + RunBytes(runs, offset, len) == len
    {
      CuttingEnds(offset, len);
      var start, pageNum := offset / PAGE_SIZE, PageNum(offset, len);
      var bufOffset := 0;
      runs, ret := [], 0;
      var i := 0;
      while i < pageNum
        invariant i <= pageNum && bufOffset == Upto(offset, len, start + i) <= len
        invariant RunsOf(runs, pages, start, start + i) && ret + RunBytes(runs, offset, len) == bufOffset
        invariant Filled(buf[..], bufOffset, pages, disk, offset) && buf[bufOffset..] == old(buf[bufOffset..])
      {
        var page, pageOffset, subLen := start + i, PageOffset(offset, i), SubLen(offset, len, i);
        Cutting(offset, len, i);
        runs, ret := Visit(offset, len, buf, bufOffset, page, pageOffset, subLen, runs, ret, start);
        bufOffset := bufOffset + subLen;
        i := i + 1;
      }
    }

    /** One round of that loop. */
    method Visit(
        offset: nat, len: nat, buf: array<Byte>, a: nat, page: nat, o: nat, n: nat, runs0: seq<Run>, ret0: nat,
        ghost start: nat)
        returns (runs: seq<Run>, ret: nat)
      requires Valid() && Filled(buf[..], a, pages, disk, offset) && RunsOf(runs0, pages, start, page) && start <= page
      requires a == Upto(offset, len, page) && a + n == Upto(offset, len, page + 1)
      requires offset + a == page * PAGE_SIZE + o && o + n <= PAGE_SIZE && a + n <= buf.Length
      modifies buf
      ensures RunsOf(runs, pages, start, page + 1)
      ensures ret + RunBytes(runs, offset, len) == ret0 + RunBytes(runs0, offset, len) + n
      ensures Filled(buf[..], a + n, pages, disk, offset) && buf[a + n..] == old(buf[a + n..])
    {
      runs, ret := runs0, ret0;
      if page in pages {
        CopyPage(buf, a, page, o, n, offset);
        RecordPresent(runs, pages, start, page);
        ret := ret + n;
      } else {
        PageSkipped(buf[..], a, pages, disk, offset, page, o, n);
        RecordMissing(runs, pages, start, page);
        RecordBytes(runs, page, offset, len);
        runs := Recorded(runs, page);
      }
    }

    /**
      One round of the second loop of `read`: a run of missing pages comes from the disk, into pages
      and into the buffer.
     */
    method FillRun(r: Run, offset: nat, len: nat, buf: array<Byte>) returns (res: Result<nat>)
      requires Valid() && 0 < len <= buf.Length && Filled(buf[..], len, pages, disk, offset)
      requires forall p :: r.index <= p < r.index + r.count ==> p !in pages
      requires r.index * PAGE_SIZE < offset + len && offset < (r.index + r.count) * PAGE_SIZE
      modifies buf, `pages, `frames
      ensures SameFile(old(pages), pages, disk) && buf[len..] == old(buf[len..])
      ensures RunFills(res, r, old(pages), pages, old(frames), frames, broken)
      ensures res.Ok? ==> Filled(buf[..], len, pages, disk, offset)
      ensures res.Ok? ==> res.value == Upto(offset, len, r.index + r.count) - Upto(offset, len, r.index)
    {
      if r.index in broken {
        return IoError;
      }
      var pageBuf := ReadSync(disk, r.index * PAGE_SIZE, r.count * PAGE_SIZE);
      CreatedSame(pages, disk, r.index, r.count, r.count);
      var ok, made := CreatePages(r.index, pageBuf);
      CreatedSame(old(pages), disk, r.index, r.count, made);
      CreatedPages(old(pages), r.index, made, pageBuf);
      if !ok {
        return NoMemory;
      }
      RunCopied(buf[..], old(pages), pages, disk, offset, len, r);
      res := CopyRun(r, offset, len, buf, pageBuf);
    }

    /** The copy of the part of a run that was asked for. */
    method CopyRun(r: Run, offset: nat, len: nat, buf: array<Byte>, pageBuf: seq<Byte>) returns (res: Result<nat>)
      requires 0 < len <= buf.Length && pageBuf == ReadSync(disk, r.index * PAGE_SIZE, r.count * PAGE_SIZE)
      requires r.index * PAGE_SIZE < offset + len && offset < (r.index + r.count) * PAGE_SIZE
      modifies buf
      ensures var a, b := Upto(offset, len, r.index), Upto(offset, len, r.index + r.count);
        a <= b <= len && res == Ok(b - a) && buf[..] == Patched(old(buf[..]), a, ReadSync(disk, offset + a, b - a))
    {
      var copyOffset := Max(r.index * PAGE_SIZE, offset);
      var copyLen := Min((r.index + r.count) * PAGE_SIZE, offset + len) - copyOffset;
      var pageBufOffset := if r.index * PAGE_SIZE < copyOffset then copyOffset - r.index * PAGE_SIZE else 0;
      var bufOffset := copyOffset - offset;
      CopyInto(buf, bufOffset, pageBuf[pageBufOffset..pageBufOffset + copyLen]);
      assert pageBuf[pageBufOffset..pageBufOffset + copyLen] == ReadSync(disk, offset + bufOffset, copyLen);
      res := Ok(copyLen);
    }

    /**
      The second loop of `read`, over the pages [lo, hi), has `rest` still to fetch; all pages of
      the range before `q` are resident.
     */
    ghost predicate Reading(
        pages0: Pages, frames0: nat, offset: nat, len: nat, s: seq<Byte>, rest: seq<Run>, ret: nat, lo: nat, q: nat,
        hi: nat)
      reads this
    {
      && Valid() && Filled(s, len, pages, disk, offset)
      && ret + RunBytes(rest, offset, len) == len
      && ToFetch(rest, pages0, pages, frames0, frames, broken, lo, q, hi)
    }

    /** One round of that loop. */
    method FillNext(
        rest: seq<Run>, ret: nat, offset: nat, len: nat, buf: array<Byte>, ghost pages0: Pages, ghost frames0: nat,
        ghost lo: nat, ghost q: nat, ghost hi: nat)
        returns (copied: Result<nat>, tail: seq<Run>, got: nat, ghost upto: nat)
      requires len > 0 && lo == offset / PAGE_SIZE && hi == lo + PageNum(offset, len) && rest != []
      requires Reading(pages0, frames0, offset, len, buf[..], rest, ret, lo, q, hi)
      modifies buf, `pages, `frames
      ensures SameFile(old(pages), pages, disk) && buf[len..] == old(buf[len..])
      ensures !copied.Ok? ==> Fetches(copied, pages0, pages, frames0, frames, broken, lo, hi)
      ensures copied.Ok? ==>
        |tail| < |rest| && Reading(pages0, frames0, offset, len, buf[..], tail, got, lo, upto, hi)
    {
      RunInRange(rest, pages, offset, len);
      RunBytesHead(rest, offset, len);
      copied := FillRun(rest[0], offset, len, buf);
      tail, upto := rest[1..], rest[0].index + rest[0].count;
      FetchStep(
        copied, rest, tail, pages0, old(pages), pages, frames0, old(frames), frames, broken, lo, q, upto, hi);
      got := if copied.Ok? then ret + copied.value else ret;
    }

    /** The second loop of `read`. */
    method FillRuns(runs: seq<Run>, ret0: nat, offset: nat, len: nat, buf: array<Byte>) returns (res: Result<nat>)
      requires Valid() && 0 < len <= buf.Length && Filled(buf[..], len, pages, disk, offset)
      requires RunsOf(runs, pages, offset / PAGE_SIZE, offset / PAGE_SIZE + PageNum(offset, len))
      requires ret0 + RunBytes(runs, offset, len) == len
      modifies buf, `pages, `frames
      ensures SameFile(old(pages), pages, disk) && buf[len..] == old(buf[len..])
      ensures res.Ok? ==> res.value == len && Filled(buf[..], len, pages, disk, offset)
      ensures var lo := offset / PAGE_SIZE;
        Fetches(res, old(pages), pages, old(frames), frames, broken, lo, lo + PageNum(offset, len))
    {
      ghost var lo, hi := offset / PAGE_SIZE, offset / PAGE_SIZE + PageNum(offset, len);
      ghost var q: nat := lo;
      var rest: seq<Run>, ret: nat := runs, ret0;
      while rest != []
        invariant Reading(old(pages), old(frames), offset, len, buf[..], rest, ret, lo, q, hi)
        invariant SameFile(old(pages), pages, disk) && buf[len..] == old(buf[len..])
        decreases |rest|
      {
        ghost var pages0 := pages;
        res, rest, ret, q := FillNext(rest, ret, offset, len, buf, old(pages), old(frames), lo, q, hi);
        SameAgain(old(pages), pages0, pages, disk);
        if !res.Ok? {
          return;
        }
      }
      AllFetched(old(pages), pages, old(frames), frames, broken, lo, q, hi, ret);
      res := Ok(ret);
    }

    /**
      `read`: exactly the bytes of the range that lie within the file, as the flat file has them.
      The file does not change, whatever was resident and however the missing pages were grouped;
      after success every page that was touched is resident.
     */
    method Read(offset: nat, buf: array<Byte>) returns (res: Result<nat>)
      requires Valid()
      modifies buf, `pages, `frames
      ensures SameFile(old(pages), pages, disk)
      ensures var len := if offset < fileSize then Min(fileSize, offset + buf.Length) - offset else 0;
        && (len == 0 ==> res == Ok(0) && pages == old(pages) && frames == old(frames))
        && buf[len..] == old(buf[len..])
        && (res.Ok? ==> res.value == len)
        && (res.Ok? ==> forall k :: 0 <= k < len ==> buf[k] == At(pages, disk, offset + k))
        && (res.Ok? ==> forall k :: 0 <= k < len ==>
            var page, o := (offset + k) / PAGE_SIZE, (offset + k) % PAGE_SIZE;
            buf[k] == if page in old(pages) then old(pages)[page][o]
                      else if offset + k < |disk| then disk[offset + k] else 0)
        && (res.Ok? && len > 0 ==> forall p :: p in pages <==> p in old(pages) || Touched(offset, len, p))
        && (len > 0 ==>
            var lo := offset / PAGE_SIZE;
            Fetches(res, old(pages), pages, old(frames), frames, broken, lo, lo + PageNum(offset, len)))
    {
      var len := if offset < fileSize then Min(fileSize, offset + buf.Length) - offset else 0;
      if len == 0 {
        return Ok(0);
      }
      var runs, ret := CopyResident(offset, len, buf);
      res := FillRuns(runs, ret, offset, len, buf);
      TouchedPages(offset, len);
    }

    /** One round of the loop of `write`. */
    method WritePage(page: nat, o: nat, part: seq<Byte>) returns (ok: bool)
      requires Valid() && o + |part| <= PAGE_SIZE
      modifies `pages, `frames, `dirty
      ensures Valid() && (!ok ==> pages == old(pages) && dirty == old(dirty))
      ensures ok <==> page in old(pages) || old(frames) > 0
      ensures frames + Bit(ok && page !in old(pages)) == old(frames)
      ensures ok ==> dirty == old(dirty) + {page} && pages == PageWritten(old(pages), page, o, part)
    {
      if page !in pages {
        ghost var made;
        ok, made := CreatePages(page, ZeroPage());
        if !ok {
          return;
        }
        OneCreated(old(pages), page, ZeroPage());
      }
      pages := pages[page := Patched(pages[page], o, part)];
      dirty := dirty + {page};
      ok := true;
    }

    /** The loop has stored the parts of the range in the first `i` pages. */
    ghost predicate Wrote(
        pages0: Pages, dirty0: set<nat>, frames0: nat, offset: nat, data: seq<Byte>, i: nat, n: nat)
      reads this
    {
      && data != [] && i <= PageNum(offset, |data|) && n == Upto(offset, |data|, offset / PAGE_SIZE + i) <= |data|
      && Writing(pages0, pages, dirty0, dirty, disk, offset, data, offset / PAGE_SIZE, offset / PAGE_SIZE + i, n)
      && frames + Missing(pages0, offset / PAGE_SIZE, offset / PAGE_SIZE + i) == frames0
    }

    method WritePart(
        offset: nat, data: seq<Byte>, i: nat, n: nat, ghost pages0: Pages, ghost dirty0: set<nat>, ghost frames0: nat)
        returns (ok: bool, k: nat)
      requires Wrote(pages0, dirty0, frames0, offset, data, i, n) && i < PageNum(offset, |data|)
      modifies `pages, `frames, `dirty
      ensures !ok ==>
        Wrote(pages0, dirty0, frames0, offset, data, i, n) && offset / PAGE_SIZE + i !in pages0 && frames == 0
      ensures ok ==> k > 0 && Wrote(pages0, dirty0, frames0, offset, data, i + 1, n + k)
    {
      var page, o := offset / PAGE_SIZE + i, PageOffset(offset, i);
      k := SubLen(offset, |data|, i);
      Cutting(offset, |data|, i);
      MissingNext(pages0, offset / PAGE_SIZE, page);
      ok := WritePage(page, o, data[n..n + k]);
      if ok {
        WritingStep(
          pages0, old(pages), pages, dirty0, old(dirty), dirty, disk, offset, data, offset / PAGE_SIZE, page, n, o, k);
      }
    }

    /**
      `write`: every byte of the buffer is stored once, at its place; exactly the touched pages
      become dirty and resident.  Bytes around the range are kept on pages that were resident, and
      read as zero on pages that were not.  When memory runs out, a first part of the buffer has
      been stored in the same way.
     */
    method Write(offset: nat, data: seq<Byte>) returns (res: Result<nat>, ghost done: nat)
      requires Valid()
      modifies `pages, `frames, `dirty
      ensures Valid() && (data == [] ==> res == Ok(0) && done == 0 && pages == old(pages) && dirty == old(dirty))
      ensures res.Ok? <==> MissingPages(old(pages), offset, |data|) <= old(frames)
      ensures res.Ok? ==> res.value == done == |data|
      ensures !res.Ok? ==> res == NoMemory && frames == 0 && (offset + done) / PAGE_SIZE !in old(pages)
      ensures done <= |data| && frames + MissingPages(old(pages), offset, done) == old(frames)
      ensures forall x :: At(pages, disk, x) == AfterWrite(old(pages), disk, offset, data[..done], x)
      ensures forall p :: p in pages <==> p in old(pages) || (done > 0 && Touched(offset, done, p))
      ensures forall p :: p in dirty <==> p in old(dirty) || (done > 0 && Touched(offset, done, p))
    {
      var len := |data|;
      done := 0;
      if len == 0 {
        return Ok(0), done;
      }
      CuttingEnds(offset, len);
      var pageNum := PageNum(offset, len);
      var bufOffset := 0;
      var i := 0;
      while i < pageNum
        invariant done == bufOffset && Wrote(old(pages), old(dirty), old(frames), offset, data, i, bufOffset)
      {
        var ok, subLen := WritePart(offset, data, i, bufOffset, old(pages), old(dirty), old(frames));
        if !ok {
          WritingTouched(old(pages), pages, old(dirty), dirty, disk, offset, data, i, bufOffset);
          WriteStopped(old(pages), offset, len, i);
          return NoMemory, done;
        }
        bufOffset := bufOffset + subLen;
        i := i + 1;
        done := bufOffset;
      }
      WritingTouched(old(pages), pages, old(dirty), dirty, disk, offset, data, i, bufOffset);
      res := Ok(bufOffset);
    }

    /** What was written and lies within the file is what a later read of the range returns. */
    method WriteThenRead(offset: nat, data: seq<Byte>, out: array<Byte>) returns (res: Result<nat>)
      requires Valid() && out.Length == |data| && offset + |data| <= fileSize
      modifies this, out
      ensures res == if MissingPages(old(pages), offset, |data|) <= old(frames) then Ok(|data|) else NoMemory
      ensures res.Ok? ==> out[..] == data
    {
      var w, done := Write(offset, data);
      if !w.Ok? {
        return w;
      }
      ghost var pages1 := pages;
      if data != [] {
        NothingMissing(pages, offset, |data|);
        TouchedPages(offset, |data|);
      }
      res := Read(offset, out);
      forall k | 0 <= k < |data| ensures out[k] == data[k] {
        assert At(pages, disk, offset + k) == At(pages1, disk, offset + k);
      }
    }

    /**
      `resize`: pages behind the new end are dropped, and a resident last page is cleared behind
      it.  A last page that is not resident is reported as an error, after the pages were dropped.
     */
    method Resize(len: nat) returns (res: Result<()>)
      requires Valid()
      modifies `pages
      ensures Valid()
      ensures res == if len == 0 || (len - 1) / PAGE_SIZE in old(pages) then Ok(()) else IoError
      ensures forall p :: p in pages <==> p in old(pages) && p * PAGE_SIZE < len
      ensures forall x: nat :: x < len ==> At(pages, disk, x) == At(old(pages), disk, x)
      ensures res.Ok? && len > 0 ==> forall x :: len <= x < PageAlignUp(len) ==> At(pages, disk, x) == 0
    {
      var pageNum := PageAlignUp(len) / PAGE_SIZE;
      pages := map p | p in pages && p < pageNum :: pages[p];
      if pageNum > 0 {
        var last := pageNum - 1;
        var lastLen := len - last * PAGE_SIZE;
        if last in pages {
          pages := pages[last := Truncated(pages[last], lastLen)];
        } else {
          return IoError;
        }
      }
      res := Ok(());
    }
  }

  /** `truncate`: zero from `len` on. */
  function Truncated(page: seq<Byte>, len: nat): (s: seq<Byte>)
    ensures |s| == |page|
  {
    seq(|page|, k requires 0 <= k < |page| => if k < len then page[k] else 0)
  }

  /** A write leaves the rest of the file alone. */
  ghost predicate RestKept(pages: Pages, disk: seq<Byte>, offset: nat, data: seq<Byte>)
    requires WellFormed(pages)
  {
    forall x: nat :: !(offset <= x < offset + |data|) ==>
      AfterWrite(pages, disk, offset, data, x) == At(pages, disk, x)
  }

  /** Around the range, on touched pages that are not resident, the disk holds zeros. */
  ghost predicate ZerosAround(pages: Pages, disk: seq<Byte>, offset: nat, data: seq<Byte>)
    requires data != []
  {
    forall x: nat ::
      !(offset <= x < offset + |data|) && Touched(offset, |data|, x / PAGE_SIZE) && x / PAGE_SIZE !in pages ==>
        DiskAt(disk, x) == 0
  }

  lemma {:induction false} WriteKeepsRest(pages: Pages, disk: seq<Byte>, offset: nat, data: seq<Byte>)
    requires WellFormed(pages) && data != []
    ensures RestKept(pages, disk, offset, data) <==> ZerosAround(pages, disk, offset, data)
  {
    if RestKept(pages, disk, offset, data) {
      forall x: nat |
          !(offset <= x < offset + |data|) && Touched(offset, |data|, x / PAGE_SIZE) && x / PAGE_SIZE !in pages
        ensures DiskAt(disk, x) == 0
      {
        assert AfterWrite(pages, disk, offset, data, x) == At(pages, disk, x);
      }
    }
  }

  /** One byte written behind a byte on disk, with nothing resident: the byte on disk reads as zero afterwards. */
  lemma {:induction false} WriteLosesNeighbour()
    ensures At(map[], [7], 0) == 7 && AfterWrite(map[], [7], 1, [5], 0) == 0
  {
    assert Touched(1, 1, 0);
  }
}
