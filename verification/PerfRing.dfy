/**
  The ring buffer of kernel/src/perf/bpf.rs through which the kernel hands sample and lost
  records to a consumer.  `head` and `tail` count bytes since the beginning; a position lies in
  the data region at its remainder modulo the region size.
 */
module PerfRing {
  import opened Arith

  const HEADER_SIZE := 8
  const SAMPLE_HEADER_SIZE := 12
  const LOST_SIZE := 24
  const PAGE_SIZE := 4096
  const U64 := 0x1_0000_0000_0000_0000

  type Byte = b: int | 0 <= b < 256

  // ---------- positions ----------

  /** The place of a position in the region: its remainder, by taking away the region size. */
  function Pos(p: nat, n: nat): (r: nat)
    requires n > 0
    ensures r < n
  {
    if p < n then p else Pos(p - n, n)
  }

  lemma {:induction false} PosIsMod(p: nat, n: nat)
    requires n > 0
    ensures Pos(p, n) == p % n
    decreases p
  {
    if p >= n {
      PosIsMod(p - n, n);
      var q, r := (p - n) / n, (p - n) % n;
      assert p == (q + 1) * n + r by { assert (q + 1) * n == q * n + n; }
      DivUnique(p, n, q + 1, r);
    } else {
      DivUnique(p, n, 0, p);
    }
  }

  lemma {:induction false} PosAdd(a: nat, k: nat, n: nat)
    requires n > 0 && k <= n
    ensures Pos(a + k, n) == if Pos(a, n) + k < n then Pos(a, n) + k else Pos(a, n) + k - n
    decreases a
  {
    if a >= n { PosAdd(a - n, k, n); }
  }

  /** `fill_size` */
  function FillSize(region: nat, pos: nat): nat
    requires pos < region
  {
    if region - pos < HEADER_SIZE then region - pos else 0
  }

  /** A record of `size` bytes at `start` takes up this many bytes with its padding. */
  function Stride(region: nat, start: nat, size: nat): nat
    requires region > 0
  {
    size + FillSize(region, Pos(start + size, region))
  }

  /** A header fits between the position and the end of the region. */
  ghost predicate Room(region: nat, pos: nat) {
    region > 0 && Pos(pos, region) + HEADER_SIZE <= region
  }

  /** The padding is the least that makes room for the next header. */
  lemma {:induction false} PaddingLeast(region: nat, start: nat, size: nat)
    requires region >= HEADER_SIZE
    ensures Room(region, start + Stride(region, start, size))
    ensures forall p :: start + size <= p < start + Stride(region, start, size) ==> !Room(region, p)
  {
    var end := start + size;
    PosAdd(end, FillSize(region, Pos(end, region)), region);
    forall p | end <= p < start + Stride(region, start, size) ensures !Room(region, p) {
      PosAdd(end, p - end, region);
    }
  }

  /** The space check ignores the padding, and yet a padded record does not pass a tail that has room for a header. */
  lemma {:induction false} PaddingFits(region: nat, tail: nat, start: nat, size: nat)
    requires region > HEADER_SIZE && Room(region, tail) && tail <= start && start + size <= tail + region
    ensures start + Stride(region, start, size) <= tail + region && Room(region, start + Stride(region, start, size))
  {
    var end := start + size;
    PosAdd(end, FillSize(region, Pos(end, region)), region);
    PosAdd(tail, end - tail, region);
  }

  /** No record that fits before the consumer's position passes it with its padding. */
  ghost predicate NeverPasses(region: nat, tail: nat)
    requires region > HEADER_SIZE
  {
    forall start: nat, size: nat :: tail <= start && start + size <= tail + region ==>
      start + Stride(region, start, size) <= tail + region
  }

  /** No record overruns the tail exactly when the tail has room for a header. */
  lemma {:induction false} PaddingExact(region: nat, tail: nat)
    requires region > HEADER_SIZE
    ensures NeverPasses(region, tail) <==> Room(region, tail)
  {
    if Room(region, tail) {
      forall start: nat, size: nat | tail <= start && start + size <= tail + region
        ensures start + Stride(region, start, size) <= tail + region
      {
        PaddingFits(region, tail, start, size);
      }
    } else {
      PosAdd(tail, region, region);
      assert tail + Stride(region, tail, region) > tail + region;
    }
  }

  /** The capacity that the code computes modulo 2^64. */
  function Capacity(region: nat, tail: nat, head: nat): nat { (region - head + tail) % U64 }

  lemma {:induction false} CapacityExact(region: nat, tail: nat, head: nat, n: nat)
    requires tail <= head <= tail + region && region < U64
    ensures n <= Capacity(region, tail, head) <==> head + n <= tail + region
  {
  }

  // ---------- the bytes of the ring ----------

  /** The byte at a position of the stream. */
  function RingAt(d: seq<Byte>, p: nat): Byte
    requires |d| > 0
  {
    d[Pos(p, |d|)]
  }

  /** `d'` is `d` with `bytes` written from position `pos` on. */
  ghost predicate Wrote(d: seq<Byte>, d': seq<Byte>, pos: nat, bytes: seq<Byte>) {
    && |d| == |d'| > 0 && |bytes| <= |d|
    && (forall p :: pos <= p < pos + |bytes| ==> RingAt(d', p) == bytes[p - pos])
    && (forall p :: pos + |bytes| <= p < pos + |d| ==> RingAt(d', p) == RingAt(d, p))
  }

  lemma {:induction false} Around(d: seq<Byte>, p: nat)
    requires |d| > 0
    ensures RingAt(d, p + |d|) == RingAt(d, p)
  {
    PosAdd(p, |d|, |d|);
  }

  /** A write that stays within one region length behind a position leaves its byte alone. */
  lemma {:induction false} ByteKept(d: seq<Byte>, d': seq<Byte>, pos: nat, bytes: seq<Byte>, p: nat)
    requires Wrote(d, d', pos, bytes) && p < pos && pos + |bytes| <= p + |d|
    ensures RingAt(d', p) == RingAt(d, p)
  {
    Around(d, p);
    Around(d', p);
    assert RingAt(d', p + |d|) == RingAt(d, p + |d|);
  }

  lemma {:induction false} WroteTwice(d: seq<Byte>, d': seq<Byte>, d'': seq<Byte>, pos: nat, a: seq<Byte>, b: seq<Byte>)
    requires Wrote(d, d', pos, a) && Wrote(d', d'', pos + |a|, b) && |a| + |b| <= |d|
    ensures Wrote(d, d'', pos, a + b)
  {
    forall p: nat | pos <= p < pos + |a| ensures RingAt(d'', p) == a[p - pos] {
      ByteKept(d', d'', pos + |a|, b, p);
    }
  }

  /** The ring holds `bytes` from position `pos` on. */
  ghost predicate Holds(d: seq<Byte>, pos: nat, bytes: seq<Byte>)
    requires |d| > 0
  {
    forall p :: pos <= p < pos + |bytes| ==> RingAt(d, p) == bytes[p - pos]
  }

  lemma {:induction false} WroteKeeps(
      d: seq<Byte>, d': seq<Byte>, pos: nat, bytes: seq<Byte>, start: nat, old_: seq<Byte>)
    requires Wrote(d, d', pos, bytes) && Holds(d, start, old_) && start + |old_| <= pos && pos + |bytes| <= start + |d|
    ensures Holds(d', start, old_)
  {
    forall p: nat | start <= p < start + |old_| ensures RingAt(d', p) == old_[p - start] {
      ByteKept(d, d', pos, bytes, p);
    }
  }

  // ---------- the stream of records ----------

  /** A record in the stream: where it starts, how far the next one is, and its bytes without the padding. */
  datatype Frame = Frame(start: nat, stride: nat, bytes: seq<Byte>)

  function EndOf(f: Frame): nat { f.start + f.stride }

  function StreamEnd(log: seq<Frame>): nat { if log == [] then 0 else EndOf(log[|log| - 1]) }

  /** The place of record `i`, or of the next one to be written. */
  function Boundary(log: seq<Frame>, i: nat): nat
    requires i <= |log|
  {
    if i < |log| then log[i].start else StreamEnd(log)
  }

  /** Record `i` begins where the one before it ends. */
  ghost predicate Follows(log: seq<Frame>, i: nat)
    requires i < |log|
  {
    log[i].start == if i == 0 then 0 else EndOf(log[i - 1])
  }

  /** Records follow each other without gaps from position 0 on. */
  ghost predicate Linked(log: seq<Frame>) {
    forall i :: 0 <= i < |log| ==> Follows(log, i)
  }

  /** The padding behind the record is what `fill_size` says, and the next record has room for its header. */
  ghost predicate Padded(region: nat, f: Frame) {
    region > 0 && f.stride == Stride(region, f.start, |f.bytes|) && Room(region, EndOf(f))
  }

  lemma {:induction false} BoundaryIs(log: seq<Frame>, i: nat)
    requires Linked(log) && i <= |log|
    ensures Boundary(log, i) == if i == 0 then 0 else EndOf(log[i - 1])
  {
    assert i < |log| ==> Follows(log, i);
  }

  lemma {:induction false} BoundaryOrder(log: seq<Frame>, i: nat, j: nat)
    requires Linked(log) && i <= j <= |log|
    ensures Boundary(log, i) <= Boundary(log, j)
    decreases j
  {
    if i < j {
      BoundaryOrder(log, i, j - 1);
      BoundaryIs(log, j);
    }
  }

  lemma {:induction false} StreamAppend(log: seq<Frame>, f: Frame)
    requires Linked(log) && f.start == StreamEnd(log)
    ensures Linked(log + [f]) && StreamEnd(log + [f]) == EndOf(f)
    ensures forall i :: 0 <= i <= |log| ==> Boundary(log + [f], i) == Boundary(log, i)
  {
    var s := log + [f];
    forall i | 0 <= i < |s| ensures Follows(s, i) {
      if i < |log| { assert Follows(log, i); }
    }
  }

  // ---------- the ring ----------

  ghost predicate AllPadded(region: nat, log: seq<Frame>) {
    forall i :: 0 <= i < |log| ==> Padded(region, log[i])
  }

  ghost predicate AllHeld(d: seq<Byte>, log: seq<Frame>, seen: nat) {
    |d| > 0 && forall i :: seen <= i < |log| ==> Holds(d, log[i].start, log[i].bytes)
  }

  /** The stream, how much of it the consumer has taken, and the bytes of the ring fit together. */
  ghost predicate RingOk(d: seq<Byte>, head: nat, tail: nat, log: seq<Frame>, seen: nat) {
    && PAGE_SIZE <= |d| < U64 && Linked(log) && AllPadded(|d|, log) && seen <= |log|
    && head == StreamEnd(log) && tail == Boundary(log, seen) && tail <= head <= tail + |d|
    && AllHeld(d, log, seen)
  }

  /** A boundary leaves room for a header. */
  lemma {:induction false} BoundaryRoom(region: nat, log: seq<Frame>, i: nat)
    requires region >= HEADER_SIZE && Linked(log) && AllPadded(region, log) && i <= |log|
    ensures Room(region, Boundary(log, i))
  {
    BoundaryIs(log, i);
    if i > 0 { assert Padded(region, log[i - 1]); }
  }

  /** What has not been consumed lies between the tail and the head, and survives the next write. */
  lemma {:induction false} OtherHeld(d: seq<Byte>, d': seq<Byte>, log: seq<Frame>, seen: nat, f: Frame, i: nat)
    requires Linked(log) && seen <= i < |log| && AllPadded(|d|, log) && AllHeld(d, log, seen)
    requires f.start == StreamEnd(log)
    requires f.start + |f.bytes| <= Boundary(log, seen) + |d| && Wrote(d, d', f.start, f.bytes)
    ensures Holds(d', log[i].start, log[i].bytes)
  {
    assert Padded(|d|, log[i]);
    BoundaryOrder(log, seen, i);
    BoundaryOrder(log, i + 1, |log|);
    BoundaryIs(log, i + 1);
    WroteKeeps(d, d', f.start, f.bytes, log[i].start, log[i].bytes);
  }

  /** Writing a record that passes the space check. */
  lemma {:induction false} FrameWritten(
      d: seq<Byte>, d': seq<Byte>, head: nat, tail: nat, log: seq<Frame>, seen: nat, f: Frame)
    requires RingOk(d, head, tail, log, seen) && f.start == head && f.stride == Stride(|d|, head, |f.bytes|)
    requires head + |f.bytes| <= tail + |d| && Wrote(d, d', head, f.bytes)
    ensures RingOk(d', EndOf(f), tail, log + [f], seen)
  {
    BoundaryRoom(|d|, log, seen);
    PaddingFits(|d|, tail, head, |f.bytes|);
    StreamAppend(log, f);
    forall i | seen <= i < |log| ensures Holds(d', log[i].start, log[i].bytes) {
      OtherHeld(d, d', log, seen, f, i);
    }
  }
}
