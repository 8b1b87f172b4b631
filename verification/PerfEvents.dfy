/**
  Perf records as bytes, and the writer of kernel/src/perf/bpf.rs on the ring of module PerfRing.
 */
module PerfEvents {
  import opened Arith
  import opened PerfRing

  const RECORD_SAMPLE := 9
  const RECORD_LOST := 2
  const U16 := 0x1_0000
  const U32 := 0x1_0000_0000

  // ---------- little-endian fields ----------

  function Field(v: nat, n: nat): (s: seq<Byte>)
    ensures |s| == n
  {
    if n == 0 then [] else [v % 256] + Field(v / 256, n - 1)
  }

  function Value(s: seq<Byte>): nat {
    if s == [] then 0 else s[0] + 256 * Value(s[1..])
  }

  function Width(n: nat): nat { if n == 0 then 1 else 256 * Width(n - 1) }

  /** A field that is wide enough gives back the number. */
  lemma {:induction false} FieldValue(v: nat, n: nat)
    requires v < Width(n)
    ensures Value(Field(v, n)) == v
  {
    if n > 0 { FieldValue(v / 256, n - 1); }
  }

  lemma {:induction false} ValueBound(s: seq<Byte>)
    ensures Value(s) < Width(|s|)
  {
    if s != [] { ValueBound(s[1..]); }
  }

  lemma {:induction false} Widths()
    ensures Width(2) == U16 && Width(4) == U32 && Width(8) == U64
  {
    assert Width(4) == 65536 * Width(2);
    assert Width(6) == 65536 * Width(4);
    assert Width(8) == 65536 * Width(6);
  }

  /** The byte of weight 256^i stands at place i. */
  lemma {:induction false} FieldDigit(v: nat, n: nat, i: nat)
    requires i < n
    ensures Width(i) > 0 && Field(v, n)[i] == v / Width(i) % 256
  {
    if i > 0 {
      var w := Width(i - 1);
      FieldDigit(v / 256, n - 1, i - 1);
      DivDiv(v, 256, w);
      assert Width(i) == w * 256;
      assert v / (w * 256) % 256 == v / 256 / w % 256;
    }
  }

  // ---------- records ----------

  datatype Message = Sample(value: seq<Byte>) | Lost(count: nat)

  function KindOf(m: Message): nat { if m.Sample? then RECORD_SAMPLE else RECORD_LOST }

  /** What follows the header. */
  function Body(m: Message): seq<Byte> {
    match m
    case Sample(value) => Field(|value|, 4) + value
    case Lost(count) => Field(0, 8) + Field(count, 8)
  }

  /** `perf_event_header` (type, misc and a 16-bit size) and the body. */
  function Encoded(m: Message, stride: nat): (s: seq<Byte>)
    ensures |s| == Size(m)
  {
    Field(KindOf(m), 4) + Field(0, 2) + Field(stride, 2) + Body(m)
  }

  function Size(m: Message): nat { if m.Sample? then SAMPLE_HEADER_SIZE + |m.value| else LOST_SIZE }

  /** Byte for byte: the kind and the size in the header, then the length and the value, or the count. */
  lemma {:induction false} Layout(m: Message, stride: nat, i: nat)
    requires i < Size(m)
    ensures var b := Encoded(m, stride)[i];
      && (i < 4 ==> b == if i > 0 then 0 else if m.Sample? then 9 else 2)
      && (4 <= i < 6 ==> b == 0)
      && (6 <= i < 8 ==> b == if i == 6 then stride % 256 else stride / 256 % 256)
      && (m.Sample? && 8 <= i < 12 ==> Width(i - 8) > 0 && b == |m.value| / Width(i - 8) % 256)
      && (m.Sample? && 12 <= i ==> b == m.value[i - 12])
      && (m.Lost? && 8 <= i < 16 ==> b == 0)
      && (m.Lost? && 16 <= i ==> Width(i - 16) > 0 && b == m.count / Width(i - 16) % 256)
  {
    if i >= 8 {
      assert Encoded(m, stride)[i] == Body(m)[i - 8];
      BodyLayout(m, i - 8);
    } else if i >= 6 {
      TwoBytes(stride);
    } else if i >= 4 {
      FieldDigit(0, 2, i - 4);
    } else {
      FieldDigit(KindOf(m), 4, i);
    }
  }

  lemma {:induction false} BodyLayout(m: Message, i: nat)
    requires i < |Body(m)|
    ensures var b := Body(m)[i];
      if m.Sample? then
        if i < 4 then Width(i) > 0 && b == |m.value| / Width(i) % 256 else b == m.value[i - 4]
      else if i < 8 then b == 0 else Width(i - 8) > 0 && b == m.count / Width(i - 8) % 256
  {
    if m.Sample? {
      if i < 4 { FieldDigit(|m.value|, 4, i); }
    } else if i < 8 {
      FieldDigit(0, 8, i);
    } else {
      FieldDigit(m.count, 8, i - 8);
    }
  }

  /** The frames of the stream are the messages. */
  ghost predicate Means(log: seq<Frame>, msgs: seq<Message>) {
    |log| == |msgs| && forall i :: 0 <= i < |log| ==> log[i].bytes == Encoded(msgs[i], log[i].stride)
  }

  ghost function Samples(msgs: seq<Message>): nat {
    if msgs == [] then 0 else Samples(msgs[..|msgs| - 1]) + if msgs[|msgs| - 1].Sample? then 1 else 0
  }

  ghost function LostSum(msgs: seq<Message>): nat {
    if msgs == [] then 0 else LostSum(msgs[..|msgs| - 1]) + if msgs[|msgs| - 1].Lost? then msgs[|msgs| - 1].count else 0
  }

  lemma {:induction false} CountAppend(msgs: seq<Message>, m: Message)
    ensures Samples(msgs + [m]) == Samples(msgs) + if m.Sample? then 1 else 0
    ensures LostSum(msgs + [m]) == LostSum(msgs) + if m.Lost? then m.count else 0
  {
    assert (msgs + [m])[..|msgs|] == msgs;
  }

  /** The header of a sample, whose size is added up in 16 bits. */
  function SamplePrefix(len: nat, fill: nat): (s: seq<Byte>)
    ensures |s| == SAMPLE_HEADER_SIZE
  {
    Field(RECORD_SAMPLE, 4) + Field(0, 2) + Field((SAMPLE_HEADER_SIZE + len % U16 + fill) % U16, 2) + Field(len, 4)
  }

  lemma {:induction false} SampleBytes(value: seq<Byte>, fill: nat)
    ensures SamplePrefix(|value|, fill) + value == Encoded(Sample(value), SAMPLE_HEADER_SIZE + |value| + fill)
  {
    SixteenBits(|value|, fill);
  }

  lemma {:induction false} SixteenBits(len: nat, fill: nat)
    ensures Field((SAMPLE_HEADER_SIZE + len % U16 + fill) % U16, 2) == Field(SAMPLE_HEADER_SIZE + len + fill, 2)
  {
    var v, w := SAMPLE_HEADER_SIZE + len + fill, SAMPLE_HEADER_SIZE + len % U16 + fill;
    assert v == w + U16 * (len / U16);
    assert w % U16 == v % U16;
    TwoBytes(v);
    TwoBytes(v % U16);
    LowBits(v);
  }

  lemma {:induction false} TwoBytes(v: nat)
    ensures Field(v, 2) == [v % 256, v / 256 % 256]
  {
    assert Field(v / 256, 1) == [v / 256 % 256] + Field(v / 256 / 256, 0);
  }

  lemma {:induction false} LowBits(v: nat)
    ensures v % U16 % 256 == v % 256 && v % U16 / 256 % 256 == v / 256 % 256
  {
    var a, r := v / U16, v % U16;
    assert v == 256 * (256 * a + r / 256) + r % 256;
    assert v / 256 == 256 * a + r / 256 && v % 256 == r % 256;
  }

  /** The messages one event leads to, the count of lost events afterwards, and whether the sample is written. */
  function AfterEvent(region: nat, tail: nat, head: nat, lost: nat, value: seq<Byte>): (seq<Message>, nat, bool)
    requires region > 0
  {
    var flush := lost > 0 && head + LOST_SIZE <= tail + region;
    var head' := if flush then head + Stride(region, head, LOST_SIZE) else head;
    var flushed := if flush then [Lost(lost)] else [];
    var lost' := if flush then 0 else lost;
    if head' + SAMPLE_HEADER_SIZE + |value| <= tail + region then (flushed + [Sample(value)], lost', true)
    else (flushed, lost' + 1, false)
  }

  /**
    What a call has done: it went well unless an empty sample had to be written, and the messages
    and the count are as `AfterEvent` says.
   */
  ghost predicate Outcome(
      region: nat, tail: nat, head: nat, lost: nat, value: seq<Byte>, msgs: seq<Message>, ok: bool,
      msgs': seq<Message>, lost': nat)
    requires region > 0
  {
    var after := AfterEvent(region, tail, head, lost, value);
    && (ok <==> !(after.2 && value == []))
    && (ok ==> msgs' == msgs + after.0 && lost' == after.1)
  }

  /** The same without a flush. */
  ghost predicate Plain(
      region: nat, tail: nat, head: nat, lost: nat, value: seq<Byte>, msgs: seq<Message>, ok: bool,
      msgs': seq<Message>, lost': nat)
  {
    var fits := head + SAMPLE_HEADER_SIZE + |value| <= tail + region;
    && (ok <==> !(fits && value == []))
    && (ok ==> if fits then msgs' == msgs + [Sample(value)] && lost' == lost else msgs' == msgs && lost' == lost + 1)
  }

  lemma {:induction false} PlainOutcome(
      region: nat, tail: nat, head: nat, lost: nat, value: seq<Byte>, msgs: seq<Message>, ok: bool,
      msgs': seq<Message>, lost': nat)
    requires region > 0 && (lost == 0 || head + LOST_SIZE > tail + region)
    requires Plain(region, tail, head, lost, value, msgs, ok, msgs', lost')
    ensures Outcome(region, tail, head, lost, value, msgs, ok, msgs', lost')
  {
    assert [] + [Sample(value)] == [Sample(value)] && msgs + [] == msgs;
  }

  /** With a count pending that fits, the event comes after the lost record as if nothing had been lost. */
  lemma {:induction false} FlushFirst(
      region: nat, tail: nat, head: nat, lost: nat, value: seq<Byte>, msgs: seq<Message>,
      head1: nat, lost1: nat, msgs1: seq<Message>, ok: bool, msgs': seq<Message>, lost': nat)
    requires region > 0 && lost > 0 && head + LOST_SIZE <= tail + region
    requires head1 == head + Stride(region, head, LOST_SIZE) && lost1 == 0 && msgs1 == msgs + [Lost(lost)]
    requires Outcome(region, tail, head1, lost1, value, msgs1, ok, msgs', lost')
    ensures Outcome(region, tail, head, lost, value, msgs, ok, msgs', lost')
  {
    var next := AfterEvent(region, tail, head1, lost1, value);
    assert AfterEvent(region, tail, head, lost, value).0 == [Lost(lost)] + next.0;
    assert msgs1 + next.0 == msgs + ([Lost(lost)] + next.0);
  }

  /** Case by case: a record that fits is written, one that does not is counted, a count that fits goes first. */
  lemma {:induction false} WhatHappened(
      region: nat, tail: nat, head: nat, lost: nat, value: seq<Byte>, msgs: seq<Message>, ok: bool,
      msgs': seq<Message>, lost': nat)
    requires region > 0 && Outcome(region, tail, head, lost, value, msgs, ok, msgs', lost')
    ensures var room := tail + region - head; var need := SAMPLE_HEADER_SIZE + |value|;
      && (lost == 0 && need <= room && value != [] ==> ok && msgs' == msgs + [Sample(value)] && lost' == 0)
      && (lost == 0 && need > room ==> ok && msgs' == msgs && lost' == 1)
      && (lost > 0 && LOST_SIZE > room && need <= room && value != [] ==>
            ok && msgs' == msgs + [Sample(value)] && lost' == lost)
      && (lost > 0 && LOST_SIZE > room && need > room ==> ok && msgs' == msgs && lost' == lost + 1)
    ensures lost > 0 && head + LOST_SIZE <= tail + region ==>
      var room := tail + region - (head + Stride(region, head, LOST_SIZE)); var need := SAMPLE_HEADER_SIZE + |value|;
      && (need <= room && value != [] ==> ok && msgs' == msgs + [Lost(lost), Sample(value)] && lost' == 0)
      && (need > room ==> ok && msgs' == msgs + [Lost(lost)] && lost' == 1)
  {
    assert [] + [Sample(value)] == [Sample(value)] && msgs + [] == msgs;
    assert [Lost(lost)] + [Sample(value)] == [Lost(lost), Sample(value)];
  }

  /** One more message in the stream. */
  lemma {:induction false} Advanced(
      d: seq<Byte>, d': seq<Byte>, head: nat, head': nat, tail: nat, log: seq<Frame>, log': seq<Frame>,
      msgs: seq<Message>, msgs': seq<Message>, seen: nat, f: Frame, m: Message)
    requires RingOk(d, head, tail, log, seen) && Means(log, msgs)
    requires f.start == head && f.stride == Stride(|d|, head, |f.bytes|) && f.bytes == Encoded(m, f.stride)
    requires head + |f.bytes| <= tail + |d| && Wrote(d, d', head, f.bytes)
    requires head' == head + f.stride && log' == log + [f] && msgs' == msgs + [m]
    ensures RingOk(d', head', tail, log', seen) && Means(log', msgs') && log <= log'
    ensures Samples(msgs') == Samples(msgs) + if m.Sample? then 1 else 0
    ensures LostSum(msgs') == LostSum(msgs) + if m.Lost? then m.count else 0
  {
    FrameWritten(d, d', head, tail, log, seen, f);
    CountAppend(msgs, m);
  }

  class RingPage {
    const data: array<Byte>
    var head: nat
    var tail: nat
    var lost: nat
    /** Every record ever written, the number of them the consumer has passed, and the events offered. */
    ghost var log: seq<Frame>
    ghost var msgs: seq<Message>
    ghost var seen: nat
    ghost var offered: nat

    ghost predicate Valid()
      reads this, data
    {
      RingOk(data[..], head, tail, log, seen) && Means(log, msgs) && offered == Samples(msgs) + LostSum(msgs) + lost
    }

    /** `init`: one page of control data, and at least one of records. */
    constructor (size: nat)
      requires size % PAGE_SIZE == 0 && size / PAGE_SIZE >= 2 && size < U64
      ensures Valid() && data.Length == size - PAGE_SIZE && msgs == [] && offered == 0 && fresh(data)
    {
      data := new Byte[size - PAGE_SIZE](_ => 0);
      head, tail, lost, log, msgs, seen, offered := 0, 0, 0, [], [], 0, 0;
    }

    /** `can_write`: the arithmetic modulo 2^64 is exact. */
    method CanWrite(n: nat) returns (r: bool)
      requires Valid()
      ensures r <==> head + n <= tail + data.Length
    {
      r := n <= Capacity(data.Length, tail, head);
      CapacityExact(data.Length, tail, head, n);
    }

    /** `write_any`: it panics exactly when there is nothing to write or too much. */
    method WriteAny(bytes: seq<Byte>, pos: nat) returns (ok: bool)
      requires data.Length > 0
      modifies data
      ensures ok <==> 0 < |bytes| <= data.Length
      ensures ok ==> Wrote(old(data[..]), data[..], pos, bytes)
    {
      var n, len := data.Length, |bytes|;
      var start, end := pos % n, (pos + len) % n;
      PosIsMod(pos, n);
      PosIsMod(pos + len, n);
      if len <= n { PosAdd(pos, len, n); }
      if start < end {
        if end - start != len {
          return false;
        }
        forall i | start <= i < end {
          data[i] := bytes[i - start];
        }
      } else {
        var firstLen := n - start;
        if len < firstLen || len - firstLen != end {
          return false;
        }
        forall i | start <= i < n {
          data[i] := bytes[i - start];
        }
        forall i | 0 <= i < end {
          data[i] := bytes[firstLen + i];
        }
      }
      ok := true;
      forall p | pos <= p < pos + n
        ensures RingAt(data[..], p) == if p < pos + len then bytes[p - pos] else RingAt(old(data[..]), p)
      {
        PosAdd(pos, p - pos, n);
      }
    }

    /** The two writes of a sample. */
    method WriteBoth(prefix: seq<Byte>, value: seq<Byte>, pos: nat) returns (ok: bool)
      requires data.Length > 0 && 0 < |prefix| && |prefix| + |value| <= data.Length
      modifies data
      ensures ok <==> value != []
      ensures ok ==> Wrote(old(data[..]), data[..], pos, prefix + value)
    {
      ghost var d := data[..];
      ok := WriteAny(prefix, pos);
      ghost var d' := data[..];
      ok := WriteAny(value, pos + |prefix|);
      if ok { WroteTwice(d, d', data[..], pos, prefix, value); }
    }

    /** The padding behind a record of `size` bytes. */
    method FillAt(size: nat) returns (fill: nat)
      requires data.Length > 0
      ensures size + fill == Stride(data.Length, head, size)
    {
      fill := FillSize(data.Length, (head + size) % data.Length);
      PosIsMod(head + size, data.Length);
    }

    /** The bytes of a message have been written at the head, over `d`: the head moves past it. */
    method Advance(ghost d: seq<Byte>, stride: nat, ghost bytes: seq<Byte>, ghost m: Message)
      requires RingOk(d, head, tail, log, seen) && Means(log, msgs) && stride == Stride(|d|, head, |bytes|)
      requires head + |bytes| <= tail + |d| && Wrote(d, data[..], head, bytes) && bytes == Encoded(m, stride)
      modifies `head, `log, `msgs
      ensures RingOk(data[..], head, tail, log, seen) && Means(log, msgs) && head == old(head) + stride
      ensures old(log) <= log && msgs == old(msgs) + [m]
      ensures Samples(msgs) == Samples(old(msgs)) + if m.Sample? then 1 else 0
      ensures LostSum(msgs) == LostSum(old(msgs)) + if m.Lost? then m.count else 0
    {
      ghost var f := Frame(head, stride, bytes);
      ghost var log', msgs' := log + [f], msgs + [m];
      Advanced(d, data[..], head, head + stride, tail, log, log', msgs, msgs', seen, f, m);
      head := head + stride;
      log, msgs := log', msgs';
    }

    method SampleHeader(value: seq<Byte>, fill: nat) returns (prefix: seq<Byte>)
      ensures |prefix| == SAMPLE_HEADER_SIZE
      ensures prefix + value == Encoded(Sample(value), SAMPLE_HEADER_SIZE + |value| + fill)
    {
      prefix := SamplePrefix(|value|, fill);
      SampleBytes(value, fill);
    }

    /** The bytes of a sample record, at the head. */
    method PutSample(value: seq<Byte>) returns (ok: bool, stride: nat, ghost bytes: seq<Byte>)
      requires data.Length > 0 && SAMPLE_HEADER_SIZE + |value| <= data.Length
      modifies data
      ensures ok <==> value != []
      ensures |bytes| == SAMPLE_HEADER_SIZE + |value| && stride == Stride(data.Length, head, |bytes|)
      ensures bytes == Encoded(Sample(value), stride)
      ensures ok ==> Wrote(old(data[..]), data[..], head, bytes)
    {
      var fill := FillAt(SAMPLE_HEADER_SIZE + |value|);
      var prefix := SampleHeader(value, fill);
      ok := WriteBoth(prefix, value, head);
      stride, bytes := SAMPLE_HEADER_SIZE + |value| + fill, prefix + value;
    }

    /** `write_sample`: it panics exactly when the value is empty. */
    method WriteSample(value: seq<Byte>) returns (ok: bool)
      requires Valid() && head + SAMPLE_HEADER_SIZE + |value| <= tail + data.Length
      modifies data, `head, `log, `msgs, `offered
      ensures ok <==> value != []
      ensures ok ==> Valid() && offered == old(offered) + 1 && msgs == old(msgs) + [Sample(value)] && old(log) <= log
    {
      ghost var d := data[..];
      var stride;
      ghost var bytes;
      ok, stride, bytes := PutSample(value);
      if ok {
        Advance(d, stride, bytes, Sample(value));
        offered := offered + 1;
      }
    }

    /** `write_lost`, and resetting the count. */
    method WriteLost()
      requires Valid() && head + LOST_SIZE <= tail + data.Length
      modifies data, `head, `log, `msgs, `lost
      ensures Valid() && lost == 0 && head == old(head) + Stride(data.Length, old(head), LOST_SIZE)
      ensures msgs == old(msgs) + [Lost(old(lost))] && old(log) <= log
    {
      ghost var d := data[..];
      var fill := FillAt(LOST_SIZE);
      var bytes := Encoded(Lost(lost), LOST_SIZE + fill);
      var ok := WriteAny(bytes, head);
      Advance(d, LOST_SIZE + fill, bytes, Lost(lost));
      lost := 0;
    }

    /**
      `write_event`.  A pending count of lost events goes out first when it fits; then the sample
      is written when it fits, and counted as lost when not.  The call panics exactly when an empty
      sample would have to be written.
     */
    method WriteEvent(value: seq<Byte>) returns (ok: bool)
      requires Valid()
      modifies data, `head, `log, `msgs, `lost, `offered
      ensures data.Length > 0 && Outcome(data.Length, tail, old(head), old(lost), value, old(msgs), ok, msgs, lost)
      ensures ok ==> Valid() && offered == old(offered) + 1 && old(log) <= log
      ensures var room := tail + data.Length - old(head); var need := SAMPLE_HEADER_SIZE + |value|;
        && (old(lost) == 0 && need <= room && value != [] ==>
              ok && msgs == old(msgs) + [Sample(value)] && lost == 0)
        && (old(lost) == 0 && need > room ==> ok && msgs == old(msgs) && lost == 1)
        && (old(lost) > 0 && LOST_SIZE > room && need <= room && value != [] ==>
              ok && msgs == old(msgs) + [Sample(value)] && lost == old(lost))
        && (old(lost) > 0 && LOST_SIZE > room && need > room ==> ok && msgs == old(msgs) && lost == old(lost) + 1)
      ensures old(lost) > 0 && old(head) + LOST_SIZE <= tail + data.Length ==>
        var room := tail + data.Length - (old(head) + Stride(data.Length, old(head), LOST_SIZE));
        var need := SAMPLE_HEADER_SIZE + |value|;
        && (need <= room && value != [] ==> ok && msgs == old(msgs) + [Lost(old(lost)), Sample(value)] && lost == 0)
        && (need > room ==> ok && msgs == old(msgs) + [Lost(old(lost))] && lost == 1)
    {
      ok := FlushAndWrite(value);
      WhatHappened(data.Length, tail, old(head), old(lost), value, old(msgs), ok, msgs, lost);
    }

    /** The body of `write_event`, which comes back to itself after a flush. */
    method FlushAndWrite(value: seq<Byte>) returns (ok: bool)
      requires Valid()
      modifies data, `head, `log, `msgs, `lost, `offered
      decreases lost, 1
      ensures data.Length > 0 && Outcome(data.Length, tail, old(head), old(lost), value, old(msgs), ok, msgs, lost)
      ensures ok ==> Valid() && offered == old(offered) + 1 && old(log) <= log
    {
      var canWriteHeader := CanWrite(HEADER_SIZE);
      if canWriteHeader {
        var canWriteLost := CanWrite(LOST_SIZE);
        if lost > 0 && canWriteLost {
          ok := FlushAndRetry(value);
          return;
        }
        ok := SampleOrLost(value);
        PlainOutcome(data.Length, tail, old(head), old(lost), value, old(msgs), ok, msgs, lost);
      } else {
        ok := true;
        Lose();
        PlainOutcome(data.Length, tail, old(head), old(lost), value, old(msgs), ok, msgs, lost);
      }
    }

    /** Writes the lost record and starts over, this time with nothing pending. */
    method FlushAndRetry(value: seq<Byte>) returns (ok: bool)
      requires Valid() && lost > 0 && head + LOST_SIZE <= tail + data.Length
      modifies data, `head, `log, `msgs, `lost, `offered
      decreases lost, 0
      ensures data.Length > 0 && Outcome(data.Length, tail, old(head), old(lost), value, old(msgs), ok, msgs, lost)
      ensures ok ==> Valid() && offered == old(offered) + 1 && old(log) <= log
    {
      WriteLost();
      ghost var head1, lost1, msgs1 := head, lost, msgs;
      ok := FlushAndWrite(value);
      FlushFirst(data.Length, tail, old(head), old(lost), value, old(msgs), head1, lost1, msgs1, ok, msgs, lost);
    }

    /** Writes the sample when it fits, and counts it as lost when not. */
    method SampleOrLost(value: seq<Byte>) returns (ok: bool)
      requires Valid()
      modifies data, `head, `log, `msgs, `lost, `offered
      ensures Plain(data.Length, tail, old(head), old(lost), value, old(msgs), ok, msgs, lost)
      ensures ok ==> Valid() && offered == old(offered) + 1 && old(log) <= log
    {
      var canWriteSample := CanWrite(SAMPLE_HEADER_SIZE + |value|);
      if canWriteSample {
        ok := WriteSample(value);
      } else {
        ok := true;
        Lose();
      }
    }

    method Lose()
      requires Valid()
      modifies `lost, `offered
      ensures Valid() && lost == old(lost) + 1 && offered == old(offered) + 1
    {
      lost := lost + 1;
      offered := offered + 1;
    }

    /** The consumer moves the tail to a later record boundary. */
    method Consume(to: nat, ghost k: nat)
      requires Valid() && seen <= k <= |log| && to == Boundary(log, k)
      modifies `tail, `seen
      ensures Valid() && tail == to && seen == k
    {
      BoundaryOrder(log, seen, k);
      BoundaryOrder(log, k, |log|);
      tail, seen := to, k;
    }
  }

  // ---------- the consumer's view ----------

  /** `n` bytes of the ring from a position on. */
  ghost function Slice(d: seq<Byte>, pos: nat, n: nat): (s: seq<Byte>)
    requires |d| > 0
    ensures |s| == n
    decreases n
  {
    if n == 0 then [] else [RingAt(d, pos)] + Slice(d, pos + 1, n - 1)
  }

  /** The distance to the next record, as the consumer reads it. */
  ghost function ReadStride(d: seq<Byte>, pos: nat): nat
    requires |d| > 0
  {
    Value(Slice(d, pos + 6, 2))
  }

  ghost function ReadMessage(d: seq<Byte>, pos: nat): Message
    requires |d| > 0
  {
    if Value(Slice(d, pos, 4)) == RECORD_SAMPLE then Sample(Slice(d, pos + 12, Value(Slice(d, pos + 8, 4))))
    else Lost(Value(Slice(d, pos + 16, 8)))
  }

  /** A part of what the ring holds. */
  lemma {:induction false} PartHeld(d: seq<Byte>, pos: nat, before: seq<Byte>, part: seq<Byte>, after: seq<Byte>)
    requires |d| > 0 && Holds(d, pos, before + part + after)
    ensures Slice(d, pos + |before|, |part|) == part
  {
    forall p: nat | pos + |before| <= p < pos + |before| + |part| ensures RingAt(d, p) == part[p - pos - |before|] {
      assert (before + part + after)[p - pos] == part[p - pos - |before|];
    }
    SliceHeld(d, pos + |before|, part);
  }

  lemma {:induction false} SliceHeld(d: seq<Byte>, pos: nat, s: seq<Byte>)
    requires |d| > 0 && Holds(d, pos, s)
    ensures Slice(d, pos, |s|) == s
    decreases |s|
  {
    if s != [] {
      forall p: nat | pos + 1 <= p < pos + |s| ensures RingAt(d, p) == s[1..][p - (pos + 1)] {
        assert RingAt(d, p) == s[p - pos];
      }
      SliceHeld(d, pos + 1, s[1..]);
    }
  }

  lemma {:induction false} FieldRead(d: seq<Byte>, pos: nat, before: seq<Byte>, v: nat, n: nat, after: seq<Byte>)
    requires |d| > 0 && Holds(d, pos, before + Field(v, n) + after) && v < Width(n)
    ensures Value(Slice(d, pos + |before|, n)) == v
  {
    PartHeld(d, pos, before, Field(v, n), after);
    FieldValue(v, n);
  }

  lemma {:induction false} KindRead(d: seq<Byte>, pos: nat, kind: nat, rest: seq<Byte>)
    requires |d| > 0 && kind < U32 && Holds(d, pos, Field(kind, 4) + rest)
    ensures Value(Slice(d, pos, 4)) == kind
  {
    assert Field(kind, 4) + rest == [] + Field(kind, 4) + rest;
    Widths();
    FieldRead(d, pos, [], kind, 4, rest);
  }

  lemma {:induction false} SampleRead(d: seq<Byte>, pos: nat, header: seq<Byte>, value: seq<Byte>)
    requires |d| > 0 && |header| == HEADER_SIZE && Holds(d, pos, header + Field(|value|, 4) + value) && |value| < U32
    ensures Value(Slice(d, pos + 8, 4)) == |value| && Slice(d, pos + 12, |value|) == value
  {
    Widths();
    FieldRead(d, pos, header, |value|, 4, value);
    var before := header + Field(|value|, 4);
    assert before + value + [] == before + value;
    PartHeld(d, pos, before, value, []);
  }

  lemma {:induction false} LostRead(d: seq<Byte>, pos: nat, header: seq<Byte>, count: nat)
    requires |d| > 0 && |header| == HEADER_SIZE && Holds(d, pos, header + Field(0, 8) + Field(count, 8)) && count < U64
    ensures Value(Slice(d, pos + 16, 8)) == count
  {
    Widths();
    var before := header + Field(0, 8);
    assert before + Field(count, 8) + [] == before + Field(count, 8);
    FieldRead(d, pos, before, count, 8, []);
  }

  /** The numbers of the record fit into their fields. */
  ghost predicate FieldsFit(m: Message, stride: nat) {
    stride < U16 && if m.Sample? then |m.value| < U32 else m.count < U64
  }

  /** A record is read back as it was written, if its numbers fit into their fields. */
  lemma {:induction false} ReadBack(d: seq<Byte>, pos: nat, m: Message, stride: nat)
    requires |d| > 0 && Holds(d, pos, Encoded(m, stride)) && FieldsFit(m, stride)
    ensures ReadStride(d, pos) == stride && ReadMessage(d, pos) == m
  {
    StrideReadBack(d, pos, m, stride);
    MessageReadBack(d, pos, m, stride);
  }

  lemma {:induction false} MessageReadBack(d: seq<Byte>, pos: nat, m: Message, stride: nat)
    requires |d| > 0 && Holds(d, pos, Encoded(m, stride)) && FieldsFit(m, stride)
    ensures ReadMessage(d, pos) == m
  {
    KindReadBack(d, pos, m, stride);
    if m.Sample? { SampleReadBack(d, pos, m, stride); } else { LostReadBack(d, pos, m, stride); }
  }

  lemma {:induction false} KindReadBack(d: seq<Byte>, pos: nat, m: Message, stride: nat)
    requires |d| > 0 && Holds(d, pos, Encoded(m, stride))
    ensures Value(Slice(d, pos, 4)) == KindOf(m)
  {
    Regrouped(Field(KindOf(m), 4), Field(0, 2), Field(stride, 2), Body(m));
    KindRead(d, pos, KindOf(m), Field(0, 2) + Field(stride, 2) + Body(m));
  }

  lemma {:induction false} Regrouped(a: seq<Byte>, b: seq<Byte>, c: seq<Byte>, e: seq<Byte>)
    ensures a + b + c + e == a + (b + c + e)
  {
  }

  lemma {:induction false} SampleReadBack(d: seq<Byte>, pos: nat, m: Message, stride: nat)
    requires |d| > 0 && Holds(d, pos, Encoded(m, stride)) && m.Sample? && |m.value| < U32
    ensures Value(Slice(d, pos + 8, 4)) == |m.value| && Slice(d, pos + 12, |m.value|) == m.value
  {
    var header := Field(KindOf(m), 4) + Field(0, 2) + Field(stride, 2);
    assert Encoded(m, stride) == header + Field(|m.value|, 4) + m.value;
    SampleRead(d, pos, header, m.value);
  }

  lemma {:induction false} LostReadBack(d: seq<Byte>, pos: nat, m: Message, stride: nat)
    requires |d| > 0 && Holds(d, pos, Encoded(m, stride)) && m.Lost? && m.count < U64
    ensures Value(Slice(d, pos + 16, 8)) == m.count
  {
    var header := Field(KindOf(m), 4) + Field(0, 2) + Field(stride, 2);
    assert Encoded(m, stride) == header + Field(0, 8) + Field(m.count, 8);
    LostRead(d, pos, header, m.count);
  }

  /** The stride of a record can be read back exactly when it fits into 16 bits. */
  lemma {:induction false} StrideReadBack(d: seq<Byte>, pos: nat, m: Message, stride: nat)
    requires |d| > 0 && Holds(d, pos, Encoded(m, stride))
    ensures ReadStride(d, pos) == stride <==> stride < U16
  {
    PartHeld(d, pos, Field(KindOf(m), 4) + Field(0, 2), Field(stride, 2), Body(m));
    Widths();
    ValueBound(Field(stride, 2));
    if stride < U16 { FieldValue(stride, 2); }
  }

  /** Walking `n` records with a way to read a record: what is read, and where the walk ends. */
  ghost function Walk(read: nat -> (nat, Message), pos: nat, n: nat): (seq<Message>, nat)
    decreases n
  {
    if n == 0 then ([], pos)
    else var rest := Walk(read, pos + read(pos).0, n - 1); ([read(pos).1] + rest.0, rest.1)
  }

  lemma {:induction false} WalkFrom(read: nat -> (nat, Message), log: seq<Frame>, msgs: seq<Message>, i: nat)
    requires Linked(log) && |log| == |msgs| && i <= |log|
    requires forall k :: i <= k < |log| ==> read(log[k].start) == (log[k].stride, msgs[k])
    ensures Walk(read, Boundary(log, i), |log| - i) == (msgs[i..], StreamEnd(log))
    decreases |log| - i
  {
    if i < |log| {
      BoundaryIs(log, i + 1);
      WalkFrom(read, log, msgs, i + 1);
      assert msgs[i..] == [msgs[i]] + msgs[i + 1..];
    } else {
      assert msgs[i..] == [];
    }
  }

  /**
    A consumer that walks the ring from the tail reads exactly the messages that were written, and
    lands on the head.
   */
  lemma {:induction false} WalkExact(d: seq<Byte>, head: nat, tail: nat, log: seq<Frame>, msgs: seq<Message>, seen: nat)
    requires RingOk(d, head, tail, log, seen) && Means(log, msgs)
    requires forall i :: seen <= i < |log| ==> FieldsFit(msgs[i], log[i].stride)
    ensures Walk(p => (ReadStride(d, p), ReadMessage(d, p)), tail, |log| - seen) == (msgs[seen..], head)
  {
    var read := p => (ReadStride(d, p), ReadMessage(d, p));
    forall k | seen <= k < |log| ensures read(log[k].start) == (log[k].stride, msgs[k]) {
      ReadBack(d, log[k].start, msgs[k], log[k].stride);
    }
    WalkFrom(read, log, msgs, seen);
  }
}
