/**
  The pipe of kernel/src/ipc/pipe.rs: a circular buffer with counts of readers and writers.  What
  happens between two releases of the inode lock is one method here, so any interleaving is a
  sequence of calls.  A call that gives the lock up to wait returns `Blocked` or `Spinning` with the
  pipe unchanged: a read then starts over, and a write goes on as `ResumeWrite`.
 */
module Pipe {
  import opened Arith

  const BUFF_SIZE := 1024

  type Byte = bv8

  datatype Access = ReadOnly | WriteOnly | ReadWrite
  datatype Mode = Mode(access: Access, nonblock: bool)

  /** The private data of an open file: that of a pipe, or of something else. */
  datatype PrivateData = Pipefs(mode: Mode) | Other

  datatype Error = BadFile | InvalidArgument | TryAgain | NoSuchDevice | BrokenPipe | NoMemory | AccessDenied

  /** `Blocked` sleeps; `Spinning` waits for a condition that holds already, and so comes back at once. */
  datatype Result = Ok(count: nat) | Err(error: Error) | Blocked | Spinning | Panic

  /** What the loop of `write_at` comes to, with `n` bytes in the pipe. */
  function ResumeResult(len: nat, n: nat, reader: nat): Result {
    if len + n > BUFF_SIZE then (if n == BUFF_SIZE && reader > 0 then Blocked else Spinning)
    else if len == BUFF_SIZE then Panic else Ok(len)
  }

  /** What `write_at` comes to, from its start. */
  function WriteResult(file: PrivateData, len: nat, bufLen: nat, n: nat, reader: nat, hadReader: bool): Result {
    if file.Other? then Err(BadFile) else if bufLen < len || len > BUFF_SIZE then Err(InvalidArgument)
    else if reader == 0 then Err(if hadReader then BrokenPipe else NoSuchDevice)
    else if len + n > BUFF_SIZE && file.mode.nonblock then Err(NoMemory)
    else ResumeResult(len, n, reader)
  }

  /** A write that waited comes out as the same write made anew exactly while somebody has the pipe open for reading. */
  lemma {:induction false} ResumedAsAnew(mode: Mode, len: nat, n: nat, reader: nat, hadReader: bool)
    requires !mode.nonblock && len <= BUFF_SIZE
    ensures ResumeResult(len, n, reader) == WriteResult(Pipefs(mode), len, len, n, reader, hadReader) <==> reader > 0
  {
  }

  /** Without readers: a write that waited stores its bytes into an empty pipe, and spins on a full one. */
  lemma {:induction false} ResumedWithoutReaders(mode: Mode)
    requires !mode.nonblock
    ensures ResumeResult(1, 0, 0) == Ok(1) && WriteResult(Pipefs(mode), 1, 1, 0, 0, true) == Err(BrokenPipe)
    ensures ResumeResult(1, BUFF_SIZE, 0) == Spinning
    ensures WriteResult(Pipefs(mode), 1, 1, BUFF_SIZE, 0, true) == Err(BrokenPipe)
  {
  }

  /** A write that waits for room sleeps exactly if the pipe is full and has readers; otherwise it keeps trying. */
  lemma {:induction false} WaitExact(len: nat, n: nat, reader: nat)
    requires len <= BUFF_SIZE && n <= BUFF_SIZE
    ensures ResumeResult(len, n, reader) == Blocked <==> len > 0 && n == BUFF_SIZE && reader > 0
    ensures ResumeResult(len, n, reader) == Spinning <==> len + n > BUFF_SIZE && (n < BUFF_SIZE || reader == 0)
  {
  }

  /** The buffer holds the bytes of `q` from position `r` on, around its end. */
  ghost predicate Holds(data: seq<Byte>, r: nat, q: seq<Byte>) {
    && |data| == BUFF_SIZE && r < BUFF_SIZE && |q| <= BUFF_SIZE
    && forall k :: 0 <= k < |q| ==> data[if r + k < BUFF_SIZE then r + k else r + k - BUFF_SIZE] == q[k]
  }

  /** What is read from the place of the queue is the beginning of the queue. */
  lemma {:induction false} BothHeld(data: seq<Byte>, r: nat, q: seq<Byte>, s: seq<Byte>)
    requires Holds(data, r, q) && Holds(data, r, s) && |s| <= |q|
    ensures s == q[..|s|]
  {
  }

  lemma {:induction false} Taken(data: seq<Byte>, r: nat, q: seq<Byte>, n: nat)
    requires Holds(data, r, q) && n <= |q|
    ensures Holds(data, (r + n) % BUFF_SIZE, q[n..])
  {
  }

  lemma {:induction false} Requeued(input: seq<Byte>, output: seq<Byte>, q: seq<Byte>, n: nat)
    requires input == output + q && n <= |q|
    ensures input == (output + q[..n]) + q[n..] && q == q[..n] + q[n..]
  {
  }

  /** `data'` is `data` with `s` stored from position `w` on, around the end. */
  ghost predicate Stored(data: seq<Byte>, data': seq<Byte>, w: nat, s: seq<Byte>) {
    && |data| == |data'| == BUFF_SIZE && w < BUFF_SIZE && |s| <= BUFF_SIZE && Holds(data', w, s)
    && forall i :: 0 <= i < BUFF_SIZE && !(w <= i < w + |s|) && !(w <= i + BUFF_SIZE < w + |s|) ==> data'[i] == data[i]
  }

  lemma {:induction false} Put(data: seq<Byte>, data': seq<Byte>, r: nat, q: seq<Byte>, s: seq<Byte>)
    requires Holds(data, r, q) && |q| + |s| <= BUFF_SIZE && Stored(data, data', (r + |q|) % BUFF_SIZE, s)
    ensures Holds(data', r, q + s)
  {
  }

  /** What was read is what was written first, and the rest is in the buffer, in order. */
  ghost predicate IsQueue(
      data: seq<Byte>, r: nat, w: nat, n: nat, queue: seq<Byte>, input: seq<Byte>, output: seq<Byte>)
  {
    Holds(data, r, queue) && n == |queue| && w == (r + n) % BUFF_SIZE && input == output + queue
  }

  lemma {:induction false} TakeQueue(
      data: seq<Byte>, r: nat, w: nat, n: nat, q: seq<Byte>, input: seq<Byte>, output: seq<Byte>, k: nat)
    requires IsQueue(data, r, w, n, q, input, output) && k <= n
    ensures IsQueue(data, (r + k) % BUFF_SIZE, w, n - k, q[k..], input, output + q[..k])
    ensures q == q[..k] + q[k..]
  {
    Taken(data, r, q, k);
    Requeued(input, output, q, k);
  }

  lemma {:induction false} PutQueue(
      data: seq<Byte>, data': seq<Byte>, r: nat, w: nat, n: nat, q: seq<Byte>, input: seq<Byte>, output: seq<Byte>,
      s: seq<Byte>)
    requires IsQueue(data, r, w, n, q, input, output) && n + |s| <= BUFF_SIZE && Stored(data, data', w, s)
    ensures IsQueue(data', r, (w + |s|) % BUFF_SIZE, n + |s|, q + s, input + s, output)
  {
    Put(data, data', r, q, s);
    Appended(input, output, q, s);
    Wrapped(r + n, |s|);
  }

  lemma {:induction false} Appended(input: seq<Byte>, output: seq<Byte>, q: seq<Byte>, s: seq<Byte>)
    requires input == output + q
    ensures input + s == output + (q + s)
  {
  }

  lemma {:induction false} Wrapped(a: nat, k: nat)
    ensures (a % BUFF_SIZE + k) % BUFF_SIZE == (a + k) % BUFF_SIZE
  {
  }

  class InnerPipeInode {
    const data: array<Byte>
    var validCnt: nat
    var readPos: nat
    var writePos: nat
    var reader: nat
    var writer: nat
    var hadReader: bool
    /** What is in the pipe, and all that was ever written to it and read from it. */
    ghost var queue: seq<Byte>
    ghost var input: seq<Byte>
    ghost var output: seq<Byte>

    ghost predicate Valid()
      reads this, data
    {
      IsQueue(data[..], readPos, writePos, validCnt, queue, input, output) && (reader > 0 ==> hadReader)
    }

    constructor ()
      ensures Valid() && input == [] && output == [] && reader == 0 && writer == 0 && !hadReader && fresh(data)
    {
      data := new Byte[BUFF_SIZE](_ => 0);
      validCnt, readPos, writePos, reader, writer, hadReader := 0, 0, 0, 0, 0, false;
      queue, input, output := [], [], [];
    }

    /** `open` */
    method Open(mode: Mode) returns (r: Result, file: PrivateData)
      requires Valid()
      modifies `reader, `writer, `hadReader
      ensures Valid()
      ensures r == if mode.access == ReadWrite then Err(AccessDenied)
                   else if mode.access == WriteOnly && old(reader) == 0 && mode.nonblock then Err(NoSuchDevice)
                   else Ok(0)
      ensures r.Ok? ==> file == Pipefs(mode)
      ensures reader == old(reader) + (if r.Ok? && mode.access == ReadOnly then 1 else 0)
      ensures writer == old(writer) + (if r.Ok? && mode.access == WriteOnly then 1 else 0)
      ensures hadReader <==> old(hadReader) || (r.Ok? && mode.access == ReadOnly)
    {
      file := Other;
      if mode.access == ReadWrite {
        return Err(AccessDenied), file;
      } else if mode.access == ReadOnly {
        reader := reader + 1;
        hadReader := true;
      } else {
        if reader == 0 && mode.nonblock {
          return Err(NoSuchDevice), file;
        }
        writer := writer + 1;
      }
      return Ok(0), Pipefs(mode);
    }

    /** `close`: closing an end that nobody has open is an assertion failure. */
    method Close(file: PrivateData) returns (r: Result)
      requires Valid()
      modifies `reader, `writer
      ensures Valid()
      ensures r == if file.Other? then Err(BadFile)
                   else if file.mode.access == WriteOnly && old(writer) == 0 then Panic
                   else if file.mode.access == ReadOnly && old(reader) == 0 then Panic
                   else Ok(0)
      ensures reader == old(reader) - (if r.Ok? && file.mode.access == ReadOnly then 1 else 0)
      ensures writer == old(writer) - (if r.Ok? && file.mode.access == WriteOnly then 1 else 0)
    {
      if file.Other? {
        return Err(BadFile);
      }
      if file.mode.access == WriteOnly {
        if writer == 0 {
          return Panic;
        }
        writer := writer - 1;
      }
      if file.mode.access == ReadOnly {
        if reader == 0 {
          return Panic;
        }
        reader := reader - 1;
      }
      r := Ok(0);
    }

    /** The copy out of the buffer; it panics exactly when the whole buffer is to be copied. */
    method CopyOut(buf: array<Byte>, num: nat) returns (ok: bool)
      requires data.Length == BUFF_SIZE && readPos < BUFF_SIZE && num <= BUFF_SIZE && num <= buf.Length && buf != data
      modifies buf
      ensures ok <==> num < BUFF_SIZE
      ensures ok ==> Holds(data[..], readPos, buf[..num]) && buf[num..] == old(buf[num..])
    {
      var start, end := readPos, (num + readPos) % BUFF_SIZE;
      if end < start {
        var first := BUFF_SIZE - start;
        forall k | 0 <= k < first {
          buf[k] := data[start + k];
        }
        forall k | 0 <= k < end {
          buf[first + k] := data[k];
        }
      } else {
        if end - start != num {
          return false;
        }
        forall k | 0 <= k < num {
          buf[k] := data[start + k];
        }
      }
      ok := true;
    }

    /** Copies `num` bytes out and drops them from the queue. */
    method Take(buf: array<Byte>, num: nat) returns (ok: bool)
      requires Valid() && num <= validCnt && num <= buf.Length && buf != data
      modifies buf, `readPos, `validCnt, `queue, `output
      ensures ok <==> num < BUFF_SIZE
      ensures ok ==>
        && Valid() && output == old(output) + buf[..num]
        && old(queue) == buf[..num] + queue && buf[num..] == old(buf[num..])
    {
      TakeQueue(data[..], readPos, writePos, validCnt, queue, input, output, num);
      ok := CopyOut(buf, num);
      if ok {
        BothHeld(data[..], readPos, queue, buf[..num]);
        readPos := (readPos + num) % BUFF_SIZE;
        validCnt := validCnt - num;
        output, queue := output + queue[..num], queue[num..];
      }
    }

    /**
      `read_at`: takes the oldest bytes, as many as there are up to `len`.  Nothing is returned for
      a request of some bytes only if the pipe is empty and has no writers.  The call panics
      exactly when it would take all of a full buffer.
     */
    method ReadAt(file: PrivateData, len: nat, buf: array<Byte>) returns (r: Result)
      requires Valid() && buf != data
      modifies buf, `readPos, `validCnt, `queue, `output
      ensures r == if file.Other? then Err(BadFile) else if buf.Length < len then Err(InvalidArgument)
                   else if old(queue) == [] then
                     if old(writer) == 0 then Ok(0) else if file.mode.nonblock then Err(TryAgain) else Blocked
                   else if Min(len, |old(queue)|) == BUFF_SIZE then Panic else Ok(Min(len, |old(queue)|))
      ensures r != Panic ==> Valid()
      ensures r.Ok? ==>
        && output == old(output) + buf[..r.count] && old(queue) == buf[..r.count] + queue
        && buf[r.count..] == old(buf[r.count..])
      ensures r.Ok? && r.count == 0 && len > 0 ==> old(queue) == [] && writer == 0
      ensures !r.Ok? && r != Panic ==> queue == old(queue) && output == old(output) && buf[..] == old(buf[..])
    {
      if file.Other? {
        return Err(BadFile);
      }
      if buf.Length < len {
        return Err(InvalidArgument);
      }
      if validCnt == 0 {
        if writer == 0 {
          return Ok(0);
        }
        if file.mode.nonblock {
          return Err(TryAgain);
        }
        return Blocked;
      }
      var num := if len < validCnt then len else validCnt;
      var ok := Take(buf, num);
      if !ok {
        return Panic;
      }
      r := Ok(num);
    }

    /** The copy into the buffer; it panics exactly when the whole buffer is to be filled. */
    method CopyIn(s: seq<Byte>) returns (ok: bool)
      requires data.Length == BUFF_SIZE && writePos < BUFF_SIZE && |s| <= BUFF_SIZE
      modifies data
      ensures ok <==> |s| < BUFF_SIZE
      ensures ok ==> Stored(old(data[..]), data[..], writePos, s)
    {
      var start, end := writePos, (writePos + |s|) % BUFF_SIZE;
      if end < start {
        var first := BUFF_SIZE - start;
        forall k | 0 <= k < first {
          data[start + k] := s[k];
        }
        forall k | 0 <= k < end {
          data[k] := s[first + k];
        }
      } else {
        if end - start != |s| {
          return false;
        }
        forall k | 0 <= k < |s| {
          data[start + k] := s[k];
        }
      }
      ok := true;
    }

    /** Copies bytes in and appends them to the queue. */
    method Append(s: seq<Byte>) returns (ok: bool)
      requires Valid() && |s| + validCnt <= BUFF_SIZE
      modifies data, `writePos, `validCnt, `queue, `input
      ensures ok <==> |s| < BUFF_SIZE
      ensures ok ==> Valid() && input == old(input) + s && queue == old(queue) + s
    {
      ghost var before := data[..];
      ok := CopyIn(s);
      if ok {
        PutQueue(before, data[..], readPos, writePos, validCnt, queue, input, output, s);
        writePos := (writePos + |s|) % BUFF_SIZE;
        validCnt := validCnt + |s|;
        queue, input := queue + s, input + s;
      }
    }

    /**
      The loop of `write_at`, entered or come back to after waiting, and the copy: there is no test
      for readers on this way.  Appends all `len` bytes in one piece, or nothing.  It panics exactly
      when all of an empty buffer would be filled at once.
     */
    method ResumeWrite(len: nat, buf: seq<Byte>) returns (r: Result)
      requires Valid() && len <= |buf| && len <= BUFF_SIZE
      modifies data, `writePos, `validCnt, `queue, `input
      ensures r == ResumeResult(len, |old(queue)|, reader)
      ensures r == Ok(len) <==> len + |old(queue)| <= BUFF_SIZE && len < BUFF_SIZE
      ensures r == Panic <==> len == BUFF_SIZE && old(queue) == []
      ensures r == Blocked <==> len > 0 && |old(queue)| == BUFF_SIZE && reader > 0
      ensures r == Spinning <==> len + |old(queue)| > BUFF_SIZE && (|old(queue)| < BUFF_SIZE || reader == 0)
      ensures !r.Err? && (r.Ok? ==> r.count == len)
      ensures r != Panic ==> Valid()
      ensures r.Ok? ==> input == old(input) + buf[..len] && queue == old(queue) + buf[..len]
      ensures !r.Ok? && r != Panic ==> input == old(input) && queue == old(queue)
    {
      if len + validCnt > BUFF_SIZE {
        var writeable := validCnt != BUFF_SIZE || reader == 0;
        return if writeable then Spinning else Blocked;
      }
      var ok := Append(buf[..len]);
      if !ok {
        return Panic;
      }
      r := Ok(len);
    }

    /** `write_at`: appends all `len` bytes in one piece, or nothing. */
    method WriteAt(file: PrivateData, len: nat, buf: seq<Byte>) returns (r: Result)
      requires Valid()
      modifies data, `writePos, `validCnt, `queue, `input
      ensures r == WriteResult(file, len, |buf|, |old(queue)|, reader, hadReader)
      ensures r == Err(BadFile) <==> file.Other?
      ensures r == Err(InvalidArgument) <==> file.Pipefs? && (|buf| < len || len > BUFF_SIZE)
      ensures var fits := len + |old(queue)| <= BUFF_SIZE;
        file.Pipefs? && len <= |buf| && len <= BUFF_SIZE ==>
          && (r == Err(NoSuchDevice) <==> reader == 0 && !hadReader)
          && (r == Err(BrokenPipe) <==> reader == 0 && hadReader)
          && (r == Err(NoMemory) <==> reader > 0 && !fits && file.mode.nonblock)
          && (r == Blocked <==> reader > 0 && len > 0 && |old(queue)| == BUFF_SIZE && !file.mode.nonblock)
          && (r == Spinning <==> reader > 0 && !fits && |old(queue)| < BUFF_SIZE && !file.mode.nonblock)
          && (r == Panic <==> reader > 0 && len == BUFF_SIZE && old(queue) == [])
          && (r == Ok(len) <==> reader > 0 && fits && len < BUFF_SIZE)
      ensures r != Panic ==> Valid()
      ensures r.Ok? ==> input == old(input) + buf[..len] && queue == old(queue) + buf[..len]
      ensures !r.Ok? && r != Panic ==> input == old(input) && queue == old(queue)
    {
      if file.Other? {
        return Err(BadFile);
      }
      if |buf| < len || len > BUFF_SIZE {
        return Err(InvalidArgument);
      }
      if reader == 0 {
        if !hadReader {
          return Err(NoSuchDevice);
        }
        return Err(BrokenPipe);
      }
      if len + validCnt > BUFF_SIZE && file.mode.nonblock {
        return Err(NoMemory);
      }
      r := ResumeWrite(len, buf);
    }
  }
}
