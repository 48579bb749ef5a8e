/** The reader and stream piece writers: receive, hash and stage while the previous write runs. */
module PieceWriters {
  import opened Bytes
  import opened PieceFile
  import opened VectoredWrite
  import opened BackgroundWrite
  import opened Crc32
  import opened Wrappers

  datatype WriteError =
    | SourceFailed
    | Cancelled
    | WriteFailed(io: IoError)
    | LengthMismatch(expected: nat, got: nat)
    | WindowTimeout | WindowTooLong | PositionOverflow | LeaseRetained
    | DigestPanicked | WritePanicked | RecycleFailed

  datatype Response = Written(length: nat, hash: string) | Rejected(error: WriteError)

  /**
   The one meaning of writing a piece: success splices exactly the first
   `expected` bytes of the input at `offset` and reports their CRC-32; failure
   leaves a prefix of them. Nothing else in the file changes either way.
   */
  ghost predicate PieceWritten(d: Device, e: Device, offset: nat, expected: nat, input: seq<byte>, r: Response) {
    match r
    case Written(length, hash) =>
      && length == expected <= |input|
      && Wrote(d, e, offset, input[..expected])
      && hash == HashOf(input[..expected])
    case Rejected(_) =>
      && LogExtends(d, e)
      && Progress(d, e) <= Min(expected, |input|)
      && Wrote(d, e, offset, input[..Progress(d, e)])
  }

  /**
   The first `length` input bytes are handed over: those before the job are in
   the file, those of the job are on their way, at contiguous offsets.
   */
  ghost predicate HandedOver(dev: Device, job: Job?, d: Device, offset: nat, input: seq<byte>, length: nat)
    reads job, if job == null then {} else {job.staging}
  {
    && length <= |input|
    && if job == null then length == 0 && dev == d
       else
         && job.Intact() && job.Consistent(dev)
         && offset <= job.at && job.at - offset + |job.data| == length
         && job.data == input[job.at - offset..length]
         && Wrote(d, job.from, offset, input[..job.at - offset])
         && Clean(Consumed(d, job.from))
  }

  /** How many input bytes have reached the file. */
  ghost function Landed(job: Job?, offset: nat): int
    reads job
  {
    if job == null then 0 else job.at - offset + job.done
  }

  lemma NothingHandedOver(d: Device, offset: nat, input: seq<byte>)
    ensures HandedOver(d, null, d, offset, input, 0)
  {
  }

  /** A job that was handed over is the last part of what was handed over. */
  lemma JobIsLast(dev: Device, job: Job, d: Device, offset: nat, input: seq<byte>, length: nat)
    requires HandedOver(dev, job, d, offset, input, length)
    ensures offset <= job.at && length == job.at - offset + |job.data|
  {
  }

  lemma LandedIsPrefix(dev: Device, job: Job?, d: Device, offset: nat, input: seq<byte>, length: nat)
    requires HandedOver(dev, job, d, offset, input, length)
    ensures 0 <= Landed(job, offset) <= length
    ensures Wrote(d, dev, offset, input[..Landed(job, offset)])
    ensures |dev.script| <= |d.script|
    ensures Clean(Consumed(d, dev)) <==> job == null || !job.status.Broken?
    ensures job != null && job.status.Finished? ==> Landed(job, offset) == length
  {
    hide Wrote, Concat;
    if job == null {
      WroteNothing(d, offset);
      assert input[..0] == [];
    } else {
      var n := job.at - offset;
      WroteThen(d, job.from, dev, offset, input[..n], job.data[..job.done]);
      SliceTake(input, n, length, job.done);
      TakeTwice(input, n, job.done);
      WroteLength(d, dev, offset, input[..n + job.done]);
      CleanAppend(Consumed(d, job.from), Consumed(job.from, dev));
    }
  }

  lemma SliceTake(a: seq<byte>, lo: nat, hi: nat, k: nat)
    requires lo + k <= hi <= |a|
    ensures a[lo..hi][..k] == a[lo..][..k]
  {
  }

  /** The timeout around a piece write: it may fire at any await, and then the write is dropped where it stands. */
  class Timer {
    var left: Option<nat>
    var fired: bool

    /** Fires after `left` awaits, or never. */
    constructor (left: Option<nat>)
      ensures this.left == left && !fired
    {
      this.left, fired := left, false;
    }

    method Await() returns (stop: bool)
      modifies this
      ensures stop == fired
      ensures fired <==> old(fired) || old(left) == Some(0)
      ensures left.None? <==> old(left).None?
    {
      match left {
        case None =>
        case Some(n) =>
          if n == 0 {
            fired := true;
          } else {
            left := Some(n - 1);
          }
      }
      return fired;
    }
  }

  datatype Handover = Started | Broke(error: IoError) | Stopped

  /** Waits for the previous write, then starts the next one from the filled staging. */
  method HandOver(disk: Disk, job: Job?, filled: Staging, at: nat, timer: Timer,
                  ghost d: Device, ghost offset: nat, ghost input: seq<byte>, ghost length: nat)
    returns (r: Handover, next: Job?, recycled: Staging?)
    requires HandedOver(disk.dev, job, d, offset, input, length)
    requires job != null ==> job.staging != filled
    requires filled.chunks != [] && NoEmptyChunk(filled.chunks)
    requires at == offset + length && at + |Concat(filled.chunks)| <= U64_MAX
    requires length + |Concat(filled.chunks)| <= |input|
    requires Concat(filled.chunks) == input[length..length + |Concat(filled.chunks)|]
    requires !timer.fired
    modifies disk, job, timer, if job == null then {} else {job.staging}
    ensures filled.chunks == old(filled.chunks)
    ensures (r.Stopped? <==> timer.fired) && (timer.left.None? <==> old(timer.left).None?)
    ensures timer.fired ==> timer.left.Some?
    ensures r.Broke? ==> job != null && job.status == Broken(r.error)
    ensures !r.Started? ==> next == job && HandedOver(disk.dev, job, d, offset, input, length)
    ensures r.Started? ==> next != null && fresh(next) && next.staging == filled
                           && HandedOver(disk.dev, next, d, offset, input, length + |Concat(filled.chunks)|)
                           && recycled == (if job == null then null else job.staging)
                           && (recycled != null ==> recycled.chunks == [])
  {
    hide Wrote, Concat;
    recycled := null;
    if job != null {
      job.Background(disk);
      var stop := timer.Await();
      if stop {
        return Stopped, job, null;
      }
      var io := job.Join(disk);
      if io.Failed? {
        return Broke(io.error), job, null;
      }
      recycled := job.staging;
    }
    LandedIsPrefix(disk.dev, job, d, offset, input, length);
    if job != null {
      job.staging.chunks := [];
    }
    next := new Job(filled, at, disk.dev);
    JobStarts(disk.dev, at);
    assert next.data[..0] == [];
    r := Started;
  }

  lemma JobStarts(d: Device, at: nat)
    ensures Wrote(d, d, at, []) && Clean(Consumed(d, d))
  {
    WroteNothing(d, at);
    assert Consumed(d, d) == [];
  }

  /** An asynchronous reader: the bytes it delivers before it ends or fails. */
  class Source {
    var rest: seq<byte>
    const fails: bool

    constructor (data: seq<byte>, fails: bool)
      ensures rest == data && this.fails == fails
    {
      rest, this.fails := data, fails;
    }

    /** One read through `take(limit)`: any non-empty part, nothing at the end, or an error. */
    method Read(limit: nat) returns (ok: bool, part: seq<byte>)
      modifies this
      ensures old(rest) == part + rest && |part| <= limit
      ensures ok && part == [] ==> limit == 0 || (rest == [] && !fails)
      ensures !ok ==> fails && limit > 0 && rest == [] && part == []
    {
      if limit == 0 || rest == [] {
        return limit == 0 || !fails, [];
      }
      var n: nat :| 1 <= n && n <= limit && n <= |rest|;
      ok, part := true, rest[..n];
      rest := rest[n..];
    }
  }

  /** The staging buffers handed out and not yet given back. */
  class BufferPool {
    var out: set<Staging>

    constructor ()
      ensures out == {}
    {
      out := {};
    }

    method Checkout() returns (buffer: Staging)
      modifies this
      ensures fresh(buffer) && buffer.chunks == []
      ensures out == old(out) + {buffer}
    {
      buffer := new Staging();
      out := out + {buffer};
    }

    method GiveBack(buffer: Staging)
      modifies this
      ensures out == old(out) - {buffer}
    {
      out := out - {buffer};
    }
  }

  /** Lets the previous write run on while the receiving task waits for input. */
  method Overlap(disk: Disk, job: Job?, ghost d: Device, ghost offset: nat, ghost input: seq<byte>, ghost length: nat)
    requires HandedOver(disk.dev, job, d, offset, input, length)
    modifies disk, job
    ensures HandedOver(disk.dev, job, d, offset, input, length)
  {
    hide Wrote, Concat, Clean;
    if job != null {
      job.Background(disk);
    }
  }

  /** The filled part of a staging buffer, as one chunk. */
  ghost predicate OneChunk(chunks: seq<seq<byte>>, data: seq<byte>) {
    chunks == if data == [] then [] else [data]
  }

  lemma OneChunkFacts(chunks: seq<seq<byte>>, data: seq<byte>)
    requires OneChunk(chunks, data)
    ensures Concat(chunks) == data && NoEmptyChunk(chunks)
    ensures chunks == if data == [] then [] else [data]
  {
    if data != [] {
      assert Concat(chunks) == data + Concat([]);
    }
  }

  datatype Received = Filled | InputFailed | Dropped

  /**
   Fills the buffer until it holds `bufferSize` bytes or the reader ends, while
   the previous write goes on in the background.
   */
  method Fill(disk: Disk, job: Job?, buffer: Staging, source: Source, bufferSize: nat, expected: nat,
              length: nat, timer: Timer, ghost d: Device, ghost offset: nat, ghost input: seq<byte>)
    returns (r: Received, size: nat)
    requires HandedOver(disk.dev, job, d, offset, input, length)
    requires job != null ==> job.staging != buffer
    requires buffer.chunks == [] && bufferSize > 0 && !timer.fired
    requires length <= Min(expected, |input|) && source.rest == input[length..]
    modifies disk, job, buffer, source, timer
    ensures HandedOver(disk.dev, job, d, offset, input, length)
    ensures (r.Dropped? <==> timer.fired) && (timer.left.None? <==> old(timer.left).None?)
    ensures timer.fired ==> timer.left.Some?
    ensures length + size <= Min(expected, |input|)
    ensures OneChunk(buffer.chunks, input[length..length + size])
    ensures source.rest == input[length + size..]
    ensures r.Filled? && size < bufferSize ==>
              length + size == expected || (length + size == |input| && !source.fails)
    ensures r.InputFailed? ==> length + size == |input| < expected && size < bufferSize && source.fails
  {
    hide HandedOver;
    var data: seq<byte> := [];
    while |data| < bufferSize
      invariant HandedOver(disk.dev, job, d, offset, input, length)
      invariant !timer.fired && (timer.left.None? <==> old(timer.left).None?)
      invariant length + |data| <= Min(expected, |input|)
      invariant data == input[length..length + |data|]
      invariant source.rest == input[length + |data|..]
      invariant OneChunk(buffer.chunks, data)
      decreases |source.rest|
    {
      Overlap(disk, job, d, offset, input, length);
      var stop := timer.Await();
      if stop {
        return Dropped, |data|;
      }
      var ok, part := source.Read(expected - length - |data|);
      if !ok {
        return InputFailed, |data|;
      }
      if part == [] {
        return Filled, |data|;
      }
      data := data + part;
      buffer.chunks := [data];
    }
    return Filled, |data|;
  }

  /**
   The contract of both forms: the piece is written as it means; unless it is
   dropped by its caller's timeout, the call succeeds exactly when the input
   suffices and the kernel never refused; and a short input is written whole
   before it is reported.
   */
  ghost predicate Honoured(d: Device, e: Device, offset: nat, expected: nat, input: seq<byte>, r: Response) {
    && PieceWritten(d, e, offset, expected, input, r)
    && |e.script| <= |d.script|
    && (r != Rejected(Cancelled) ==> (r.Written? <==> expected <= |input| && Clean(Consumed(d, e))))
    && (r.Rejected? && r.error.LengthMismatch? ==>
          r.error == LengthMismatch(expected, |input|) && Progress(d, e) == |input|)
    && (r.Rejected? && r.error.WriteFailed? ==> !Clean(Consumed(d, e)))
    && (r.Rejected? ==> r.error.SourceFailed? || r.error.Cancelled? || r.error.WriteFailed? || r.error.LengthMismatch?)
  }

  /** The verdict once everything handed over has landed. */
  lemma VerdictAtEnd(dev: Device, job: Job?, d: Device, offset: nat, expected: nat, input: seq<byte>, length: nat)
    requires HandedOver(dev, job, d, offset, input, length) && length <= expected
    requires job != null ==> job.status.Finished?
    requires length == expected || length == |input|
    ensures Honoured(d, dev, offset, expected, input,
                     if length != expected then Rejected(LengthMismatch(expected, length))
                     else Written(length, HashOf(input[..length])))
  {
    hide Wrote, Concat, Clean, HashOf;
    LandedIsPrefix(dev, job, d, offset, input, length);
    WroteLength(d, dev, offset, input[..length]);
  }

  /** The verdict when a background write broke, the input failed early or the caller gave up. */
  lemma VerdictOnError(dev: Device, job: Job?, d: Device, offset: nat, expected: nat, input: seq<byte>, length: nat, error: WriteError)
    requires HandedOver(dev, job, d, offset, input, length) && length <= expected
    requires (job != null && job.status.Broken?) || |input| < expected || error == Cancelled
    requires if error.WriteFailed? then job != null && job.status.Broken? else error in {SourceFailed, Cancelled}
    ensures Honoured(d, dev, offset, expected, input, Rejected(error))
  {
    hide Wrote, Concat, Clean;
    LandedIsPrefix(dev, job, d, offset, input, length);
    WroteLength(d, dev, offset, input[..Landed(job, offset)]);
  }

  lemma HashNothing(input: seq<byte>)
    ensures Update(INITIAL, input[..0]) == INITIAL
  {
  }

  lemma HashNext(input: seq<byte>, length: nat, size: nat)
    requires length + size <= |input|
    ensures Update(Update(INITIAL, input[..length]), input[length..length + size]) == Update(INITIAL, input[..length + size])
  {
    hide Update;
    UpdateAppend(INITIAL, input[..length], input[length..length + size]);
    assert input[..length] + input[length..length + size] == input[..length + size];
  }

  /** A write left running is the last part of what was handed over, within the expected length. */
  ghost predicate LeftRunning(dev: Device, job: Job, d: Device, offset: nat, expected: nat, input: seq<byte>)
    reads job, job.staging
  {
    offset <= job.at <= job.at + |job.data| <= offset + expected &&
    HandedOver(dev, job, d, offset, input, job.at - offset + |job.data|)
  }

  datatype Turned = Moved | Ended | GaveUp(dropped: bool) | WriteBroke(error: IoError)

  /** One turn of the reader form: fill the buffer, hash it and hand it over. */
  method Turn(disk: Disk, job: Job?, buffer: Staging, source: Source, size: nat, expected: nat, length: nat,
              hasher: bv32, timer: Timer, ghost d: Device, offset: nat, ghost input: seq<byte>)
    returns (r: Turned, next: Job?, recycled: Staging?, taken: nat, hasher': bv32)
    requires HandedOver(disk.dev, job, d, offset, input, length)
    requires job != null ==> job.staging != buffer
    requires buffer.chunks == [] && size > 0 && !timer.fired && offset + expected <= U64_MAX
    requires length <= Min(expected, |input|) && source.rest == input[length..]
    requires hasher == Update(INITIAL, input[..length])
    modifies disk, job, buffer, source, timer, if job == null then {} else {job.staging}
    ensures (r == GaveUp(true) <==> timer.fired) && (timer.left.None? <==> old(timer.left).None?)
    ensures timer.fired ==> timer.left.Some?
    ensures !r.Moved? ==> next == job && HandedOver(disk.dev, job, d, offset, input, length)
    ensures r.Moved? ==>
              && taken > 0 && length + taken <= Min(expected, |input|)
              && next != null && fresh(next) && next.staging == buffer
              && HandedOver(disk.dev, next, d, offset, input, length + taken)
              && recycled == (if job == null then null else job.staging) && (recycled != null ==> recycled.chunks == [])
              && source.rest == input[length + taken..] && hasher' == Update(INITIAL, input[..length + taken])
              && (taken >= size || length + taken == expected || !source.fails)
    ensures r.Ended? ==> length == expected || (length == |input| && !source.fails)
    ensures r == GaveUp(false) ==> |input| < expected && source.fails && |input| < length + size
    ensures r.WriteBroke? ==> job != null && job.status == Broken(r.error)
  {
    hide Wrote, Concat, Clean, Update, HandedOver, OneChunk;
    next, recycled, hasher' := job, null, hasher;
    var received;
    received, taken := Fill(disk, job, buffer, source, size, expected, length, timer, d, offset, input);
    if !received.Filled? {
      r := GaveUp(received.Dropped?);
      return;
    }
    ghost var part := input[length..length + taken];
    OneChunkFacts(buffer.chunks, part);
    if taken == 0 {
      r := Ended;
      return;
    }
    hasher' := Update(hasher, buffer.chunks[0]);
    HashNext(input, length, taken);
    var handed;
    handed, next, recycled := HandOver(disk, job, buffer, offset + length, timer, d, offset, input, length);
    match handed {
      case Stopped => r := GaveUp(true);
      case Broke(error) => r := WriteBroke(error);
      case Started => r := Moved;
    }
  }

  /**
   Writes exactly `expected` bytes of the reader at `offset`. A write that was
   running when the input failed or the caller's timeout fired runs on, `detached`.
   */
  method WriteRange(disk: Disk, offset: nat, expected: nat, bufferSize: nat, source: Source, pool: BufferPool, timer: Timer)
    returns (r: Response, detached: Job?)
    requires offset + expected <= U64_MAX && !timer.fired
    modifies disk, source, pool, timer
    ensures Honoured(old(disk.dev), disk.dev, offset, expected, old(source.rest), r)
    ensures (r == Rejected(Cancelled) <==> timer.fired) && (timer.fired ==> old(timer.left).Some?)
    ensures detached != null ==>
              && r in {Rejected(SourceFailed), Rejected(Cancelled)}
              && fresh(detached) && fresh(detached.staging)
              && LeftRunning(disk.dev, detached, old(disk.dev), offset, expected, old(source.rest))
    ensures r == Rejected(SourceFailed) ==> source.fails && (detached != null <==> |old(source.rest)| >= Max(bufferSize, 1))
    ensures r.Rejected? && r.error.LengthMismatch? ==> !source.fails
    ensures r.Written? || r.error.LengthMismatch? ==> pool.out == old(pool.out)
  {
    hide Wrote, Concat, Clean, Honoured, Update, HandedOver, LeftRunning, OneChunk, NoEmptyChunk;
    var size := Max(bufferSize, 1);
    ghost var d, input := disk.dev, source.rest;
    NothingHandedOver(d, offset, input);
    var buffer := pool.Checkout();
    var job: Job? := null;
    var hasher, length: nat := INITIAL, 0;
    HashNothing(input);
    while true
      invariant HandedOver(disk.dev, job, d, offset, input, length)
      invariant fresh(buffer) && buffer.chunks == []
      invariant job != null ==> fresh(job) && fresh(job.staging) && job.staging != buffer
      invariant pool.out == old(pool.out) + {buffer} + (if job == null then {} else {job.staging})
      invariant length <= Min(expected, |input|)
      invariant source.rest == input[length..]
      invariant hasher == Update(INITIAL, input[..length])
      invariant if job == null then length == 0 else length >= size || !source.fails || length == expected
      invariant !timer.fired && (timer.left.None? <==> old(timer.left).None?)
      decreases |input| - length
    {
      var turned, next, recycled, taken, hashed :=
        Turn(disk, job, buffer, source, size, expected, length, hasher, timer, d, offset, input);
      match turned {
        case GaveUp(dropped) =>
          r := GiveUp(disk, job, expected, length, dropped, d, offset, input);
          return r, job;
        case WriteBroke(error) =>
          VerdictOnError(disk.dev, job, d, offset, expected, input, length, WriteFailed(error));
          return Rejected(WriteFailed(error)), null;
        case Ended => break;
        case Moved =>
          length, hasher, job := length + taken, hashed, next;
          if recycled != null {
            buffer := recycled;
          } else {
            buffer := pool.Checkout();
          }
      }
    }

    r, detached := Settle(disk, job, expected, length, hasher, timer, d, offset, input);
    if r.Written? || r.error.LengthMismatch? {
      if job != null {
        pool.GiveBack(job.staging);
      }
      pool.GiveBack(buffer);
    }
  }

  /** The writer ends early; its last write, if any, runs on. */
  method GiveUp(disk: Disk, job: Job?, expected: nat, length: nat, dropped: bool,
                ghost d: Device, ghost offset: nat, ghost input: seq<byte>)
    returns (r: Response)
    requires HandedOver(disk.dev, job, d, offset, input, length) && length <= expected
    requires dropped || |input| < expected
    ensures Honoured(d, disk.dev, offset, expected, input, r)
    ensures r == Rejected(if dropped then Cancelled else SourceFailed)
    ensures job != null ==> LeftRunning(disk.dev, job, d, offset, expected, input)
  {
    hide Wrote, Concat, Clean, Honoured;
    var error := if dropped then Cancelled else SourceFailed;
    VerdictOnError(disk.dev, job, d, offset, expected, input, length, error);
    return Rejected(error);
  }

  /** A stream of byte chunks: what it yields before it ends or fails. */
  datatype Item = Chunk(bytes: seq<byte>) | Failure

  function Available(items: seq<Item>): seq<byte> {
    if items == [] || items[0].Failure? then [] else items[0].bytes + Available(items[1..])
  }

  class ChunkStream {
    var items: seq<Item>

    constructor (items: seq<Item>)
      ensures this.items == items
    {
      this.items := items;
    }

    /** The next chunk, the end of the stream (`[]` with `more` false) or an error. */
    method TryNext() returns (ok: bool, more: bool, chunk: seq<byte>)
      modifies this
      ensures !ok ==> items == old(items) && Available(items) == []
      ensures ok && !more ==> items == old(items) && Available(items) == []
      ensures ok && more ==> |items| < |old(items)| && Available(old(items)) == chunk + Available(items)
    {
      if items == [] {
        return true, false, [];
      }
      if items[0].Failure? {
        return false, false, [];
      }
      ok, more, chunk := true, true, items[0].bytes;
      items := items[1..];
    }
  }

  /**
   The staged chunks are the `size` input bytes after the `handed` ones, hashed,
   and the stream holds the bytes after them (until enough has been taken).
   */
  ghost predicate Staged(chunks: seq<seq<byte>>, available: seq<byte>, hasher: bv32,
                         input: seq<byte>, handed: nat, size: nat, expected: nat) {
    && handed + size <= Min(expected, |input|)
    && NoEmptyChunk(chunks) && Concat(chunks) == input[handed..handed + size]
    && hasher == Update(INITIAL, input[..handed + size])
    && (handed + size < expected ==> available == input[handed + size..])
  }

  lemma NothingStaged(available: seq<byte>, hasher: bv32, input: seq<byte>, handed: nat, expected: nat)
    requires handed <= Min(expected, |input|)
    requires hasher == Update(INITIAL, input[..handed])
    requires handed < expected ==> available == input[handed..]
    ensures Staged([], available, hasher, input, handed, 0, expected)
  {
    assert input[handed..handed + 0] == [];
  }

  /** A chunk, cut at the expected length, is hashed and staged behind the others. */
  lemma StageChunk(chunks: seq<seq<byte>>, available: seq<byte>, hasher: bv32,
                   input: seq<byte>, handed: nat, size: nat, expected: nat, chunk: seq<byte>, rest: seq<byte>)
    requires Staged(chunks, available, hasher, input, handed, size, expected) && handed + size < expected
    requires available == chunk + rest && chunk != []
    ensures var kept := chunk[..Min(|chunk|, expected - (handed + size))];
            Staged(chunks + [kept], rest, Update(hasher, kept), input, handed, size + |kept|, expected)
  {
    hide Update, Concat;
    var n := handed + size;
    var kept := chunk[..Min(|chunk|, expected - n)];
    var tail := input[n..];
    assert kept == tail[..|kept|];
    assert tail[..|kept|] == input[n..n + |kept|];
    ConcatSnoc(chunks, kept);
    assert input[handed..n] + input[n..n + |kept|] == input[handed..n + |kept|];
    HashNext(input, n, |kept|);
    if n + |kept| < expected {
      assert kept == chunk;
      assert rest == tail[|chunk|..];
      assert tail[|chunk|..] == input[n + |chunk|..];
    }
  }

  lemma SkipEmptyChunk(available: seq<byte>, chunk: seq<byte>, rest: seq<byte>)
    requires available == chunk + rest && chunk == []
    ensures rest == available
  {
  }

  lemma StagedFacts(chunks: seq<seq<byte>>, available: seq<byte>, hasher: bv32,
                    input: seq<byte>, handed: nat, size: nat, expected: nat)
    requires Staged(chunks, available, hasher, input, handed, size, expected)
    ensures handed + size <= Min(expected, |input|)
    ensures handed + size < expected && available == [] ==> handed + size == |input|
  {
    if handed + size < expected && available == [] {
      assert |input[handed + size..]| == 0;
    }
  }

  /**
   Stages and hashes chunks until they hold `bufferSize` bytes, the expected
   length is reached or the stream ends, while the previous write goes on.
   */
  method Stage(disk: Disk, job: Job?, batch: Staging, stream: ChunkStream, bufferSize: nat, expected: nat,
               handed: nat, hasher: bv32, timer: Timer, ghost d: Device, ghost offset: nat, ghost input: seq<byte>)
    returns (r: Received, size: nat, hasher': bv32)
    requires HandedOver(disk.dev, job, d, offset, input, handed)
    requires job != null ==> job.staging != batch
    requires bufferSize > 0 && !timer.fired
    requires batch.chunks == [] && Staged([], Available(stream.items), hasher, input, handed, 0, expected)
    modifies disk, job, batch, stream, timer
    ensures HandedOver(disk.dev, job, d, offset, input, handed)
    ensures (r.Dropped? <==> timer.fired) && (timer.left.None? <==> old(timer.left).None?)
    ensures timer.fired ==> timer.left.Some?
    ensures Staged(batch.chunks, Available(stream.items), hasher', input, handed, size, expected)
    ensures r.Filled? && size < bufferSize ==> handed + size == expected || handed + size == |input|
    ensures r.InputFailed? ==> handed + size == |input| < expected
  {
    hide HandedOver, Staged, Available, Update;
    size, hasher' := 0, hasher;
    var eof := false;
    while !eof && size < bufferSize && handed + size < expected
      invariant HandedOver(disk.dev, job, d, offset, input, handed)
      invariant !timer.fired && (timer.left.None? <==> old(timer.left).None?)
      invariant Staged(batch.chunks, Available(stream.items), hasher', input, handed, size, expected)
      invariant eof ==> handed + size == |input|
      decreases !eof, |stream.items|
    {
      Overlap(disk, job, d, offset, input, handed);
      var stop := timer.Await();
      if stop {
        return Dropped, size, hasher';
      }
      ghost var available := Available(stream.items);
      StagedFacts(batch.chunks, available, hasher', input, handed, size, expected);
      var ok, more, chunk := stream.TryNext();
      if !ok {
        return InputFailed, size, hasher';
      }
      if !more {
        eof := true;
      } else if chunk == [] {
        SkipEmptyChunk(available, chunk, Available(stream.items));
      } else {
        var kept := chunk[..Min(|chunk|, expected - (handed + size))];
        StageChunk(batch.chunks, available, hasher', input, handed, size, expected, chunk, Available(stream.items));
        hasher' := Update(hasher', kept);
        size := size + |kept|;
        batch.chunks := batch.chunks + [kept];
      }
    }
    StagedFacts(batch.chunks, Available(stream.items), hasher', input, handed, size, expected);
    r := Filled;
  }

  /** Waits for the last write, checks the length and reports. */
  method Settle(disk: Disk, job: Job?, expected: nat, length: nat, hasher: bv32, timer: Timer,
                ghost d: Device, ghost offset: nat, ghost input: seq<byte>)
    returns (r: Response, detached: Job?)
    requires HandedOver(disk.dev, job, d, offset, input, length) && !timer.fired
    requires length <= expected && (length == expected || length == |input|)
    requires hasher == Update(INITIAL, input[..length])
    modifies disk, job, timer
    ensures Honoured(d, disk.dev, offset, expected, input, r)
    ensures (r == Rejected(Cancelled) <==> timer.fired) && (timer.fired ==> old(timer.left).Some?)
    ensures detached != null ==>
              detached == job && r == Rejected(Cancelled) && LeftRunning(disk.dev, job, d, offset, expected, input)
    ensures r.Written? || r.error.LengthMismatch? ==> job == null || job.status.Finished?
    ensures r != Rejected(SourceFailed) && (r.Rejected? && r.error.LengthMismatch? ==> length != expected)
  {
    hide Wrote, Concat, Clean, Honoured, Update, LeftRunning;
    if job != null {
      Overlap(disk, job, d, offset, input, length);
      var stop := timer.Await();
      if stop {
        r := GiveUp(disk, job, expected, length, true, d, offset, input);
        return r, job;
      }
      var io := job.Join(disk);
      if io.Failed? {
        VerdictOnError(disk.dev, job, d, offset, expected, input, length, WriteFailed(io.error));
        return Rejected(WriteFailed(io.error)), null;
      }
    }
    VerdictAtEnd(disk.dev, job, d, offset, expected, input, length);
    if length != expected {
      return Rejected(LengthMismatch(expected, length)), null;
    }
    return Written(length, Finish(hasher)), null;
  }

  /** Writes exactly `expected` bytes of the chunk stream at `offset`. */
  method WriteRangeFromStream(disk: Disk, offset: nat, expected: nat, bufferSize: nat, stream: ChunkStream, timer: Timer)
    returns (r: Response, detached: Job?)
    requires offset + expected <= U64_MAX && !timer.fired
    modifies disk, stream, timer
    ensures Honoured(old(disk.dev), disk.dev, offset, expected, Available(old(stream.items)), r)
    ensures (r == Rejected(Cancelled) <==> timer.fired) && (timer.fired ==> old(timer.left).Some?)
    ensures detached != null ==>
              && r in {Rejected(SourceFailed), Rejected(Cancelled)}
              && fresh(detached) && fresh(detached.staging)
              && LeftRunning(disk.dev, detached, old(disk.dev), offset, expected, Available(old(stream.items)))
  {
    hide Wrote, Concat, Clean, Honoured, Update, Available, HandedOver, LeftRunning;
    var size := Max(bufferSize, 1);
    ghost var d, input := disk.dev, Available(stream.items);
    NothingHandedOver(d, offset, input);
    var batch := new Staging();
    var job: Job? := null;
    var hasher, handed, at: nat := INITIAL, 0, offset;
    HashNothing(input);
    while true
      invariant HandedOver(disk.dev, job, d, offset, input, handed)
      invariant fresh(batch) && batch.chunks == []
      invariant job != null ==> fresh(job) && fresh(job.staging) && job.staging != batch
      invariant handed <= Min(expected, |input|) && at == offset + handed
      invariant handed < expected ==> Available(stream.items) == input[handed..]
      invariant hasher == Update(INITIAL, input[..handed])
      invariant !timer.fired && (timer.left.None? <==> old(timer.left).None?)
      decreases |input| - handed
    {
      NothingStaged(Available(stream.items), hasher, input, handed, expected);
      var received, batchSize, hashed :=
        Stage(disk, job, batch, stream, size, expected, handed, hasher, timer, d, offset, input);
      hasher := hashed;
      if !received.Filled? {
        r := GiveUp(disk, job, expected, handed, received.Dropped?, d, offset, input);
        return r, job;
      }
      if batchSize == 0 {
        break;
      }
      EmptyBatch(batch.chunks);
      var io, next, recycled := HandOver(disk, job, batch, at, timer, d, offset, input, handed);
      if io.Stopped? {
        r := GiveUp(disk, job, expected, handed, true, d, offset, input);
        return r, job;
      }
      if io.Broke? {
        VerdictOnError(disk.dev, job, d, offset, expected, input, handed, WriteFailed(io.error));
        return Rejected(WriteFailed(io.error)), null;
      }
      handed, at := handed + batchSize, at + batchSize;
      job := next;
      if recycled != null {
        batch := recycled;
      } else {
        batch := new Staging();
      }
    }
    r, detached := Settle(disk, job, expected, handed, hasher, timer, d, offset, input);
  }

  lemma EmptyBatch(chunks: seq<seq<byte>>)
    ensures chunks == [] ==> Concat(chunks) == [] && NoEmptyChunk(chunks)
  {
  }

  /** Whatever the file holds, what a writer did to it is one splice of a prefix of its input. */
  lemma PieceSpliced(d: Device, e: Device, offset: nat, expected: nat, input: seq<byte>, r: Response, file: seq<byte>)
    requires PieceWritten(d, e, offset, expected, input, r)
    ensures LogExtends(d, e) && Progress(d, e) <= Min(expected, |input|)
    ensures Apply(file, e.log[|d.log|..]) == Splice(file, offset, input[..Progress(d, e)])
    ensures r.Written? ==> Progress(d, e) == expected
  {
    WroteLength(d, e, offset, input[..if r.Written? then expected else Progress(d, e)]);
    WroteSplices(d, e, offset, input[..Progress(d, e)], file);
  }

  /** What a write left running does after its writer returned, up to any later moment: the call's prefix grows. */
  method RunDetached(disk: Disk, job: Job, ghost d: Device, ghost offset: nat, ghost expected: nat, ghost input: seq<byte>)
    requires LeftRunning(disk.dev, job, d, offset, expected, input)
    modifies disk, job
    ensures LeftRunning(disk.dev, job, d, offset, expected, input)
    ensures LogExtends(old(disk.dev), disk.dev)
    ensures PieceWritten(d, disk.dev, offset, expected, input, Rejected(Cancelled))
  {
    hide Wrote, Concat, Clean;
    job.Background(disk);
    LandedIsPrefix(disk.dev, job, d, offset, input, job.at - offset + |job.data|);
    WroteLength(d, disk.dev, offset, input[..Landed(job, offset)]);
  }
}
