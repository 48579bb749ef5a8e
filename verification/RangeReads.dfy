/** Reading a fixed range of a file through short positional reads. */
module RangeReads {
  import opened Bytes

  /** No read in flight, or one that owns the buffer and reads at `at`. */
  datatype State = Idle | Reading(owned: seq<byte>, at: nat)

  datatype Reader = Reader(offset: nat, remaining: nat, capacity: nat,
                           buffer: seq<byte>, pos: nat, filled: nat, state: State)

  /** What a positional read on the blocking pool comes back with. */
  datatype Completion = Pending | ReadError | Got(n: nat)

  datatype Poll = NotReady | Failed | Ready(bytes: seq<byte>) | Panic

  function New(offset: nat, length: nat, bufferSize: nat): Reader {
    Reader(offset, length, Min(Max(bufferSize, 1), length), [], 0, 0, Idle)
  }

  /** The bytes a positional read of `len` bytes returns: short, but empty only at the end of the file. */
  function ReadAt(file: seq<byte>, len: nat, at: nat, n: nat): (part: seq<byte>)
    ensures |part| <= len && at + |part| <= Max(at, |file|)
    ensures part == [] <==> len == 0 || at >= |file|
    ensures at <= |file| ==> part == file[at..at + |part|]
  {
    if at >= |file| || len == 0 then []
    else file[at..at + Max(1, Min(n, Min(len, |file| - at)))]
  }

  /** The slice `buffer[pos..filled]`, which panics when the buffer is shorter. */
  function Window(r: Reader): Poll {
    if r.pos <= r.filled <= |r.buffer| then Ready(r.buffer[r.pos..r.filled]) else Panic
  }

  function Len(r: Reader): nat {
    Min(r.capacity, r.remaining)
  }

  /** Truncates the reused buffer, or checks a new one of `len` bytes out of the pool. */
  function ReadBuffer(buffer: seq<byte>, len: nat): seq<byte> {
    if buffer == [] then seq(len, _ => 0) else buffer[..Min(|buffer|, len)]
  }

  /** The read in flight comes back; a failed one takes the buffer with it. */
  function Join(file: seq<byte>, r: Reader, c: Completion): (Reader, Poll)
    requires r.state.Reading?
  {
    match c
    case Pending => (r, NotReady)
    case ReadError => (r.(state := Idle), Failed)
    case Got(n) =>
      var part := ReadAt(file, |r.state.owned|, r.state.at, n);
      if |part| > r.remaining then (r, Panic)
      else
        var r' := r.(state := Idle, buffer := part + r.state.owned[|part|..], pos := 0, filled := |part|,
                     offset := r.offset + |part|,
                     remaining := if part == [] then 0 else r.remaining - |part|);
        (r', Window(r'))
  }

  /** `poll_fill_buf`. */
  function FillBuf(file: seq<byte>, r: Reader, c: Completion): (Reader, Poll) {
    if r.state.Reading? then Join(file, r, c)
    else if r.pos < r.filled || r.remaining == 0 then (r, Window(r))
    else Join(file, r.(buffer := [], state := Reading(ReadBuffer(r.buffer, Len(r)), r.offset)), c)
  }

  /** `consume`. */
  function Consume(r: Reader, amount: nat): Reader {
    r.(pos := Min(r.pos + amount, r.filled))
  }

  /** `read_chunk`. */
  function ReadChunk(file: seq<byte>, r: Reader, c: Completion): (Reader, Poll) {
    if r.pos < r.filled then
      if r.filled <= |r.buffer| then (r.(pos := r.filled), Ready(r.buffer[r.pos..r.filled])) else (r, Panic)
    else if r.remaining == 0 then (r, Ready([]))
    else
      match c
      case Pending => (r, NotReady)
      case ReadError => (r, Failed)
      case Got(n) =>
        var part := ReadAt(file, Len(r), r.offset, n);
        (r.(offset := r.offset + |part|, remaining := if part == [] then 0 else r.remaining - |part|), Ready(part))
  }

  /** `into_parts`: the next unconsumed offset and the bytes left. */
  function IntoParts(r: Reader): (nat, nat)
    requires r.pos <= r.filled <= r.offset + r.pos
  {
    (r.offset - (r.filled - r.pos), r.remaining + (r.filled - r.pos))
  }

  /** The bytes of the range that exist: what a reader has to deliver. */
  function Range(file: seq<byte>, start: nat, length: nat): seq<byte> {
    if start >= |file| then [] else file[start..Min(start + length, |file|)]
  }

  /** The bytes already read but not yet consumed. */
  function Unread(r: Reader): seq<byte> {
    if r.pos <= r.filled <= |r.buffer| then r.buffer[r.pos..r.filled] else []
  }

  /** The buffer left with a failed read and nothing replaced it yet. */
  predicate Lost(r: Reader) {
    r.state.Idle? && r.filled > |r.buffer|
  }

  /**
   Delivered bytes and unread buffer are exactly the range up to `offset`; the
   rest is `remaining`, until the end of the file zeroes it.
   */
  ghost predicate Inv(file: seq<byte>, start: nat, length: nat, r: Reader, out: seq<byte>) {
    var target := Range(file, start, length);
    && r.pos <= r.filled
    && start <= r.offset && r.offset - start <= |target|
    && out + Unread(r) == target[..r.offset - start]
    && (r.offset - start + r.remaining == length || (r.remaining == 0 && r.offset - start == |target|))
    && (r.remaining > 0 ==> r.capacity > 0)
    && match r.state
       case Idle => (r.filled <= |r.buffer| || (r.buffer == [] && r.pos == r.filled))
                    && (r.buffer != [] ==> |r.buffer| >= Len(r))
       case Reading(owned, at) =>
         r.buffer == [] && r.pos == r.filled && at == r.offset && |owned| == Len(r) && r.remaining > 0
  }

  lemma RangeBound(file: seq<byte>, start: nat, length: nat)
    ensures |Range(file, start, length)| <= length
  {
  }

  lemma NewInv(file: seq<byte>, start: nat, length: nat, bufferSize: nat)
    ensures Inv(file, start, length, New(start, length, bufferSize), [])
  {
    assert Range(file, start, length)[..0] == [];
  }

  /** A positional read at the next offset returns the next bytes of the range, none only at its end. */
  lemma NextPart(file: seq<byte>, start: nat, length: nat, done: nat, len: nat, n: nat)
    requires done <= |Range(file, start, length)| && done + len <= length && len > 0
    ensures var target, part := Range(file, start, length), ReadAt(file, len, start + done, n);
            && done + |part| <= |target|
            && part == target[done..done + |part|]
            && (part == [] ==> done == |target|)
  {
    var target, part := Range(file, start, length), ReadAt(file, len, start + done, n);
    if start < |file| && part != [] {
      SliceOfSlice(file, start, Min(start + length, |file|), done, done + |part|);
    }
  }

  /** A completed buffered read keeps the invariant and hands out the next bytes. */
  lemma JoinKeeps(file: seq<byte>, start: nat, length: nat, r: Reader, out: seq<byte>, n: nat)
    requires Inv(file, start, length, r, out) && r.state.Reading?
    ensures var (r', p) := Join(file, r, Got(n));
            && Inv(file, start, length, r', out)
            && p.Ready? && p.bytes == Unread(r')
            && (p.bytes == [] ==> out == Range(file, start, length))
  {
    hide ReadAt, Range;
    var target, done := Range(file, start, length), r.offset - start;
    NextPart(file, start, length, done, |r.state.owned|, n);
    var part := ReadAt(file, |r.state.owned|, r.state.at, n);
    var buffer := part + r.state.owned[|part|..];
    assert Unread(r) == [] && out == target[..done];
    assert buffer[0..|part|] == part;
    TakeMore(target, done, part);
  }

  /** Every buffered read asks for exactly min(capacity, remaining) bytes, inside the range. */
  lemma SpawnSizes(file: seq<byte>, start: nat, length: nat, r: Reader, out: seq<byte>)
    requires Inv(file, start, length, r, out) && r.state.Idle? && r.pos == r.filled && r.remaining > 0
    ensures |ReadBuffer(r.buffer, Len(r))| == Len(r) > 0
    ensures r.offset + Len(r) <= start + length
    ensures Inv(file, start, length, r.(buffer := [], state := Reading(ReadBuffer(r.buffer, Len(r)), r.offset)), out)
  {
  }

  /** `poll_fill_buf` keeps the invariant; it panics exactly on a lost buffer of an exhausted range. */
  lemma FillBufKeeps(file: seq<byte>, start: nat, length: nat, r: Reader, out: seq<byte>, c: Completion)
    requires Inv(file, start, length, r, out)
    ensures var (r', p) := FillBuf(file, r, c);
            && Inv(file, start, length, r', out)
            && (p.Panic? <==> Lost(r) && r.remaining == 0)
            && (p.Ready? ==> p.bytes == Unread(r') && (p.bytes == [] <==> out == Range(file, start, length)))
  {
    var target := Range(file, start, length);
    if r.state.Reading? || (r.pos == r.filled && r.remaining > 0) {
      if r.state.Idle? {
        SpawnSizes(file, start, length, r, out);
      }
      var reading := if r.state.Reading? then r else r.(buffer := [], state := Reading(ReadBuffer(r.buffer, Len(r)), r.offset));
      if c.Got? {
        JoinKeeps(file, start, length, reading, out, c.n);
      }
    } else if r.remaining == 0 {
      assert target[..|target|] == target;
    }
  }

  lemma ConsumeKeeps(file: seq<byte>, start: nat, length: nat, r: Reader, out: seq<byte>, amount: nat)
    requires Inv(file, start, length, r, out)
    ensures Inv(file, start, length, Consume(r, amount), out + Unread(r)[..Min(amount, |Unread(r)|)])
  {
    var k := Min(amount, |Unread(r)|);
    assert Unread(Consume(r, amount)) == Unread(r)[k..];
    assert (out + Unread(r)[..k]) + Unread(r)[k..] == out + Unread(r);
  }

  /** `read_chunk` with no buffered read in flight keeps the invariant and never panics. */
  lemma ReadChunkKeeps(file: seq<byte>, start: nat, length: nat, r: Reader, out: seq<byte>, c: Completion)
    requires Inv(file, start, length, r, out) && r.state.Idle?
    ensures var (r', p) := ReadChunk(file, r, c);
            && !p.Panic?
            && Inv(file, start, length, r', if p.Ready? then out + p.bytes else out)
            && (p == Ready([]) ==> out == Range(file, start, length))
  {
    hide ReadAt, Range;
    RangeBound(file, start, length);
    var target, done := Range(file, start, length), r.offset - start;
    if r.pos < r.filled {
      assert out + Unread(r) + [] == out + Unread(r);
    } else {
      assert Unread(r) == [] && out == target[..done];
      assert out + [] == out && target[..|target|] == target;
      if r.remaining > 0 && c.Got? {
        NextPart(file, start, length, done, Len(r), c.n);
        var part := ReadAt(file, Len(r), r.offset, c.n);
        TakeMore(target, done, part);
      }
    }
  }

  /** Where the next completed fill of a drained reader takes its bytes from. */
  function ServedFrom(r: Reader): nat {
    match r.state
    case Idle => r.offset
    case Reading(_, at) => at
  }

  /** The reader after an owned chunk was read and, if `failed`, the read in flight came back with an error. */
  function Settled(file: seq<byte>, r: Reader, failed: bool): Reader {
    if failed then FillBuf(file, r, ReadError).0 else r
  }

  /**
   With a buffered read in flight, `read_chunk` sends the next completed fill to
   the wrong place exactly when the chunk is not empty and the read in flight
   does not fail: that fill then repeats the chunk from its first byte.
   Otherwise it hands out the next bytes of the range.
   */
  lemma ReadChunkInFlight(file: seq<byte>, start: nat, length: nat, r: Reader, out: seq<byte>,
                          c: Completion, failed: bool, n: nat)
    requires Inv(file, start, length, r, out) && r.state.Reading?
    ensures var (r1, p1) := ReadChunk(file, r, c);
            var got := if p1.Ready? then p1.bytes else [];
            var r2 := Settled(file, r1, failed);
            var p := FillBuf(file, r2, Got(n)).1;
            && (ServedFrom(r2) != start + |out + got| <==> got != [] && !failed)
            && (p.Ready? && got != [] && !failed ==> p.bytes != [] && p.bytes[0] == got[0])
            && (p.Ready? && (got == [] || failed) ==> Prefix(out + got + p.bytes, Range(file, start, length)))
  {
    var (r1, p1) := ReadChunk(file, r, c);
    var got := if p1.Ready? then p1.bytes else [];
    var r2 := Settled(file, r1, failed);
    ChunkBesideRead(file, start, length, r, out, c);
    if failed {
      FillBufKeeps(file, start, length, r2, out + got, Got(n));
      InvPrefix(file, start, length, FillBuf(file, r2, Got(n)).0, out + got);
    } else if !c.Got? {
      assert out + got == out;
      FillBufKeeps(file, start, length, r, out, Got(n));
      InvPrefix(file, start, length, FillBuf(file, r2, Got(n)).0, out + got);
    } else if got == [] {
      assert out + got == out && out + got + [] == out;
      assert Range(file, start, length)[..|out|] == Range(file, start, length);
    }
  }

  predicate Prefix(a: seq<byte>, b: seq<byte>) {
    |a| <= |b| && a == b[..|a|]
  }

  lemma InvPrefix(file: seq<byte>, start: nat, length: nat, r: Reader, out: seq<byte>)
    requires Inv(file, start, length, r, out)
    ensures Prefix(out + Unread(r), Range(file, start, length))
  {
  }

  /** The chunk itself is right; only the read in flight no longer fits the reader. */
  lemma ChunkBesideRead(file: seq<byte>, start: nat, length: nat, r: Reader, out: seq<byte>, c: Completion)
    requires Inv(file, start, length, r, out) && r.state.Reading?
    ensures var (r', p) := ReadChunk(file, r, c);
            var got := if p.Ready? then p.bytes else [];
            && Inv(file, start, length, r'.(state := Idle), out + got)
            && r'.state == r.state && r'.offset == start + |out + got|
            && (c.Got? && got == [] ==> r.offset >= |file| && out == Range(file, start, length))
  {
    hide ReadAt;
    RangeBound(file, start, length);
    var idle := r.(state := Idle);
    assert Inv(file, start, length, idle, out);
    ReadChunkKeeps(file, start, length, idle, out, c);
    assert Unread(r) == [] && Unread(ReadChunk(file, r, c).0) == [];
    assert out + [] == out;
  }

  /** A run in which one byte is delivered twice and the next one is skipped. */
  lemma InFlightDuplicates(file: seq<byte>)
    requires |file| >= 2
    ensures var r0 := New(0, 2, 1);
            var (r1, p1) := FillBuf(file, r0, Pending);
            var (r2, p2) := ReadChunk(file, r1, Got(1));
            var (r3, p3) := FillBuf(file, r2, Got(1));
            var (r4, p4) := FillBuf(file, Consume(r3, 1), Got(1));
            p1 == NotReady && p2 == Ready([file[0]]) && p3 == Ready([file[0]]) && p4 == Ready([])
  {
    var r0 := New(0, 2, 1);
    var (r1, p1) := FillBuf(file, r0, Pending);
    var (r2, p2) := ReadChunk(file, r1, Got(1));
    assert file[0..1] == [file[0]];
    var (r3, p3) := FillBuf(file, r2, Got(1));
    assert r3.buffer == [file[0]];
  }

  /** A failed fill, then owned chunks to the end of the range: the next fill slices a missing buffer. */
  lemma FailedFillPanics(file: seq<byte>)
    requires |file| >= 2
    ensures var (r1, p1) := FillBuf(file, New(0, 2, 1), Got(1));
            var (r2, p2) := FillBuf(file, Consume(r1, 1), ReadError);
            var (r3, p3) := ReadChunk(file, r2, Got(1));
            var (r4, p4) := FillBuf(file, r3, Pending);
            p1.Ready? && p2 == Failed && p3.Ready? && p4 == Panic
  {
    var (r1, p1) := FillBuf(file, New(0, 2, 1), Got(1));
    assert r1.buffer == [file[0]];
  }

  /** The rest of a range after its first `done` bytes is a range of its own. */
  lemma RangeRest(file: seq<byte>, start: nat, length: nat, done: nat, left: nat)
    requires done <= |Range(file, start, length)| && (done + left == length || done + left == |Range(file, start, length)|)
    ensures Range(file, start + done, left) == Range(file, start, length)[done..]
  {
    var target := Range(file, start, length);
    if start + done < |file| {
      assert target[done..] == file[start + done..start + |target|];
    }
  }

  /** Sending the parts of `into_parts` from the file delivers exactly what is undelivered. */
  lemma HandOff(file: seq<byte>, start: nat, length: nat, r: Reader, out: seq<byte>)
    requires Inv(file, start, length, r, out)
    ensures r.filled <= r.offset + r.pos
    ensures var (offset, left) := IntoParts(r);
            && offset == start + |out|
            && out + Range(file, offset, left) == Range(file, start, length)
  {
    hide Range;
    var target := Range(file, start, length);
    assert |Unread(r)| == r.filled - r.pos;
    assert (out + Unread(r))[..|out|] == out;
    assert out == target[..|out|];
    RangeRest(file, start, length, |out|, IntoParts(r).1);
    assert target[..|out|] + target[|out|..] == target;
  }

  datatype Call = Fill(c: Completion) | Take(amount: nat) | Read(room: nat, c: Completion) | Chunk(c: Completion)

  /** One call of the reader's interface: the new state and the bytes it delivers. */
  function Apply(file: seq<byte>, r: Reader, call: Call): (Reader, seq<byte>) {
    match call
    case Fill(c) => (FillBuf(file, r, c).0, [])
    case Take(amount) => (Consume(r, amount), Unread(r)[..Min(amount, |Unread(r)|)])
    case Read(room, c) =>
      var (r', p) := FillBuf(file, r, c);
      if !p.Ready? then (r', [])
      else
        var amount := Min(|p.bytes|, room);
        (Consume(r', amount), p.bytes[..amount])
    case Chunk(c) =>
      var (r', p) := ReadChunk(file, r, c);
      (r', if p.Ready? then p.bytes else [])
  }

  /** A run of calls; call `k` sees the file as `files[k]`. */
  function Run(files: seq<seq<byte>>, r: Reader, calls: seq<Call>): (Reader, seq<byte>)
    requires |files| == |calls|
    decreases |calls|
  {
    if calls == [] then (r, [])
    else
      var (r', bytes) := Apply(files[0], r, calls[0]);
      var (r'', more) := Run(files[1..], r', calls[1..]);
      (r'', bytes + more)
  }

  /** The file may change between calls, but not in the range. */
  ghost predicate Agree(files: seq<seq<byte>>, file: seq<byte>, start: nat, length: nat) {
    forall k | 0 <= k < |files| :: Range(files[k], start, length) == Range(file, start, length)
  }

  /** Owned chunks are read only while no buffered read is in flight. */
  predicate Legal(files: seq<seq<byte>>, r: Reader, calls: seq<Call>)
    requires |files| == |calls|
    decreases |calls|
  {
    calls != [] ==>
      && (calls[0].Chunk? ==> r.state.Idle?)
      && Legal(files[1..], Apply(files[0], r, calls[0]).0, calls[1..])
  }

  /** After a failed fill, owned chunks also wait for a fill that succeeds. */
  predicate Careful(files: seq<seq<byte>>, r: Reader, calls: seq<Call>)
    requires |files| == |calls|
    decreases |calls|
  {
    calls != [] ==>
      && (calls[0].Chunk? ==> r.state.Idle? && !Lost(r))
      && Careful(files[1..], Apply(files[0], r, calls[0]).0, calls[1..])
  }

  /** The invariant speaks of the range alone. */
  lemma SameRange(f: seq<byte>, g: seq<byte>, start: nat, length: nat, r: Reader, out: seq<byte>)
    requires Range(f, start, length) == Range(g, start, length)
    ensures Inv(f, start, length, r, out) <==> Inv(g, start, length, r, out)
  {
  }

  lemma ApplyKeeps(seen: seq<byte>, file: seq<byte>, start: nat, length: nat, r: Reader, out: seq<byte>, call: Call)
    requires Range(seen, start, length) == Range(file, start, length)
    requires Inv(file, start, length, r, out) && (call.Chunk? ==> r.state.Idle?)
    ensures Inv(file, start, length, Apply(seen, r, call).0, out + Apply(seen, r, call).1)
  {
    hide Inv, FillBuf, ReadChunk, Range;
    SameRange(seen, file, start, length, r, out);
    assert out + [] == out;
    match call {
      case Fill(c) => FillBufKeeps(seen, start, length, r, out, c);
      case Take(amount) => ConsumeKeeps(seen, start, length, r, out, amount);
      case Read(room, c) =>
        FillBufKeeps(seen, start, length, r, out, c);
        var (r', p) := FillBuf(seen, r, c);
        if p.Ready? {
          ConsumeKeeps(seen, start, length, r', out, Min(|p.bytes|, room));
        }
      case Chunk(c) => ReadChunkKeeps(seen, start, length, r, out, c);
    }
    SameRange(seen, file, start, length, Apply(seen, r, call).0, out + Apply(seen, r, call).1);
  }

  lemma AgreeRest(files: seq<seq<byte>>, file: seq<byte>, start: nat, length: nat)
    requires Agree(files, file, start, length) && files != []
    ensures Range(files[0], start, length) == Range(file, start, length) && Agree(files[1..], file, start, length)
  {
    assert forall k | 0 <= k < |files| - 1 :: files[1..][k] == files[k + 1];
  }

  /** Over every legal run the delivered bytes are the range, in order, without gap or repeat. */
  lemma {:induction false} RunKeeps(files: seq<seq<byte>>, file: seq<byte>, start: nat, length: nat,
                                    r: Reader, out: seq<byte>, calls: seq<Call>)
    requires |files| == |calls| && Agree(files, file, start, length)
    requires Inv(file, start, length, r, out) && Legal(files, r, calls)
    ensures Inv(file, start, length, Run(files, r, calls).0, out + Run(files, r, calls).1)
    decreases |calls|
  {
    hide Inv, Apply, Agree;
    if calls == [] {
      assert out + [] == out;
    } else {
      AgreeRest(files, file, start, length);
      var (r', bytes) := Apply(files[0], r, calls[0]);
      ApplyKeeps(files[0], file, start, length, r, out, calls[0]);
      RunKeeps(files[1..], file, start, length, r', out + bytes, calls[1..]);
      JoinAssociates(out, bytes, Run(files[1..], r', calls[1..]).1);
    }
  }

  /** No state of a careful run panics, whatever the next fill comes back with. */
  lemma {:induction false} CarefulNeverPanics(files: seq<seq<byte>>, file: seq<byte>, start: nat, length: nat,
                                              r: Reader, out: seq<byte>, calls: seq<Call>)
    requires |files| == |calls| && Agree(files, file, start, length)
    requires Inv(file, start, length, r, out) && (Lost(r) ==> r.remaining > 0) && Careful(files, r, calls)
    ensures var (r', more) := Run(files, r, calls);
            && Inv(file, start, length, r', out + more)
            && forall c :: !FillBuf(file, r', c).1.Panic?
    decreases |calls|
  {
    hide Inv, FillBuf, Apply, Lost, Agree;
    if calls == [] {
      assert out + [] == out;
      forall c ensures !FillBuf(file, r, c).1.Panic? {
        FillBufKeeps(file, start, length, r, out, c);
      }
    } else {
      AgreeRest(files, file, start, length);
      var (r', bytes) := Apply(files[0], r, calls[0]);
      ApplyKeeps(files[0], file, start, length, r, out, calls[0]);
      SameRange(files[0], file, start, length, r, out);
      StaysRecoverable(files[0], start, length, r, out, calls[0]);
      CarefulNeverPanics(files[1..], file, start, length, r', out + bytes, calls[1..]);
      JoinAssociates(out, bytes, Run(files[1..], r', calls[1..]).1);
    }
  }

  lemma StaysRecoverable(file: seq<byte>, start: nat, length: nat, r: Reader, out: seq<byte>, call: Call)
    requires Inv(file, start, length, r, out) && (Lost(r) ==> r.remaining > 0)
    requires call.Chunk? ==> r.state.Idle? && !Lost(r)
    ensures Lost(Apply(file, r, call).0) ==> Apply(file, r, call).0.remaining > 0
  {
    hide ReadAt, Range;
  }

  /** An empty fill or chunk after any legal run means the whole range was delivered. */
  lemma Drained(files: seq<seq<byte>>, file: seq<byte>, start: nat, length: nat, bufferSize: nat,
                calls: seq<Call>, c: Completion)
    requires |files| == |calls| && Agree(files, file, start, length)
    requires Legal(files, New(start, length, bufferSize), calls)
    ensures var (r, out) := Run(files, New(start, length, bufferSize), calls);
            && (FillBuf(file, r, c).1 == Ready([]) ==> out == Range(file, start, length))
            && (r.state.Idle? && ReadChunk(file, r, c).1 == Ready([]) ==> out == Range(file, start, length))
  {
    hide Inv, FillBuf, ReadChunk, Range, Agree;
    NewInv(file, start, length, bufferSize);
    RunKeeps(files, file, start, length, New(start, length, bufferSize), [], calls);
    var (r, out) := Run(files, New(start, length, bufferSize), calls);
    assert [] + out == out;
    FillBufKeeps(file, start, length, r, out, c);
    if r.state.Idle? {
      ReadChunkKeeps(file, start, length, r, out, c);
    }
  }

  /** A completed read into a buffer with room. */
  predicate Completes(call: Call) {
    call.Read? && call.room > 0 && call.c.Got?
  }

  /** It delivers at least one byte, unless the range is exhausted. */
  lemma ReadDelivers(file: seq<byte>, start: nat, length: nat, r: Reader, out: seq<byte>, call: Call)
    requires Inv(file, start, length, r, out) && (Lost(r) ==> r.remaining > 0) && Completes(call)
    ensures Apply(file, r, call).1 == [] <==> out == Range(file, start, length)
  {
    hide Inv, Range, Lost;
    FillBufKeeps(file, start, length, r, out, call.c);
    FillAnswers(file, r, call.c.n);
  }

  lemma FillAnswers(file: seq<byte>, r: Reader, n: nat)
    ensures FillBuf(file, r, Got(n)).1.Ready? || FillBuf(file, r, Got(n)).1.Panic?
  {
  }

  /** So reading ends: as many completed reads as there are bytes deliver them all, and the next fill reports the end. */
  lemma {:induction false} DrainEnds(files: seq<seq<byte>>, file: seq<byte>, start: nat, length: nat,
                                     r: Reader, out: seq<byte>, calls: seq<Call>, n: nat)
    requires |files| == |calls| && Agree(files, file, start, length)
    requires Inv(file, start, length, r, out) && (Lost(r) ==> r.remaining > 0)
    requires (forall k | 0 <= k < |calls| :: Completes(calls[k])) && |out| + |calls| >= |Range(file, start, length)|
    ensures var (r', more) := Run(files, r, calls);
            out + more == Range(file, start, length) && FillBuf(file, r', Got(n)).1 == Ready([])
    decreases |calls|
  {
    hide Inv, FillBuf, Apply, Lost, Agree, Range;
    if calls == [] {
      assert out + [] == out;
      InvPrefix(file, start, length, r, out);
      assert out == Range(file, start, length);
      FillBufKeeps(file, start, length, r, out, Got(n));
      FillAnswers(file, r, n);
    } else {
      AgreeRest(files, file, start, length);
      var (r', bytes) := Apply(files[0], r, calls[0]);
      SameRange(files[0], file, start, length, r, out);
      ReadDelivers(files[0], start, length, r, out, calls[0]);
      ApplyKeeps(files[0], file, start, length, r, out, calls[0]);
      StaysRecoverable(files[0], start, length, r, out, calls[0]);
      InvPrefix(file, start, length, r', out + bytes);
      DrainEnds(files[1..], file, start, length, r', out + bytes, calls[1..], n);
      JoinAssociates(out, bytes, Run(files[1..], r', calls[1..]).1);
    }
  }

  /** From the start: a range of which `k` bytes exist is drained within `k` completed reads, and the next one says so. */
  lemma ReadsToTheEnd(files: seq<seq<byte>>, file: seq<byte>, start: nat, length: nat, bufferSize: nat,
                      calls: seq<Call>, n: nat)
    requires |files| == |calls| && Agree(files, file, start, length)
    requires (forall k | 0 <= k < |calls| :: Completes(calls[k])) && |calls| >= |Range(file, start, length)|
    ensures var (r, out) := Run(files, New(start, length, bufferSize), calls);
            out == Range(file, start, length) && FillBuf(file, r, Got(n)).1 == Ready([])
  {
    NewInv(file, start, length, bufferSize);
    DrainEnds(files, file, start, length, New(start, length, bufferSize), [], calls, n);
    var out := Run(files, New(start, length, bufferSize), calls).1;
    assert [] + out == out;
  }

  /** Spawning a read does not change what the fill comes to. */
  lemma FillSpawns(file: seq<byte>, r: Reader, c: Completion)
    requires r.state.Idle? && r.pos >= r.filled && r.remaining > 0
    ensures FillBuf(file, r, c)
            == FillBuf(file, r.(buffer := [], state := Reading(ReadBuffer(r.buffer, Len(r)), r.offset)), c)
  {
  }

  /** With unread bytes, or nothing remaining, a fill hands out the window. */
  lemma FillWaits(file: seq<byte>, r: Reader, c: Completion)
    requires r.state.Idle? && (r.pos < r.filled || r.remaining == 0)
    ensures FillBuf(file, r, c) == (r, Window(r))
  {
  }

  lemma WindowOf(r: Reader)
    ensures Window(r) == if r.pos <= r.filled <= |r.buffer| then Ready(r.buffer[r.pos..r.filled]) else Panic
  {
  }

  /** What joining the read comes to. */
  lemma FillJoins(file: seq<byte>, r: Reader, c: Completion)
    requires r.state.Reading?
    ensures c.Pending? ==> FillBuf(file, r, c) == (r, NotReady)
    ensures c.ReadError? ==> FillBuf(file, r, c) == (r.(state := Idle), Failed)
    ensures c.Got? ==>
              var part := ReadAt(file, |r.state.owned|, r.state.at, c.n);
              var after := r.(state := Idle, buffer := part + r.state.owned[|part|..], pos := 0, filled := |part|,
                              offset := r.offset + |part|,
                              remaining := if part == [] || |part| > r.remaining then 0 else r.remaining - |part|);
              FillBuf(file, r, c) == if |part| > r.remaining then (r, Panic) else (after, Window(after))
  {
    hide ReadAt;
  }

  /** The reader as its callers hold it. */
  class RangeReader {
    var offset: nat
    var remaining: nat
    const capacity: nat
    var buffer: seq<byte>
    var pos: nat
    var filled: nat
    var state: State

    function View(): Reader
      reads this
    {
      Reader(offset, remaining, capacity, buffer, pos, filled, state)
    }

    constructor (offset: nat, length: nat, bufferSize: nat)
      ensures View() == New(offset, length, bufferSize)
    {
      this.offset, remaining := offset, length;
      capacity := Min(Max(bufferSize, 1), length);
      buffer, pos, filled, state := [], 0, 0, Idle;
    }

    /** Polls for buffered data; `c` is what a read joined by this poll, of the file as it is now, comes back with. */
    method PollFillBuf(file: seq<byte>, c: Completion) returns (p: Poll)
      modifies this
      ensures (View(), p) == FillBuf(file, old(View()), c)
    {
      hide ReadAt, FillBuf, Window;
      var joined := false;
      while true
        invariant !joined ==> FillBuf(file, View(), c) == FillBuf(file, old(View()), c)
        invariant joined ==> state.Idle? && (pos < filled || remaining == 0)
        invariant joined ==> FillBuf(file, old(View()), c) == (View(), Window(View()))
        decreases if joined then 0 else if state.Reading? then 1 else 2
      {
        match state {
          case Idle =>
            if pos < filled || remaining == 0 {
              FillWaits(file, View(), c);
              break;
            }
            FillSpawns(file, View(), c);
            var len := Min(capacity, remaining);
            var taken := buffer;
            buffer := [];
            if taken == [] {
              taken := seq(len, _ => 0);
            } else {
              taken := taken[..Min(|taken|, len)];
            }
            state := Reading(taken, offset);
          case Reading(owned, at) =>
            FillJoins(file, View(), c);
            if c.Pending? {
              return NotReady;
            }
            if c.ReadError? {
              state := Idle;
              return Failed;
            }
            var part := ReadAt(file, |owned|, at, c.n);
            if |part| > remaining {
              return Panic;
            }
            state := Idle;
            buffer := part + owned[|part|..];
            pos, filled := 0, |part|;
            offset := offset + |part|;
            remaining := if |part| == 0 then 0 else remaining - |part|;
            joined := true;
        }
      }
      WindowOf(View());
      p := if pos <= filled <= |buffer| then Ready(buffer[pos..filled]) else Panic;
    }

    method ConsumeBytes(amount: nat)
      modifies this
      ensures View() == Consume(old(View()), amount)
    {
      pos := Min(pos + amount, filled);
    }

    /** `poll_read` into a buffer with room for `room` bytes. */
    method PollRead(file: seq<byte>, room: nat, c: Completion) returns (p: Poll)
      modifies this
      ensures (View(), if p.Ready? then p.bytes else []) == Apply(file, old(View()), Read(room, c))
    {
      hide FillBuf;
      p := PollFillBuf(file, c);
      if p.Ready? {
        var amount := Min(|p.bytes|, room);
        p := Ready(p.bytes[..amount]);
        ConsumeBytes(amount);
      }
    }

    method NextChunk(file: seq<byte>, c: Completion) returns (p: Poll)
      modifies this
      ensures (View(), p) == ReadChunk(file, old(View()), c)
    {
      hide ReadAt;
      if pos < filled {
        if filled > |buffer| {
          return Panic;
        }
        p := Ready(buffer[pos..filled]);
        pos := filled;
        return;
      }
      if remaining == 0 {
        return Ready([]);
      }
      var len := Min(capacity, remaining);
      match c {
        case Pending => return NotReady;
        case ReadError => return Failed;
        case Got(n) =>
          var part := ReadAt(file, len, offset, n);
          offset := offset + |part|;
          remaining := if |part| == 0 then 0 else remaining - |part|;
          return Ready(part);
      }
    }
  }
}
