/**
 The two loops that push a list of chunks through partial positional writes:
 the index/written cursor of the stream writer and the slice-advancing loop of
 the URMA writer.
 */
module VectoredWrite {
  import opened Bytes
  import opened PieceFile

  const MAX_WRITE_IOVECS: nat := 1024

  datatype IoError = WriteZero | KernelFault | OffsetOverflow
  datatype IoResult = Done | Failed(error: IoError)

  /** The chunks one call submits. */
  function Submitted(buffers: seq<seq<byte>>): (r: seq<seq<byte>>)
    ensures |r| == Min(|buffers|, 1024)
  {
    buffers[..Min(|buffers|, MAX_WRITE_IOVECS)]
  }

  /** What is left of a chunk list after its first `n` bytes, without leading empty chunks. */
  function Advance(buffers: seq<seq<byte>>, n: nat): (r: seq<seq<byte>>)
    ensures n <= |Concat(buffers)| ==> Concat(r) == Concat(buffers)[n..]
    ensures r != [] ==> r[0] != []
  {
    if buffers == [] then []
    else if n >= |buffers[0]| then Advance(buffers[1..], n - |buffers[0]|)
    else
      var r := [buffers[0][n..]] + buffers[1..];
      assert r[1..] == buffers[1..];
      r
  }

  lemma {:induction false} AdvanceTwice(buffers: seq<seq<byte>>, m: nat, n: nat)
    ensures Advance(Advance(buffers, m), n) == Advance(buffers, m + n)
  {
    hide Concat;
    if buffers != [] {
      var head, tail := buffers[0], buffers[1..];
      if m >= |head| {
        AdvanceTwice(tail, m - |head|, n);
      } else {
        var r := [head[m..]] + tail;
        assert r[1..] == tail;
        if n < |head| - m {
          assert head[m..][n..] == head[m + n..];
        }
      }
    }
  }

  lemma SubmittedSize(buffers: seq<seq<byte>>)
    ensures |Concat(Submitted(buffers))| <= |Concat(buffers)|
    ensures Concat(Submitted(buffers)) == Concat(buffers)[..|Concat(Submitted(buffers))|]
  {
    var k := |Submitted(buffers)|;
    ConcatAppend(buffers[..k], buffers[k..]);
    assert buffers == buffers[..k] + buffers[k..];
  }

  /** No byte can be submitted although chunks are left: the loops then report WriteZero. */
  predicate Stuck(buffers: seq<seq<byte>>) {
    buffers != [] && AllEmpty(Submitted(buffers))
  }

  /** After one call: the loop is over, or goes on with the rest of the chunks. */
  datatype Turn = Stop(dev: Device, result: IoResult) | More(dev: Device, rest: seq<seq<byte>>, at: nat)

  function OneCall(d: Device, buffers: seq<seq<byte>>, at: nat): (t: Turn)
    requires buffers != []
    ensures t.More? ==> |Concat(t.rest)| + |t.dev.script| < |Concat(buffers)| + |d.script|
  {
    SubmittedSize(buffers);
    var (e, answer) := Positional(d, Concat(Submitted(buffers)), at);
    match answer
    case Interrupt => More(e, buffers, at)
    case Fault => Stop(e, Failed(KernelFault))
    case Accept(n) =>
      if n == 0 then Stop(e, Failed(WriteZero))
      else if at + n > U64_MAX then Stop(e, Failed(OffsetOverflow))
      else More(e, Advance(buffers, n), at + n)
  }

  /**
   The meaning of both loops: submit, resume after a partial write, retry after
   EINTR, stop at a fault or at a call that accepted nothing.
   */
  function Drive(d: Device, buffers: seq<seq<byte>>, at: nat): (r: (Device, IoResult))
    decreases |Concat(buffers)| + |d.script|
  {
    if buffers == [] then (d, Done)
    else
      match OneCall(d, buffers, at)
      case Stop(e, result) => (e, result)
      case More(e, rest, next) => Drive(e, rest, next)
  }

  predicate IsFault(o: Outcome) {
    o.Fault? || o == Accept(0)
  }

  predicate Clean(script: seq<Outcome>) {
    forall i | 0 <= i < |script| :: !IsFault(script[i])
  }

  /**
   The loop left exactly a prefix of the chunks in the file, all of them when it
   reports success; it failed only where the kernel refused, where a call could
   submit nothing, or where the offset would leave 64 bits.
   */
  ghost predicate WrotePrefix(d: Device, e: Device, r: IoResult, buffers: seq<seq<byte>>, at: nat) {
    && LogExtends(d, e)
    && Progress(d, e) <= |Concat(buffers)|
    && Wrote(d, e, at, Concat(buffers)[..Progress(d, e)])
    && match r
       case Done =>
         && Progress(d, e) == |Concat(buffers)| && Clean(Consumed(d, e)) && !Stuck(buffers)
         && (at <= U64_MAX ==> at + |Concat(buffers)| <= U64_MAX)
       case Failed(KernelFault) => !Clean(Consumed(d, e))
       case Failed(WriteZero) => Stuck(buffers) || !Clean(Consumed(d, e))
       case Failed(OffsetOverflow) => at + |Concat(buffers)| > U64_MAX
  }

  lemma {:induction false} DriveWritesPrefix(d: Device, buffers: seq<seq<byte>>, at: nat)
    ensures WrotePrefix(d, Drive(d, buffers, at).0, Drive(d, buffers, at).1, buffers, at)
    decreases |Concat(buffers)| + |d.script|
  {
    hide WrotePrefix, WentOn, Wrote, OneCall;
    if buffers == [] {
      NothingToWrite(d, at);
    } else {
      var t := OneCall(d, buffers, at);
      if t.Stop? {
        LastCall(d, buffers, at);
      } else {
        NextCall(d, buffers, at);
        DriveWritesPrefix(t.dev, t.rest, t.at);
        Resume(d, t, Drive(t.dev, t.rest, t.at).0, Drive(t.dev, t.rest, t.at).1, buffers, at);
      }
    }
  }

  lemma NothingToWrite(d: Device, at: nat)
    ensures WrotePrefix(d, d, Done, [], at)
  {
    WroteNothing(d, at);
    assert d.log[|d.log|..] == [];
  }

  /** What a single positional write of the submitted chunks did to the device. */
  lemma CallWrites(d: Device, buffers: seq<seq<byte>>, at: nat)
    ensures |Concat(Submitted(buffers))| <= |Concat(buffers)|
    ensures var e := Positional(d, Concat(Submitted(buffers)), at).0;
            Clean(Consumed(d, e)) <==> d.script == [] || !IsFault(d.script[0])
    ensures var (e, answer) := Positional(d, Concat(Submitted(buffers)), at);
            Wrote(d, e, at, if answer.Accept? then Concat(buffers)[..answer.n] else [])
  {
    var sub := Concat(Submitted(buffers));
    SubmittedSize(buffers);
    PositionalWrites(d, sub, at);
    var (e, answer) := Positional(d, sub, at);
    ConsumedOne(d, e);
    if answer.Accept? {
      PrefixTake(Concat(buffers), |sub|, answer.n);
    }
  }

  /** A call that ends the loop has written what its answer says. */
  lemma LastCall(d: Device, buffers: seq<seq<byte>>, at: nat)
    requires buffers != [] && OneCall(d, buffers, at).Stop?
    ensures WrotePrefix(d, OneCall(d, buffers, at).dev, OneCall(d, buffers, at).result, buffers, at)
  {
    hide Wrote, Splice, Payload;
    CallWrites(d, buffers, at);
    EmptyConcat(Submitted(buffers));
    var (e, answer) := Positional(d, Concat(Submitted(buffers)), at);
    WroteLength(d, e, at, if answer.Accept? then Concat(buffers)[..answer.n] else []);
    assert Concat(buffers)[..0] == [];
  }

  /** After the call the loop keeps exactly what was not written. */
  ghost predicate WentOn(d: Device, t: Turn, buffers: seq<seq<byte>>, at: nat)
    requires t.More?
  {
    && at <= t.at <= at + |Concat(buffers)|
    && Concat(t.rest) == Concat(buffers)[t.at - at..]
    && Wrote(d, t.dev, at, Concat(buffers)[..t.at - at])
    && Clean(Consumed(d, t.dev))
    && (Stuck(t.rest) <==> Stuck(buffers))
    && (at <= U64_MAX ==> t.at <= U64_MAX)
  }

  lemma NextCall(d: Device, buffers: seq<seq<byte>>, at: nat)
    requires buffers != [] && OneCall(d, buffers, at).More?
    ensures WentOn(d, OneCall(d, buffers, at), buffers, at)
  {
    hide Wrote, Splice, Submitted, Concat, Advance;
    CallWrites(d, buffers, at);
    var all := Concat(buffers);
    var answer := Positional(d, Concat(Submitted(buffers)), at).1;
    if answer.Interrupt? {
      assert all[0..] == all && all[..0] == [];
    } else {
      EmptyConcat(Submitted(buffers));
      NeverStuckAgain(buffers, answer.n);
      assert OneCall(d, buffers, at).at - at == answer.n;
    }
  }

  lemma ConsumedOne(d: Device, e: Device)
    requires |e.script| == if d.script == [] then 0 else |d.script| - 1
    ensures Consumed(d, e) == if d.script == [] then [] else [d.script[0]]
    ensures Clean(Consumed(d, e)) <==> d.script == [] || !IsFault(d.script[0])
  {
    if d.script != [] {
      assert Consumed(d, e) == [d.script[0]];
      assert Consumed(d, e)[0] == d.script[0];
    }
  }

  /** A call that went on, followed by a run that wrote a prefix of the rest. */
  lemma Resume(d: Device, t: Turn, g: Device, r: IoResult, buffers: seq<seq<byte>>, at: nat)
    requires t.More? && WentOn(d, t, buffers, at) && WrotePrefix(t.dev, g, r, t.rest, t.at)
    ensures WrotePrefix(d, g, r, buffers, at)
  {
    hide Wrote, Payload;
    var n, k := t.at - at, Progress(t.dev, g);
    WroteThen(d, t.dev, g, at, Concat(buffers)[..n], Concat(t.rest)[..k]);
    TakeTwice(Concat(buffers), n, k);
    WroteLength(d, t.dev, at, Concat(buffers)[..n]);
    WroteLength(t.dev, g, t.at, Concat(t.rest)[..k]);
    WroteLength(d, g, at, Concat(buffers)[..n + k]);
    CleanAppend(Consumed(d, t.dev), Consumed(t.dev, g));
  }

  lemma CleanAppend(a: seq<Outcome>, b: seq<Outcome>)
    ensures Clean(a + b) <==> Clean(a) && Clean(b)
  {
    if Clean(a + b) {
      assert forall i | 0 <= i < |a| :: a[i] == (a + b)[i];
      assert forall i | 0 <= i < |b| :: b[i] == (a + b)[|a| + i];
    }
  }

  lemma NeverStuckAgain(buffers: seq<seq<byte>>, n: nat)
    ensures !Stuck(Advance(buffers, n))
  {
    var rest := Advance(buffers, n);
    if rest != [] {
      assert Submitted(rest)[0] == rest[0];
    }
  }

  /** With a kernel that never refuses, the loops succeed on every list but the stuck ones. */
  lemma {:induction false} DriveSucceedsExactly(d: Device, buffers: seq<seq<byte>>, at: nat)
    requires Clean(d.script) && at + |Concat(buffers)| <= U64_MAX
    ensures Drive(d, buffers, at).1.Done? <==> !Stuck(buffers)
    decreases |Concat(buffers)| + |d.script|
  {
    if buffers != [] {
      OneCallWhenClean(d, buffers, at);
      var t := OneCall(d, buffers, at);
      if t.More? {
        DriveSucceedsExactly(t.dev, t.rest, t.at);
      }
    }
  }

  lemma OneCallWhenClean(d: Device, buffers: seq<seq<byte>>, at: nat)
    requires Clean(d.script) && at + |Concat(buffers)| <= U64_MAX && buffers != []
    ensures var t := OneCall(d, buffers, at);
            && (t.Stop? ==> t.result.Failed? && Stuck(buffers))
            && (t.More? ==> Clean(t.dev.script) && t.at + |Concat(t.rest)| <= U64_MAX && (Stuck(t.rest) <==> Stuck(buffers)))
  {
    SubmittedSize(buffers);
    EmptyConcat(Submitted(buffers));
    assert d.script != [] ==> !IsFault(d.script[0]);
    var (e, answer) := Positional(d, Concat(Submitted(buffers)), at);
    if answer.Accept? {
      NeverStuckAgain(buffers, answer.n);
    }
  }

  /** The chunks the cursor still has to write. */
  function Rest(chunks: seq<seq<byte>>, index: nat, written: nat): seq<seq<byte>>
    requires index <= |chunks|
    requires index < |chunks| ==> written <= |chunks[index]|
  {
    if index == |chunks| then [] else [chunks[index][written..]] + chunks[index + 1..]
  }

  /** The cursor at the first chunk stands for the whole list, past the last for nothing. */
  lemma RestEnds(chunks: seq<seq<byte>>, written: nat)
    ensures Rest(chunks, 0, 0) == chunks
    ensures Rest(chunks, |chunks|, written) == []
  {
    if chunks != [] {
      assert chunks[0][0..] == chunks[0];
    }
  }

  /** Accepting `n` bytes stays in the current chunk, or leaves it with `n` reduced by its rest. */
  lemma AdvanceRest(chunks: seq<seq<byte>>, index: nat, written: nat, n: nat)
    requires CursorAt(chunks, index, written)
    ensures index == |chunks| ==> Advance(Rest(chunks, index, written), n) == Rest(chunks, index, written)
    ensures index < |chunks| && written + n < |chunks[index]| ==>
              Advance(Rest(chunks, index, written), n) == Rest(chunks, index, written + n)
    ensures index < |chunks| && written + n >= |chunks[index]| ==>
              Advance(Rest(chunks, index, written), n)
              == Advance(Rest(chunks, index + 1, 0), n - (|chunks[index]| - written))
  {
    if index < |chunks| {
      var rest := Rest(chunks, index, written);
      if written + n < |chunks[index]| {
        assert chunks[index][written..][n..] == chunks[index][written + n..];
        assert rest[1..] == chunks[index + 1..];
      } else if index + 1 < |chunks| {
        assert chunks[index + 1][0..] == chunks[index + 1];
        assert rest[1..] == Rest(chunks, index + 1, 0);
      }
    }
  }

  predicate CursorAt(chunks: seq<seq<byte>>, index: nat, written: nat) {
    index <= |chunks| && (index < |chunks| ==> written <= |chunks[index]|)
  }

  /** The rest of the current chunk and the chunks after it, up to one call's worth. */
  method Gather(chunks: seq<seq<byte>>, index: nat, written: nat) returns (buffers: seq<seq<byte>>)
    requires CursorAt(chunks, index, written) && index < |chunks|
    ensures buffers == Submitted(Rest(chunks, index, written))
    ensures Rest(chunks, index, written) != []
  {
    buffers := [chunks[index][written..]];
    for k := index + 1 to Min(|chunks|, index + MAX_WRITE_IOVECS)
      invariant buffers == [chunks[index][written..]] + chunks[index + 1..k]
    {
      buffers := buffers + [chunks[k]];
    }
  }

  /** Moves the cursor past `n` accepted bytes, into the partially written chunk. */
  method MoveCursor(chunks: seq<seq<byte>>, index: nat, written: nat, n: nat)
    returns (index': nat, written': nat)
    requires CursorAt(chunks, index, written)
    ensures CursorAt(chunks, index', written')
    ensures Rest(chunks, index', written') == Advance(Rest(chunks, index, written), n)
  {
    hide Rest, Advance, Concat;
    index', written' := index, written;
    var left: nat := n;
    while index' < |chunks|
      invariant CursorAt(chunks, index', written')
      invariant Advance(Rest(chunks, index', written'), left) == Advance(Rest(chunks, index, written), n)
      decreases |chunks| - index'
    {
      var remaining := |chunks[index']| - written';
      AdvanceRest(chunks, index', written', left);
      if left < remaining {
        written' := written' + left;
        return;
      }
      left := left - remaining;
      written' := 0;
      index' := index' + 1;
    }
    AdvanceRest(chunks, index', written', left);
  }

  /** One turn of either loop, in terms of the kernel's answer. */
  lemma DriveUnrolled(d: Device, buffers: seq<seq<byte>>, at: nat)
    requires buffers != []
    ensures var (e, answer) := Positional(d, Concat(Submitted(buffers)), at);
            match answer
            case Interrupt => Drive(d, buffers, at) == Drive(e, buffers, at)
            case Fault => Drive(d, buffers, at) == (e, Failed(KernelFault))
            case Accept(n) =>
              if n == 0 then Drive(d, buffers, at) == (e, Failed(WriteZero))
              else if at + n > U64_MAX then Drive(d, buffers, at) == (e, Failed(OffsetOverflow))
              else
                && Drive(d, buffers, at) == Drive(e, Advance(buffers, n), at + n)
                && |Concat(Advance(buffers, n))| + n == |Concat(buffers)|
  {
    SubmittedSize(buffers);
  }

  lemma SubmittedFits(d: Device, buffers: seq<seq<byte>>, at: nat)
    ensures var answer := Positional(d, Concat(Submitted(buffers)), at).1;
            answer.Accept? ==> answer.n <= |Concat(buffers)|
  {
    SubmittedSize(buffers);
  }

  /** The cursor form, used by the stream writer (and, on one chunk, by `write_all_at`). */
  method WriteAllCursor(disk: Disk, chunks: seq<seq<byte>>, offset: nat) returns (r: IoResult)
    requires offset + |Concat(chunks)| <= U64_MAX
    modifies disk
    ensures (disk.dev, r) == Drive(old(disk.dev), chunks, offset)
  {
    hide Rest, Advance, Concat, Submitted, Positional, OneCall;
    var index: nat, written: nat, at: nat := 0, 0, offset;
    RestEnds(chunks, 0);
    while index < |chunks|
      invariant CursorAt(chunks, index, written)
      invariant Drive(disk.dev, Rest(chunks, index, written), at) == Drive(old(disk.dev), chunks, offset)
      invariant at + |Concat(Rest(chunks, index, written))| <= U64_MAX
      decreases |Concat(Rest(chunks, index, written))| + |disk.dev.script|
    {
      var buffers := Gather(chunks, index, written);
      ghost var rest := Rest(chunks, index, written);
      DriveUnrolled(disk.dev, rest, at);
      SubmittedFits(disk.dev, rest, at);
      var answer := disk.Pwritev(buffers, at);
      match answer {
        case Interrupt => continue;
        case Fault => return Failed(KernelFault);
        case Accept(n) =>
          if n == 0 {
            return Failed(WriteZero);
          }
          index, written := MoveCursor(chunks, index, written, n);
          at := at + n;
      }
    }
    RestEnds(chunks, written);
    return Done;
  }

  /** One turn of the slice-advancing loop. */
  method SliceCall(disk: Disk, buffers: seq<seq<byte>>, at: nat) returns (t: Turn)
    requires buffers != []
    modifies disk
    ensures t == OneCall(old(disk.dev), buffers, at) && t.dev == disk.dev
  {
    hide Advance, Concat, Positional;
    var submitted := buffers[..Min(|buffers|, MAX_WRITE_IOVECS)];
    var answer := disk.Pwritev(submitted, at);
    match answer {
      case Interrupt => return More(disk.dev, buffers, at);
      case Fault => return Stop(disk.dev, Failed(KernelFault));
      case Accept(n) =>
        if n == 0 {
          return Stop(disk.dev, Failed(WriteZero));
        }
        if at + n > U64_MAX {
          return Stop(disk.dev, Failed(OffsetOverflow));
        }
        return More(disk.dev, Advance(buffers, n), at + n);
    }
  }

  /** The slice-advancing form, used by the URMA writer. */
  method WriteAllSlices(disk: Disk, chunks: seq<seq<byte>>, offset: nat) returns (r: IoResult)
    modifies disk
    ensures (disk.dev, r) == Drive(old(disk.dev), chunks, offset)
  {
    hide OneCall, Concat;
    var buffers, at: nat := chunks, offset;
    while buffers != []
      invariant Drive(disk.dev, buffers, at) == Drive(old(disk.dev), chunks, offset)
      decreases |Concat(buffers)| + |disk.dev.script|
    {
      var t := SliceCall(disk, buffers, at);
      match t {
        case Stop(_, result) => return result;
        case More(_, rest, next) => buffers, at := rest, next;
      }
    }
    return Done;
  }
}
