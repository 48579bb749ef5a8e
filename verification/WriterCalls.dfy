/**
 Calls of the three piece writers, each on its own descriptor: what every call
 keeps, up to any moment of a write it left running.
 */
module WriterCalls {
  import opened Bytes
  import opened PieceFile
  import opened PieceRanges
  import opened PieceWriters
  import opened UrmaWriter
  import opened Attempts

  /** One call: its descriptor before it, when it returned, and at a later moment. */
  datatype WriterCall = WriterCall(piece: nat, before: Device, after: Device, later: Device,
                                   input: seq<byte>, response: Response)

  /** The contract of the writers, with what a write left running has added since. */
  ghost predicate Kept(c: WriterCall, pieces: seq<Piece>) {
    && c.piece < |pieces|
    && var p := pieces[c.piece];
    && PieceWritten(c.before, c.after, p.offset, p.length, c.input, c.response)
    && LogExtends(c.after, c.later)
    && PieceWritten(c.before, c.later, p.offset, p.length, c.input, Rejected(Cancelled))
    && (c.response.Written? ==> c.later == c.after)
  }

  /** The bytes of a successful call are in particular a prefix of its input. */
  lemma PrefixForm(d: Device, e: Device, offset: nat, expected: nat, input: seq<byte>, r: Response)
    requires PieceWritten(d, e, offset, expected, input, r)
    ensures PieceWritten(d, e, offset, expected, input, Rejected(Cancelled))
  {
    if r.Written? {
      WroteLength(d, e, offset, input[..expected]);
    }
  }

  /** `write_range` keeps the contract, and so does whatever it left running. */
  method CallWriteRange(disk: Disk, pieces: seq<Piece>, i: nat, bufferSize: nat, source: Source, pool: BufferPool, timer: Timer)
    returns (r: Response, ghost c: WriterCall)
    requires i < |pieces| && pieces[i].offset + pieces[i].length <= U64_MAX && !timer.fired
    modifies disk, source, pool, timer
    ensures Kept(c, pieces) && c.piece == i && c.response == r && c.input == old(source.rest)
    ensures c.before == old(disk.dev) && c.later == disk.dev
  {
    hide PieceWritten, LeftRunning;
    ghost var d, input := disk.dev, source.rest;
    var p := pieces[i];
    var detached;
    r, detached := WriteRange(disk, p.offset, p.length, bufferSize, source, pool, timer);
    ghost var after := disk.dev;
    PrefixForm(d, after, p.offset, p.length, input, r);
    if detached != null {
      RunDetached(disk, detached, d, p.offset, p.length, input);
    }
    c := WriterCall(i, d, after, disk.dev, input, r);
  }

  /** The same for `write_range_from_stream`. */
  method CallWriteRangeFromStream(disk: Disk, pieces: seq<Piece>, i: nat, bufferSize: nat, stream: ChunkStream, timer: Timer)
    returns (r: Response, ghost c: WriterCall)
    requires i < |pieces| && pieces[i].offset + pieces[i].length <= U64_MAX && !timer.fired
    modifies disk, stream, timer
    ensures Kept(c, pieces) && c.piece == i && c.response == r && c.input == Available(old(stream.items))
    ensures c.before == old(disk.dev) && c.later == disk.dev
  {
    hide PieceWritten, LeftRunning, Available;
    ghost var d, input := disk.dev, Available(stream.items);
    var p := pieces[i];
    var detached;
    r, detached := WriteRangeFromStream(disk, p.offset, p.length, bufferSize, stream, timer);
    ghost var after := disk.dev;
    PrefixForm(d, after, p.offset, p.length, input, r);
    if detached != null {
      RunDetached(disk, detached, d, p.offset, p.length, input);
    }
    c := WriterCall(i, d, after, disk.dev, input, r);
  }

  /** And for the window writer, which leaves nothing running. */
  method CallWriteUrmaStream(disk: Disk, pieces: seq<Piece>, i: nat, arrivals: seq<Arrival>)
    returns (r: Response, ghost c: WriterCall)
    requires i < |pieces| && pieces[i].offset <= U64_MAX
    modifies disk
    ensures Kept(c, pieces) && c.piece == i && c.response == r && c.input == Delivered(arrivals)
    ensures c.before == old(disk.dev) && c.after == c.later == disk.dev
  {
    hide PieceWritten, Delivered, Conserved, Covers;
    ghost var d, input := disk.dev, Delivered(arrivals);
    var p := pieces[i];
    var trace, shared;
    r, trace, shared := WriteUrmaStream(disk, p.offset, p.length, arrivals);
    PrefixForm(d, disk.dev, p.offset, p.length, input, r);
    c := WriterCall(i, d, disk.dev, disk.dev, input, r);
  }

  // ---- a call seen from the middle ------------------------------------------------

  /** A point of the call's log, before, at or after its return. */
  ghost predicate Midway(c: WriterCall, m: Device) {
    LogExtends(c.before, m) && LogExtends(m, c.later)
  }

  /** Cut anywhere, the rest of a call's log places the input bytes that follow, where they belong. */
  lemma CutAnywhere(c: WriterCall, pieces: seq<Piece>, m: Device)
    requires Kept(c, pieces) && Midway(c, m)
    ensures LogExtends(c.before, c.later)
    ensures var p, n, e := pieces[c.piece], Progress(c.before, m), Progress(c.before, c.later);
            && n <= e <= Min(p.length, |c.input|)
            && Consecutive(c.later.log[|m.log|..], p.offset + n) && Payload(c.later.log[|m.log|..]) == c.input[n..e]
  {
    var x, y := m.log[|c.before.log|..], c.later.log[|m.log|..];
    assert c.later.log[|c.before.log|..] == x + y;
    ConsecutiveRest(x, y, pieces[c.piece].offset);
  }

  /** The input bytes the call had still to place at `m` are those of the content. */
  ghost predicate Agrees(c: WriterCall, m: Device, pieces: seq<Piece>, content: seq<byte>)
    requires Kept(c, pieces) && Midway(c, m)
  {
    CutAnywhere(c, pieces, m);
    var p, n, e := pieces[c.piece], Progress(c.before, m), Progress(c.before, c.later);
    p.offset + e <= |content| && c.input[n..e] == content[p.offset + n..p.offset + e]
  }

  lemma RunWithin(log: seq<Pwrite>, at: nat, from: nat, p: Piece, k: nat)
    requires Consecutive(log, at) && at == p.offset + from && from + |Payload(log)| <= p.length && k < |log|
    ensures Within(log[k], p)
  {
    ConsecutiveAt(log, at, k);
  }

  /** No write of a call, nor of what it left running, leaves the piece. */
  lemma CallConfined(c: WriterCall, pieces: seq<Piece>, m: Device)
    requires Kept(c, pieces) && Midway(c, m)
    ensures Confined(c.later.log[|m.log|..], pieces[c.piece])
  {
    hide Payload, Consecutive, PieceWritten;
    CutAnywhere(c, pieces, m);
    var log, p, n := c.later.log[|m.log|..], pieces[c.piece], Progress(c.before, m);
    forall k | 0 <= k < |log| ensures Within(log[k], p) {
      RunWithin(log, p.offset + n, n, p, k);
    }
  }

  /** A run of writes repeats the content, write by write, exactly if its bytes as a whole do. */
  lemma {:induction false} RunRepeats(log: seq<Pwrite>, at: nat, content: seq<byte>)
    requires Consecutive(log, at) && at + |Payload(log)| <= |content|
    ensures AllRepeat(log, content) <==> Payload(log) == content[at..at + |Payload(log)|]
  {
    if log != [] {
      var init, last := log[..|log| - 1], log[|log| - 1];
      var n := |Payload(init)|;
      RunRepeats(init, at, content);
      JoinSlices(content, at, at + n, at + n + |last.data|);
      var whole := content[at..at + |Payload(log)|];
      assert Payload(log)[..n] == Payload(init) && Payload(log)[n..] == last.data;
      assert whole[..n] == content[at..at + n] && whole[n..] == content[at + n..at + n + |last.data|];
      assert forall k | 0 <= k < |init| :: init[k] == log[k];
    }
  }

  /** The bytes still to come agree with the content exactly if each write still to come repeats it. */
  lemma AgreesExactly(c: WriterCall, m: Device, pieces: seq<Piece>, content: seq<byte>)
    requires Kept(c, pieces) && Midway(c, m) && pieces[c.piece].offset + pieces[c.piece].length <= |content|
    ensures Agrees(c, m, pieces, content) <==> AllRepeat(c.later.log[|m.log|..], content)
  {
    hide Payload, Consecutive, Repeats, PieceWritten;
    CutAnywhere(c, pieces, m);
    RunRepeats(c.later.log[|m.log|..], pieces[c.piece].offset + Progress(c.before, m), content);
  }

  /** A successful call on the right bytes, about to begin, has its complete piece before it. */
  lemma CallComplete(c: WriterCall, pieces: seq<Piece>, content: seq<byte>)
    requires Kept(c, pieces) && c.response.Written?
    requires var p := pieces[c.piece];
             p.offset + p.length <= |content| && c.input[..p.length] == Slice(content, p)
    ensures LogExtends(c.before, c.later) && Complete(c.later.log[|c.before.log|..], pieces[c.piece], content)
  {
  }
}
