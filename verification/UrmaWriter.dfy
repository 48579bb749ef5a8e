/**
 The URMA piece writer: every registered receive window is shared by a digest
 worker and a write worker and recycled once both have joined.
 */
module UrmaWriter {
  import opened Bytes
  import opened PieceFile
  import opened VectoredWrite
  import opened Crc32
  import opened PieceWriters

  /** What the window reader yields next; the end of the list is the validated end of the stream. */
  datatype Arrival =
    | Window(parts: seq<seq<byte>>, digestPanics: bool, writePanics: bool, recycleFails: bool)
    | StreamError
    | Timeout

  /** The bytes of the windows before the stream ends or fails. */
  function Delivered(arrivals: seq<Arrival>): seq<byte> {
    if arrivals == [] || !arrivals[0].Window? then []
    else Concat(arrivals[0].parts) + Delivered(arrivals[1..])
  }

  /** A window that neither the workers nor the recycler nor an empty submission can spoil. */
  predicate Benign(a: Arrival) {
    a.Window? && !a.digestPanics && !a.writePanics && !a.recycleFails && !Stuck(a.parts)
  }

  predicate AllBenign(arrivals: seq<Arrival>) {
    forall i | 0 <= i < |arrivals| :: Benign(arrivals[i])
  }

  datatype Event = Shared(window: nat) | Digested(window: nat) | Stored(window: nat) | Recycled(window: nat)

  /** A window's life: shared, both workers done in either order, recycled. */
  predicate Cycle(t: seq<Event>, window: nat) {
    || t == [Shared(window), Digested(window), Stored(window), Recycled(window)]
    || t == [Shared(window), Stored(window), Digested(window), Recycled(window)]
  }

  /** Every shared window went through exactly one full cycle, one window after the other. */
  predicate Conserved(trace: seq<Event>, windows: nat) {
    if windows == 0 then trace == []
    else
      && |trace| == 4 * windows
      && Cycle(trace[4 * (windows - 1)..], windows - 1)
      && Conserved(trace[..4 * (windows - 1)], windows - 1)
  }

  /** The result of the write worker: its loop's result, or a panic part way through. */
  datatype Worker = Returned(result: IoResult) | Panicked

  /** A worker that panicked, and one that returned, have both written a prefix of the window. */
  ghost predicate WorkerWrote(d: Device, e: Device, w: Worker, parts: seq<seq<byte>>, at: nat) {
    match w
    case Returned(result) => WrotePrefix(d, e, result, parts, at)
    case Panicked => LogExtends(d, e) && Progress(d, e) <= |Concat(parts)| && Wrote(d, e, at, Concat(parts)[..Progress(d, e)])
  }

  /** The shared ownership of one window. */
  class Lease {
    var owners: nat
    var live: bool

    constructor ()
      ensures owners == 1 && live
    {
      owners, live := 1, true;
    }

    method Clone()
      modifies this
      ensures owners == old(owners) + 1 && live == old(live)
    {
      owners := owners + 1;
    }

    method Release()
      requires owners > 0
      modifies this
      ensures owners == old(owners) - 1 && live == old(live)
    {
      owners := owners - 1;
    }

    /** Takes the window back from a unique owner; it can be recycled only once. */
    method Recycle()
      requires owners == 1 && live
      modifies this
      ensures owners == 0 && !live
    {
      owners, live := 0, false;
    }
  }

  /** One turn of the write worker extends what it had written. */
  lemma WentOnThen(d: Device, t: Turn, u: Turn, parts: seq<seq<byte>>, at: nat)
    requires t.More? && u.More? && WentOn(d, t, parts, at) && WentOn(t.dev, u, t.rest, t.at)
    ensures WentOn(d, u, parts, at)
  {
    hide Wrote, Concat, Stuck;
    var n, k := t.at - at, u.at - t.at;
    WroteThen(d, t.dev, u.dev, at, Concat(parts)[..n], Concat(t.rest)[..k]);
    TakeTwice(Concat(parts), n, k);
    WroteLength(d, u.dev, at, Concat(parts)[..n + k]);
    CleanAppend(Consumed(d, t.dev), Consumed(t.dev, u.dev));
  }

  lemma WorkerStarts(d: Device, parts: seq<seq<byte>>, at: nat)
    ensures WentOn(d, More(d, parts, at), parts, at)
    ensures WrotePrefix(d, d, Done, [], at)
  {
    WroteNothing(d, at);
    assert Concat(parts)[..0] == [] && Concat(parts)[0..] == Concat(parts);
    assert d.log[|d.log|..] == [];
  }

  lemma PanicKeepsPrefix(d: Device, t: Turn, parts: seq<seq<byte>>, at: nat)
    requires t.More? && WentOn(d, t, parts, at)
    ensures WorkerWrote(d, t.dev, Panicked, parts, at)
  {
    WroteLength(d, t.dev, at, Concat(parts)[..t.at - at]);
  }

  /** One part of the window reaches the digest. */
  lemma DigestPart(hasher: bv32, parts: seq<seq<byte>>, k: nat)
    requires k < |parts|
    ensures Update(Update(hasher, Concat(parts[..k])), parts[k]) == Update(hasher, Concat(parts[..k + 1]))
  {
    ConcatSnoc(parts[..k], parts[k]);
    assert parts[..k + 1] == parts[..k] + [parts[k]];
    UpdateAppend(hasher, Concat(parts[..k]), parts[k]);
  }

  lemma DigestEnds(hasher: bv32, parts: seq<seq<byte>>)
    ensures Update(hasher, Concat(parts[..0])) == hasher
    ensures parts[..|parts|] == parts
  {
    assert Concat(parts[..0]) == [];
  }

  /** One turn of the write worker: it goes on, returns, or panics. */
  method WriteTurn(disk: Disk, buffers: seq<seq<byte>>, at: nat, panics: bool,
                   ghost d: Device, ghost parts: seq<seq<byte>>, ghost position: nat)
    returns (over: bool, result: Worker, rest: seq<seq<byte>>, next: nat)
    requires WentOn(d, More(disk.dev, buffers, at), parts, position)
    modifies disk
    ensures over ==> WorkerWrote(d, disk.dev, result, parts, position) && (result.Panicked? <==> panics)
    ensures !over ==> WentOn(d, More(disk.dev, rest, next), parts, position)
    ensures !over ==> |Concat(rest)| + |disk.dev.script| < |Concat(buffers)| + |old(disk.dev).script|
  {
    hide WentOn, WrotePrefix, Concat, OneCall;
    ghost var before := More(disk.dev, buffers, at);
    rest, next := buffers, at;
    var now: bool := *;
    if panics && (buffers == [] || now) {
      PanicKeepsPrefix(d, before, parts, position);
      return true, Panicked, rest, next;
    }
    if buffers == [] {
      WorkerStarts(disk.dev, [], at);
      Resume(d, before, disk.dev, Done, parts, position);
      return true, Returned(Done), rest, next;
    }
    var t := SliceCall(disk, buffers, at);
    match t {
      case More(_, left, further) =>
        NextCall(before.dev, buffers, at);
        WentOnThen(d, before, t, parts, position);
        return false, Panicked, left, further;
      case Stop(_, outcome) =>
        LastCall(before.dev, buffers, at);
        Resume(d, before, t.dev, outcome, parts, position);
        ReturnedIsPrefix(d, t.dev, outcome, parts, position);
        return true, if panics then Panicked else Returned(outcome), rest, next;
    }
  }

  lemma ReturnedIsPrefix(d: Device, e: Device, result: IoResult, parts: seq<seq<byte>>, at: nat)
    requires WrotePrefix(d, e, result, parts, at)
    ensures WorkerWrote(d, e, Panicked, parts, at)
  {
  }

  /**
   The two workers of one window, interleaved call by call and part by part, up
   to the point where both have joined.
   */
  method RunWorkers(disk: Disk, lease: Lease, w: Arrival, position: nat, hasher: bv32, id: nat)
    returns (digest: bv32, write: Worker, events: seq<Event>)
    requires w.Window? && lease.owners == 3 && lease.live
    modifies disk, lease
    ensures lease.owners == 1 && lease.live
    ensures !w.digestPanics ==> digest == Update(hasher, Concat(w.parts))
    ensures WorkerWrote(old(disk.dev), disk.dev, write, w.parts, position)
    ensures write.Panicked? <==> w.writePanics
    ensures events == [Digested(id), Stored(id)] || events == [Stored(id), Digested(id)]
  {
    hide WentOn, WorkerWrote, Concat, Update;
    digest, events, write := hasher, [], Panicked;
    var hashed, digesting, writing := 0, true, true;
    var buffers, at: nat := w.parts, position;
    DigestEnds(hasher, w.parts);
    WorkerStarts(disk.dev, w.parts, position);
    while digesting || writing
      invariant hashed <= |w.parts| && (!digesting && !w.digestPanics ==> hashed == |w.parts|)
      invariant lease.live && lease.owners == 1 + (if digesting then 1 else 0) + (if writing then 1 else 0)
      invariant digest == Update(hasher, Concat(w.parts[..hashed]))
      invariant writing ==> WentOn(old(disk.dev), More(disk.dev, buffers, at), w.parts, position)
      invariant !writing ==> WorkerWrote(old(disk.dev), disk.dev, write, w.parts, position) && (write.Panicked? <==> w.writePanics)
      invariant events == (if digesting && writing then [] else if digesting then [Stored(id)]
                           else if writing then [Digested(id)]
                           else if |events| == 2 && events[0] == Stored(id) then [Stored(id), Digested(id)]
                           else [Digested(id), Stored(id)])
      decreases digesting, writing, |w.parts| - hashed + |Concat(buffers)| + |disk.dev.script|
    {
      var digestFirst: bool, panicNow: bool := *, *;
      if digesting && (!writing || digestFirst) {
        if hashed < |w.parts| && !(w.digestPanics && panicNow) {
          DigestPart(hasher, w.parts, hashed);
          digest := Update(digest, w.parts[hashed]);
          hashed := hashed + 1;
        } else {
          digesting := false;
          lease.Release();
          events := events + [Digested(id)];
        }
      } else {
        var over, result, rest, next :=
          WriteTurn(disk, buffers, at, w.writePanics, old(disk.dev), w.parts, position);
        if over {
          writing, write := false, result;
          lease.Release();
          events := events + [Stored(id)];
        } else {
          buffers, at := rest, next;
        }
      }
    }
  }

  datatype Stored = Kept(hasher: bv32) | Lost(error: WriteError)

  /** What storing one window does: all of it on success, a prefix on failure, and why it failed. */
  ghost predicate WindowStored(d: Device, e: Device, w: Arrival, position: nat, hasher: bv32, r: Stored)
    requires w.Window?
  {
    var data := Concat(w.parts);
    && LogExtends(d, e) && Progress(d, e) <= |data| && |e.script| <= |d.script|
    && Wrote(d, e, position, data[..Progress(d, e)])
    && match r
       case Kept(next) =>
         && Progress(d, e) == |data| && next == Update(hasher, data)
         && Benign(w) && Clean(Consumed(d, e)) && position + |data| <= U64_MAX
       case Lost(error) =>
         && !error.LengthMismatch? && error != LeaseRetained && error != WindowTooLong
         && (!Benign(w) || !Clean(Consumed(d, e)) || position + |data| > U64_MAX)
  }

  /** The worker results decide the fate of the window, the digest's failure first. */
  lemma FateOfWindow(d: Device, e: Device, w: Arrival, position: nat, hasher: bv32, digest: bv32, write: Worker)
    requires w.Window? && position <= U64_MAX
    requires WorkerWrote(d, e, write, w.parts, position) && (write.Panicked? <==> w.writePanics)
    requires !w.digestPanics ==> digest == Update(hasher, Concat(w.parts))
    ensures w.digestPanics ==> WindowStored(d, e, w, position, hasher, Lost(DigestPanicked))
    ensures w.writePanics ==> WindowStored(d, e, w, position, hasher, Lost(WritePanicked))
    ensures write.Returned? && write.result.Failed? ==>
              WindowStored(d, e, w, position, hasher, Lost(WriteFailed(write.result.error)))
    ensures w.recycleFails ==> WindowStored(d, e, w, position, hasher, Lost(RecycleFailed))
    ensures write.Returned? && write.result.Done? && !w.digestPanics && !w.recycleFails ==>
              WindowStored(d, e, w, position, hasher, Kept(digest))
  {
    hide Wrote, Concat, Update, Stuck, Clean;
    WroteLength(d, e, position, Concat(w.parts)[..Progress(d, e)]);
  }

  /** Shares one window with both workers, joins them, recycles it and only then reports. */
  method StoreWindow(disk: Disk, w: Arrival, position: nat, hasher: bv32, id: nat)
    returns (r: Stored, events: seq<Event>)
    requires w.Window? && position <= U64_MAX
    modifies disk
    ensures Cycle(events, id)
    ensures WindowStored(old(disk.dev), disk.dev, w, position, hasher, r)
    ensures w.digestPanics ==> r == Lost(DigestPanicked)
    ensures !w.digestPanics && w.writePanics ==> r == Lost(WritePanicked)
    ensures !w.digestPanics && !w.writePanics ==> r.Kept? || r.error.WriteFailed? || (w.recycleFails && r == Lost(RecycleFailed))
  {
    hide WorkerWrote, WindowStored, Update, Concat;
    var lease := new Lease();
    lease.Clone();
    lease.Clone();
    var digest, write, joined := RunWorkers(disk, lease, w, position, hasher, id);
    if lease.owners != 1 {
      assert false;  // the unique-owner unwrap cannot fail
    }
    lease.Recycle();
    events := [Shared(id)] + joined + [Recycled(id)];
    FateOfWindow(old(disk.dev), disk.dev, w, position, hasher, digest, write);
    if w.digestPanics {
      return Lost(DigestPanicked), events;
    }
    if write.Panicked? {
      return Lost(WritePanicked), events;
    }
    if write.result.Failed? {
      return Lost(WriteFailed(write.result.error)), events;
    }
    if w.recycleFails {
      return Lost(RecycleFailed), events;
    }
    return Kept(digest), events;
  }

  /** The first `count` windows are stored: the piece so far. */
  ghost predicate StoredSoFar(d: Device, e: Device, offset: nat, arrivals: seq<Arrival>, count: nat,
                              length: nat, hasher: bv32) {
    var input := Delivered(arrivals);
    && count <= |arrivals| && AllBenign(arrivals[..count])
    && length <= |input| && Delivered(arrivals[count..]) == input[length..]
    && length == |Delivered(arrivals[..count])|
    && Wrote(d, e, offset, input[..length]) && Clean(Consumed(d, e))
    && hasher == Update(INITIAL, input[..length])
    && offset + length <= U64_MAX
  }

  /** The contract of the URMA form; unlike the other two it also rejects a longer input. */
  ghost predicate UrmaHonoured(d: Device, e: Device, offset: nat, expected: nat, arrivals: seq<Arrival>, r: Response) {
    var input := Delivered(arrivals);
    && PieceWritten(d, e, offset, expected, input, r)
    && |e.script| <= |d.script|
    && (r.Written? <==>
          AllBenign(arrivals) && |input| == expected && Clean(Consumed(d, e)) && offset + expected <= U64_MAX)
    && r != Rejected(LeaseRetained)
    && (r == Rejected(WindowTooLong) ==> |input| > expected)
    && (r.Rejected? && r.error.LengthMismatch? ==>
          r.error == LengthMismatch(expected, |input|) && Progress(d, e) == |input| && AllBenign(arrivals))
  }

  /** All bytes written came from the first `shared` windows, and all but the last of these are in the file whole. */
  ghost predicate Covers(d: Device, e: Device, arrivals: seq<Arrival>, shared: nat) {
    && LogExtends(d, e) && shared <= |arrivals|
    && Progress(d, e) <= |Delivered(arrivals[..shared])|
    && (shared > 0 ==> |Delivered(arrivals[..shared - 1])| <= Progress(d, e))
  }

  lemma {:induction false} DeliveredSnoc(arrivals: seq<Arrival>, w: Arrival)
    requires AllBenign(arrivals) && w.Window?
    ensures Delivered(arrivals + [w]) == Delivered(arrivals) + Concat(w.parts)
  {
    if arrivals == [] {
      assert arrivals + [w] == [w];
      assert Delivered([w]) == Concat(w.parts) + Delivered([]);
    } else {
      assert AllBenign(arrivals[1..]);
      DeliveredSnoc(arrivals[1..], w);
      assert (arrivals + [w])[1..] == arrivals[1..] + [w];
    }
  }

  /** Between two windows everything shared is in the file. */
  lemma CoversHere(d: Device, e: Device, offset: nat, arrivals: seq<Arrival>, count: nat, length: nat, hasher: bv32)
    requires StoredSoFar(d, e, offset, arrivals, count, length, hasher)
    ensures Covers(d, e, arrivals, count)
  {
    hide Wrote, Delivered, Clean, Update, Concat;
    WroteLength(d, e, offset, Delivered(arrivals)[..length]);
    if count > 0 {
      var before := arrivals[..count - 1];
      assert arrivals[..count] == before + [arrivals[count - 1]];
      assert Benign(arrivals[..count][count - 1]);
      DeliveredSnoc(before, arrivals[count - 1]);
    }
  }

  lemma NothingStored(d: Device, offset: nat, arrivals: seq<Arrival>)
    requires offset <= U64_MAX
    ensures StoredSoFar(d, d, offset, arrivals, 0, 0, INITIAL)
  {
    WroteNothing(d, offset);
    assert arrivals[0..] == arrivals && Delivered(arrivals)[..0] == [];
    assert Delivered(arrivals)[0..] == Delivered(arrivals);
    assert arrivals[..0] == [];
  }

  /** A stream that stops short, ends, or delivers too much is rejected with a prefix in the file. */
  lemma RejectHere(d: Device, e: Device, offset: nat, expected: nat, arrivals: seq<Arrival>, count: nat,
                   length: nat, hasher: bv32, error: WriteError)
    requires StoredSoFar(d, e, offset, arrivals, count, length, hasher) && length <= expected
    requires error != LeaseRetained
    requires || !AllBenign(arrivals) || |Delivered(arrivals)| != expected || offset + expected > U64_MAX
    requires error == WindowTooLong ==> |Delivered(arrivals)| > expected
    requires error.LengthMismatch? ==> error == LengthMismatch(expected, |Delivered(arrivals)|) && count == |arrivals|
    ensures UrmaHonoured(d, e, offset, expected, arrivals, Rejected(error))
  {
    hide Wrote, Delivered, AllBenign, Clean, Update;
    WroteLength(d, e, offset, Delivered(arrivals)[..length]);
    if count == |arrivals| {
      AllDelivered(d, e, offset, arrivals, length, hasher);
      assert arrivals[..|arrivals|] == arrivals;
    }
  }

  /** After the last window the length decides. */
  lemma FinishHere(d: Device, e: Device, offset: nat, expected: nat, arrivals: seq<Arrival>, length: nat, hasher: bv32)
    requires StoredSoFar(d, e, offset, arrivals, |arrivals|, length, hasher) && length == expected
    ensures UrmaHonoured(d, e, offset, expected, arrivals, Written(length, Finish(hasher)))
  {
    hide Wrote, Clean, Update;
    EndOfStream(arrivals, length);
    assert arrivals[..|arrivals|] == arrivals;
    WroteLength(d, e, offset, Delivered(arrivals)[..length]);
  }

  lemma EndOfStream(arrivals: seq<Arrival>, length: nat)
    requires length <= |Delivered(arrivals)| && Delivered(arrivals[|arrivals|..]) == Delivered(arrivals)[length..]
    ensures length == |Delivered(arrivals)|
  {
    assert arrivals[|arrivals|..] == [];
    assert |Delivered(arrivals)[length..]| == 0;
  }

  /** The next window of the stream: its bytes follow those stored so far. */
  lemma NextWindow(arrivals: seq<Arrival>, count: nat, length: nat)
    requires count < |arrivals| && arrivals[count].Window?
    requires length <= |Delivered(arrivals)| && Delivered(arrivals[count..]) == Delivered(arrivals)[length..]
    ensures var data := Concat(arrivals[count].parts);
            && length + |data| <= |Delivered(arrivals)|
            && data == Delivered(arrivals)[length..length + |data|]
            && Delivered(arrivals[count + 1..]) == Delivered(arrivals)[length + |data|..]
  {
    var input, data := Delivered(arrivals), Concat(arrivals[count].parts);
    assert arrivals[count..][1..] == arrivals[count + 1..];
    assert input[length..] == data + Delivered(arrivals[count + 1..]);
    assert input[length..][..|data|] == data;
    assert input[length..][|data|..] == input[length + |data|..];
  }

  lemma StoreNext(d: Device, e: Device, g: Device, offset: nat, expected: nat, arrivals: seq<Arrival>,
                  count: nat, length: nat, hasher: bv32, r: Stored)
    requires StoredSoFar(d, e, offset, arrivals, count, length, hasher) && length <= expected
    requires count < |arrivals| && arrivals[count].Window?
    requires length + |Concat(arrivals[count].parts)| <= expected
    requires WindowStored(e, g, arrivals[count], offset + length, hasher, r)
    ensures r.Kept? ==>
              StoredSoFar(d, g, offset, arrivals, count + 1, length + |Concat(arrivals[count].parts)|, r.hasher)
    ensures r.Lost? ==> UrmaHonoured(d, g, offset, expected, arrivals, Rejected(r.error))
    ensures Covers(d, g, arrivals, count + 1)
  {
    hide Wrote, Delivered, Clean, Update, Concat;
    var input, data, n := Delivered(arrivals), Concat(arrivals[count].parts), Progress(e, g);
    NextWindow(arrivals, count, length);
    SliceTake(input, length, length + |data|, n);
    TakeTwice(input, length, n);
    WroteThen(d, e, g, offset, input[..length], data[..n]);
    WroteLength(d, g, offset, input[..length + n]);
    CleanAppend(Consumed(d, e), Consumed(e, g));
    DeliveredSnoc(arrivals[..count], arrivals[count]);
    assert arrivals[..count + 1] == arrivals[..count] + [arrivals[count]];
    if r.Kept? {
      HashNext(input, length, |data|);
    }
  }

  /** Writes exactly `expected` bytes of the window stream at `offset`. */
  method WriteUrmaStream(disk: Disk, offset: nat, expected: nat, arrivals: seq<Arrival>)
    returns (r: Response, trace: seq<Event>, shared: nat)
    requires offset <= U64_MAX
    modifies disk
    ensures UrmaHonoured(old(disk.dev), disk.dev, offset, expected, arrivals, r)
    ensures Conserved(trace, shared) && Covers(old(disk.dev), disk.dev, arrivals, shared)
    ensures r.Written? ==> shared == |arrivals|
  {
    hide StoredSoFar, UrmaHonoured, WindowStored, Covers, Concat, Delivered, Update;
    ghost var d := disk.dev;
    var hasher, length: nat := INITIAL, 0;
    trace, shared := [], 0;
    NothingStored(d, offset, arrivals);
    while shared < |arrivals|
      invariant shared <= |arrivals| && length <= expected
      invariant StoredSoFar(d, disk.dev, offset, arrivals, shared, length, hasher)
      invariant Conserved(trace, shared)
    {
      var w := arrivals[shared];
      CoversHere(d, disk.dev, offset, arrivals, shared, length, hasher);
      if !w.Window? {
        var error := if w.Timeout? then WindowTimeout else SourceFailed;
        RejectHere(d, disk.dev, offset, expected, arrivals, shared, length, hasher, error);
        return Rejected(error), trace, shared;
      }
      var size := |Concat(w.parts)|;
      if size > expected - length {
        TooMuch(d, disk.dev, offset, arrivals, shared, length, hasher);
        RejectHere(d, disk.dev, offset, expected, arrivals, shared, length, hasher, WindowTooLong);
        return Rejected(WindowTooLong), trace, shared;
      }
      var position := offset + length;
      if position > U64_MAX {
        RejectHere(d, disk.dev, offset, expected, arrivals, shared, length, hasher, PositionOverflow);
        return Rejected(PositionOverflow), trace, shared;
      }
      ghost var before := disk.dev;
      var stored, events := StoreWindow(disk, w, position, hasher, shared);
      StoreNext(d, before, disk.dev, offset, expected, arrivals, shared, length, hasher, stored);
      OneMoreCycle(trace, events, shared);
      trace, shared := trace + events, shared + 1;
      if stored.Lost? {
        return Rejected(stored.error), trace, shared;
      }
      hasher, length := stored.hasher, length + size;
    }
    CoversHere(d, disk.dev, offset, arrivals, shared, length, hasher);
    if length != expected {
      AllDelivered(d, disk.dev, offset, arrivals, length, hasher);
      RejectHere(d, disk.dev, offset, expected, arrivals, shared, length, hasher, LengthMismatch(expected, length));
      return Rejected(LengthMismatch(expected, length)), trace, shared;
    }
    FinishHere(d, disk.dev, offset, expected, arrivals, length, hasher);
    return Written(length, Finish(hasher)), trace, shared;
  }

  lemma TooMuch(d: Device, e: Device, offset: nat, arrivals: seq<Arrival>, count: nat, length: nat, hasher: bv32)
    requires StoredSoFar(d, e, offset, arrivals, count, length, hasher)
    requires count < |arrivals| && arrivals[count].Window?
    ensures length + |Concat(arrivals[count].parts)| <= |Delivered(arrivals)|
  {
    NextWindow(arrivals, count, length);
  }

  lemma AllDelivered(d: Device, e: Device, offset: nat, arrivals: seq<Arrival>, length: nat, hasher: bv32)
    requires StoredSoFar(d, e, offset, arrivals, |arrivals|, length, hasher)
    ensures length == |Delivered(arrivals)|
  {
    EndOfStream(arrivals, length);
  }

  lemma OneMoreCycle(trace: seq<Event>, events: seq<Event>, windows: nat)
    requires Conserved(trace, windows) && Cycle(events, windows)
    ensures Conserved(trace + events, windows + 1)
  {
    assert (trace + events)[4 * windows..] == events;
    assert (trace + events)[..4 * windows] == trace;
  }
}
