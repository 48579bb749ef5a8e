/**
 The round trip: pieces written by the three writers, through their own
 descriptors of one shared file, and read back while the file is written on.
 */
module RoundTrip {
  import opened Bytes
  import opened PieceFile
  import opened SharedFile
  import opened Attempts
  import opened WriterCalls
  import opened RangeReads
  import opened PieceRanges
  import opened Wrappers

  // ---- reading back --------------------------------------------------------------

  /** `read_piece`: the reader over the part of the piece the request wants. */
  function ReadPiece(p: Piece, request: Option<Span>, bufferSize: nat): Option<Reader> {
    match CalculatePieceRange(p.offset, p.length, request)
    case Some((offset, length)) => Some(New(offset, length, bufferSize))
    case None => None
  }

  /** A request the piece can serve. */
  predicate Served(p: Piece, request: Option<Span>) {
    request.Some? ==> request.value.start + request.value.length <= U64_MAX && Touches(p, request.value)
  }

  /** What is to be read: the whole piece, or its intersection with the request. */
  function Wanted(content: seq<byte>, p: Piece, request: Option<Span>): seq<byte>
    requires p.offset + p.length <= |content| && Served(p, request)
  {
    match request
    case None => Slice(content, p)
    case Some(s) => content[Max(p.offset, s.start)..Min(p.offset + p.length, s.start + s.length)]
  }

  /** With the piece in place, the range its reader is given holds exactly those bytes. */
  lemma WantedInPlace(file: seq<byte>, content: seq<byte>, p: Piece, request: Option<Span>)
    requires p.offset + p.length <= |content| <= U64_MAX && p.length > 0 && Served(p, request)
    requires InPlace(file, p.offset, Slice(content, p))
    ensures var r := CalculatePieceRange(p.offset, p.length, request);
            r.Some? && Range(file, r.value.0, r.value.1) == Wanted(content, p, request)
  {
    var (t, n) := CalculatePieceRange(p.offset, p.length, request).value;
    assert p.offset <= t && t + n <= p.offset + p.length;
    SliceOfSlice(file, p.offset, p.offset + p.length, t - p.offset, t - p.offset + n);
    SliceOfSlice(content, p.offset, p.offset + p.length, t - p.offset, t - p.offset + n);
  }

  /** The piece stands in every file of the list. */
  ghost predicate Standing(files: seq<seq<byte>>, p: Piece, content: seq<byte>)
    requires p.offset + p.length <= |content|
  {
    forall k | 0 <= k < |files| :: InPlace(files[k], p.offset, Slice(content, p))
  }

  /**
   A reader over a standing piece, served while the rest of the file changes
   from call to call: once drained it has delivered exactly the original bytes
   of the intersection of piece and request.
   */
  lemma ReadBack(files: seq<seq<byte>>, last: seq<byte>, p: Piece, content: seq<byte>,
                 request: Option<Span>, bufferSize: nat, calls: seq<Call>, c: Completion)
    requires p.offset + p.length <= |content| <= U64_MAX && p.length > 0 && Served(p, request)
    requires |files| == |calls| && Standing(files + [last], p, content)
    ensures ReadPiece(p, request, bufferSize).Some?
    ensures var reader := ReadPiece(p, request, bufferSize).value;
            Legal(files, reader, calls) ==>
              var (r, out) := RangeReads.Run(files, reader, calls);
              FillBuf(last, r, c).1 == Ready([]) ==> out == Wanted(content, p, request)
  {
    hide InPlace, Legal, FillBuf;
    assert (files + [last])[|files|] == last;
    WantedInPlace(last, content, p, request);
    var (t, n) := CalculatePieceRange(p.offset, p.length, request).value;
    forall k | 0 <= k < |files| ensures Range(files[k], t, n) == Range(last, t, n) {
      assert (files + [last])[k] == files[k];
      WantedInPlace(files[k], content, p, request);
    }
    if Legal(files, New(t, n, bufferSize), calls) {
      Drained(files, last, t, n, bufferSize, calls, c);
    }
  }

  // ---- from the writers' responses -----------------------------------------------

  /** Calls at the pieces of a tiling, of which call `f` reported success on the right bytes. */
  ghost predicate Succeeded(calls: seq<WriterCall>, pieces: seq<Piece>, content: seq<byte>, f: nat) {
    && Tiling(pieces, 0, |content|) && f < |calls|
    && (forall i | 0 <= i < |calls| :: Kept(calls[i], pieces))
    && calls[f].response.Written?
    && var p := pieces[calls[f].piece];
    && p.offset + p.length <= |content| && calls[f].input[..p.length] == Slice(content, p)
  }

  function Homes(calls: seq<WriterCall>): (r: seq<nat>)
    ensures |r| == |calls| && forall i | 0 <= i < |calls| :: r[i] == calls[i].piece
  {
    seq(|calls|, i requires 0 <= i < |calls| => calls[i].piece)
  }

  /** Every call's descriptor as it stands when all is over. */
  function Closed(calls: seq<WriterCall>): (r: seq<Device>)
    ensures |r| == |calls| && forall i | 0 <= i < |calls| :: r[i] == calls[i].later
  {
    seq(|calls|, i requires 0 <= i < |calls| => calls[i].later)
  }

  /** Any moment of the calls' lives at which call `f` has not written yet. */
  ghost predicate Poised(k: Kernel, calls: seq<WriterCall>, f: nat) {
    && |k.devices| == |calls| && f < |calls|
    && (forall i | 0 <= i < |calls| :: Midway(calls[i], k.devices[i]))
    && k.devices[f].log == calls[f].before.log
  }

  lemma PoisedReaches(k: Kernel, calls: seq<WriterCall>, f: nat)
    requires Poised(k, calls, f)
    ensures Reaches(k, Closed(calls))
    ensures forall i | 0 <= i < |calls| :: View(k, Closed(calls)).left[i] == calls[i].later.log[|k.devices[i].log|..]
  {
    assert forall i | 0 <= i < |calls| :: Midway(calls[i], k.devices[i]);
  }

  /** The moment of the kernel is the scene of the attempts. */
  lemma PoisedScene(k: Kernel, calls: seq<WriterCall>, pieces: seq<Piece>, content: seq<byte>, f: nat)
    requires Succeeded(calls, pieces, content, f) && Poised(k, calls, f)
    ensures Reaches(k, Closed(calls)) && Scene(View(k, Closed(calls)), Homes(calls), pieces, content, f)
  {
    hide View, Kept, Confined, Complete, Midway, Tiling;
    PoisedReaches(k, calls, f);
    var s := View(k, Closed(calls));
    forall a | 0 <= a < |calls| ensures Homes(calls)[a] < |pieces| && Confined(s.left[a], pieces[Homes(calls)[a]]) {
      assert Kept(calls[a], pieces) && Midway(calls[a], k.devices[a]);
      KeptPiece(calls[a], pieces);
      CallConfined(calls[a], pieces, k.devices[a]);
    }
    assert Kept(calls[f], pieces);
    CallComplete(calls[f], pieces, content);
  }

  lemma KeptPiece(c: WriterCall, pieces: seq<Piece>)
    requires Kept(c, pieces)
    ensures c.piece < |pieces| && (c.response.Written? ==> c.later == c.after)
  {
  }

  /** What every other call at the piece of call `f` has still to write agrees with the content. */
  ghost predicate RivalsAgree(k: Kernel, calls: seq<WriterCall>, pieces: seq<Piece>, content: seq<byte>, f: nat)
    requires Succeeded(calls, pieces, content, f) && Poised(k, calls, f)
  {
    forall a: nat | Rival(Homes(calls), f, a) :: Agrees(calls[a], k.devices[a], pieces, content)
  }

  lemma AgreeIsTame(k: Kernel, calls: seq<WriterCall>, pieces: seq<Piece>, content: seq<byte>, f: nat)
    requires Succeeded(calls, pieces, content, f) && Poised(k, calls, f)
    ensures Reaches(k, Closed(calls))
    ensures RivalsAgree(k, calls, pieces, content, f) <==> Tame(View(k, Closed(calls)).left, Homes(calls), content, f)
  {
    hide View, Kept, Agrees, AllRepeat, Midway, Tiling;
    PoisedReaches(k, calls, f);
    var s := View(k, Closed(calls));
    forall a: nat | Rival(Homes(calls), f, a)
      ensures Agrees(calls[a], k.devices[a], pieces, content) <==> AllRepeat(s.left[a], content)
    {
      assert Kept(calls[a], pieces) && Midway(calls[a], k.devices[a]);
      AgreesExactly(calls[a], k.devices[a], pieces, content);
    }
  }

  /**
   From any moment at which a successful call has not written yet, whatever its
   rivals have done before and are about to do: its piece stands under every
   schedule if and only if the bytes its rivals have still to write are those of
   the content.
   */
  lemma WrittenStandsExactly(k: Kernel, calls: seq<WriterCall>, pieces: seq<Piece>, content: seq<byte>, f: nat)
    requires Succeeded(calls, pieces, content, f) && Poised(k, calls, f)
    ensures Reaches(k, Closed(calls)) && Scene(View(k, Closed(calls)), Homes(calls), pieces, content, f)
    ensures AlwaysStands(View(k, Closed(calls)), Homes(calls), pieces, content, f)
            <==> RivalsAgree(k, calls, pieces, content, f)
  {
    hide Succeeded, RivalsAgree, Tame, AlwaysStands, Scene, View, Poised;
    PoisedScene(k, calls, pieces, content, f);
    AgreeIsTame(k, calls, pieces, content, f);
    StandsExactly(View(k, Closed(calls)), Homes(calls), pieces, content, f);
  }

  // ---- down to the kernel ----------------------------------------------------------

  lemma {:induction false} ReachesStart(k: Kernel, run: seq<Syscall>, final: seq<Device>)
    requires Reaches(ServeAll(k, run), final)
    ensures Reaches(k, final)
    decreases |run|
  {
    hide Serve, Reaches;
    if run != [] {
      ReachesStart(Serve(k, run[0]), run[1..], final);
      ReachesBefore(k, run[0], final);
    }
  }

  /** Every system call, by whichever writer, keeps what call `f` has placed. */
  lemma {:induction false} KernelKeeps(k: Kernel, final: seq<Device>, main: seq<Pwrite>, homes: seq<nat>, pieces: seq<Piece>,
                                       content: seq<byte>, f: nat, run: seq<Syscall>)
    requires Reaches(ServeAll(k, run), final)
    requires Reaches(k, final) && Attempts.Inv(View(k, final), main, homes, pieces, content, f)
    ensures Attempts.Inv(View(ServeAll(k, run), final), main, homes, pieces, content, f)
    decreases |run|
  {
    hide Serve, View, Attempts.Inv, Reaches;
    if run != [] {
      var next := Serve(k, run[0]);
      ReachesStart(next, run[1..], final);
      ServeIsStep(k, run[0], final);
      StepKeeps(View(k, final), main, homes, pieces, content, f, run[0].descriptor);
      KernelKeeps(next, final, main, homes, pieces, content, f, run[1..]);
    }
  }

  /** A moment of the shared file, some system calls after `k`, at which call `f` has returned. */
  ghost predicate Moment(k: Kernel, calls: seq<WriterCall>, f: nat, run: seq<Syscall>)
    requires f < |calls|
  {
    Reaches(ServeAll(k, run), Closed(calls)) && ServeAll(k, run).devices[f].log == calls[f].after.log
  }

  lemma StandsAt(k: Kernel, calls: seq<WriterCall>, pieces: seq<Piece>, content: seq<byte>, f: nat, run: seq<Syscall>)
    requires Succeeded(calls, pieces, content, f) && Poised(k, calls, f) && RivalsAgree(k, calls, pieces, content, f)
    requires Moment(k, calls, f, run)
    ensures var p := pieces[calls[f].piece];
            p.length > 0 && InPlace(ServeAll(k, run).file, p.offset, Slice(content, p))
  {
    hide Kept, InPlace, RivalsAgree, Poised, Tame, Scene, Attempts.Inv;
    var homes, final := Homes(calls), Closed(calls);
    PoisedScene(k, calls, pieces, content, f);
    AgreeIsTame(k, calls, pieces, content, f);
    SceneSize(View(k, final), homes, pieces, content, f);
    SceneInv(View(k, final), homes, pieces, content, f);
    KernelKeeps(k, final, View(k, final).left[f], homes, pieces, content, f, run);
    var t := View(ServeAll(k, run), final);
    assert Kept(calls[f], pieces);
    KeptPiece(calls[f], pieces);
    assert t.left[f] == [];
    ThroughInPlace(t, View(k, final).left[f], homes, pieces, content, f);
    TilingGrows(pieces, 0, |content|);
    assert pieces[calls[f].piece].length > 0;
  }

  lemma SceneSize(s: System, homes: seq<nat>, pieces: seq<Piece>, content: seq<byte>, f: nat)
    requires Scene(s, homes, pieces, content, f)
    ensures f < |homes| == |s.left| && homes[f] < |pieces|
  {
  }

  /** The file and every call's descriptor as the call found it. */
  function Opened(file: seq<byte>, calls: seq<WriterCall>): Kernel {
    Kernel(file, seq(|calls|, i requires 0 <= i < |calls| => calls[i].before))
  }

  lemma {:induction false} LogsGrow(k: Kernel, run: seq<Syscall>, i: nat)
    requires i < |k.devices|
    ensures LogExtends(k.devices[i], ServeAll(k, run).devices[i])
    decreases |run|
  {
    hide Positional;
    if run != [] {
      LogsGrow(Serve(k, run[0]), run[1..], i);
      ExtendsTwice(k.devices[i], Serve(k, run[0]).devices[i], ServeAll(k, run).devices[i]);
    }
  }

  /** Every run of the kernel that is part of the calls' lives is poised until call `f` writes. */
  lemma RunPoised(file: seq<byte>, calls: seq<WriterCall>, f: nat, run: seq<Syscall>)
    requires f < |calls| && Reaches(ServeAll(Opened(file, calls), run), Closed(calls))
    requires ServeAll(Opened(file, calls), run).devices[f].log == calls[f].before.log
    ensures Poised(ServeAll(Opened(file, calls), run), calls, f)
  {
    hide ServeAll, LogExtends;
    var k0 := Opened(file, calls);
    forall i | 0 <= i < |calls| ensures Midway(calls[i], ServeAll(k0, run).devices[i]) {
      LogsGrow(k0, run, i);
      assert LogExtends(ServeAll(k0, run).devices[i], Closed(calls)[i]);
    }
  }

  /** The file at each of the moments. */
  function Files(k: Kernel, runs: seq<seq<Syscall>>): (r: seq<seq<byte>>)
    ensures |r| == |runs|
  {
    seq(|runs|, i requires 0 <= i < |runs| => ServeAll(k, runs[i]).file)
  }

  /**
   End to end, over every run of the kernel: any number of writers issue any
   system calls `first` through their descriptors of one file, after which call
   `f`, which will report success, has not written yet; what its rivals still
   write agrees with the content. A reader over the piece and any overlapping
   request, each of whose calls sees the file at some moment after `f` returned,
   has once drained delivered exactly the original bytes.
   */
  lemma WrittenReadsBack(file: seq<byte>, calls: seq<WriterCall>, pieces: seq<Piece>, content: seq<byte>, f: nat,
                         first: seq<Syscall>, runs: seq<seq<Syscall>>, last: seq<Syscall>, request: Option<Span>,
                         bufferSize: nat, polls: seq<Call>, c: Completion)
    requires Succeeded(calls, pieces, content, f) && |content| <= U64_MAX
    requires var k := ServeAll(Opened(file, calls), first);
             && Poised(k, calls, f) && RivalsAgree(k, calls, pieces, content, f)
             && |runs| == |polls| && (forall j | 0 <= j < |runs| :: Moment(k, calls, f, runs[j])) && Moment(k, calls, f, last)
    requires Served(pieces[calls[f].piece], request)
    ensures ReadPiece(pieces[calls[f].piece], request, bufferSize).Some?
    ensures var k, p := ServeAll(Opened(file, calls), first), pieces[calls[f].piece];
            var files, reader := Files(k, runs), ReadPiece(p, request, bufferSize).value;
            Legal(files, reader, polls) ==>
              var (r, out) := RangeReads.Run(files, reader, polls);
              FillBuf(ServeAll(k, last).file, r, c).1 == Ready([]) ==> out == Wanted(content, p, request)
  {
    hide Kept, InPlace, RivalsAgree, Poised, Moment, Legal, FillBuf, ReadPiece, Wanted, ServeAll, Tiling;
    assert Kept(calls[f], pieces);
    KeptPiece(calls[f], pieces);
    var k, p := ServeAll(Opened(file, calls), first), pieces[calls[f].piece];
    var files, end := Files(k, runs), ServeAll(k, last).file;
    StandsAt(k, calls, pieces, content, f, last);
    forall j | 0 <= j < |files| + 1 ensures InPlace((files + [end])[j], p.offset, Slice(content, p)) {
      if j < |files| {
        StandsAt(k, calls, pieces, content, f, runs[j]);
      }
    }
    ReadBack(files, end, p, content, request, bufferSize, polls, c);
  }
}
