/** Rendezvous framing and the run of receive windows. */
module Envelopes {
  import opened Bytes
  import opened Rendezvous

  datatype Frame = Frame(kind: byte, payload: seq<byte>)

  /** The bytes of one envelope: magic, version, frame type, payload length, payload. */
  function Envelope(magic: nat, version: byte, f: Frame): (e: seq<byte>)
    ensures |e| == HEADER_LENGTH + |f.payload|
  {
    ToBe(magic, 4) + [version, f.kind] + ToBe(|f.payload|, 4) + f.payload
  }

  predicate Sendable(f: Frame, max: nat) {
    |f.payload| <= max <= MAX_PAYLOAD_LENGTH
  }

  /** `read_envelope`: a full header with the expected magic and version, then a payload within the cap. */
  function ReadEnvelope(stream: seq<byte>, magic: nat, version: byte, max: nat): Parsed<Frame> {
    match Take(stream, HEADER_LENGTH)
    case Bad => Bad
    case Good(header, rest) =>
      if FromBe(header[0..4]) != magic || header[4] != version then Bad
      else
        var length := FromBe(header[6..10]);
        if length > max || max > MAX_PAYLOAD_LENGTH then Bad
        else
          match Take(rest, length)
          case Bad => Bad
          case Good(payload, rest') => Good(Frame(header[5], payload), rest')
  }

  lemma HeaderFields(magic: nat, version: byte, f: Frame, tail: seq<byte>)
    requires magic < U32_LIMIT && |f.payload| <= MAX_PAYLOAD_LENGTH
    ensures var s := Envelope(magic, version, f) + tail;
            && FromBe(s[0..4]) == magic && s[4] == version && s[5] == f.kind && FromBe(s[6..10]) == |f.payload|
            && s[HEADER_LENGTH..] == f.payload + tail
  {
    hide ToBe, FromBe;
    Widths();
    NumberRoundTrip(magic, 4);
    NumberRoundTrip(|f.payload|, 4);
    var s := Envelope(magic, version, f) + tail;
    assert s[0..4] == ToBe(magic, 4);
    assert s[6..10] == ToBe(|f.payload|, 4);
    assert s[10..] == f.payload + tail;
  }

  /** A written envelope reads back, and leaves the rest of the stream. */
  lemma EnvelopeRoundTrip(magic: nat, version: byte, f: Frame, max: nat, tail: seq<byte>)
    requires magic < U32_LIMIT && Sendable(f, max)
    ensures ReadEnvelope(Envelope(magic, version, f) + tail, magic, version, max) == Good(f, tail)
  {
    hide ToBe, FromBe, Envelope;
    HeaderFields(magic, version, f, tail);
    var s := Envelope(magic, version, f) + tail;
    var header := s[..HEADER_LENGTH];
    assert header[0..4] == s[0..4] && header[6..10] == s[6..10];
    var rest := f.payload + tail;
    assert rest[..|f.payload|] == f.payload && rest[|f.payload|..] == tail;
  }

  /** Whatever is accepted is an envelope with the expected magic and version. */
  lemma EnvelopeCanonical(stream: seq<byte>, magic: nat, version: byte, max: nat)
    requires ReadEnvelope(stream, magic, version, max).Good?
    ensures var r := ReadEnvelope(stream, magic, version, max);
            Sendable(r.value, max) && stream == Envelope(magic, version, r.value) + r.rest
  {
    hide ToBe, FromBe;
    var header, rest := stream[..HEADER_LENGTH], stream[HEADER_LENGTH..];
    BytesRoundTrip(header[0..4]);
    BytesRoundTrip(header[6..10]);
    var length := FromBe(header[6..10]);
    assert stream == header + rest && rest == rest[..length] + rest[length..];
    assert header == header[0..4] + [header[4], header[5]] + header[6..10];
    assert stream == (header + rest[..length]) + rest[length..];
  }

  /** No proper prefix of an envelope is accepted. */
  lemma PrefixRejected(magic: nat, version: byte, f: Frame, max: nat, k: nat)
    requires magic < U32_LIMIT && Sendable(f, max) && k < |Envelope(magic, version, f)|
    ensures ReadEnvelope(Envelope(magic, version, f)[..k], magic, version, max).Bad?
  {
    hide ToBe, FromBe;
    var e := Envelope(magic, version, f);
    assert e + [] == e;
    HeaderFields(magic, version, f, []);
    if k >= HEADER_LENGTH {
      assert e[..k][..HEADER_LENGTH][6..10] == e[6..10];
    }
  }

  /** The envelopes of a list of frames, back to back. */
  function Envelopes(magic: nat, version: byte, frames: seq<Frame>): seq<byte> {
    if frames == [] then [] else Envelope(magic, version, frames[0]) + Envelopes(magic, version, frames[1..])
  }

  function ReadMany(stream: seq<byte>, magic: nat, version: byte, max: nat, count: nat): Parsed<seq<Frame>> {
    if count == 0 then Good([], stream)
    else
      match ReadEnvelope(stream, magic, version, max)
      case Bad => Bad
      case Good(f, rest) =>
        match ReadMany(rest, magic, version, max, count - 1)
        case Bad => Bad
        case Good(fs, rest') => Good([f] + fs, rest')
  }

  /** A stream of envelopes reads back as the same frames in the same order, with no residue. */
  lemma {:induction false} StreamRoundTrip(magic: nat, version: byte, frames: seq<Frame>, max: nat, tail: seq<byte>)
    requires magic < U32_LIMIT && forall i | 0 <= i < |frames| :: Sendable(frames[i], max)
    ensures ReadMany(Envelopes(magic, version, frames) + tail, magic, version, max, |frames|) == Good(frames, tail)
  {
    hide ReadEnvelope, Envelope, Sendable;
    if frames == [] {
      assert [] + tail == tail;
    } else {
      var rest := Envelopes(magic, version, frames[1..]) + tail;
      assert Envelopes(magic, version, frames) + tail == Envelope(magic, version, frames[0]) + rest;
      assert Sendable(frames[0], max);
      EnvelopeRoundTrip(magic, version, frames[0], max, rest);
      assert forall i | 0 <= i < |frames| - 1 :: frames[1..][i] == frames[i + 1];
      StreamRoundTrip(magic, version, frames[1..], max, tail);
      assert frames == [frames[0]] + frames[1..];
    }
  }

  /** A connection: what was written and not yet read. */
  class Wire {
    var bytes: seq<byte>

    constructor ()
      ensures bytes == []
    {
      bytes := [];
    }

    method WriteEnvelope(magic: nat, version: byte, kind: byte, payload: seq<byte>, max: nat) returns (ok: bool)
      modifies this
      ensures ok <==> Sendable(Frame(kind, payload), max)
      ensures bytes == old(bytes) + (if ok then Envelope(magic, version, Frame(kind, payload)) else [])
    {
      if |payload| > max || max > MAX_PAYLOAD_LENGTH {
        assert bytes + [] == bytes;
        return false;
      }
      var header := ToBe(magic, 4) + [version, kind] + ToBe(|payload|, 4);
      bytes := bytes + header;
      bytes := bytes + payload;
      return true;
    }

    method ReceiveEnvelope(magic: nat, version: byte, max: nat) returns (ok: bool, f: Frame)
      modifies this
      ensures ok <==> ReadEnvelope(old(bytes), magic, version, max).Good?
      ensures ok ==> ReadEnvelope(old(bytes), magic, version, max) == Good(f, bytes)
    {
      hide FromBe;
      f := Frame(0, []);
      if |bytes| < HEADER_LENGTH {
        return false, f;
      }
      var header := bytes[..HEADER_LENGTH];
      bytes := bytes[HEADER_LENGTH..];
      if FromBe(header[0..4]) != magic {
        return false, f;
      }
      if header[4] != version {
        return false, f;
      }
      var length := FromBe(header[6..10]);
      if length > max || max > MAX_PAYLOAD_LENGTH {
        return false, f;
      }
      if |bytes| < length {
        return false, f;
      }
      ok, f := true, Frame(header[5], bytes[..length]);
      bytes := bytes[length..];
    }
  }

  // ---- receive windows -----------------------------------------------------------

  datatype Window = Window(start: nat, count: nat)

  /** `validate`. */
  predicate Accepted(w: Window, expectedStart: nat, remaining: nat) {
    w.start == expectedStart && w.count != 0 && w.count <= remaining
  }

  /** Every window is accepted at the cursor the previous ones left. */
  predicate AcceptedRun(ws: seq<Window>, cursor: nat, remaining: nat) {
    ws != [] ==>
      Accepted(ws[0], cursor, remaining) && AcceptedRun(ws[1..], cursor + ws[0].count, remaining - ws[0].count)
  }

  function Received(ws: seq<Window>): nat {
    if ws == [] then 0 else ws[0].count + Received(ws[1..])
  }

  predicate Holds(w: Window, chunk: nat) {
    w.start <= chunk < w.start + w.count
  }

  /** An accepted run never exceeds what was announced and needs at most one window per chunk. */
  lemma {:induction false} RunBounded(ws: seq<Window>, cursor: nat, total: nat)
    requires AcceptedRun(ws, cursor, total)
    ensures |ws| <= Received(ws) <= total
  {
    if ws != [] {
      RunBounded(ws[1..], cursor + ws[0].count, total - ws[0].count);
    }
  }

  /** Every received chunk is in exactly one window, and no window holds any other chunk. */
  lemma {:induction false} RunTiles(ws: seq<Window>, cursor: nat, total: nat, chunk: nat)
    requires AcceptedRun(ws, cursor, total)
    ensures cursor <= chunk < cursor + Received(ws) <==> exists i | 0 <= i < |ws| :: Holds(ws[i], chunk)
    ensures forall i, j | 0 <= i < |ws| && 0 <= j < |ws| && Holds(ws[i], chunk) && Holds(ws[j], chunk) :: i == j
  {
    if ws != [] {
      var rest := ws[1..];
      RunTiles(rest, cursor + ws[0].count, total - ws[0].count, chunk);
      assert forall i | 0 < i < |ws| :: ws[i] == rest[i - 1];
      if exists i | 0 <= i < |rest| :: Holds(rest[i], chunk) {
        var i :| 0 <= i < |rest| && Holds(rest[i], chunk);
        assert Holds(ws[i + 1], chunk);
      }
    }
  }

  /**
   Exactly the runs that split the chunks from the cursor on into consecutive
   non-empty windows, within what was announced, are accepted.
   */
  lemma {:induction false} AcceptedExactly(ws: seq<Window>, cursor: nat, total: nat)
    ensures AcceptedRun(ws, cursor, total)
            <==> && Received(ws) <= total
                 && forall i | 0 <= i < |ws| :: ws[i].count > 0 && ws[i].start == cursor + Received(ws[..i])
  {
    if ws != [] {
      var rest := ws[1..];
      assert ws[..0] == [];
      forall i | 0 <= i < |rest| ensures Received(ws[..i + 1]) == ws[0].count + Received(rest[..i]) {
        assert ws[..i + 1][1..] == rest[..i];
      }
      if Accepted(ws[0], cursor, total) {
        AcceptedExactly(rest, cursor + ws[0].count, total - ws[0].count);
      }
      if forall i | 0 <= i < |ws| :: ws[i].count > 0 && ws[i].start == cursor + Received(ws[..i]) {
        forall i | 0 <= i < |rest| ensures rest[i].start == cursor + ws[0].count + Received(rest[..i]) {
          assert ws[i + 1].start == cursor + Received(ws[..i + 1]);
        }
      }
    }
  }
}
