/** Where every field of the rendezvous messages and envelopes stands on the wire. */
module WireLayout {
  import opened Bytes
  import opened Rendezvous
  import opened Envelopes

  /** The 32-bit number at a place, its most significant byte first. */
  function U32At(b: seq<byte>, at: nat): nat
    requires at + 4 <= |b|
  {
    (b[at] as int) * 0x100_0000 + (b[at + 1] as int) * 0x1_0000 + (b[at + 2] as int) * 0x100 + b[at + 3]
  }

  /** The 64-bit number at a place. */
  function U64At(b: seq<byte>, at: nat): nat
    requires at + 8 <= |b|
  {
    U32At(b, at) * 0x1_0000_0000 + U32At(b, at + 4)
  }

  /** The bytes `part` stand in `whole` from `at` on. */
  predicate Stands(whole: seq<byte>, at: nat, part: seq<byte>) {
    at + |part| <= |whole| && whole[at..at + |part|] == part
  }

  lemma Four(b: seq<byte>)
    requires |b| == 4
    ensures FromBe(b) == U32At(b, 0)
  {
    var b3, b2, b1 := b[..3], b[..2], b[..1];
    assert b3[..2] == b2 && b2[..1] == b1 && b1[..0] == [];
    assert FromBe(b1) == b[0];
    assert FromBe(b2) == 256 * FromBe(b1) + b[1];
    assert FromBe(b3) == 256 * FromBe(b2) + b[2];
  }

  lemma Eight(b: seq<byte>)
    requires |b| == 8
    ensures FromBe(b) == U64At(b, 0)
  {
    var b7, b6, b5, b4 := b[..7], b[..6], b[..5], b[..4];
    assert b7[..6] == b6 && b6[..5] == b5 && b5[..4] == b4;
    Four(b4);
    hide FromBe;
    FromBeNext(b5);
    FromBeNext(b6);
    FromBeNext(b7);
    FromBeNext(b);
    assert b[..7] == b7;
  }

  lemma FromBeNext(b: seq<byte>)
    requires b != []
    ensures FromBe(b) == 256 * FromBe(b[..|b| - 1]) + b[|b| - 1]
  {
  }

  /** A written number is the one that stands there. */
  lemma NumberStands(whole: seq<byte>, at: nat, n: nat)
    ensures Stands(whole, at, ToBe(n, 4)) && n < U32_LIMIT ==> U32At(whole, at) == n
    ensures Stands(whole, at, ToBe(n, 8)) && n <= U64_MAX ==> U64At(whole, at) == n
  {
    hide ToBe, FromBe, Capacity;
    Widths();
    if Stands(whole, at, ToBe(n, 4)) && n < U32_LIMIT {
      NumberRoundTrip(n, 4);
      Four(ToBe(n, 4));
      SameNumber(whole, at, ToBe(n, 4));
    }
    if Stands(whole, at, ToBe(n, 8)) && n <= U64_MAX {
      NumberRoundTrip(n, 8);
      Eight(ToBe(n, 8));
      SameNumber(whole, at, ToBe(n, 8));
    }
  }

  lemma SameNumber(whole: seq<byte>, at: nat, part: seq<byte>)
    requires Stands(whole, at, part)
    ensures |part| == 4 ==> U32At(whole, at) == U32At(part, 0)
    ensures |part| == 8 ==> U64At(whole, at) == U64At(part, 0)
  {
    var there := whole[at..at + |part|];
    assert forall i | 0 <= i < |part| :: part[i] == there[i] && there[i] == whole[at + i];
  }

  lemma StandsFirst(a: seq<byte>, b: seq<byte>)
    ensures Stands(a + b, 0, a)
  {
  }

  lemma StandsLater(a: seq<byte>, b: seq<byte>, at: nat, part: seq<byte>)
    requires Stands(b, at, part)
    ensures Stands(a + b, |a| + at, part)
  {
    assert (a + b)[|a| + at..|a| + at + |part|] == b[at..at + |part|];
  }

  lemma StandsWhole(a: seq<byte>)
    ensures Stands(a, 0, a)
  {
  }

  lemma StandsPart(whole: seq<byte>, at: nat, a: seq<byte>, b: seq<byte>)
    requires Stands(whole, at, a + b)
    ensures Stands(whole, at, a) && Stands(whole, at + |a|, b)
  {
    var both := whole[at..at + |a + b|];
    assert both[..|a|] == a && both[|a|..] == b;
    assert both[..|a|] == whole[at..at + |a|] && both[|a|..] == whole[at + |a|..at + |a| + |b|];
  }

  /** Where field `i` of a list begins. */
  function Place(kinds: seq<Kind>, fields: seq<Field>, i: nat): nat
    requires |kinds| == |fields| && i <= |kinds|
  {
    if i == 0 then 0 else Place(kinds, fields, i - 1) + |EncodeField(kinds[i - 1], fields[i - 1])|
  }

  lemma {:induction false} PlaceNext(kinds: seq<Kind>, fields: seq<Field>, i: nat)
    requires |kinds| == |fields| && 0 < i <= |kinds|
    ensures Place(kinds, fields, i) == |EncodeField(kinds[0], fields[0])| + Place(kinds[1..], fields[1..], i - 1)
  {
    hide EncodeField;
    if i > 1 {
      PlaceNext(kinds, fields, i - 1);
    }
  }

  /** The fields of a list stand one behind the other, and nothing else does. */
  lemma {:induction false} FieldStands(kinds: seq<Kind>, fields: seq<Field>, i: nat)
    requires |kinds| == |fields| && i <= |kinds|
    ensures i < |kinds| ==> Stands(EncodeFields(kinds, fields), Place(kinds, fields, i), EncodeField(kinds[i], fields[i]))
    ensures i == |kinds| ==> |EncodeFields(kinds, fields)| == Place(kinds, fields, i)
  {
    hide EncodeField, Stands;
    if kinds != [] {
      var first, rest := EncodeField(kinds[0], fields[0]), EncodeFields(kinds[1..], fields[1..]);
      if i == 0 {
        StandsFirst(first, rest);
      } else {
        FieldStands(kinds[1..], fields[1..], i - 1);
        PlaceNext(kinds, fields, i);
        if i < |kinds| {
          StandsLater(first, rest, Place(kinds[1..], fields[1..], i - 1), EncodeField(kinds[i], fields[i]));
        }
      }
    }
  }

  /** A length-prefixed string: its length in 32 bits, then its bytes. */
  predicate TextAt(whole: seq<byte>, at: nat, text: seq<byte>) {
    at + 4 + |text| <= |whole| && U32At(whole, at) == |text| % U32_LIMIT && whole[at + 4..at + 4 + |text|] == text
  }

  lemma TextStands(whole: seq<byte>, at: nat, k: Kind, text: seq<byte>)
    requires Stands(whole, at, EncodeField(k, Text(text)))
    ensures TextAt(whole, at, text)
  {
    hide ToBe;
    StandsPart(whole, at, ToBe(|text| % U32_LIMIT, 4), text);
    NumberStands(whole, at, |text| % U32_LIMIT);
  }

  lemma ByteStands(whole: seq<byte>, at: nat, n: nat)
    requires n < 256 && Stands(whole, at, ToBe(n, 1))
    ensures at < |whole| && whole[at] == n
  {
    assert ToBe(n / 256, 0) == [];
    assert ToBe(n, 1) == [n % 256];
    assert whole[at..at + 1][0] == whole[at];
  }

  /** A request for a piece. */
  lemma RequestLayout(m: Message)
    requires m.PieceRequest? && WellTyped(m)
    ensures var e, n := Encode(m), |m.taskId|;
            && |e| == 21 + n
            && e[0] == (match m.kind case NormalPiece => 0 case PersistentPiece => 1 case PersistentCachePiece => 2)
            && TextAt(e, 1, m.taskId)
            && U32At(e, 5 + n) == m.pieceNumber
            && U64At(e, 9 + n) == m.chunkSize
            && U32At(e, 17 + n) == m.maxInflight
  {
    hide Stands, ToBe, TextAt, U32At, U64At, Utf8, EncodeFields;
    var e, n, k, f := Encode(m), |m.taskId|, Kinds(RequestShape), Fields(m);
    assert Place(k, f, 1) == 1 && Place(k, f, 2) == 5 + n && Place(k, f, 3) == 9 + n;
    assert Place(k, f, 4) == 17 + n && Place(k, f, 5) == 21 + n;
    FieldStands(k, f, 0);
    ByteStands(e, 0, KindCode(m.kind));
    FieldStands(k, f, 1);
    TextStands(e, 1, k[1], m.taskId);
    FieldStands(k, f, 2);
    NumberStands(e, 5 + n, m.pieceNumber);
    FieldStands(k, f, 3);
    NumberStands(e, 9 + n, m.chunkSize);
    FieldStands(k, f, 4);
    NumberStands(e, 17 + n, m.maxInflight);
    FieldStands(k, f, 5);
  }

  /** The answer to it. */
  lemma MetadataLayout(m: Message)
    requires m.PieceMetadata? && WellTyped(m)
    ensures var e, n := Encode(m), |m.digest|;
            && |e| == 32 + n
            && U64At(e, 0) == m.offset
            && U64At(e, 8) == m.length
            && TextAt(e, 16, m.digest)
            && U64At(e, 20 + n) == m.chunkSize
            && U32At(e, 28 + n) == m.maxInflight
  {
    hide Stands, ToBe, TextAt, U32At, U64At, Utf8, EncodeFields;
    var e, n, k, f := Encode(m), |m.digest|, Kinds(MetadataShape), Fields(m);
    assert Place(k, f, 1) == 8 && Place(k, f, 2) == 16 && Place(k, f, 3) == 20 + n;
    assert Place(k, f, 4) == 28 + n && Place(k, f, 5) == 32 + n;
    FieldStands(k, f, 0);
    NumberStands(e, 0, m.offset);
    FieldStands(k, f, 1);
    NumberStands(e, 8, m.length);
    FieldStands(k, f, 2);
    TextStands(e, 16, k[2], m.digest);
    FieldStands(k, f, 3);
    NumberStands(e, 20 + n, m.chunkSize);
    FieldStands(k, f, 4);
    NumberStands(e, 28 + n, m.maxInflight);
    FieldStands(k, f, 5);
  }

  /** A window of chunks to receive. */
  lemma WindowLayout(m: Message)
    requires m.ReceiveWindow? && WellTyped(m)
    ensures var e := Encode(m);
            |e| == 12 && U64At(e, 0) == m.startChunk && U32At(e, 8) == m.chunkCount
  {
    hide Stands, ToBe, U32At, U64At, EncodeFields;
    var e, k, f := Encode(m), Kinds(WindowShape), Fields(m);
    assert Place(k, f, 1) == 8 && Place(k, f, 2) == 12;
    FieldStands(k, f, 0);
    NumberStands(e, 0, m.startChunk);
    FieldStands(k, f, 1);
    NumberStands(e, 8, m.chunkCount);
    FieldStands(k, f, 2);
  }

  /** A refusal. */
  lemma ErrorLayout(m: Message)
    requires m.RendezvousError? && WellTyped(m)
    ensures var e, n := Encode(m), |m.message|;
            |e| == 8 + n && U32At(e, 0) == m.code && TextAt(e, 4, m.message)
  {
    hide Stands, ToBe, TextAt, U32At, U64At, Utf8, EncodeFields;
    var e, n, k, f := Encode(m), |m.message|, Kinds(ErrorShape), Fields(m);
    assert Place(k, f, 1) == 4 && Place(k, f, 2) == 8 + n;
    FieldStands(k, f, 0);
    NumberStands(e, 0, m.code);
    FieldStands(k, f, 1);
    TextStands(e, 4, k[1], m.message);
    FieldStands(k, f, 2);
  }

  /** Magic, version, frame type, payload length, payload. */
  lemma EnvelopeLayout(magic: nat, version: byte, f: Frame)
    requires magic < U32_LIMIT && |f.payload| < U32_LIMIT
    ensures var e := Envelope(magic, version, f);
            && |e| == 10 + |f.payload|
            && U32At(e, 0) == magic && e[4] == version && e[5] == f.kind
            && U32At(e, 6) == |f.payload| && e[10..] == f.payload
  {
    hide ToBe, U32At;
    var e := Envelope(magic, version, f);
    assert e[0..4] == ToBe(magic, 4) && e[6..10] == ToBe(|f.payload|, 4);
    NumberStands(e, 0, magic);
    NumberStands(e, 6, |f.payload|);
  }

  /** So what a peer decodes is what stands there: the fields of a received answer, by their places. */
  lemma DecodedMetadata(payload: seq<byte>)
    requires Decode(MetadataShape, payload).Good?
    ensures var m := Decode(MetadataShape, payload).value;
            && m.PieceMetadata? && |payload| == 32 + |m.digest|
            && m.offset == U64At(payload, 0) && m.length == U64At(payload, 8) && TextAt(payload, 16, m.digest)
            && m.chunkSize == U64At(payload, 20 + |m.digest|) && m.maxInflight == U32At(payload, 28 + |m.digest|)
  {
    hide Decode, Encode, WellTyped, U32At, U64At, TextAt;
    MessageCanonical(MetadataShape, payload);
    MetadataLayout(Decode(MetadataShape, payload).value);
  }

  /** The caps: a message survives the wire exactly if its string has at most 4096 bytes. */
  lemma StringCap(m: Message)
    requires WellTyped(m)
    ensures var text := match m
                        case PieceRequest(_, taskId, _, _, _) => taskId
                        case PieceMetadata(_, _, digest, _, _) => digest
                        case ReceiveWindow(_, _) => []
                        case RendezvousError(_, message) => message;
            Decode(ShapeOf(m), Encode(m)) == Good(m, []) <==> |text| <= 4096
  {
    hide Decode, Encode, WellTyped;
    MessageRoundTrip(m);
  }

  /** An envelope is read back exactly if its payload is within the given cap and that within 128 KiB. */
  lemma PayloadCap(magic: nat, version: byte, f: Frame, max: nat)
    requires magic < U32_LIMIT && |f.payload| < U32_LIMIT
    ensures ReadEnvelope(Envelope(magic, version, f), magic, version, max) == Good(f, [])
            <==> |f.payload| <= max <= 131072
  {
    hide ReadEnvelope, Envelope;
    var e := Envelope(magic, version, f);
    assert e + [] == e;
    if |f.payload| <= max <= 131072 {
      EnvelopeRoundTrip(magic, version, f, max, []);
    } else if ReadEnvelope(e, magic, version, max).Good? {
      EnvelopeCanonical(e, magic, version, max);
    }
  }
}
