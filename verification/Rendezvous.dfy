/** The rendezvous messages of the control plane and their codec. */
module Rendezvous {
  import opened Bytes

  const HEADER_LENGTH: nat := 10
  const MAX_TASK_ID_LENGTH: nat := 4096
  const MAX_STRING_LENGTH: nat := 4096
  const MAX_PAYLOAD_LENGTH: nat := 128 * 1024

  datatype Parsed<T> = Good(value: T, rest: seq<byte>) | Bad

  // ---- big-endian numbers --------------------------------------------------------

  function Capacity(width: nat): nat {
    if width == 0 then 1 else 256 * Capacity(width - 1)
  }

  function ToBe(n: nat, width: nat): (b: seq<byte>)
    ensures |b| == width
  {
    if width == 0 then [] else ToBe(n / 256, width - 1) + [n % 256]
  }

  function FromBe(b: seq<byte>): nat {
    if b == [] then 0 else 256 * FromBe(b[..|b| - 1]) + b[|b| - 1]
  }

  lemma {:induction false} NumberRoundTrip(n: nat, width: nat)
    requires n < Capacity(width)
    ensures FromBe(ToBe(n, width)) == n
  {
    if width > 0 {
      NumberRoundTrip(n / 256, width - 1);
      assert ToBe(n, width)[..width - 1] == ToBe(n / 256, width - 1);
    }
  }

  lemma {:induction false} BytesRoundTrip(b: seq<byte>)
    ensures FromBe(b) < Capacity(|b|) && ToBe(FromBe(b), |b|) == b
  {
    if b != [] {
      BytesRoundTrip(b[..|b| - 1]);
      assert b == b[..|b| - 1] + [b[|b| - 1]];
    }
  }

  lemma Widths()
    ensures Capacity(1) == 256 && Capacity(4) == 0x1_0000_0000 && Capacity(8) == 0x1_0000_0000_0000_0000
  {
    assert Capacity(2) == 0x1_0000;
    assert Capacity(4) == 256 * 256 * Capacity(2);
    assert Capacity(6) == 256 * 256 * Capacity(4);
    assert Capacity(8) == 256 * 256 * Capacity(6);
  }

  // ---- UTF-8, section 4 of RFC 3629 ----------------------------------------------

  predicate Tail(b: byte) {
    0x80 <= b <= 0xBF
  }

  /** The length of the well-formed sequence the bytes begin with, 0 if there is none. */
  function Utf8Head(b: seq<byte>): (n: nat)
    ensures n <= |b| && n <= 4
  {
    if |b| >= 1 && b[0] <= 0x7F then 1
    else if |b| >= 2 && 0xC2 <= b[0] <= 0xDF && Tail(b[1]) then 2
    else if |b| >= 3 && Tail(b[2]) &&
            ((b[0] == 0xE0 && 0xA0 <= b[1] <= 0xBF) || (0xE1 <= b[0] <= 0xEC && Tail(b[1])) ||
             (b[0] == 0xED && 0x80 <= b[1] <= 0x9F) || (0xEE <= b[0] <= 0xEF && Tail(b[1]))) then 3
    else if |b| >= 4 && Tail(b[2]) && Tail(b[3]) &&
            ((b[0] == 0xF0 && 0x90 <= b[1] <= 0xBF) || (0xF1 <= b[0] <= 0xF3 && Tail(b[1])) ||
             (b[0] == 0xF4 && 0x80 <= b[1] <= 0x8F)) then 4
    else 0
  }

  predicate Utf8(b: seq<byte>) {
    b == [] || (Utf8Head(b) > 0 && Utf8(b[Utf8Head(b)..]))
  }

  // ---- fields --------------------------------------------------------------------

  /** One field of a message: a fixed-width number or a length-prefixed string. */
  datatype Field = Number(n: nat) | Text(bytes: seq<byte>)
  datatype Kind = Fixed(width: nat) | Str(max: nat)

  /** `to_be_bytes` and `put_bytes`, whose length is cast to 32 bits. */
  function EncodeField(k: Kind, f: Field): seq<byte> {
    match f
    case Number(n) => ToBe(n, if k.Fixed? then k.width else 0)
    case Text(bytes) => ToBe(|bytes| % U32_LIMIT, 4) + bytes
  }

  function Take(buf: seq<byte>, n: nat): Parsed<seq<byte>> {
    if |buf| < n then Bad else Good(buf[..n], buf[n..])
  }

  function DecodeNumber(buf: seq<byte>, width: nat): Parsed<nat> {
    match Take(buf, width)
    case Bad => Bad
    case Good(b, rest) => Good(FromBe(b), rest)
  }

  /** `string`: length, cap check, bytes, UTF-8 check. */
  function DecodeText(buf: seq<byte>, max: nat): Parsed<seq<byte>> {
    match DecodeNumber(buf, 4)
    case Bad => Bad
    case Good(len, rest) =>
      if len > max then Bad
      else
        match Take(rest, len)
        case Bad => Bad
        case Good(b, rest') => if Utf8(b) then Good(b, rest') else Bad
  }

  function DecodeField(k: Kind, buf: seq<byte>): Parsed<Field> {
    match k
    case Fixed(width) =>
      (match DecodeNumber(buf, width) case Good(n, rest) => Good(Number(n), rest) case Bad => Bad)
    case Str(max) =>
      (match DecodeText(buf, max) case Good(b, rest) => Good(Text(b), rest) case Bad => Bad)
  }

  /** The field is one the decoder can return for this kind. */
  predicate FieldFits(k: Kind, f: Field) {
    match k
    case Fixed(width) => f.Number? && f.n < Capacity(width)
    case Str(max) => f.Text? && |f.bytes| <= max && |f.bytes| < U32_LIMIT && Utf8(f.bytes)
  }

  lemma FieldRoundTrip(k: Kind, f: Field, tail: seq<byte>)
    requires FieldFits(k, f)
    ensures DecodeField(k, EncodeField(k, f) + tail) == Good(f, tail)
  {
    hide Utf8, Capacity, ToBe, FromBe;
    var enc := EncodeField(k, f);
    match f {
      case Number(n) =>
        NumberRoundTrip(n, k.width);
        assert (enc + tail)[..k.width] == enc && (enc + tail)[k.width..] == tail;
      case Text(bytes) =>
        Widths();
        NumberRoundTrip(|bytes|, 4);
        var rest := bytes + tail;
        assert enc + tail == ToBe(|bytes|, 4) + rest;
        assert (enc + tail)[..4] == ToBe(|bytes|, 4) && (enc + tail)[4..] == rest;
        assert rest[..|bytes|] == bytes && rest[|bytes|..] == tail;
    }
  }

  lemma NumberCanonical(width: nat, buf: seq<byte>)
    requires DecodeNumber(buf, width).Good?
    ensures var r := DecodeNumber(buf, width);
            r.value < Capacity(width) && buf == ToBe(r.value, width) + r.rest
  {
    hide Capacity, ToBe, FromBe;
    BytesRoundTrip(buf[..width]);
    assert buf == buf[..width] + buf[width..];
  }

  lemma TextCanonical(max: nat, buf: seq<byte>)
    requires DecodeText(buf, max).Good?
    ensures var r := DecodeText(buf, max);
            && FieldFits(Str(max), Text(r.value))
            && buf == (ToBe(|r.value|, 4) + r.value) + r.rest
  {
    hide Utf8, Capacity, ToBe, FromBe;
    Widths();
    NumberCanonical(4, buf);
    var len, rest := DecodeNumber(buf, 4).value, DecodeNumber(buf, 4).rest;
    assert rest == rest[..len] + rest[len..];
    assert buf == ToBe(len, 4) + (rest[..len] + rest[len..]);
    assert buf == (ToBe(len, 4) + rest[..len]) + rest[len..];
  }

  lemma FieldCanonical(k: Kind, buf: seq<byte>)
    requires DecodeField(k, buf).Good?
    ensures FieldFits(k, DecodeField(k, buf).value)
    ensures buf == EncodeField(k, DecodeField(k, buf).value) + DecodeField(k, buf).rest
  {
    hide Utf8, Capacity, ToBe, FromBe, DecodeNumber, DecodeText;
    match k {
      case Fixed(width) => NumberCanonical(width, buf);
      case Str(max) => TextCanonical(max, buf);
    }
  }

  function EncodeFields(kinds: seq<Kind>, fields: seq<Field>): seq<byte>
    requires |kinds| == |fields|
  {
    if kinds == [] then [] else EncodeField(kinds[0], fields[0]) + EncodeFields(kinds[1..], fields[1..])
  }

  function DecodeFields(kinds: seq<Kind>, buf: seq<byte>): (r: Parsed<seq<Field>>)
    ensures r.Good? ==> |r.value| == |kinds|
    decreases |kinds|
  {
    if kinds == [] then Good([], buf)
    else
      match DecodeField(kinds[0], buf)
      case Bad => Bad
      case Good(f, rest) =>
        match DecodeFields(kinds[1..], rest)
        case Bad => Bad
        case Good(fs, rest') => Good([f] + fs, rest')
  }

  predicate Fits(kinds: seq<Kind>, fields: seq<Field>) {
    |kinds| == |fields| && forall i | 0 <= i < |kinds| :: FieldFits(kinds[i], fields[i])
  }

  lemma {:induction false} FieldsRoundTrip(kinds: seq<Kind>, fields: seq<Field>, tail: seq<byte>)
    requires Fits(kinds, fields)
    ensures DecodeFields(kinds, EncodeFields(kinds, fields) + tail) == Good(fields, tail)
    decreases |kinds|
  {
    hide EncodeField, DecodeField, FieldFits;
    if kinds == [] {
      assert [] + tail == tail;
    } else {
      var rest := EncodeFields(kinds[1..], fields[1..]);
      assert EncodeFields(kinds, fields) + tail == EncodeField(kinds[0], fields[0]) + (rest + tail);
      assert FieldFits(kinds[0], fields[0]);
      FieldRoundTrip(kinds[0], fields[0], rest + tail);
      assert forall i | 0 <= i < |kinds| - 1 :: kinds[1..][i] == kinds[i + 1] && fields[1..][i] == fields[i + 1];
      FieldsRoundTrip(kinds[1..], fields[1..], tail);
      assert fields == [fields[0]] + fields[1..];
    }
  }

  lemma {:induction false} FieldsCanonical(kinds: seq<Kind>, buf: seq<byte>)
    requires DecodeFields(kinds, buf).Good?
    ensures var r := DecodeFields(kinds, buf);
            Fits(kinds, r.value) && buf == EncodeFields(kinds, r.value) + r.rest
    decreases |kinds|
  {
    hide EncodeField, DecodeField, FieldFits;
    if kinds == [] {
      assert [] + buf == buf;
    } else {
      FieldCanonical(kinds[0], buf);
      var first := DecodeField(kinds[0], buf);
      FieldsCanonical(kinds[1..], first.rest);
      var others := DecodeFields(kinds[1..], first.rest);
      var fields := [first.value] + others.value;
      assert fields[1..] == others.value;
      assert EncodeField(kinds[0], first.value) + (EncodeFields(kinds[1..], others.value) + others.rest)
             == EncodeFields(kinds, fields) + others.rest;
      forall i | 0 <= i < |kinds| ensures FieldFits(kinds[i], fields[i]) {
        if i > 0 {
          assert kinds[i] == kinds[1..][i - 1] && fields[i] == others.value[i - 1];
        }
      }
    }
  }

  // ---- messages ------------------------------------------------------------------

  datatype PieceKind = NormalPiece | PersistentPiece | PersistentCachePiece

  function KindCode(k: PieceKind): nat {
    match k case NormalPiece => 0 case PersistentPiece => 1 case PersistentCachePiece => 2
  }

  function KindFrom(n: nat): Parsed<PieceKind> {
    if n == 0 then Good(NormalPiece, [])
    else if n == 1 then Good(PersistentPiece, [])
    else if n == 2 then Good(PersistentCachePiece, [])
    else Bad
  }

  datatype Message =
    | PieceRequest(kind: PieceKind, taskId: seq<byte>, pieceNumber: nat, chunkSize: nat, maxInflight: nat)
    | PieceMetadata(offset: nat, length: nat, digest: seq<byte>, chunkSize: nat, maxInflight: nat)
    | ReceiveWindow(startChunk: nat, chunkCount: nat)
    | RendezvousError(code: nat, message: seq<byte>)

  /** Which message the frame type announces. */
  datatype Shape = RequestShape | MetadataShape | WindowShape | ErrorShape

  function ShapeOf(m: Message): Shape {
    match m
    case PieceRequest(_, _, _, _, _) => RequestShape
    case PieceMetadata(_, _, _, _, _) => MetadataShape
    case ReceiveWindow(_, _) => WindowShape
    case RendezvousError(_, _) => ErrorShape
  }

  function Kinds(s: Shape): seq<Kind> {
    match s
    case RequestShape => [Fixed(1), Str(MAX_TASK_ID_LENGTH), Fixed(4), Fixed(8), Fixed(4)]
    case MetadataShape => [Fixed(8), Fixed(8), Str(MAX_STRING_LENGTH), Fixed(8), Fixed(4)]
    case WindowShape => [Fixed(8), Fixed(4)]
    case ErrorShape => [Fixed(4), Str(MAX_STRING_LENGTH)]
  }

  function Fields(m: Message): (f: seq<Field>)
    ensures |f| == |Kinds(ShapeOf(m))|
  {
    match m
    case PieceRequest(kind, taskId, number, chunk, inflight) =>
      [Number(KindCode(kind)), Text(taskId), Number(number), Number(chunk), Number(inflight)]
    case PieceMetadata(offset, length, digest, chunk, inflight) =>
      [Number(offset), Number(length), Text(digest), Number(chunk), Number(inflight)]
    case ReceiveWindow(start, count) => [Number(start), Number(count)]
    case RendezvousError(code, message) => [Number(code), Text(message)]
  }

  /** The values the Rust struct can hold: fields of their width, strings in UTF-8. */
  predicate WellTyped(m: Message) {
    match m
    case PieceRequest(_, taskId, number, chunk, inflight) =>
      Utf8(taskId) && number < U32_LIMIT && chunk <= U64_MAX && inflight < U32_LIMIT
    case PieceMetadata(offset, length, digest, chunk, inflight) =>
      offset <= U64_MAX && length <= U64_MAX && Utf8(digest) && chunk <= U64_MAX && inflight < U32_LIMIT
    case ReceiveWindow(start, count) => start <= U64_MAX && count < U32_LIMIT
    case RendezvousError(code, message) => code < U32_LIMIT && Utf8(message)
  }

  /** Its string is within the decoder's cap. */
  predicate WithinCap(m: Message) {
    match m
    case PieceRequest(_, taskId, _, _, _) => |taskId| <= MAX_TASK_ID_LENGTH
    case PieceMetadata(_, _, digest, _, _) => |digest| <= MAX_STRING_LENGTH
    case ReceiveWindow(_, _) => true
    case RendezvousError(_, message) => |message| <= MAX_STRING_LENGTH
  }

  function Encode(m: Message): seq<byte> {
    EncodeFields(Kinds(ShapeOf(m)), Fields(m))
  }

  /** The message of decoded fields; only the piece kind can still be invalid. */
  function FromFields(s: Shape, f: seq<Field>): Parsed<Message>
    requires |f| == |Kinds(s)|
    requires forall i | 0 <= i < |f| :: FieldFits(Kinds(s)[i], f[i])
  {
    match s
    case RequestShape =>
      assert FieldFits(Kinds(s)[0], f[0]) && FieldFits(Kinds(s)[1], f[1]) && FieldFits(Kinds(s)[2], f[2]) && FieldFits(Kinds(s)[3], f[3]) && FieldFits(Kinds(s)[4], f[4]);
      (match KindFrom(f[0].n)
       case Good(kind, _) => Good(PieceRequest(kind, f[1].bytes, f[2].n, f[3].n, f[4].n), [])
       case Bad => Bad)
    case MetadataShape =>
      assert FieldFits(Kinds(s)[0], f[0]) && FieldFits(Kinds(s)[1], f[1]) && FieldFits(Kinds(s)[2], f[2]) && FieldFits(Kinds(s)[3], f[3]) && FieldFits(Kinds(s)[4], f[4]);
      Good(PieceMetadata(f[0].n, f[1].n, f[2].bytes, f[3].n, f[4].n), [])
    case WindowShape =>
      assert FieldFits(Kinds(s)[0], f[0]) && FieldFits(Kinds(s)[1], f[1]);
      Good(ReceiveWindow(f[0].n, f[1].n), [])
    case ErrorShape =>
      assert FieldFits(Kinds(s)[0], f[0]) && FieldFits(Kinds(s)[1], f[1]);
      Good(RendezvousError(f[0].n, f[1].bytes), [])
  }

  /** `decode` followed by `finish`: the whole payload must be the message. */
  function Decode(s: Shape, payload: seq<byte>): Parsed<Message> {
    match DecodeFields(Kinds(s), payload)
    case Bad => Bad
    case Good(fields, rest) =>
      FieldsCanonical(Kinds(s), payload);
      if rest == [] then FromFields(s, fields) else Bad
  }

  lemma FieldsFit(m: Message)
    ensures WellTyped(m) && WithinCap(m) ==> Fits(Kinds(ShapeOf(m)), Fields(m))
  {
    hide Utf8;
    Widths();
  }

  /** Fields rebuild the message, and a rebuilt message has those fields. */
  lemma FieldsIdentify(m: Message)
    requires Fits(Kinds(ShapeOf(m)), Fields(m))
    ensures FromFields(ShapeOf(m), Fields(m)) == Good(m, [])
  {
    hide Utf8, Capacity;
  }

  lemma RebuiltFields(s: Shape, f: seq<Field>)
    requires Fits(Kinds(s), f) && FromFields(s, f).Good?
    ensures var m := FromFields(s, f).value;
            ShapeOf(m) == s && Fields(m) == f && WellTyped(m) && WithinCap(m)
  {
    hide Utf8;
    Widths();
    assert forall i | 0 <= i < |f| :: FieldFits(Kinds(s)[i], f[i]);
  }

  /** Decoding inverts encoding exactly on the messages whose string is within its cap. */
  lemma MessageRoundTrip(m: Message)
    requires WellTyped(m)
    ensures Decode(ShapeOf(m), Encode(m)) == Good(m, []) <==> WithinCap(m)
  {
    hide FieldFits, EncodeField, DecodeField, WellTyped;
    if WithinCap(m) {
      FieldsFit(m);
      FieldsRoundTrip(Kinds(ShapeOf(m)), Fields(m), []);
      assert Encode(m) + [] == Encode(m);
      FieldsIdentify(m);
    } else if Decode(ShapeOf(m), Encode(m)).Good? {
      MessageCanonical(ShapeOf(m), Encode(m));
    }
  }

  /** A payload that decodes is the encoding of what it decodes to, byte for byte. */
  lemma MessageCanonical(s: Shape, payload: seq<byte>)
    requires Decode(s, payload).Good?
    ensures var m := Decode(s, payload).value;
            ShapeOf(m) == s && WellTyped(m) && WithinCap(m) && Encode(m) == payload
  {
    hide FieldFits, EncodeField, DecodeField, WellTyped, WithinCap;
    FieldsCanonical(Kinds(s), payload);
    var r := DecodeFields(Kinds(s), payload);
    RebuiltFields(s, r.value);
    assert EncodeFields(Kinds(s), r.value) + [] == EncodeFields(Kinds(s), r.value);
  }

  /** Every encoding within the caps fits one envelope. */
  lemma EncodingFitsEnvelope(m: Message)
    requires WithinCap(m)
    ensures |Encode(m)| <= MAX_PAYLOAD_LENGTH
  {
    var k, f := Kinds(ShapeOf(m)), Fields(m);
    assert forall i | 0 <= i < |f| :: |EncodeField(k[i], f[i])| <= 4100;
    SizeBound(k, f);
  }

  lemma {:induction false} SizeBound(kinds: seq<Kind>, fields: seq<Field>)
    requires |kinds| == |fields| && forall i | 0 <= i < |kinds| :: |EncodeField(kinds[i], fields[i])| <= 4100
    ensures |EncodeFields(kinds, fields)| <= 4100 * |kinds|
  {
    hide EncodeField;
    if kinds != [] {
      assert forall i | 0 <= i < |kinds| - 1 :: kinds[1..][i] == kinds[i + 1] && fields[1..][i] == fields[i + 1];
      SizeBound(kinds[1..], fields[1..]);
    }
  }

  // ---- the reader and writer the transport uses ----------------------------------

  /** The payload being built. */
  class Payload {
    var bytes: seq<byte>

    constructor ()
      ensures bytes == []
    {
      bytes := [];
    }

    method PutNumber(n: nat, width: nat)
      modifies this
      ensures bytes == old(bytes) + ToBe(n, width)
    {
      bytes := bytes + ToBe(n, width);
    }

    method PutBytes(b: seq<byte>)
      modifies this
      ensures bytes == old(bytes) + (ToBe(|b| % U32_LIMIT, 4) + b)
    {
      bytes := bytes + ToBe(|b| % U32_LIMIT, 4);
      bytes := bytes + b;
    }
  }

  lemma EncodeNext(kinds: seq<Kind>, fields: seq<Field>, i: nat)
    requires |kinds| == |fields| && i < |kinds|
    ensures EncodeFields(kinds[i..], fields[i..])
            == EncodeField(kinds[i], fields[i]) + EncodeFields(kinds[i + 1..], fields[i + 1..])
  {
    assert kinds[i..][1..] == kinds[i + 1..] && fields[i..][1..] == fields[i + 1..];
  }

  method PutFields(kinds: seq<Kind>, fields: seq<Field>, payload: Payload)
    requires |kinds| == |fields| && forall i | 0 <= i < |kinds| :: fields[i].Number? <==> kinds[i].Fixed?
    modifies payload
    ensures payload.bytes == old(payload.bytes) + EncodeFields(kinds, fields)
  {
    hide ToBe, EncodeFields;
    var i := 0;
    assert kinds[0..] == kinds && fields[0..] == fields;
    while i < |kinds|
      invariant 0 <= i <= |kinds|
      invariant payload.bytes + EncodeFields(kinds[i..], fields[i..]) == old(payload.bytes) + EncodeFields(kinds, fields)
    {
      EncodeNext(kinds, fields, i);
      ghost var before, rest := payload.bytes, EncodeFields(kinds[i + 1..], fields[i + 1..]);
      match fields[i] {
        case Number(n) => payload.PutNumber(n, kinds[i].width);
        case Text(b) => payload.PutBytes(b);
      }
      assert payload.bytes == before + EncodeField(kinds[i], fields[i]);
      assert before + (EncodeField(kinds[i], fields[i]) + rest) == payload.bytes + rest;
      i := i + 1;
    }
    EncodeNone(kinds, fields);
    assert payload.bytes + [] == payload.bytes;
  }

  lemma EncodeNone(kinds: seq<Kind>, fields: seq<Field>)
    requires |kinds| == |fields|
    ensures EncodeFields(kinds[|kinds|..], fields[|kinds|..]) == []
  {
  }

  /** Appends the message's fields in declaration order. */
  method EncodeInto(m: Message, payload: Payload)
    modifies payload
    ensures payload.bytes == old(payload.bytes) + Encode(m)
  {
    FieldsTyped(m);
    PutFields(Kinds(ShapeOf(m)), Fields(m), payload);
  }

  lemma FieldsTyped(m: Message)
    ensures var kinds, fields := Kinds(ShapeOf(m)), Fields(m);
            forall i | 0 <= i < |kinds| :: fields[i].Number? <==> kinds[i].Fixed?
  {
  }

  /** A cursor over a received payload. */
  class PayloadReader {
    var buf: seq<byte>

    constructor (payload: seq<byte>)
      ensures buf == payload
    {
      buf := payload;
    }

    /** The next `n` bytes; too few leave the payload where it is. */
    method TakeBytes(n: nat) returns (ok: bool, head: seq<byte>)
      modifies this
      ensures if |old(buf)| < n then !ok && buf == old(buf) else ok && Take(old(buf), n) == Good(head, buf)
    {
      if |buf| < n {
        return false, [];
      }
      ok, head := true, buf[..n];
      buf := buf[n..];
    }

    method ReadField(k: Kind) returns (ok: bool, f: Field)
      modifies this
      ensures ok <==> DecodeField(k, old(buf)).Good?
      ensures ok ==> DecodeField(k, old(buf)) == Good(f, buf)
    {
      hide Utf8, FromBe;
      f := Number(0);
      match k {
        case Fixed(width) =>
          var b;
          ok, b := TakeBytes(width);
          if ok {
            f := Number(FromBe(b));
          }
        case Str(max) =>
          var b;
          ok, b := TakeBytes(4);
          if !ok {
            return;
          }
          var len := FromBe(b);
          if len > max {
            return false, f;
          }
          ok, b := TakeBytes(len);
          if ok {
            ok, f := Utf8(b), Text(b);
          }
      }
    }

    method Finish() returns (ok: bool)
      ensures ok <==> buf == []
    {
      return buf == [];
    }
  }

  lemma DecodeNext(kinds: seq<Kind>, i: nat, buf: seq<byte>, done: seq<Field>, whole: Parsed<seq<Field>>)
    requires i < |kinds| && Continues(kinds[i..], buf, done, whole)
    ensures match DecodeField(kinds[i], buf)
            case Bad => whole.Bad?
            case Good(f, rest) => Continues(kinds[i + 1..], rest, done + [f], whole)
  {
    hide DecodeField;
    assert kinds[i..][1..] == kinds[i + 1..];
    var r := DecodeField(kinds[i], buf);
    if r.Good? && DecodeFields(kinds[i + 1..], r.rest).Good? {
      var more := DecodeFields(kinds[i + 1..], r.rest).value;
      assert done + ([r.value] + more) == (done + [r.value]) + more;
    }
  }

  /** Decoding the rest after the fields already read gives the whole result. */
  ghost predicate Continues(kinds: seq<Kind>, buf: seq<byte>, done: seq<Field>, whole: Parsed<seq<Field>>) {
    match DecodeFields(kinds, buf)
    case Good(more, rest) => whole == Good(done + more, rest)
    case Bad => whole.Bad?
  }

  lemma ContinuesEnds(kinds: seq<Kind>, buf: seq<byte>, done: seq<Field>, whole: Parsed<seq<Field>>)
    ensures whole == DecodeFields(kinds, buf) && done == [] ==> Continues(kinds, buf, done, whole)
    ensures kinds == [] && Continues(kinds, buf, done, whole) ==> whole == Good(done, buf)
  {
    assert done + [] == done;
    if whole.Good? {
      assert [] + whole.value == whole.value;
    }
  }

  /** Reads the fields of a message one by one, then requires the payload to be used up. */
  method DecodePayload(s: Shape, payload: seq<byte>) returns (r: Parsed<Message>)
    ensures r == Decode(s, payload)
  {
    hide DecodeField, DecodeFields, Continues, FromFields, Kinds;
    var reader := new PayloadReader(payload);
    var kinds := Kinds(s);
    var fields: seq<Field> := [];
    var i := 0;
    ghost var whole := DecodeFields(kinds, payload);
    assert kinds[0..] == kinds;
    ContinuesEnds(kinds, payload, [], whole);
    while i < |kinds|
      invariant 0 <= i <= |kinds|
      invariant Continues(kinds[i..], reader.buf, fields, whole)
    {
      DecodeNext(kinds, i, reader.buf, fields, whole);
      var ok, f := reader.ReadField(kinds[i]);
      if !ok {
        return Bad;
      }
      fields := fields + [f];
      i := i + 1;
    }
    assert kinds[i..] == [];
    ContinuesEnds(kinds[i..], reader.buf, fields, whole);
    var finished := reader.Finish();
    if !finished {
      return Bad;
    }
    FieldsCanonical(kinds, payload);
    return FromFields(s, fields);
  }
}
