/** The strings the decoder accepts: exactly the UTF-8 of sequences of Unicode scalar values. */
module Utf8Meaning {
  import opened Bytes
  import opened Rendezvous

  /** A Unicode scalar value: a code point that is not a surrogate. */
  predicate IsScalar(c: nat) {
    c < 0xD800 || 0xE000 <= c < 0x11_0000
  }

  /** Its encoding, section 3 of RFC 3629. */
  function EncodeScalar(c: nat): (b: seq<byte>)
    requires IsScalar(c)
    ensures 1 <= |b| <= 4
  {
    if c < 0x80 then [c]
    else if c < 0x800 then [0xC0 + c / 0x40, 0x80 + c % 0x40]
    else if c < 0x1_0000 then [0xE0 + c / 0x1000, 0x80 + c / 0x40 % 0x40, 0x80 + c % 0x40]
    else [0xF0 + c / 0x4_0000, 0x80 + c / 0x1000 % 0x40, 0x80 + c / 0x40 % 0x40, 0x80 + c % 0x40]
  }

  predicate AllScalars(cs: seq<nat>) {
    forall i | 0 <= i < |cs| :: IsScalar(cs[i])
  }

  function EncodeScalars(cs: seq<nat>): seq<byte>
    requires AllScalars(cs)
  {
    if cs == [] then [] else EncodeScalar(cs[0]) + EncodeScalars(cs[1..])
  }

  /** The scalar value whose encoding the bytes begin with. */
  function HeadScalar(b: seq<byte>): int
    requires Utf8Head(b) > 0
  {
    var n := Utf8Head(b);
    if n == 1 then b[0] as int
    else if n == 2 then (b[0] as int - 0xC0) * 0x40 + (b[1] as int - 0x80)
    else if n == 3 then (b[0] as int - 0xE0) * 0x1000 + (b[1] as int - 0x80) * 0x40 + (b[2] as int - 0x80)
    else (b[0] as int - 0xF0) * 0x4_0000 + (b[1] as int - 0x80) * 0x1000 + (b[2] as int - 0x80) * 0x40 + (b[3] as int - 0x80)
  }

  lemma Digits(high: nat, low: nat)
    requires low < 0x40
    ensures (high * 0x40 + low) / 0x40 == high && (high * 0x40 + low) % 0x40 == low
  {
  }

  lemma TwoBytes(x: int, y: int)
    requires 0xC2 <= x <= 0xDF && 0x80 <= y <= 0xBF
    ensures var c := (x - 0xC0) * 0x40 + (y - 0x80);
            c >= 0 && IsScalar(c) && EncodeScalar(c) == [x, y]
  {
    Digits(x - 0xC0, y - 0x80);
  }

  lemma ThreeBytes(x: int, y: int, z: int)
    requires 0xE0 <= x <= 0xEF && 0x80 <= y <= 0xBF && 0x80 <= z <= 0xBF
    requires (x == 0xE0 ==> y >= 0xA0) && (x == 0xED ==> y <= 0x9F)
    ensures var c := (x - 0xE0) * 0x1000 + (y - 0x80) * 0x40 + (z - 0x80);
            c >= 0 && IsScalar(c) && EncodeScalar(c) == [x, y, z]
  {
    var high := (x - 0xE0) * 0x40 + (y - 0x80);
    var c := (x - 0xE0) * 0x1000 + (y - 0x80) * 0x40 + (z - 0x80);
    Digits(high, z - 0x80);
    Digits(x - 0xE0, y - 0x80);
    assert c == high * 0x40 + (z - 0x80) && c / 0x1000 == c / 0x40 / 0x40;
  }

  lemma FourBytes(x: int, y: int, z: int, w: int)
    requires 0xF0 <= x <= 0xF4 && 0x80 <= y <= 0xBF && 0x80 <= z <= 0xBF && 0x80 <= w <= 0xBF
    requires (x == 0xF0 ==> y >= 0x90) && (x == 0xF4 ==> y <= 0x8F)
    ensures var c := (x - 0xF0) * 0x4_0000 + (y - 0x80) * 0x1000 + (z - 0x80) * 0x40 + (w - 0x80);
            c >= 0 && IsScalar(c) && EncodeScalar(c) == [x, y, z, w]
  {
    var top := (x - 0xF0) * 0x40 + (y - 0x80);
    var high := top * 0x40 + (z - 0x80);
    var c := (x - 0xF0) * 0x4_0000 + (y - 0x80) * 0x1000 + (z - 0x80) * 0x40 + (w - 0x80);
    Digits(high, w - 0x80);
    Digits(top, z - 0x80);
    Digits(x - 0xF0, y - 0x80);
    assert c == high * 0x40 + (w - 0x80);
    assert c / 0x1000 == c / 0x40 / 0x40 && c / 0x4_0000 == c / 0x40 / 0x40 / 0x40;
  }

  lemma HeadIsScalar(b: seq<byte>)
    requires Utf8Head(b) > 0
    ensures HeadScalar(b) >= 0 && IsScalar(HeadScalar(b)) && EncodeScalar(HeadScalar(b)) == b[..Utf8Head(b)]
  {
    hide EncodeScalar, IsScalar;
    var n := Utf8Head(b);
    if n == 1 {
      OneByte(b[0]);
      assert b[..1] == [b[0]];
    } else if n == 2 {
      TwoBytes(b[0], b[1]);
      assert b[..2] == [b[0], b[1]];
    } else if n == 3 {
      ThreeBytes(b[0], b[1], b[2]);
      assert b[..3] == [b[0], b[1], b[2]];
    } else {
      FourBytes(b[0], b[1], b[2], b[3]);
      assert b[..4] == [b[0], b[1], b[2], b[3]];
    }
  }

  lemma OneByte(x: int)
    requires 0 <= x < 0x80
    ensures IsScalar(x) && EncodeScalar(x) == [x]
  {
  }

  /** An encoded scalar value in front of any bytes is recognised, whole. */
  lemma ScalarIsHead(c: nat, tail: seq<byte>)
    requires IsScalar(c)
    ensures Utf8Head(EncodeScalar(c) + tail) == |EncodeScalar(c)|
  {
    var b := EncodeScalar(c) + tail;
    if c < 0x80 {
    } else if c < 0x800 {
      assert 0xC2 <= b[0] <= 0xDF;
    } else if c < 0x1_0000 {
      assert 0xE0 <= b[0] <= 0xEF;
      assert b[0] == 0xE0 ==> b[1] >= 0xA0;
      assert b[0] == 0xED ==> b[1] <= 0x9F;
    } else {
      assert 0xF0 <= b[0] <= 0xF4;
      assert b[0] == 0xF0 ==> b[1] >= 0x90;
      assert b[0] == 0xF4 ==> b[1] <= 0x8F;
    }
  }

  lemma {:induction false} EncodedIsUtf8(cs: seq<nat>)
    requires AllScalars(cs)
    ensures Utf8(EncodeScalars(cs))
  {
    hide Utf8Head, EncodeScalar;
    if cs != [] {
      var first, rest := EncodeScalar(cs[0]), EncodeScalars(cs[1..]);
      EncodedIsUtf8(cs[1..]);
      ScalarIsHead(cs[0], rest);
      assert (first + rest)[|first|..] == rest;
    }
  }

  lemma {:induction false} Utf8IsEncoded(b: seq<byte>) returns (cs: seq<nat>)
    requires Utf8(b)
    ensures AllScalars(cs) && EncodeScalars(cs) == b
  {
    hide Utf8Head, EncodeScalar, HeadScalar;
    if b == [] {
      cs := [];
    } else {
      var n := Utf8Head(b);
      HeadIsScalar(b);
      var rest := Utf8IsEncoded(b[n..]);
      cs := [HeadScalar(b)] + rest;
      assert cs[1..] == rest;
      assert b == b[..n] + b[n..];
    }
  }

  /** The check accepts exactly the encodings of sequences of scalar values. */
  lemma Utf8Exactly(b: seq<byte>)
    ensures Utf8(b) <==> exists cs: seq<nat> :: AllScalars(cs) && EncodeScalars(cs) == b
  {
    hide Utf8;
    if Utf8(b) {
      var cs := Utf8IsEncoded(b);
    }
    forall cs: seq<nat> | AllScalars(cs) && EncodeScalars(cs) == b ensures Utf8(b) {
      EncodedIsUtf8(cs);
    }
  }
}
