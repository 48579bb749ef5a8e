/** CRC-32 as defined in section 8 of RFC 1952, and the decimal text of its value. */
module Crc32 {
  import opened Bytes
  import opened Decimal

  const INITIAL: bv32 := 0xFFFF_FFFF
  const POLYNOMIAL: bv32 := 0xEDB8_8320

  /** Bit `i` of a number, the lowest first. */
  predicate BitOf(n: nat, i: nat) {
    if i == 0 then n % 2 == 1 else BitOf(n / 2, i - 1)
  }

  /** The byte in the low bits of the register. */
  function Lift(b: byte): bv32 {
    (if BitOf(b, 0) then 0x01 else 0) | (if BitOf(b, 1) then 0x02 else 0)
    | (if BitOf(b, 2) then 0x04 else 0) | (if BitOf(b, 3) then 0x08 else 0)
    | (if BitOf(b, 4) then 0x10 else 0) | (if BitOf(b, 5) then 0x20 else 0)
    | (if BitOf(b, 6) then 0x40 else 0) | (if BitOf(b, 7) then 0x80 else 0)
  }

  function Half(c: bv32): bv32 {
    c >> 1
  }

  function Mix(a: bv32, b: bv32): bv32 {
    a ^ b
  }

  predicate Odd(c: bv32) {
    c & 1 == 1
  }

  function Shift(c: bv32): bv32 {
    if Odd(c) then Mix(Half(c), POLYNOMIAL) else Half(c)
  }

  function Shifts(c: bv32, n: nat): bv32 {
    if n == 0 then c else Shift(Shifts(c, n - 1))
  }

  function UpdateByte(c: bv32, b: byte): bv32 {
    Shifts(Mix(c, Lift(b)), 8)
  }

  /** The hasher state after `data`. */
  function Update(c: bv32, data: seq<byte>): bv32 {
    if data == [] then c else UpdateByte(Update(c, data[..|data| - 1]), data[|data| - 1])
  }

  /** Hashing two parts one after the other hashes their concatenation. */
  lemma {:induction false} UpdateAppend(c: bv32, a: seq<byte>, b: seq<byte>)
    ensures Update(Update(c, a), b) == Update(c, a + b)
  {
    hide UpdateByte;
    if b == [] {
      assert a + b == a;
    } else {
      UpdateAppend(c, a, b[..|b| - 1]);
      assert (a + b)[..|a + b| - 1] == a + b[..|b| - 1];
    }
  }

  /** The hash a writer reports for its bytes. */
  function HashOf(data: seq<byte>): string {
    Finish(Update(INITIAL, data))
  }

  /** The number in the low `n` bits. */
  function Number(c: bv32, n: nat): nat {
    if n == 0 then 0 else (if Odd(c) then 1 else 0) + 2 * Number(Half(c), n - 1)
  }

  function Finish(c: bv32): string {
    Print(Number(Mix(c, INITIAL), 32))
  }
}
