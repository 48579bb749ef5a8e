/** What the hash of a piece is: the remainder of a polynomial division. */
module Crc32Meaning {
  import opened Bytes
  import opened Decimal
  import opened Polynomials
  import opened Crc32

  // ---- bits of the register ------------------------------------------------------

  /** Bit `i` of the register, the lowest first. */
  predicate Bit(c: bv32, i: nat) {
    if i == 0 then Odd(c) else Bit(Half(c), i - 1)
  }

  function Shr4(c: bv32): bv32 {
    c >> 4
  }

  function Shr8(c: bv32): bv32 {
    c >> 8
  }

  predicate Flag(c: bv32, mask: bv32) {
    c & mask != 0
  }

  // Facts about single words.

  lemma HalfMix(a: bv32, b: bv32)
    ensures Half(Mix(a, b)) == Mix(Half(a), Half(b)) && (Odd(Mix(a, b)) <==> Odd(a) != Odd(b))
  {
  }

  lemma Halves(c: bv32)
    ensures Half(Half(Half(Half(c)))) == Shr4(c) && Shr4(Shr4(c)) == Shr8(c)
    ensures Shr8(Shr8(Shr8(Shr8(c)))) == 0
  {
  }

  lemma Flags(c: bv32)
    ensures (Odd(c) <==> Flag(c, 1)) && (Odd(Half(c)) <==> Flag(c, 2))
    ensures (Odd(Half(Half(c))) <==> Flag(c, 4)) && (Odd(Half(Half(Half(c)))) <==> Flag(c, 8))
    ensures (Flag(Shr4(c), 1) <==> Flag(c, 0x10)) && (Flag(Shr4(c), 2) <==> Flag(c, 0x20))
    ensures (Flag(Shr4(c), 4) <==> Flag(c, 0x40)) && (Flag(Shr4(c), 8) <==> Flag(c, 0x80))
  {
  }

  // And about the bits of a word.

  lemma {:induction false} BitMix(a: bv32, b: bv32, i: nat)
    ensures Bit(Mix(a, b), i) <==> Bit(a, i) != Bit(b, i)
    decreases i
  {
    hide Half, Mix, Odd;
    HalfMix(a, b);
    if i > 0 {
      BitMix(Half(a), Half(b), i - 1);
    }
  }

  lemma {:induction false} BitZero(i: nat)
    ensures !Bit(0, i)
  {
    if i > 0 {
      assert Half(0) == 0;
      BitZero(i - 1);
    }
  }

  lemma Drop4(c: bv32, i: nat)
    ensures Bit(c, i + 4) <==> Bit(Shr4(c), i)
  {
    hide Half, Odd, Shr4, Shr8;
    Halves(c);
    var c1, c2, c3 := Half(c), Half(Half(c)), Half(Half(Half(c)));
    assert Bit(c, i + 4) == Bit(c1, i + 3) && Bit(c1, i + 3) == Bit(c2, i + 2);
    assert Bit(c2, i + 2) == Bit(c3, i + 1) && Bit(c3, i + 1) == Bit(Half(c3), i);
  }

  lemma Drop8(c: bv32, i: nat)
    ensures Bit(c, i + 8) <==> Bit(Shr8(c), i)
  {
    hide Half, Odd, Shr4, Shr8, Bit;
    Drop4(c, i + 4);
    Drop4(Shr4(c), i);
    Halves(c);
  }

  lemma LowBits(c: bv32)
    ensures (Bit(c, 0) <==> Flag(c, 0x01)) && (Bit(c, 1) <==> Flag(c, 0x02))
    ensures (Bit(c, 2) <==> Flag(c, 0x04)) && (Bit(c, 3) <==> Flag(c, 0x08))
  {
    hide Half, Odd, Shr4, Flag;
    Flags(c);
    assert Bit(c, 1) == Bit(Half(c), 0);
    assert Bit(c, 2) == Bit(Half(c), 1) && Bit(Half(c), 1) == Bit(Half(Half(c)), 0);
    assert Bit(c, 3) == Bit(Half(c), 2) && Bit(Half(c), 2) == Bit(Half(Half(c)), 1);
    assert Bit(Half(Half(c)), 1) == Bit(Half(Half(Half(c))), 0);
  }

  lemma LowByte(c: bv32)
    ensures (Bit(c, 0) <==> Flag(c, 0x01)) && (Bit(c, 1) <==> Flag(c, 0x02))
    ensures (Bit(c, 2) <==> Flag(c, 0x04)) && (Bit(c, 3) <==> Flag(c, 0x08))
    ensures (Bit(c, 4) <==> Flag(c, 0x10)) && (Bit(c, 5) <==> Flag(c, 0x20))
    ensures (Bit(c, 6) <==> Flag(c, 0x40)) && (Bit(c, 7) <==> Flag(c, 0x80))
  {
    hide Half, Odd, Shr4, Flag, Bit;
    Flags(c);
    LowBits(c);
    LowBits(Shr4(c));
    Drop4(c, 0);
    Drop4(c, 1);
    Drop4(c, 2);
    Drop4(c, 3);
  }

  /** The word without its lowest `k` bytes. */
  function Down(c: bv32, k: nat): bv32 {
    if k == 0 then c else Down(Shr8(c), k - 1)
  }

  lemma {:induction false} BitDown(c: bv32, k: nat, i: nat)
    ensures Bit(c, 8 * k + i) <==> Bit(Down(c, k), i)
    decreases k
  {
    hide Shr8, Bit;
    if k > 0 {
      Drop8(c, 8 * (k - 1) + i);
      BitDown(Shr8(c), k - 1, i);
    }
  }

  /** A register has no bit past its width. */
  lemma BitPast(c: bv32, i: nat)
    requires i >= 32
    ensures !Bit(c, i)
  {
    hide Bit, Shr8;
    BitDown(c, 4, i - 32);
    Halves(c);
    assert Down(c, 4) == Down(Shr8(c), 3) && Down(Shr8(c), 3) == Down(Shr8(Shr8(c)), 2);
    assert Down(Shr8(Shr8(c)), 2) == Down(Shr8(Shr8(Shr8(c))), 1);
    assert Down(Shr8(Shr8(Shr8(c))), 1) == Down(Shr8(Shr8(Shr8(Shr8(c)))), 0);
    BitZero(i - 32);
  }

  lemma OnesBits(i: nat)
    requires i < 32
    ensures Bit(INITIAL, i)
  {
    hide Bit;
    BitDown(INITIAL, i / 8, i % 8);
    assert Down(INITIAL, 1) == 0x00FF_FFFF && Down(INITIAL, 2) == 0x0000_FFFF && Down(INITIAL, 3) == 0xFF;
    LowByte(Down(INITIAL, i / 8));
  }

  /** The feedback constant is the generator without its leading term, lowest exponent in the highest bit. */
  lemma PolynomialBits(i: nat)
    requires i < 32
    ensures Bit(POLYNOMIAL, i) <==> 31 - i in GENERATOR
  {
    hide Bit;
    BitDown(POLYNOMIAL, i / 8, i % 8);
    assert Down(POLYNOMIAL, 1) == 0x00ED_B883 && Down(POLYNOMIAL, 2) == 0x0000_EDB8 && Down(POLYNOMIAL, 3) == 0xED;
    LowByte(Down(POLYNOMIAL, i / 8));
  }

  lemma LiftFlags(b: byte)
    ensures (Flag(Lift(b), 0x01) <==> BitOf(b, 0)) && (Flag(Lift(b), 0x02) <==> BitOf(b, 1))
    ensures (Flag(Lift(b), 0x04) <==> BitOf(b, 2)) && (Flag(Lift(b), 0x08) <==> BitOf(b, 3))
    ensures (Flag(Lift(b), 0x10) <==> BitOf(b, 4)) && (Flag(Lift(b), 0x20) <==> BitOf(b, 5))
    ensures (Flag(Lift(b), 0x40) <==> BitOf(b, 6)) && (Flag(Lift(b), 0x80) <==> BitOf(b, 7))
    ensures Shr8(Lift(b)) == 0
  {
    hide BitOf;
  }

  lemma LiftBits(b: byte, i: nat)
    ensures Bit(Lift(b), i) <==> i < 8 && BitOf(b, i)
  {
    hide BitOf, Bit, Lift, Flag, Shr8;
    LiftFlags(b);
    LowByte(Lift(b));
    if i >= 8 {
      Drop8(Lift(b), i - 8);
      BitZero(i - 8);
    }
  }

  // ---- the register as a remainder -----------------------------------------------

  /** The polynomial in the register: the highest exponent in the lowest bit. */
  function Register(c: bv32): Poly {
    set e | e in Below(32) && Bit(c, 31 - e)
  }

  lemma ShiftBit(c: bv32, e: nat)
    requires e < 32
    ensures Bit(Shift(c), 31 - e) <==> (e > 0 && Bit(c, 32 - e)) != (Odd(c) && e in GENERATOR)
  {
    hide Half, Mix, Odd;
    BitMix(Half(c), POLYNOMIAL, 31 - e);
    PolynomialBits(31 - e);
    BitPast(c, 32);
    assert Bit(c, 32 - e) == Bit(Half(c), 31 - e);
  }

  lemma InRegister(c: bv32, e: nat)
    ensures e in Register(c) <==> e < 32 && Bit(c, 31 - e)
  {
  }

  /** One shift multiplies by the unknown, modulo the generator. */
  lemma ShiftCongruent(c: bv32)
    ensures Congruent(Register(Shift(c)), Times(Register(c), 1))
  {
    hide Odd, Times, Multiple, Shift, Bit, Register;
    var q := if Odd(c) then [true] else [];
    OneMultiple(Odd(c));
    var r := Register(Shift(c));
    LowestBit(c);
    forall e: nat ensures e in r <==> e in Add(Times(Register(c), 1), Multiple(q)) {
      InTimes(Register(c), 1, e);
      GeneratorBound(e);
      InRegister(Shift(c), e);
      if e > 0 {
        InRegister(c, e - 1);
      }
      if e < 32 {
        ShiftBit(c, e);
      }
    }
    assert r == Add(Times(Register(c), 1), Multiple(q));
  }

  lemma LowestBit(c: bv32)
    ensures Bit(c, 0) <==> Odd(c)
  {
  }

  lemma GeneratorBound(e: nat)
    ensures e >= 32 ==> (e in GENERATOR <==> e == 32)
  {
  }

  lemma OneMultiple(one: bool)
    ensures Multiple(if one then [true] else []) == if one then GENERATOR else {}
  {
    assert [true][..0] == [];
    assert Multiple([]) == {};
    forall e: nat ensures e in Times(GENERATOR, 0) <==> e in GENERATOR {
      InTimes(GENERATOR, 0, e);
    }
    assert Times(GENERATOR, 0) == GENERATOR;
  }

  lemma {:induction false} ShiftsCongruent(c: bv32, n: nat)
    ensures Congruent(Register(Shifts(c, n)), Times(Register(c), n))
    decreases n
  {
    hide Shift, Register, Times, Congruent;
    if n == 0 {
      TimesNothing(Register(c));
      CongruentSelf(Register(c));
    } else {
      var d := Shifts(c, n - 1);
      ShiftsCongruent(c, n - 1);
      ShiftCongruent(d);
      CongruentTimes(Register(d), Times(Register(c), n - 1));
      TimesTwice(Register(c), n - 1, 1);
      CongruentThen(Register(Shift(d)), Times(Register(d), 1), Times(Register(c), n));
    }
  }

  lemma TimesNothing(a: Poly)
    ensures Times(a, 0) == a
  {
    forall e: nat ensures e in Times(a, 0) <==> e in a {
      InTimes(a, 0, e);
    }
  }

  /** The byte where it enters the register: its lowest bit at the highest exponent. */
  function Entering(b: byte): Poly {
    set e | e in Below(32) && 24 <= e && BitOf(b, 31 - e)
  }

  lemma MixEnters(c: bv32, b: byte)
    ensures Register(Mix(c, Lift(b))) == Add(Register(c), Entering(b))
  {
    hide Bit, Mix, Lift, BitOf, Register, Entering;
    forall e: nat ensures e in Register(Mix(c, Lift(b))) <==> e in Add(Register(c), Entering(b)) {
      InRegister(Mix(c, Lift(b)), e);
      InRegister(c, e);
      InEntering(b, e);
      if e < 32 {
        BitMix(c, Lift(b), 31 - e);
        LiftBits(b, 31 - e);
      }
    }
  }

  // ---- the division ----------------------------------------------------------------

  /**
   The message as a polynomial: the bits of each byte go lowest first, and the
   first bit has the highest exponent.
   */
  function Message(data: seq<byte>): Poly {
    set e | e in Below(8 * |data|) && BitOf(data[|data| - 1 - e / 8], 7 - e % 8)
  }

  /** The 32 leading ones of the complement. */
  function Ones(): Poly {
    Below(32)
  }

  /** The message, raised by 32, with its first 32 bits complemented. */
  function Dividend(data: seq<byte>): Poly {
    Add(Times(Message(data), 32), Times(Ones(), 8 * |data|))
  }

  /** `v` is the complement of the remainder, the highest exponent in its lowest bit. */
  ghost predicate IsCrc(data: seq<byte>, v: nat) {
    v < 0x1_0000_0000 && Congruent(Dividend(data), Complement(v))
  }

  function Complement(v: nat): Poly {
    set e | e in Below(32) && !BitOf(v, 31 - e)
  }

  lemma MessageNext(data: seq<byte>, b: byte)
    ensures Times(Message(data + [b]), 32) == Add(Times(Times(Message(data), 32), 8), Times(Entering(b), 8))
  {
    hide BitOf, Times, Message, Entering;
    var longer := data + [b];
    forall e: nat
      ensures e in Times(Message(longer), 32) <==> e in Add(Times(Times(Message(data), 32), 8), Times(Entering(b), 8))
    {
      InTimes(Message(longer), 32, e);
      InTimes(Times(Message(data), 32), 8, e);
      InTimes(Entering(b), 8, e);
      if e >= 8 {
        InTimes(Message(data), 32, e - 8);
        InEntering(b, e - 8);
      }
      if e >= 32 {
        NextBit(data, b, e - 32);
      }
    }
  }

  lemma InEntering(b: byte, e: nat)
    ensures e in Entering(b) <==> 24 <= e < 32 && BitOf(b, 31 - e)
  {
  }

  lemma NextBit(data: seq<byte>, b: byte, e: nat)
    ensures e in Message(data + [b]) <==> if e < 8 then BitOf(b, 7 - e) else e - 8 in Message(data)
  {
    hide BitOf;
    var longer := data + [b];
    if 8 <= e < 8 * |longer| {
      assert (e - 8) / 8 == e / 8 - 1 && (e - 8) % 8 == e % 8;
      assert longer[|longer| - 1 - e / 8] == data[|data| - 1 - (e - 8) / 8];
    }
  }

  lemma DividendNext(data: seq<byte>, b: byte)
    ensures Dividend(data + [b]) == Times(Add(Dividend(data), Entering(b)), 8)
  {
    hide Times, Message, Ones, Entering;
    MessageNext(data, b);
    TimesTwice(Ones(), 8 * |data|, 8);
    TimesAdd(Dividend(data), Entering(b), 8);
    TimesAdd(Times(Message(data), 32), Times(Ones(), 8 * |data|), 8);
    assert 8 * |data + [b]| == 8 * |data| + 8;
  }

  lemma {:induction false} CongruentTimesMany(a: Poly, b: Poly, n: nat)
    requires Congruent(a, b)
    ensures Congruent(Times(a, n), Times(b, n))
    decreases n
  {
    hide Times, Congruent;
    if n == 0 {
      TimesNothing(a);
      TimesNothing(b);
    } else {
      CongruentTimesMany(a, b, n - 1);
      CongruentTimes(Times(a, n - 1), Times(b, n - 1));
      TimesTwice(a, n - 1, 1);
      TimesTwice(b, n - 1, 1);
    }
  }

  /** The hasher's state is the remainder of what it has been given. */
  lemma {:induction false} UpdateCongruent(data: seq<byte>)
    ensures Congruent(Register(Update(INITIAL, data)), Dividend(data))
  {
    hide Register, Times, Congruent, Shifts, Dividend, Mix, Lift, Entering;
    if data == [] {
      StartCongruent();
    } else {
      var front, b := data[..|data| - 1], data[|data| - 1];
      var c := Update(INITIAL, front);
      UpdateCongruent(front);
      assert data == front + [b];
      DividendNext(front, b);
      MixEnters(c, b);
      ShiftsCongruent(Mix(c, Lift(b)), 8);
      CongruentAdd(Register(c), Dividend(front), Entering(b));
      CongruentTimesMany(Add(Register(c), Entering(b)), Add(Dividend(front), Entering(b)), 8);
      CongruentThen(Register(UpdateByte(c, b)), Times(Add(Register(c), Entering(b)), 8), Dividend(data));
    }
  }

  lemma StartCongruent()
    ensures Congruent(Register(INITIAL), Dividend([]))
  {
    hide Bit, Times, Congruent;
    TimesNothing(Ones());
    assert Message([]) == {};
    forall e: nat ensures e !in Times(Message([]), 32) {
      InTimes(Message([]), 32, e);
    }
    forall e: nat ensures e in Register(INITIAL) <==> e in Ones() {
      if e < 32 {
        OnesBits(31 - e);
      }
    }
    assert Register(INITIAL) == Dividend([]);
    CongruentSelf(Register(INITIAL));
  }

  // ---- the number reported -----------------------------------------------------------

  lemma {:induction false} NumberBits(c: bv32, n: nat, i: nat)
    requires i < n
    ensures BitOf(Number(c, n), i) <==> Bit(c, i)
    decreases n
  {
    hide Half, Odd;
    var rest := Number(Half(c), n - 1);
    assert Number(c, n) / 2 == rest;
    if i > 0 {
      NumberBits(Half(c), n - 1, i - 1);
    }
  }

  function Pow2(n: nat): nat {
    if n == 0 then 1 else 2 * Pow2(n - 1)
  }

  lemma {:induction false} NumberBound(c: bv32, n: nat)
    ensures Number(c, n) < Pow2(n)
    decreases n
  {
    hide Half, Odd;
    if n > 0 {
      NumberBound(Half(c), n - 1);
    }
  }

  /** Numbers of `n` bits are told apart by their bits. */
  lemma {:induction false} SameBits(v: nat, w: nat, n: nat)
    requires v < Pow2(n) && w < Pow2(n) && forall i: nat | i < n :: BitOf(v, i) <==> BitOf(w, i)
    ensures v == w
    decreases n
  {
    if n > 0 {
      assert BitOf(v, 0) == BitOf(w, 0);
      forall i: nat | i < n - 1 ensures BitOf(v / 2, i) <==> BitOf(w / 2, i) {
        assert BitOf(v, i + 1) == BitOf(w, i + 1);
      }
      SameBits(v / 2, w / 2, n - 1);
    }
  }

  lemma ThirtyTwo()
    ensures Pow2(32) == 0x1_0000_0000
  {
    assert Pow2(8) == 256;
    assert Pow2(16) == 256 * Pow2(8);
    assert Pow2(24) == 256 * Pow2(16);
    assert Pow2(32) == 256 * Pow2(24);
  }

  /** Complementing the register and reading it as a number loses nothing. */
  lemma ReportedComplement(c: bv32)
    ensures Number(Mix(c, INITIAL), 32) < 0x1_0000_0000
    ensures Complement(Number(Mix(c, INITIAL), 32)) == Register(c)
  {
    hide Bit, Mix, BitOf, Number;
    var v := Number(Mix(c, INITIAL), 32);
    NumberBound(Mix(c, INITIAL), 32);
    ThirtyTwo();
    forall e: nat ensures e in Complement(v) <==> e in Register(c) {
      if e < 32 {
        NumberBits(Mix(c, INITIAL), 32, 31 - e);
        BitMix(c, INITIAL, 31 - e);
        OnesBits(31 - e);
      }
    }
  }

  /**
   The hash reported for any bytes is the decimal text of their CRC-32 and of no
   other number: the complement of the remainder, of degree below 32, of the
   complemented message divided by the generator.
   */
  lemma HashIsCrc(data: seq<byte>, v: nat)
    ensures IsCrc(data, v) <==> HashOf(data) == Print(v)
  {
    hide Congruent, Register, Complement, Dividend, Number, Mix, Update, Print;
    var c := Update(INITIAL, data);
    var w := Number(Mix(c, INITIAL), 32);
    ReportedComplement(c);
    UpdateCongruent(data);
    CongruentBack(Register(c), Dividend(data));
    if IsCrc(data, v) {
      CongruentThen(Register(c), Dividend(data), Complement(v));
      LowSets(c, v);
      RemainderUnique(Register(c), Complement(v));
      SameComplement(v, w);
    }
    if HashOf(data) == Print(v) {
      PrintRoundTrip(v);
      PrintRoundTrip(w);
    }
  }

  lemma LowSets(c: bv32, v: nat)
    ensures Low(Register(c)) && Low(Complement(v))
  {
  }

  lemma SameComplement(v: nat, w: nat)
    requires v < 0x1_0000_0000 && w < 0x1_0000_0000 && Complement(v) == Complement(w)
    ensures v == w
  {
    hide BitOf;
    ThirtyTwo();
    forall i: nat | i < 32 ensures BitOf(v, i) <==> BitOf(w, i) {
      assert (31 - i in Complement(v)) == (31 - i in Complement(w));
    }
    SameBits(v, w, 32);
  }

  /** The check value: the hash of the digits one to nine. */
  lemma CheckValue()
    ensures HashOf([49, 50, 51, 52, 53, 54, 55, 56, 57]) == "3421780262"
  {
    CheckState();
    CheckNumber();
    CheckText();
  }

  lemma CheckState()
    ensures Update(INITIAL, [49, 50, 51, 52, 53, 54, 55, 56, 57]) == 0x340B_C6D9
  {
    hide UpdateByte;
    CheckSteps();
    var data: seq<byte> := [49, 50, 51, 52, 53, 54, 55, 56, 57];
    UpdateNone(data);
    UpdateNext(data, 0);
    UpdateNext(data, 1);
    UpdateNext(data, 2);
    UpdateNext(data, 3);
    UpdateNext(data, 4);
    UpdateNext(data, 5);
    UpdateNext(data, 6);
    UpdateNext(data, 7);
    UpdateNext(data, 8);
    assert data[..9] == data;
  }

  lemma UpdateNone(data: seq<byte>)
    ensures Update(INITIAL, data[..0]) == INITIAL
  {
  }

  lemma UpdateNext(data: seq<byte>, k: nat)
    requires k < |data|
    ensures Update(INITIAL, data[..k + 1]) == UpdateByte(Update(INITIAL, data[..k]), data[k])
  {
    assert data[..k + 1][..k] == data[..k];
  }

  lemma CheckSteps()
    ensures UpdateByte(0xFFFF_FFFF, 49) == 0x7C23_1048
    ensures UpdateByte(0x7C23_1048, 50) == 0xB0AC_BB32
    ensures UpdateByte(0xB0AC_BB32, 51) == 0x77B7_9C2D
    ensures UpdateByte(0x77B7_9C2D, 52) == 0x641C_1F5C
    ensures UpdateByte(0x641C_1F5C, 53) == 0x340A_C5E3
    ensures UpdateByte(0x340A_C5E3, 54) == 0xF68D_2C9E
    ensures UpdateByte(0xF68D_2C9E, 55) == 0xAFFC_9660
    ensures UpdateByte(0xAFFC_9660, 56) == 0x651F_2550
    ensures UpdateByte(0x651F_2550, 57) == 0x340B_C6D9
  {
    hide UpdateByte;
    FirstSteps();
    MiddleSteps();
    LastSteps();
  }

  lemma FirstSteps()
    ensures UpdateByte(0xFFFF_FFFF, 49) == 0x7C23_1048
    ensures UpdateByte(0x7C23_1048, 50) == 0xB0AC_BB32
    ensures UpdateByte(0xB0AC_BB32, 51) == 0x77B7_9C2D
  {
    hide Lift;
    LiftDigits();
  }

  lemma MiddleSteps()
    ensures UpdateByte(0x77B7_9C2D, 52) == 0x641C_1F5C
    ensures UpdateByte(0x641C_1F5C, 53) == 0x340A_C5E3
    ensures UpdateByte(0x340A_C5E3, 54) == 0xF68D_2C9E
  {
    hide Lift;
    LiftDigits();
  }

  lemma LastSteps()
    ensures UpdateByte(0xF68D_2C9E, 55) == 0xAFFC_9660
    ensures UpdateByte(0xAFFC_9660, 56) == 0x651F_2550
    ensures UpdateByte(0x651F_2550, 57) == 0x340B_C6D9
  {
    hide Lift;
    LiftDigits();
  }

  lemma LiftDigits()
    ensures Lift(49) == 49 && Lift(50) == 50 && Lift(51) == 51 && Lift(52) == 52 && Lift(53) == 53
    ensures Lift(54) == 54 && Lift(55) == 55 && Lift(56) == 56 && Lift(57) == 57
  {
  }

  lemma CheckNumber()
    ensures Number(Mix(0x340B_C6D9, INITIAL), 32) == 0xCBF4_3926
  {
    assert Mix(0x340B_C6D9, INITIAL) == 0xCBF4_3926;
    assert Number(0x0, 0) == 0x0;
    assert Number(0x3, 2) == 0x3;
    assert Number(0xc, 4) == 0xc;
    assert Number(0x32, 6) == 0x32;
    assert Number(0xcb, 8) == 0xcb;
    assert Number(0x32f, 10) == 0x32f;
    assert Number(0xcbf, 12) == 0xcbf;
    assert Number(0x32fd, 14) == 0x32fd;
    assert Number(0xcbf4, 16) == 0xcbf4;
    assert Number(0x32fd0, 18) == 0x32fd0;
    assert Number(0xcbf43, 20) == 0xcbf43;
    assert Number(0x32fd0e, 22) == 0x32fd0e;
    assert Number(0xcbf439, 24) == 0xcbf439;
    assert Number(0x32fd0e4, 26) == 0x32fd0e4;
    assert Number(0xcbf4392, 28) == 0xcbf4392;
    assert Number(0x32fd0e49, 30) == 0x32fd0e49;
    assert Number(0xcbf43926, 32) == 0xcbf43926;
  }

  lemma CheckText()
    ensures Print(0xCBF4_3926) == "3421780262"
  {
    hide Print;
    PrintFirst(3);
    PrintNext(3, 4);
    PrintNext(34, 2);
    PrintNext(342, 1);
    PrintNext(3421, 7);
    PrintNext(34217, 8);
    PrintNext(342178, 0);
    PrintNext(3421780, 2);
    PrintNext(34217802, 6);
    PrintNext(342178026, 2);
    assert "3" + "4" + "2" + "1" + "7" + "8" + "0" + "2" + "6" + "2" == "3421780262";
  }
}
