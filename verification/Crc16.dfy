/** The 16-bit CRC register (src/core/crc16.cpp). */
module Crc16 {

  type Byte = bv8

  const GENERATOR: bv16 := 0x8005

  // ---------------------------------------------------------------------
  // The register as sixteen coefficients, and what the loops make of it
  // ---------------------------------------------------------------------

  /** Bit i of the register: the coefficient of x^i. */
  type Reg = r: seq<bool> | |r| == 16 witness seq(16, _ => false)

  function Zeros(n: nat): seq<bool> {
    seq(n, _ => false)
  }

  const ZERO: Reg := Zeros(16)

  /** The generator 0x8005 has the coefficients x^15, x^2 and 1. */
  predicate Tap(i: int) {
    i == 0 || i == 2 || i == 15
  }

  /** One bit shifted in from below; a one falling out at the top subtracts the generator. */
  function ShiftIn(r: Reg, bit: bool): Reg {
    seq(16, i requires 0 <= i < 16 => (if i == 0 then bit else r[i - 1]) != (r[15] && Tap(i)))
  }

  /** The register after the bits have been shifted in, the first bit first. */
  function Run(r: Reg, bits: seq<bool>): Reg {
    if bits == [] then r
    else ShiftIn(Run(r, bits[..|bits| - 1]), bits[|bits| - 1])
  }

  /** The i-th power of two as a byte. */
  function ByteBit(i: nat): Byte {
    if i == 0 then 1 else ByteBit(i - 1) << 1
  }

  predicate TestByte(b: Byte, i: nat) {
    b & ByteBit(i) != 0
  }

  /** The bits of a byte in the order the register takes them: lowest first. */
  function ByteBits(b: Byte): (bits: seq<bool>)
    ensures |bits| == 8
  {
    seq(8, i requires 0 <= i < 8 => TestByte(b, i))
  }

  function BitsOf(data: seq<Byte>): (bits: seq<bool>)
    ensures |bits| == 8 * |data|
  {
    if data == [] then [] else BitsOf(data[..|data| - 1]) + ByteBits(data[|data| - 1])
  }

  function Flush(r: Reg): Reg {
    Run(r, Zeros(16))
  }

  function Mirror(r: Reg): Reg {
    seq(16, i requires 0 <= i < 16 => r[15 - i])
  }

  /** The bits of what crc16_compute returns for a byte string, bit 0 first. */
  function Crc(data: seq<Byte>): Reg {
    Mirror(Flush(Run(ZERO, BitsOf(data))))
  }

  // ---------------------------------------------------------------------
  // Machine words
  // ---------------------------------------------------------------------

  /** The i-th power of two as a word; from 16 on it has been shifted out. */
  function Bit(i: nat): bv16 {
    if i == 0 then 1 else Bit(i - 1) << 1
  }

  predicate Test(v: bv16, i: nat) {
    v & Bit(i) != 0
  }

  function Word(v: bv16): Reg {
    seq(16, i requires 0 <= i < 16 => Test(v, i))
  }

  function XorReg(reg: bv16, regMsb: bv16): bv16 {
    if regMsb != 0 then reg ^ GENERATOR else reg
  }

  predicate IsBit(m: bv16) {
    m != 0 && m & (m - 1) == 0
  }

  lemma PowersOfTwo()
    ensures Bit(0) == 0x0001 && Bit(1) == 0x0002 && Bit(2) == 0x0004 && Bit(3) == 0x0008
    ensures Bit(4) == 0x0010 && Bit(5) == 0x0020 && Bit(6) == 0x0040 && Bit(7) == 0x0080
    ensures Bit(8) == 0x0100 && Bit(9) == 0x0200 && Bit(10) == 0x0400 && Bit(11) == 0x0800
    ensures Bit(12) == 0x1000 && Bit(13) == 0x2000 && Bit(14) == 0x4000 && Bit(15) == 0x8000
  {
  }

  lemma BitFacts(i: nat)
    requires i < 16
    ensures IsBit(Bit(i)) && (GENERATOR & Bit(i) != 0) == Tap(i)
    ensures i < 15 ==> Bit(i) & 0x8000 == 0
  {
    PowersOfTwo();
    if i == 0 {} else if i == 1 {} else if i == 2 {} else if i == 3 {}
    else if i == 4 {} else if i == 5 {} else if i == 6 {} else if i == 7 {}
    else if i == 8 {} else if i == 9 {} else if i == 10 {} else if i == 11 {}
    else if i == 12 {} else if i == 13 {} else if i == 14 {} else {}
  }

  lemma {:induction false} BitsAscend(k: nat, i: nat)
    requires k < i < 16
    ensures Bit(k) < Bit(i)
  {
    BitFacts(i - 1);
    Doubles(Bit(i - 1), Bit(i));
    if k < i - 1 { BitsAscend(k, i - 1); }
  }

  lemma Doubles(m: bv16, next: bv16)
    requires m != 0 && m & 0x8000 == 0 && next == m << 1
    ensures m < next
  {
  }

  lemma MaskShifted(reg: bv16, bit: bv16, m: bv16, next: bv16)
    requires (bit == 0 || bit == 1) && m & 0x8000 == 0 && next == m << 1
    ensures (((reg << 1) | bit) & next != 0) == (reg & m != 0)
  {
  }

  lemma MaskLowest(reg: bv16, bit: bv16)
    requires bit == 0 || bit == 1
    ensures (((reg << 1) | bit) & 1 != 0) == (bit == 1)
  {
  }

  lemma MaskXor(a: bv16, b: bv16, m: bv16)
    requires IsBit(m)
    ensures ((a ^ b) & m != 0) == ((a & m != 0) != (b & m != 0))
  {
  }

  lemma ShiftedBit(reg: bv16, b: bool, bit: bv16, shifted: bv16, i: nat)
    requires i < 16 && bit == (if b then 1 else 0) && shifted == (reg << 1) | bit
    ensures Test(shifted, i) == if i == 0 then b else Test(reg, i - 1)
  {
    if i == 0 {
      MaskLowest(reg, bit);
    } else {
      BitFacts(i - 1);
      MaskShifted(reg, bit, Bit(i - 1), Bit(i));
    }
  }

  lemma XoredBit(shifted: bv16, i: nat)
    requires i < 16
    ensures Test(shifted ^ GENERATOR, i) == (Test(shifted, i) != Tap(i))
  {
    BitFacts(i);
    MaskXor(shifted, GENERATOR, Bit(i));
  }

  lemma TopBit(reg: bv16)
    ensures (reg >> 15 != 0) == Test(reg, 15)
  {
    PowersOfTwo();
    TopMask(reg);
  }

  lemma TopMask(reg: bv16)
    ensures (reg >> 15 != 0) == (reg & 0x8000 != 0)
  {
  }

  lemma XorRegBits(shifted: bv16, msb: bv16, i: nat)
    requires i < 16
    ensures Test(XorReg(shifted, msb), i) == (Test(shifted, i) != (msb != 0 && Tap(i)))
  {
    if msb != 0 {
      assert XorReg(shifted, msb) == shifted ^ GENERATOR;
      XoredBit(shifted, i);
    }
  }

  lemma ShiftedWordBit(reg: bv16, b: bool, bit: bv16, shifted: bv16, msb: bv16, next: bv16, i: nat)
    requires i < 16 && bit == (if b then 1 else 0) && shifted == (reg << 1) | bit
    requires msb == reg >> 15 && next == XorReg(shifted, msb)
    ensures Test(next, i) == ((if i == 0 then b else Test(reg, i - 1)) != (Test(reg, 15) && Tap(i)))
  {
    TopBit(reg);
    ShiftedBit(reg, b, bit, shifted, i);
    XorRegBits(shifted, msb, i);
  }

  /** The bits of next are those of reg after one shift of the register. */
  ghost predicate ShiftedTests(reg: bv16, b: bool, next: bv16) {
    forall i :: 0 <= i < 16 ==>
      Test(next, i) == ((if i == 0 then b else Test(reg, i - 1)) != (Test(reg, 15) && Tap(i)))
  }

  lemma WordFromTests(reg: bv16, b: bool, next: bv16)
    requires ShiftedTests(reg, b, next)
    ensures Word(next) == ShiftIn(Word(reg), b)
  {
  }

  lemma MachineShift(reg: bv16, b: bool, bit: bv16, shifted: bv16, msb: bv16, next: bv16)
    requires bit == (if b then 1 else 0) && shifted == (reg << 1) | bit
    requires msb == reg >> 15 && next == XorReg(shifted, msb)
    ensures ShiftedTests(reg, b, next)
  {
    forall i | 0 <= i < 16
      ensures Test(next, i) == ((if i == 0 then b else Test(reg, i - 1)) != (Test(reg, 15) && Tap(i)))
    {
      ShiftedWordBit(reg, b, bit, shifted, msb, next, i);
    }
  }

  /** The machine's shift, or and conditional xor are one step of the register. */
  lemma ShiftedWord(reg: bv16, b: bool, bit: bv16, shifted: bv16, msb: bv16, next: bv16)
    requires bit == (if b then 1 else 0) && shifted == (reg << 1) | bit
    requires msb == reg >> 15 && next == XorReg(shifted, msb)
    ensures Word(next) == ShiftIn(Word(reg), b)
  {
    MachineShift(reg, b, bit, shifted, msb, next);
    WordFromTests(reg, b, next);
  }

  method ShiftedOne(i: nat) returns (mask: bv16)
    requires i < 16
    ensures mask == Bit(i)
  {
    mask := 1 << i;
    if i == 0 {} else if i == 1 {} else if i == 2 {} else if i == 3 {}
    else if i == 4 {} else if i == 5 {} else if i == 6 {} else if i == 7 {}
    else if i == 8 {} else if i == 9 {} else if i == 10 {} else if i == 11 {}
    else if i == 12 {} else if i == 13 {} else if i == 14 {} else {}
  }

  lemma MaskOr(r: bv16, on: bool, m: bv16, n: bv16)
    requires IsBit(m) && IsBit(n)
    ensures ((r | (if on then n else 0)) & m != 0) == (r & m != 0 || (on && m == n))
  {
  }

  /** The loop's work after i iterations: the low i bits are the mirrored high bits. */
  ghost predicate MirroredUpTo(value: bv16, result: bv16, i: nat)
    requires i <= 16
  {
    forall k :: 0 <= k < 16 ==> Test(result, k) == (k < i && Test(value, 15 - k))
  }

  lemma ReverseIteration(value: bv16, result: bv16, i: nat, mask: bv16, on: bool, next: bv16)
    requires i < 16 && MirroredUpTo(value, result, i)
    requires mask == Bit(i) && on == Test(value, 15 - i) && next == result | (if on then mask else 0)
    ensures MirroredUpTo(value, next, i + 1)
  {
    forall k | 0 <= k < 16 ensures Test(next, k) == (k < i + 1 && Test(value, 15 - k)) {
      assert Test(result, k) == (k < i && Test(value, 15 - k));
      ReversedBit(result, i, mask, on, next, k);
    }
  }

  lemma ReversedBit(result: bv16, i: nat, mask: bv16, on: bool, next: bv16, k: nat)
    requires i < 16 && k < 16 && mask == Bit(i) && next == result | (if on then mask else 0)
    ensures Test(next, k) == (Test(result, k) || (on && k == i))
  {
    BitFacts(i);
    BitFacts(k);
    MaskOr(result, on, Bit(k), mask);
    if k < i { BitsAscend(k, i); } else if i < k { BitsAscend(i, k); }
  }

  lemma NothingMirrored(value: bv16)
    ensures MirroredUpTo(value, 0, 0)
  {
  }

  method ComputeReverse(value: bv16) returns (result: bv16)
    ensures Word(result) == Mirror(Word(value))
  {
    result := 0;
    NothingMirrored(value);
    for bitIndex := 0 to 16
      invariant MirroredUpTo(value, result, bitIndex)
    {
      result := ReverseBit(value, result, bitIndex);
    }
    AllMirrored(value, result);
  }

  lemma AllMirrored(value: bv16, result: bv16)
    requires MirroredUpTo(value, result, 16)
    ensures Word(result) == Mirror(Word(value))
  {
  }

  method TestBit(value: bv16, i: nat) returns (on: bool)
    requires i < 16
    ensures on == Test(value, i)
  {
    var valueMask := ShiftedOne(i);
    on := value & valueMask != 0;
  }

  /** The body of the reversal loop. */
  method ReverseBit(value: bv16, result: bv16, bitIndex: nat) returns (next: bv16)
    requires bitIndex < 16 && MirroredUpTo(value, result, bitIndex)
    ensures MirroredUpTo(value, next, bitIndex + 1)
  {
    var on := TestBit(value, 15 - bitIndex);
    var resultMask := ShiftedOne(bitIndex);
    next := result | (if on then resultMask else 0);
    ReverseIteration(value, result, bitIndex, resultMask, on, next);
  }

  method BitOfByte(b: Byte, i: nat) returns (bit: bv16)
    requires i < 8
    ensures bit == if ByteBits(b)[i] then 1 else 0
  {
    bit := ((b >> i) & 1) as bv16;
    if i == 0 {} else if i == 1 {} else if i == 2 {} else if i == 3 {}
    else if i == 4 {} else if i == 5 {} else if i == 6 {} else { assert i == 7; }
  }

  // ---------------------------------------------------------------------
  // crc16_compute
  // ---------------------------------------------------------------------

  lemma RunSnoc(r: Reg, bits: seq<bool>, b: bool)
    ensures Run(r, bits + [b]) == ShiftIn(Run(r, bits), b)
  {
    assert (bits + [b])[..|bits|] == bits;
  }

  lemma {:induction false} RunAppend(r: Reg, a: seq<bool>, b: seq<bool>)
    ensures Run(r, a + b) == Run(Run(r, a), b)
  {
    if b == [] {
      assert a + b == a;
    } else {
      var front := b[..|b| - 1];
      assert a + b == (a + front) + [b[|b| - 1]];
      RunSnoc(r, a + front, b[|b| - 1]);
      RunAppend(r, a, front);
    }
  }

  lemma BitsOfSnoc(data: seq<Byte>, byte: Byte)
    ensures BitsOf(data + [byte]) == BitsOf(data) + ByteBits(byte)
  {
    assert (data + [byte])[..|data|] == data;
  }

  lemma ByteLoopStep(before: seq<bool>, byte: Byte, i: nat)
    requires i < 8
    ensures Run(ZERO, before + ByteBits(byte)[..i + 1])
         == ShiftIn(Run(ZERO, before + ByteBits(byte)[..i]), ByteBits(byte)[i])
  {
    RunSnoc(ZERO, before + ByteBits(byte)[..i], ByteBits(byte)[i]);
    assert before + ByteBits(byte)[..i + 1] == before + ByteBits(byte)[..i] + [ByteBits(byte)[i]];
  }

  lemma FlushStep(loaded: Reg, i: nat)
    ensures Run(loaded, Zeros(i + 1)) == ShiftIn(Run(loaded, Zeros(i)), false)
  {
    RunSnoc(loaded, Zeros(i), false);
    assert Zeros(i + 1) == Zeros(i) + [false];
  }

  lemma ZeroWord()
    ensures Word(0) == ZERO
  {
  }

  lemma OrZero(v: bv16)
    ensures v | 0 == v
  {
  }

  method ComputeCrc16(data: array<Byte>, length: nat) returns (crc: bv16)
    requires length <= data.Length
    ensures Word(crc) == Crc(data[..length])
  {
    var reg: bv16 := 0;
    ZeroWord();
    for byteIndex := 0 to length
      invariant Word(reg) == Run(ZERO, BitsOf(data[..byteIndex]))
    {
      var byte := data[byteIndex];
      ghost var before := BitsOf(data[..byteIndex]);
      assert before + ByteBits(byte)[..0] == before;
      for bitIndex := 0 to 8
        invariant Word(reg) == Run(ZERO, before + ByteBits(byte)[..bitIndex])
      {
        var regMsb := reg >> 15;
        var bit := BitOfByte(byte, bitIndex);
        ByteLoopStep(before, byte, bitIndex);
        ghost var was := reg;
        reg := (reg << 1) | bit;
        ghost var shifted := reg;
        reg := XorReg(reg, regMsb);
        ShiftedWord(was, ByteBits(byte)[bitIndex], bit, shifted, regMsb, reg);
      }
      assert ByteBits(byte)[..8] == ByteBits(byte);
      BitsOfSnoc(data[..byteIndex], byte);
      assert data[..byteIndex + 1] == data[..byteIndex] + [byte];
    }
    ghost var loaded := Word(reg);
    for i := 0 to 16
      invariant Word(reg) == Run(loaded, Zeros(i))
    {
      var regMsb := reg >> 15;
      FlushStep(loaded, i);
      ghost var was := reg;
      reg := reg << 1;
      OrZero(reg);
      ghost var shifted := reg;
      reg := XorReg(reg, regMsb);
      ShiftedWord(was, false, 0, shifted, regMsb, reg);
    }
    crc := ComputeReverse(reg);
  }
}
