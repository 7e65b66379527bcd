/** The register as a linear machine over GF(2): xor, parity, and the order of x modulo G. */
module CrcAlgebra {
  import opened Crc16

  function XorBits(a: seq<bool>, b: seq<bool>): (r: seq<bool>)
    requires |a| == |b|
    ensures |r| == |a|
  {
    seq(|a|, i requires 0 <= i < |a| => a[i] != b[i])
  }

  function Xor(a: Reg, b: Reg): Reg {
    XorBits(a, b)
  }

  function XorBytes(a: seq<Byte>, b: seq<Byte>): (r: seq<Byte>)
    requires |a| == |b|
    ensures |r| == |a|
  {
    if a == [] then [] else XorBytes(a[..|a| - 1], b[..|b| - 1]) + [a[|a| - 1] ^ b[|b| - 1]]
  }

  // ---------------------------------------------------------------------
  // Linearity
  // ---------------------------------------------------------------------

  lemma ByteMaskXor(a: Byte, b: Byte, m: Byte)
    requires m & (m - 1) == 0
    ensures ((a ^ b) & m != 0) == ((a & m != 0) != (b & m != 0))
  {
  }

  lemma ByteBitIsPower(i: nat)
    requires i < 8
    ensures ByteBit(i) & (ByteBit(i) - 1) == 0
  {
    if i == 0 {} else if i == 1 {} else if i == 2 {} else if i == 3 {}
    else if i == 4 {} else if i == 5 {} else if i == 6 {} else { assert i == 7; }
  }

  lemma ByteBitsXor(a: Byte, b: Byte)
    ensures ByteBits(a ^ b) == XorBits(ByteBits(a), ByteBits(b))
  {
    forall i | 0 <= i < 8 ensures TestByte(a ^ b, i) == (TestByte(a, i) != TestByte(b, i)) {
      ByteBitIsPower(i);
      ByteMaskXor(a, b, ByteBit(i));
    }
  }

  lemma XorAppend(a: seq<bool>, c: seq<bool>, b: seq<bool>, d: seq<bool>)
    requires |a| == |b| && |c| == |d|
    ensures XorBits(a + c, b + d) == XorBits(a, b) + XorBits(c, d)
  {
  }

  lemma {:induction false} BitsOfXor(a: seq<Byte>, b: seq<Byte>)
    requires |a| == |b|
    ensures BitsOf(XorBytes(a, b)) == XorBits(BitsOf(a), BitsOf(b))
  {
    if a != [] {
      var n := |a| - 1;
      BitsOfXor(a[..n], b[..n]);
      ByteBitsXor(a[n], b[n]);
      BitsOfXorSnoc(XorBytes(a[..n], b[..n]), a[n] ^ b[n], a, b);
    }
  }

  lemma BitsOfXorSnoc(front: seq<Byte>, last: Byte, a: seq<Byte>, b: seq<Byte>)
    requires |a| == |b| == |front| + 1
    requires BitsOf(front) == XorBits(BitsOf(a[..|front|]), BitsOf(b[..|front|]))
    requires ByteBits(last) == XorBits(ByteBits(a[|front|]), ByteBits(b[|front|]))
    ensures BitsOf(front + [last]) == XorBits(BitsOf(a), BitsOf(b))
  {
    var n := |front|;
    BitsOfSnoc(front, last);
    XorAppend(BitsOf(a[..n]), ByteBits(a[n]), BitsOf(b[..n]), ByteBits(b[n]));
  }

  lemma ShiftInXor(a: Reg, b: Reg, p: bool, q: bool)
    ensures ShiftIn(Xor(a, b), p != q) == Xor(ShiftIn(a, p), ShiftIn(b, q))
  {
  }

  lemma {:induction false} RunXor(a: Reg, b: Reg, s: seq<bool>, t: seq<bool>)
    requires |s| == |t|
    ensures Run(Xor(a, b), XorBits(s, t)) == Xor(Run(a, s), Run(b, t))
  {
    if s != [] {
      var n := |s| - 1;
      assert XorBits(s, t)[..n] == XorBits(s[..n], t[..n]);
      RunXor(a, b, s[..n], t[..n]);
      ShiftInXor(Run(a, s[..n]), Run(b, t[..n]), s[n], t[n]);
    }
  }

  /** crc(a xor b) = crc(a) xor crc(b), through both loops and the reversal. */
  lemma {:induction false} CrcXor(a: seq<Byte>, b: seq<Byte>)
    requires |a| == |b|
    ensures Crc(XorBytes(a, b)) == Xor(Crc(a), Crc(b))
  {
    BitsOfXor(a, b);
    assert Xor(ZERO, ZERO) == ZERO;
    assert XorBits(Zeros(16), Zeros(16)) == Zeros(16);
    RunXor(ZERO, ZERO, BitsOf(a), BitsOf(b));
    RunXor(Run(ZERO, BitsOf(a)), Run(ZERO, BitsOf(b)), Zeros(16), Zeros(16));
  }

  // ---------------------------------------------------------------------
  // Parity: 0x8005 has an odd number of bits, so x + 1 divides the generator
  // ---------------------------------------------------------------------

  function Parity(s: seq<bool>): bool {
    if s == [] then false else Parity(s[..|s| - 1]) != s[|s| - 1]
  }

  lemma {:induction false} ParityAppend(a: seq<bool>, b: seq<bool>)
    ensures Parity(a + b) == (Parity(a) != Parity(b))
  {
    if b == [] {
      assert a + b == a;
    } else {
      var n := |b| - 1;
      assert (a + b)[..|a| + n] == a + b[..n];
      ParityAppend(a, b[..n]);
    }
  }

  lemma {:induction false} ParityXor(a: seq<bool>, b: seq<bool>)
    requires |a| == |b|
    ensures Parity(XorBits(a, b)) == (Parity(a) != Parity(b))
  {
    if a != [] {
      var n := |a| - 1;
      assert XorBits(a, b)[..n] == XorBits(a[..n], b[..n]);
      ParityXor(a[..n], b[..n]);
    }
  }

  lemma {:induction false} ParityZeros(n: nat)
    ensures !Parity(Zeros(n))
  {
    if n > 0 {
      assert Zeros(n)[..n - 1] == Zeros(n - 1);
      ParityZeros(n - 1);
    }
  }

  function Taps(on: bool): Reg {
    seq(16, i requires 0 <= i < 16 => on && Tap(i))
  }

  lemma ParityTaps(on: bool)
    ensures Parity(Taps(on)) == on
  {
    var zero := [false];
    assert Taps(on) == ([on] + zero) + ([on] + Zeros(12)) + [on];
    ParityZeros(12);
    ParityAppend([on], zero);
    ParityAppend([on], Zeros(12));
    ParityAppend([on] + zero, [on] + Zeros(12));
  }

  lemma ParityShiftIn(r: Reg, bit: bool)
    ensures Parity(ShiftIn(r, bit)) == (Parity(r) != bit)
  {
    var moved: Reg := [bit] + r[..15];
    assert ShiftIn(r, bit) == XorBits(moved, Taps(r[15]));
    ParityXor(moved, Taps(r[15]));
    ParityTaps(r[15]);
    ParityAppend([bit], r[..15]);
    assert r == r[..15] + [r[15]];
  }

  lemma {:induction false} ParityRun(r: Reg, bits: seq<bool>)
    ensures Parity(Run(r, bits)) == (Parity(r) != Parity(bits))
  {
    if bits != [] {
      var n := |bits| - 1;
      ParityRun(r, bits[..n]);
      ParityShiftIn(Run(r, bits[..n]), bits[n]);
    }
  }

  function Reversed(s: seq<bool>): (t: seq<bool>)
    ensures |t| == |s|
  {
    seq(|s|, i requires 0 <= i < |s| => s[|s| - 1 - i])
  }

  lemma {:induction false} ParityReversed(s: seq<bool>)
    ensures Parity(Reversed(s)) == Parity(s)
  {
    if s != [] {
      var n := |s| - 1;
      assert Reversed(s) == [s[n]] + Reversed(s[..n]);
      ParityAppend([s[n]], Reversed(s[..n]));
      ParityReversed(s[..n]);
    }
  }

  /** The CRC has the bit parity of the data it was computed over. */
  lemma CrcParity(data: seq<Byte>)
    ensures Parity(Crc(data)) == Parity(BitsOf(data))
  {
    var r := Run(ZERO, BitsOf(data));
    ParityRun(ZERO, BitsOf(data));
    ParityZeros(16);
    ParityRun(r, Zeros(16));
    assert Mirror(Flush(r)) == Reversed(Flush(r));
    ParityReversed(Flush(r));
  }

  // ---------------------------------------------------------------------
  // Powers of x
  // ---------------------------------------------------------------------

  /** n shifts of zero bits: multiplication by x^n modulo G. */
  function Steps(r: Reg, n: nat): Reg {
    if n == 0 then r else ShiftIn(Steps(r, n - 1), false)
  }

  const ONE: Reg := [true] + Zeros(15)

  function PowX(n: nat): Reg {
    Steps(ONE, n)
  }

  lemma {:induction false} RunZeros(r: Reg, n: nat)
    ensures Run(r, Zeros(n)) == Steps(r, n)
  {
    if n > 0 {
      assert Zeros(n)[..n - 1] == Zeros(n - 1);
      RunZeros(r, n - 1);
    }
  }

  lemma {:induction false} StepsAdd(r: Reg, m: nat, n: nat)
    ensures Steps(r, m + n) == Steps(Steps(r, m), n)
  {
    if n > 0 { StepsAdd(r, m, n - 1); }
  }

  lemma {:induction false} StepsXor(a: Reg, b: Reg, n: nat)
    ensures Steps(Xor(a, b), n) == Xor(Steps(a, n), Steps(b, n))
  {
    if n > 0 {
      StepsXor(a, b, n - 1);
      ShiftInXor(Steps(a, n - 1), Steps(b, n - 1), false, false);
    }
  }

  lemma ShiftInjective(a: Reg, b: Reg)
    requires ShiftIn(a, false) == ShiftIn(b, false)
    ensures a == b
  {
    var s, t := ShiftIn(a, false), ShiftIn(b, false);
    assert s[0] == t[0];
    forall i | 0 <= i < 15 ensures a[i] == b[i] {
      assert s[i + 1] == t[i + 1];
    }
  }

  /** The zero-input step loses nothing. */
  lemma {:induction false} StepsInjective(a: Reg, b: Reg, n: nat)
    requires Steps(a, n) == Steps(b, n)
    ensures a == b
  {
    if n > 0 {
      ShiftInjective(Steps(a, n - 1), Steps(b, n - 1));
      StepsInjective(a, b, n - 1);
    }
  }

  lemma {:induction false} StepsZero(n: nat)
    ensures Steps(ZERO, n) == ZERO
  {
    if n > 0 { StepsZero(n - 1); }
  }

  /** Equal powers make the difference of the exponents a period. */
  lemma PowXQuotient(m: nat, n: nat)
    requires m >= n && PowX(m) == PowX(n)
    ensures PowX(m - n) == ONE
  {
    StepsAdd(ONE, m - n, n);
    StepsInjective(PowX(m - n), ONE, n);
  }

  lemma {:induction false} UnitIsPowX(k: nat)
    requires k < 16
    ensures PowX(k) == seq(16, i => i == k)
  {
    if k > 0 { UnitIsPowX(k - 1); }
  }

  // ---------------------------------------------------------------------
  // Multiplication modulo G, and its evaluation on machine words
  // ---------------------------------------------------------------------

  /** The sum over i < k of a * x^i for the coefficients i set in b. */
  function Times(a: Reg, b: Reg, k: nat): Reg
    requires k <= 16
  {
    if k == 0 then ZERO
    else Xor(Times(a, b, k - 1), if b[k - 1] then Steps(a, k - 1) else ZERO)
  }

  lemma {:induction false} TimesOne(b: Reg, k: nat)
    requires k <= 16
    ensures Times(ONE, b, k) == seq(16, i requires 0 <= i < 16 => i < k && b[i])
  {
    if k > 0 {
      TimesOne(b, k - 1);
      UnitIsPowX(k - 1);
    }
  }

  lemma {:induction false} TimesShift(a: Reg, b: Reg, k: nat)
    requires k <= 16
    ensures ShiftIn(Times(a, b, k), false) == Times(ShiftIn(a, false), b, k)
  {
    if k > 0 {
      TimesShift(a, b, k - 1);
      var term := if b[k - 1] then Steps(a, k - 1) else ZERO;
      ShiftInXor(Times(a, b, k - 1), term, false, false);
      StepsAdd(a, 1, k - 1);
      assert Steps(a, 1) == ShiftIn(a, false) by { assert Steps(a, 0) == a; }
      StepsZero(1);
      assert Steps(ZERO, 1) == ShiftIn(ZERO, false) by { assert Steps(ZERO, 0) == ZERO; }
    }
  }

  /** n steps multiply by x^n. */
  lemma {:induction false} StepsIsTimes(b: Reg, n: nat)
    ensures Steps(b, n) == Times(PowX(n), b, 16)
  {
    if n == 0 {
      TimesOne(b, 16);
    } else {
      StepsIsTimes(b, n - 1);
      TimesShift(PowX(n - 1), b, 16);
    }
  }

  lemma PowXAdd(m: nat, n: nat)
    ensures PowX(m + n) == Times(PowX(n), PowX(m), 16)
  {
    StepsAdd(ONE, m, n);
    StepsIsTimes(PowX(m), n);
  }
}
