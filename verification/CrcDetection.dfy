/** What the CRC of a packet detects, and exactly where it stops detecting. */
module CrcDetection {
  import opened Polynomial
  import opened Crc16
  import opened CrcDivision
  import opened CrcCheck
  import opened CrcAlgebra
  import opened CrcOrder

  /** The number of bits set. */
  function Weight(bits: seq<bool>): nat {
    if bits == [] then 0 else Weight(bits[..|bits| - 1]) + (if bits[|bits| - 1] then 1 else 0)
  }

  /** The number of bits an error pattern flips. */
  function Flips(error: seq<Byte>): nat {
    Weight(BitsOf(error))
  }

  lemma {:induction false} WeightAppend(a: seq<bool>, b: seq<bool>)
    ensures Weight(a + b) == Weight(a) + Weight(b)
  {
    if b == [] {
      assert a + b == a;
    } else {
      var n := |b| - 1;
      assert (a + b)[..|a| + n] == a + b[..n];
      WeightAppend(a, b[..n]);
    }
  }

  lemma {:induction false} WeightParity(s: seq<bool>)
    ensures Parity(s) == (Weight(s) % 2 == 1)
  {
    if s != [] { WeightParity(s[..|s| - 1]); }
  }

  lemma {:induction false} WeightZeros(n: nat)
    ensures Weight(Zeros(n)) == 0
  {
    if n > 0 {
      assert Zeros(n)[..n - 1] == Zeros(n - 1);
      WeightZeros(n - 1);
    }
  }

  lemma {:induction false} NoWeight(s: seq<bool>)
    requires Weight(s) == 0
    ensures s == Zeros(|s|)
  {
    if s != [] { NoWeight(s[..|s| - 1]); }
  }

  lemma {:induction false} OneWeight(s: seq<bool>) returns (k: nat)
    requires Weight(s) == 1
    ensures k < |s| && s == seq(|s|, i => i == k)
  {
    var n := |s| - 1;
    if s[n] {
      NoWeight(s[..n]);
      k := n;
      assert s == s[..n] + [true];
    } else {
      k := OneWeight(s[..n]);
      assert s == s[..n] + [false];
    }
  }

  lemma {:induction false} BitsOfAppend(a: seq<Byte>, b: seq<Byte>)
    ensures BitsOf(a + b) == BitsOf(a) + BitsOf(b)
  {
    if b == [] {
      assert a + b == a;
    } else {
      var n := |b| - 1;
      assert a + b == (a + b[..n]) + [b[n]];
      BitsOfSnoc(a + b[..n], b[n]);
      BitsOfAppend(a, b[..n]);
    }
  }

  lemma Associate(a: seq<bool>, b: seq<bool>, c: seq<bool>)
    ensures (a + b) + c == a + (b + c)
  {
  }

  /** The bits of a packet: the data in shift order, then the two checksum bytes. */
  lemma {:induction false} SplitBits(e: seq<Byte>)
    requires |e| >= 2
    ensures var n := |e| - 2;
            BitsOf(e) == BitsOf(e[..n]) + (ByteBits(e[n]) + ByteBits(e[n + 1]))
  {
    var n := |e| - 2;
    assert e[..n + 1][..n] == e[..n];
    Associate(BitsOf(e[..n]), ByteBits(e[n]), ByteBits(e[n + 1]));
  }

  lemma FlipsSplit(e: seq<Byte>)
    requires |e| >= 2
    ensures Flips(e) == Flips(e[..|e| - 2]) + Weight(Stored(e))
  {
    var n := |e| - 2;
    SplitBits(e);
    WeightAppend(BitsOf(e[..n]), ByteBits(e[n]) + ByteBits(e[n + 1]));
    WeightAppend(ByteBits(e[n]), ByteBits(e[n + 1]));
    WeightAppend(ByteBits(e[n + 1]), ByteBits(e[n]));
  }

  lemma {:induction false} XorBytesAt(a: seq<Byte>, b: seq<Byte>, i: nat)
    requires |a| == |b| && i < |a|
    ensures XorBytes(a, b)[i] == a[i] ^ b[i]
  {
    if i < |a| - 1 { XorBytesAt(a[..|a| - 1], b[..|b| - 1], i); }
  }

  lemma {:induction false} XorBytesTake(a: seq<Byte>, b: seq<Byte>, n: nat)
    requires |a| == |b| && n <= |a|
    ensures XorBytes(a, b)[..n] == XorBytes(a[..n], b[..n])
  {
    if n < |a| {
      var m := |a| - 1;
      XorBytesTake(a[..m], b[..m], n);
      assert a[..m][..n] == a[..n] && b[..m][..n] == b[..n];
    } else {
      assert a[..n] == a && b[..n] == b;
    }
  }

  lemma {:induction false} StoredXor(a: seq<Byte>, b: seq<Byte>)
    requires |a| == |b| && |a| >= 2
    ensures Stored(XorBytes(a, b)) == Xor(Stored(a), Stored(b))
  {
    BitsAtXor(a, b, |a| - 2);
    BitsAtXor(a, b, |a| - 1);
    StoredOfXor(XorBytes(a, b), a, b);
  }

  lemma BitsAtXor(a: seq<Byte>, b: seq<Byte>, i: nat)
    requires |a| == |b| && i < |a|
    ensures ByteBits(XorBytes(a, b)[i]) == XorBits(ByteBits(a[i]), ByteBits(b[i]))
  {
    XorBytesAt(a, b, i);
    ByteBitsXor(a[i], b[i]);
  }

  lemma StoredOfXor(x: seq<Byte>, a: seq<Byte>, b: seq<Byte>)
    requires |x| == |a| == |b| && |a| >= 2
    requires forall i :: |a| - 2 <= i < |a| ==> ByteBits(x[i]) == XorBits(ByteBits(a[i]), ByteBits(b[i]))
    ensures Stored(x) == Xor(Stored(a), Stored(b))
  {
    var n := |a| - 2;
    XorAppend(ByteBits(a[n + 1]), ByteBits(a[n]), ByteBits(b[n + 1]), ByteBits(b[n]));
  }

  lemma XorCancel(a: Reg, b: Reg, c: Reg, d: Reg)
    requires a == c
    ensures Xor(a, b) == Xor(c, d) <==> b == d
  {
    if Xor(a, b) == Xor(c, d) {
      forall i | 0 <= i < 16 ensures b[i] == d[i] { assert Xor(a, b)[i] == Xor(c, d)[i]; }
    }
  }

  /** An error passes unnoticed exactly when the error pattern is itself a valid packet. */
  lemma {:induction false} UndetectedIff(frame: seq<Byte>, error: seq<Byte>)
    requires |frame| == |error| && |frame| >= 2 && CrcOk(frame)
    ensures CrcOk(XorBytes(frame, error)) <==> CrcOk(error)
  {
    var n := |frame| - 2;
    StoredXor(frame, error);
    XorBytesTake(frame, error, n);
    CrcXor(frame[..n], error[..n]);
    XorCancel(Stored(frame), Stored(error), Crc(frame[..n]), Crc(error[..n]));
  }

  // ---------------------------------------------------------------------
  // Odd numbers of flips
  // ---------------------------------------------------------------------

  lemma ValidIsEven(e: seq<Byte>)
    requires |e| >= 2 && CrcOk(e)
    ensures Flips(e) % 2 == 0
  {
    FlipsSplit(e);
    CrcParity(e[..|e| - 2]);
    WeightParity(BitsOf(e[..|e| - 2]));
    WeightParity(Stored(e));
  }

  /** Flipping an odd number of bits, anywhere, in a valid packet of any size is detected. */
  lemma {:induction false} OddFlipsDetected(frame: seq<Byte>, error: seq<Byte>)
    requires |frame| == |error| && |frame| >= 2 && CrcOk(frame)
    requires Flips(error) % 2 == 1
    ensures !CrcOk(XorBytes(frame, error))
  {
    UndetectedIff(frame, error);
    if CrcOk(error) { ValidIsEven(error); }
  }

  // ---------------------------------------------------------------------
  // Errors in the data only
  // ---------------------------------------------------------------------

  predicate DataOnly(error: seq<Byte>)
    requires |error| >= 2
  {
    error[|error| - 2] == 0 && error[|error| - 1] == 0
  }

  lemma ZeroByte()
    ensures ByteBits(0) == Zeros(8)
  {
  }

  /** CrcOk in register terms: flushing the data leaves the stored bits, mirrored. */
  lemma ValidInRegister(e: seq<Byte>)
    requires |e| >= 2
    ensures CrcOk(e) <==> Steps(Run(ZERO, BitsOf(e[..|e| - 2])), 16) == Mirror(Stored(e))
  {
    var r := Run(ZERO, BitsOf(e[..|e| - 2]));
    RunZeros(r, 16);
    MirrorInvolutive(Steps(r, 16));
    MirrorInvolutive(Stored(e));
  }

  lemma NothingStored(e: seq<Byte>)
    requires |e| >= 2 && DataOnly(e)
    ensures Stored(e) == ZERO && Mirror(Stored(e)) == ZERO
  {
    ZeroByte();
  }

  lemma DataOnlyValid(e: seq<Byte>)
    requires |e| >= 2 && DataOnly(e)
    ensures CrcOk(e) <==> Run(ZERO, BitsOf(e[..|e| - 2])) == ZERO
  {
    var r := Run(ZERO, BitsOf(e[..|e| - 2]));
    ValidInRegister(e);
    NothingStored(e);
    StepsZero(16);
    if Steps(r, 16) == ZERO { StepsInjective(r, ZERO, 16); }
  }

  /** The polynomial of the bits is a multiple of the generator. */
  ghost predicate MultipleOfG(bits: seq<bool>) {
    exists q :: Division(PolyOf(bits), G, q, ZERO)
  }

  /** The register ends at zero exactly on multiples of the generator. */
  lemma ZeroRemainder(bits: seq<bool>)
    ensures Run(ZERO, bits) == ZERO <==> MultipleOfG(bits)
  {
    RunIsRemainder(bits);
    if Run(ZERO, bits) == ZERO {
      assert Division(PolyOf(bits), G, Quotient(bits), ZERO);
    }
    GeneratorWord();
    forall q | Division(PolyOf(bits), G, q, ZERO) ensures Run(ZERO, bits) == ZERO {
      RemainderUnique(PolyOf(bits), G, 16, q, ZERO, Quotient(bits), Run(ZERO, bits));
      forall i | 0 <= i < 16 ensures Run(ZERO, bits)[i] == ZERO[i] {
        assert Coef(Run(ZERO, bits), i) == Coef(ZERO, i);
      }
    }
  }

  /** A data error passes unnoticed exactly when its polynomial is a multiple of the generator. */
  lemma {:induction false} DataErrorUndetectedIff(frame: seq<Byte>, error: seq<Byte>)
    requires |frame| == |error| && |frame| >= 2 && CrcOk(frame) && DataOnly(error)
    ensures CrcOk(XorBytes(frame, error))
       <==> MultipleOfG(BitsOf(error[..|error| - 2]))
  {
    UndetectedIff(frame, error);
    DataOnlyValid(error);
    ZeroRemainder(BitsOf(error[..|error| - 2]));
  }

  // ---------------------------------------------------------------------
  // One, two and three flips
  // ---------------------------------------------------------------------

  lemma {:induction false} OneFlipRun(bits: seq<bool>) returns (c: nat)
    requires Weight(bits) == 1
    ensures c < |bits| && Run(ZERO, bits) == PowX(c)
  {
    var n := |bits| - 1;
    if bits[n] {
      c := 0;
      NoWeight(bits[..n]);
      RunZeros(ZERO, n);
      StepsZero(n);
      FirstOne();
    } else {
      c := OneFlipRun(bits[..n]);
      c := c + 1;
    }
  }

  lemma {:induction false} TwoFlipRun(bits: seq<bool>) returns (c: nat, d: nat)
    requires Weight(bits) == 2
    ensures d < c < |bits| && Run(ZERO, bits) == Xor(PowX(c), PowX(d))
  {
    var n := |bits| - 1;
    if bits[n] {
      c := OneFlipRun(bits[..n]);
      ShiftedPlusOne(PowX(c));
      c, d := c + 1, 0;
    } else {
      c, d := TwoFlipRun(bits[..n]);
      ShiftInXor(PowX(c), PowX(d), false, false);
      c, d := c + 1, d + 1;
    }
  }

  lemma ShiftedPlusOne(r: Reg)
    ensures ShiftIn(r, true) == Xor(ShiftIn(r, false), ONE)
  {
  }

  lemma XorIsZero(a: Reg, b: Reg)
    requires Xor(a, b) == ZERO
    ensures a == b
  {
    forall i | 0 <= i < 16 ensures a[i] == b[i] { assert Xor(a, b)[i] == ZERO[i]; }
  }

  /** Distinct powers of x below the period differ. */
  lemma PowersDiffer(c: nat, d: nat)
    requires d < c && c - d < PERIOD
    ensures PowX(c) != PowX(d)
  {
    if PowX(c) == PowX(d) {
      PowXQuotient(c, d);
      SmallestPeriod(c - d);
    }
  }

  lemma StoredUnit(s: Reg) returns (k: nat)
    requires Weight(s) == 1
    ensures k < 16 && Mirror(s) == PowX(k)
  {
    var i := OneWeight(s);
    k := 15 - i;
    UnitIsPowX(k);
  }

  lemma NothingRun(bits: seq<bool>)
    requires Weight(bits) == 0
    ensures Run(ZERO, bits) == ZERO
  {
    NoWeight(bits);
    RunZeros(ZERO, |bits|);
    StepsZero(|bits|);
  }

  lemma TwoDataFlips(e: seq<Byte>)
    requires 2 <= |e| <= 4095 && Weight(BitsOf(e[..|e| - 2])) == 2 && Weight(Stored(e)) == 0
    ensures !CrcOk(e)
  {
    var bits := BitsOf(e[..|e| - 2]);
    ValidInRegister(e);
    NoWeight(Stored(e));
    assert Mirror(ZERO) == ZERO;
    StepsZero(16);
    if Steps(Run(ZERO, bits), 16) == ZERO {
      StepsInjective(Run(ZERO, bits), ZERO, 16);
      var c, d := TwoFlipRun(bits);
      XorIsZero(PowX(c), PowX(d));
      PowersDiffer(c, d);
      assert false;
    }
  }

  lemma {:induction false} OneFlipEachSide(bits: seq<bool>, s: Reg)
    requires |bits| <= 32744 && Weight(bits) == 1 && Weight(s) == 1
    ensures Steps(Run(ZERO, bits), 16) != Mirror(s)
  {
    var c := OneFlipRun(bits);
    var k := StoredUnit(s);
    StepsAdd(ONE, c, 16);
    PowersDiffer(c + 16, k);
  }

  lemma OneDataFlip(e: seq<Byte>)
    requires 2 <= |e| <= 4095 && Weight(BitsOf(e[..|e| - 2])) == 1 && Weight(Stored(e)) == 1
    ensures !CrcOk(e)
  {
    ValidInRegister(e);
    OneFlipEachSide(BitsOf(e[..|e| - 2]), Stored(e));
  }

  lemma NoDataFlip(e: seq<Byte>)
    requires |e| >= 2 && Weight(BitsOf(e[..|e| - 2])) == 0 && Weight(Stored(e)) > 0
    ensures !CrcOk(e)
  {
    ValidInRegister(e);
    NothingRun(BitsOf(e[..|e| - 2]));
    StepsZero(16);
    if Mirror(Stored(e)) == ZERO { MirroredZero(Stored(e)); }
  }

  lemma MirroredZero(s: Reg)
    requires Mirror(s) == ZERO
    ensures Weight(s) == 0
  {
    MirrorInvolutive(s);
    assert Mirror(ZERO) == ZERO;
    WeightZeros(16);
  }

  /** No valid packet of at most 4095 bytes has exactly two bits set. */
  lemma TwoFlipsInvalid(e: seq<Byte>)
    requires 2 <= |e| <= 4095 && Flips(e) == 2
    ensures !CrcOk(e)
  {
    FlipsSplit(e);
    var w := Weight(BitsOf(e[..|e| - 2]));
    if w == 2 {
      TwoDataFlips(e);
    } else if w == 1 {
      OneDataFlip(e);
    } else {
      NoDataFlip(e);
    }
  }

  /** Flipping one, two or three bits of a valid packet of at most 4095 bytes is detected. */
  lemma {:induction false} FewFlipsDetected(frame: seq<Byte>, error: seq<Byte>)
    requires |frame| == |error| && 2 <= |frame| <= 4095 && CrcOk(frame)
    requires 1 <= Flips(error) <= 3
    ensures !CrcOk(XorBytes(frame, error))
  {
    if Flips(error) == 2 {
      TwoFlipsInvalid(error);
      UndetectedIff(frame, error);
    } else {
      assert Flips(error) == 1 || Flips(error) == 3;
      OddFlipsDetected(frame, error);
    }
  }

  // ---------------------------------------------------------------------
  // Where detection ends
  // ---------------------------------------------------------------------

  function ZeroBytes(n: nat): seq<Byte> {
    seq(n, _ => 0)
  }

  lemma {:induction false} BitsOfZeros(n: nat)
    ensures BitsOf(ZeroBytes(n)) == Zeros(8 * n)
  {
    if n > 0 {
      assert ZeroBytes(n)[..n - 1] == ZeroBytes(n - 1);
      BitsOfZeros(n - 1);
      ZeroByte();
      assert Zeros(8 * n) == Zeros(8 * (n - 1)) + Zeros(8);
    }
  }

  lemma LowBitByte()
    ensures ByteBits(0x01) == [true] + Zeros(7)
  {
    forall i | 0 <= i < 8 ensures TestByte(0x01, i) == (i == 0) { ByteIsBit(0x01, 0, i); }
  }

  lemma HighBitByte()
    ensures ByteBits(0x80) == Zeros(7) + [true]
  {
    forall i | 0 <= i < 8 ensures TestByte(0x80, i) == (i == 7) { ByteIsBit(0x80, 7, i); }
  }

  lemma ByteIsBit(b: Byte, k: nat, i: nat)
    requires i < 8 && ((b == 0x01 && k == 0) || (b == 0x80 && k == 7))
    ensures TestByte(b, i) == (i == k)
  {
    if i == 0 {} else if i == 1 {} else if i == 2 {} else if i == 3 {}
    else if i == 4 {} else if i == 5 {} else if i == 6 {} else { assert i == 7; }
  }

  /** The two-bit pattern that closes the cycle: data bit x^32751 against checksum bit x^0. */
  function WrapError(n: nat): seq<Byte>
    requires n >= 4096
  {
    ZeroBytes(n - 4096) + [0x01] + ZeroBytes(4093) + [0x80, 0x00]
  }

  lemma WrapErrorData(n: nat)
    requires n >= 4096
    ensures var e := WrapError(n);
            |e| == n && BitsOf(e[..n - 2]) == Zeros(8 * (n - 4096)) + [true] + Zeros(32751)
    ensures Mirror(Stored(WrapError(n))) == ONE && Weight(Stored(WrapError(n))) == 1
  {
    var e := WrapError(n);
    var lead := ZeroBytes(n - 4096);
    assert e[..n - 2] == lead + [0x01] + ZeroBytes(4093);
    BitsOfAppend(lead + [0x01], ZeroBytes(4093));
    BitsOfSnoc(lead, 0x01);
    BitsOfZeros(n - 4096);
    BitsOfZeros(4093);
    LowBitByte();
    assert Zeros(7) + Zeros(32744) == Zeros(32751);
    var a := Zeros(8 * (n - 4096));
    assert (a + ([true] + Zeros(7))) + Zeros(32744) == a + [true] + Zeros(32751);
    HighBitByte();
    ZeroByte();
    assert Stored(e) == Zeros(15) + [true];
    WeightZeros(15);
    WeightAppend(Zeros(15), [true]);
    assert Weight([true]) == 1 by { assert [true][..0] == []; }
  }

  lemma {:induction false} WeightOfOne(a: nat, b: nat)
    ensures Weight(Zeros(a) + [true] + Zeros(b)) == 1
  {
    WeightZeros(a);
    WeightZeros(b);
    WeightAppend(Zeros(a) + [true], Zeros(b));
    WeightAppend(Zeros(a), [true]);
    assert Weight([true]) == 1 by { assert [true][..0] == []; }
  }

  lemma RunOfOne(a: nat, b: nat)
    ensures Run(ZERO, Zeros(a) + [true] + Zeros(b)) == PowX(b)
  {
    RunFirstOne(a);
    RunAppend(ZERO, Zeros(a) + [true], Zeros(b));
    RunZeros(ONE, b);
  }

  lemma RunFirstOne(a: nat)
    ensures Run(ZERO, Zeros(a) + [true]) == ONE
  {
    RunSnoc(ZERO, Zeros(a), true);
    RunZeros(ZERO, a);
    StepsZero(a);
    FirstOne();
  }

  lemma FirstOne()
    ensures ShiftIn(ZERO, true) == ONE
  {
  }

  /** From 4096 bytes on, some pair of flips goes unnoticed. */
  lemma WrapErrorUndetected(n: nat)
    requires n >= 4096
    ensures |WrapError(n)| == n && Flips(WrapError(n)) == 2 && CrcOk(WrapError(n))
  {
    var e := WrapError(n);
    WrapErrorData(n);
    FlipsSplit(e);
    WeightOfOne(8 * (n - 4096), 32751);
    RunOfOne(8 * (n - 4096), 32751);
    StepsAdd(ONE, 32751, 16);
    FullPeriod();
    ValidInRegister(e);
  }

  /** Every change of one, two or three bits makes the packet fail its check. */
  ghost predicate DetectsFewFlips(frame: seq<Byte>)
    requires |frame| >= 2
  {
    forall error: seq<Byte> :: |error| == |frame| && 1 <= Flips(error) <= 3 ==> !CrcOk(XorBytes(frame, error))
  }

  lemma LongPacketMissesTwoFlips(frame: seq<Byte>)
    requires |frame| >= 4096 && CrcOk(frame)
    ensures !DetectsFewFlips(frame)
  {
    var error := WrapError(|frame|);
    WrapErrorUndetected(|frame|);
    UndetectedIff(frame, error);
    assert CrcOk(XorBytes(frame, error));
  }

  /** A valid packet has this protection exactly when it is at most 4095 bytes long. */
  lemma FewFlipsBound(frame: seq<Byte>)
    requires |frame| >= 2 && CrcOk(frame)
    ensures DetectsFewFlips(frame) <==> |frame| <= 4095
  {
    if |frame| <= 4095 {
      forall error: seq<Byte> | |error| == |frame| && 1 <= Flips(error) <= 3
        ensures !CrcOk(XorBytes(frame, error))
      {
        FewFlipsDetected(frame, error);
      }
    } else {
      LongPacketMissesTwoFlips(frame);
    }
  }
}
