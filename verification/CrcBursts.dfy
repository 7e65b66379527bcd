/** Which bursts of errors check_crc detects. */
module CrcBursts {
  import opened Polynomial
  import opened Crc16
  import opened CrcDivision
  import opened CrcCheck
  import opened CrcAlgebra
  import opened CrcOrder
  import opened CrcDetection

  // ---------------------------------------------------------------------
  // Bursts
  // ---------------------------------------------------------------------

  /** Every bit set lies among the given number of consecutive bits, in shift order. */
  ghost predicate Within(bits: seq<bool>, start: nat, length: nat) {
    forall i :: 0 <= i < |bits| && bits[i] ==> start <= i < start + length
  }

  lemma OwnRemainder(p: Poly)
    ensures Division(p, G, [], p)
  {
  }

  lemma ShortRemainder(p: Poly)
    requires |p| <= 16 && exists q :: Division(p, G, q, ZERO)
    ensures IsZero(p)
  {
    var q :| Division(p, G, q, ZERO);
    GeneratorWord();
    OwnRemainder(p);
    RemainderUnique(p, G, 16, q, ZERO, [], p);
    forall i: int ensures !Coef(p, i) { assert Coef(ZERO, i) == Coef(p, i); }
  }

  lemma ZeroTail(b: bool, p: Poly)
    requires IsZero([b] + p)
    ensures !b && IsZero(p)
  {
    var q := [b] + p;
    assert !Coef(q, 0);
    forall i: int ensures !Coef(p, i) {
      if i >= 0 { assert !Coef(q, i + 1); }
    }
  }

  lemma {:induction false} ZeroPoly(bits: seq<bool>)
    requires IsZero(PolyOf(bits))
    ensures bits == Zeros(|bits|)
  {
    if bits != [] {
      var n := |bits| - 1;
      ZeroTail(bits[n], PolyOf(bits[..n]));
      ZeroPoly(bits[..n]);
    }
  }

  /** A register of sixteen bits cannot lose sixteen bits of message. */
  lemma {:induction false} ShortRunIsNonzero(bits: seq<bool>)
    requires |bits| <= 16 && Run(ZERO, bits) == ZERO
    ensures bits == Zeros(|bits|)
  {
    ZeroRemainder(bits);
    ShortRemainder(PolyOf(bits));
    ZeroPoly(bits);
  }

  lemma AroundBurst(bits: seq<bool>, start: nat, end: nat)
    requires start <= end <= |bits|
    requires forall i :: 0 <= i < |bits| && bits[i] ==> start <= i < end
    ensures bits == (Zeros(start) + bits[start..end]) + Zeros(|bits| - end)
  {
    var around := (Zeros(start) + bits[start..end]) + Zeros(|bits| - end);
    assert |around| == |bits|;
    forall i | 0 <= i < |bits| ensures bits[i] == around[i] {}
  }

  lemma PaddedRun(a: nat, bits: seq<bool>, c: nat)
    ensures Run(ZERO, (Zeros(a) + bits) + Zeros(c)) == Steps(Run(ZERO, bits), c)
  {
    RunAppend(ZERO, Zeros(a) + bits, Zeros(c));
    RunAppend(ZERO, Zeros(a), bits);
    RunZeros(ZERO, a);
    StepsZero(a);
    RunZeros(Run(ZERO, bits), c);
  }

  lemma {:induction false} BurstRun(bits: seq<bool>, start: nat, end: nat)
    requires start <= end <= |bits| && end - start <= 16
    requires forall i :: 0 <= i < |bits| && bits[i] ==> start <= i < end
    requires Run(ZERO, bits) == ZERO
    ensures bits == Zeros(|bits|)
  {
    AroundBurst(bits, start, end);
    PaddedRun(start, bits[start..end], |bits| - end);
    StepsZero(|bits| - end);
    StepsInjective(Run(ZERO, bits[start..end]), ZERO, |bits| - end);
    ShortRunIsNonzero(bits[start..end]);
    ZerosAround(start, end - start, |bits| - end);
  }

  lemma ZerosAround(a: nat, b: nat, c: nat)
    ensures (Zeros(a) + Zeros(b)) + Zeros(c) == Zeros(a + b + c)
  {
  }

  /** A nonzero error confined to 16 consecutive data bits, in shift order, is detected. */
  lemma {:induction false} BurstDetected(frame: seq<Byte>, error: seq<Byte>, start: nat)
    requires |frame| == |error| && |frame| >= 2 && CrcOk(frame) && DataOnly(error)
    requires Flips(error) > 0
    requires Within(BitsOf(error[..|error| - 2]), start, 16)
    ensures !CrcOk(XorBytes(frame, error))
  {
    var bits := BitsOf(error[..|error| - 2]);
    UndetectedIff(frame, error);
    DataOnlyValid(error);
    if CrcOk(error) {
      var s := if start < |bits| then start else |bits|;
      var e := if start + 16 < |bits| then start + 16 else |bits|;
      BurstRun(bits, s, e);
      WeightZeros(|bits|);
      FlipsSplit(error);
      NothingStored(error);
      WeightZeros(16);
      assert false;
    }
  }

  // ---------------------------------------------------------------------
  // Patterns that slip through
  // ---------------------------------------------------------------------

  /** The generator itself as a data error: 17 bits long, four bits set. */
  function GeneratorError(n: nat): seq<Byte>
    requires n >= 5
  {
    ZeroBytes(n - 5) + [0x03, 0x40, 0x01, 0x00, 0x00]
  }

  /** A 9-bit burst over the last data byte and the high checksum byte. */
  function BoundaryError(n: nat): seq<Byte>
    requires n >= 3
  {
    ZeroBytes(n - 3) + [0x0c, 0x05, 0x00]
  }

  lemma SmallByteBits(i: nat)
    requires i < 8
    ensures TestByte(0x03, i) == (i < 2) && TestByte(0x40, i) == (i == 6)
    ensures TestByte(0x0c, i) == (i == 2 || i == 3) && TestByte(0x05, i) == (i == 0 || i == 2)
  {
    if i == 0 {} else if i == 1 {} else if i == 2 {} else if i == 3 {}
    else if i == 4 {} else if i == 5 {} else if i == 6 {} else { assert i == 7; }
  }

  lemma SmallBytes()
    ensures ByteBits(0x03) == [true, true] + Zeros(6)
    ensures ByteBits(0x40) == Zeros(6) + [true, false]
    ensures ByteBits(0x0c) == Zeros(2) + [true, true] + Zeros(4)
    ensures ByteBits(0x05) == [true, false, true] + Zeros(5)
  {
    forall i | 0 <= i < 8
      ensures TestByte(0x03, i) == (i < 2) && TestByte(0x40, i) == (i == 6)
      ensures TestByte(0x0c, i) == (i == 2 || i == 3) && TestByte(0x05, i) == (i == 0 || i == 2)
    {
      SmallByteBits(i);
    }
  }

  /** x^16 + x^15 = x^2 + 1 modulo the generator, and so on for every multiple. */
  lemma GeneratorRelation(k: nat)
    ensures Xor(PowX(16 + k), PowX(15 + k)) == Xor(PowX(2 + k), PowX(k))
  {
    UnitIsPowX(15);
    UnitIsPowX(2);
    assert PowX(16) == ShiftIn(PowX(15), false);
    assert Xor(PowX(16), PowX(15)) == Xor(PowX(2), ONE);
    StepsXor(PowX(16), PowX(15), k);
    StepsXor(PowX(2), ONE, k);
    StepsAdd(ONE, 16, k);
    StepsAdd(ONE, 15, k);
    StepsAdd(ONE, 2, k);
  }

  /** Two adjacent ones followed by c zeros. */
  lemma PairRun(a: nat, c: nat)
    ensures Run(ZERO, Zeros(a) + [true, true] + Zeros(c)) == Xor(PowX(c + 1), PowX(c))
  {
    var head := Zeros(a) + [true] + Zeros(0);
    RunOfOne(a, 0);
    assert Zeros(a) + [true, true] == head + [true];
    RunSnoc(ZERO, head, true);
    ShiftedPlusOne(ONE);
    RunAppend(ZERO, Zeros(a) + [true, true], Zeros(c));
    RunZeros(Xor(PowX(1), ONE), c);
    StepsXor(PowX(1), ONE, c);
    StepsAdd(ONE, 1, c);
  }

  function GeneratorBits(a: nat): seq<bool> {
    Zeros(a) + [true, true] + Zeros(12) + [true] + [false] + [true]
  }

  lemma ShiftSum(p: Reg, q: Reg, r: Reg)
    ensures ShiftIn(Xor(Xor(p, q), r), false)
         == Xor(Xor(ShiftIn(p, false), ShiftIn(q, false)), ShiftIn(r, false))
  {
    ShiftInXor(Xor(p, q), r, false, false);
    ShiftInXor(p, q, false, false);
  }

  lemma SumCancels(p: Reg, q: Reg, r: Reg)
    requires Xor(p, q) == Xor(r, ONE)
    ensures Xor(Xor(Xor(p, q), r), ONE) == ZERO
  {
  }

  lemma GeneratorRun(a: nat)
    ensures Run(ZERO, GeneratorBits(a)) == ZERO
  {
    var head := Zeros(a) + [true, true] + Zeros(12);
    PairRun(a, 12);
    RunSnoc(ZERO, head, true);
    ShiftedPlusOne(Xor(PowX(13), PowX(12)));
    ShiftInXor(PowX(13), PowX(12), false, false);
    assert Run(ZERO, head + [true]) == Xor(Xor(PowX(14), PowX(13)), ONE);
    GeneratorRunEnd(head + [true]);
  }

  lemma GeneratorRunEnd(head: seq<bool>)
    requires Run(ZERO, head) == Xor(Xor(PowX(14), PowX(13)), ONE)
    ensures Run(ZERO, head + [false] + [true]) == ZERO
  {
    RunSnoc(ZERO, head, false);
    ShiftSum(PowX(14), PowX(13), ONE);
    assert PowX(1) == ShiftIn(ONE, false) by { assert PowX(0) == ONE; }
    assert Run(ZERO, head + [false]) == Xor(Xor(PowX(15), PowX(14)), PowX(1));
    RunSnoc(ZERO, head + [false], true);
    ShiftedPlusOne(Xor(Xor(PowX(15), PowX(14)), PowX(1)));
    ShiftSum(PowX(15), PowX(14), PowX(1));
    GeneratorRelation(0);
    SumCancels(PowX(16), PowX(15), PowX(2));
  }

  lemma GeneratorWeight(a: nat)
    ensures Weight(GeneratorBits(a)) == 4
  {
    var head := Zeros(a) + [true, true] + Zeros(12);
    WeightZeros(a);
    WeightZeros(12);
    WeightAppend(Zeros(a), [true, true]);
    WeightAppend(Zeros(a) + [true, true], Zeros(12));
    assert [true, true][..1] == [true] && [true][..0] == [] && [false][..0] == [];
    WeightAppend(head, [true]);
    WeightAppend(head + [true], [false]);
    WeightAppend(head + [true] + [false], [true]);
  }

  lemma GeneratorErrorData(n: nat)
    requires n >= 5
    ensures BitsOf(GeneratorError(n)[..n - 2]) == GeneratorBits(8 * (n - 5)) + Zeros(7)
    ensures DataOnly(GeneratorError(n))
  {
    var lead := ZeroBytes(n - 5);
    assert GeneratorError(n)[..n - 2] == lead + [0x03] + [0x40] + [0x01];
    BitsOfSnoc(lead + [0x03] + [0x40], 0x01);
    BitsOfSnoc(lead + [0x03], 0x40);
    BitsOfSnoc(lead, 0x03);
    BitsOfZeros(n - 5);
    SmallBytes();
    LowBitByte();
    GeneratorBytes(Zeros(8 * (n - 5)));
  }

  lemma GeneratorBytes(a: seq<bool>)
    ensures ((a + ([true, true] + Zeros(6))) + (Zeros(6) + [true, false])) + ([true] + Zeros(7))
         == (a + [true, true] + Zeros(12) + [true] + [false] + [true]) + Zeros(7)
  {
  }

  lemma PadRun(bits: seq<bool>, n: nat)
    requires Run(ZERO, bits) == ZERO
    ensures Run(ZERO, bits + Zeros(n)) == ZERO && Weight(bits + Zeros(n)) == Weight(bits)
  {
    RunAppend(ZERO, bits, Zeros(n));
    RunZeros(ZERO, n);
    StepsZero(n);
    WeightAppend(bits, Zeros(n));
    WeightZeros(n);
  }

  /** The burst bound is sharp: the generator, 17 bits long, is a valid error, and so is weight 4. */
  lemma GeneratorErrorUndetected(n: nat)
    requires n >= 5
    ensures |GeneratorError(n)| == n && Flips(GeneratorError(n)) == 4 && CrcOk(GeneratorError(n))
    ensures Within(BitsOf(GeneratorError(n)[..n - 2]), 8 * (n - 5), 17) && DataOnly(GeneratorError(n))
  {
    var e := GeneratorError(n);
    var bits := GeneratorBits(8 * (n - 5));
    GeneratorErrorData(n);
    GeneratorRun(8 * (n - 5));
    GeneratorWeight(8 * (n - 5));
    PadRun(bits, 7);
    DataOnlyValid(e);
    FlipsSplit(e);
    NothingStored(e);
    MirroredZero(Stored(e));
  }

  lemma BoundaryErrorData(n: nat)
    requires n >= 3
    ensures BitsOf(BoundaryError(n)[..n - 2]) == Zeros(8 * (n - 3) + 2) + [true, true] + Zeros(4)
    ensures Stored(BoundaryError(n)) == Zeros(8) + ([true, false, true] + Zeros(5))
  {
    var lead := ZeroBytes(n - 3);
    var a := 8 * (n - 3);
    assert BoundaryError(n)[..n - 2] == lead + [0x0c];
    BitsOfSnoc(lead, 0x0c);
    BitsOfZeros(n - 3);
    SmallBytes();
    ZeroByte();
    assert Zeros(a) + (Zeros(2) + [true, true] + Zeros(4)) == Zeros(a + 2) + [true, true] + Zeros(4);
  }

  lemma BoundaryErrorSpan(n: nat)
    requires n >= 3
    ensures Within(BitsOf(BoundaryError(n)), 8 * (n - 3) + 2, 9)
  {
    var e := BoundaryError(n);
    SplitBits(e);
    BoundaryErrorData(n);
    SmallBytes();
    ZeroByte();
    assert e[n - 2] == 0x05 && e[n - 1] == 0x00;
  }

  lemma {:induction false} PairFlushed()
    ensures Steps(Xor(PowX(5), PowX(4)), 16) == Xor(PowX(7), PowX(5))
  {
    StepsXor(PowX(5), PowX(4), 16);
    StepsAdd(ONE, 5, 16);
    StepsAdd(ONE, 4, 16);
    GeneratorRelation(5);
  }

  /** Across the boundary between data and checksum a 9-bit burst can pass unnoticed. */
  lemma {:induction false} BoundaryErrorUndetected(n: nat)
    requires n >= 3
    ensures |BoundaryError(n)| == n && CrcOk(BoundaryError(n)) && Flips(BoundaryError(n)) > 0
    ensures Within(BitsOf(BoundaryError(n)), 8 * (n - 3) + 2, 9)
  {
    BoundaryErrorData(n);
    BoundaryErrorSpan(n);
    BoundaryValid(BoundaryError(n), 8 * (n - 3) + 2);
  }

  lemma {:induction false} BoundaryValid(e: seq<Byte>, a: nat)
    requires |e| >= 2 && BitsOf(e[..|e| - 2]) == Zeros(a) + [true, true] + Zeros(4)
    requires Stored(e) == Zeros(8) + ([true, false, true] + Zeros(5))
    ensures CrcOk(e) && Flips(e) > 0
  {
    PairRun(a, 4);
    PairFlushed();
    BoundaryStored(Stored(e));
    ValidInRegister(e);
    SomeFlip(e, a);
  }

  lemma SomeFlip(e: seq<Byte>, i: nat)
    requires |e| >= 2 && i < 8 * (|e| - 2) && BitsOf(e[..|e| - 2])[i]
    ensures Flips(e) > 0
  {
    FlipsSplit(e);
    if Flips(e) == 0 {
      NoWeight(BitsOf(e[..|e| - 2]));
      assert false;
    }
  }

  lemma BoundaryStored(s: Reg)
    requires s == Zeros(8) + ([true, false, true] + Zeros(5))
    ensures Mirror(s) == Xor(PowX(7), PowX(5))
  {
    UnitIsPowX(7);
    UnitIsPowX(5);
  }

  /** The last data bit, x^0, with the checksum x^16 leaves: 10 bits over the boundary. */
  function LastBitError(n: nat): seq<Byte>
    requires n >= 3
  {
    ZeroBytes(n - 3) + [0x80, 0xa0, 0x01]
  }

  lemma UpperByte()
    ensures ByteBits(0xa0) == Zeros(5) + [true, false, true]
  {
    forall i | 0 <= i < 8 ensures TestByte(0xa0, i) == (i == 5 || i == 7) { UpperByteBit(i); }
  }

  lemma UpperByteBit(i: nat)
    requires i < 8
    ensures TestByte(0xa0, i) == (i == 5 || i == 7)
  {
    if i == 0 {} else if i == 1 {} else if i == 2 {} else if i == 3 {}
    else if i == 4 {} else if i == 5 {} else if i == 6 {} else { assert i == 7; }
  }

  lemma {:induction false} LastBitErrorData(n: nat)
    requires n >= 3
    ensures var e := LastBitError(n);
            && BitsOf(e[..n - 2]) == Zeros(8 * (n - 3) + 7) + [true] + Zeros(0)
            && ByteBits(e[n - 2]) == Zeros(5) + [true, false, true] && ByteBits(e[n - 1]) == [true] + Zeros(7)
  {
    var lead := ZeroBytes(n - 3);
    assert LastBitError(n)[..n - 2] == lead + [0x80];
    BitsOfSnoc(lead, 0x80);
    BitsOfZeros(n - 3);
    HighBitByte();
    UpperByte();
    LowBitByte();
    JoinZeros(8 * (n - 3), 7, [true]);
  }

  lemma JoinZeros(a: nat, b: nat, tail: seq<bool>)
    ensures Zeros(a) + (Zeros(b) + tail) == Zeros(a + b) + tail + Zeros(0)
  {
  }

  lemma {:induction false} LastBitValid(e: seq<Byte>, a: nat)
    requires |e| >= 2 && BitsOf(e[..|e| - 2]) == Zeros(a) + [true] + Zeros(0)
    requires ByteBits(e[|e| - 2]) == Zeros(5) + [true, false, true] && ByteBits(e[|e| - 1]) == [true] + Zeros(7)
    ensures CrcOk(e) && Flips(e) > 0 && Within(BitsOf(e), a, 10)
  {
    RunOfOne(a, 0);
    GeneratorTaps();
    ValidInRegister(e);
    SomeFlip(e, a);
    SplitBits(e);
  }

  /** x^16 is x^15 + x^2 + 1. */
  lemma GeneratorTaps()
    ensures Steps(ONE, 16) == seq(16, i => Tap(i))
    ensures Mirror([true] + Zeros(7) + (Zeros(5) + [true, false, true])) == seq(16, i => Tap(i))
  {
    UnitIsPowX(15);
    assert Steps(ONE, 16) == ShiftIn(PowX(15), false);
  }

  // ---------------------------------------------------------------------
  // Windows of the whole packet
  // ---------------------------------------------------------------------

  /** The bit of an n-byte packet, in shift order, that holds coefficient x^j of the remainder. */
  function ChecksumBit(n: nat, j: nat): (k: nat)
    requires n >= 2 && j < 16
    ensures 8 * (n - 2) <= k < 8 * n
  {
    8 * (n - 2) + (if j < 8 then 7 - j else 23 - j)
  }

  lemma {:induction false} StoredAt(e: seq<Byte>, j: nat)
    requires |e| >= 2 && j < 16
    ensures Mirror(Stored(e))[j] == BitsOf(e)[ChecksumBit(|e|, j)]
  {
    SplitBits(e);
  }

  /** A register of short input is that input. */
  lemma {:induction false} LowRun(bits: seq<bool>, m: nat)
    requires m <= 16 && forall i :: 0 <= i < |bits| - m ==> !bits[i]
    ensures forall i :: m <= i < 16 ==> !Run(ZERO, bits)[i]
  {
    if bits != [] {
      LowRun(bits[..|bits| - 1], if m == 0 then 0 else m - 1);
    }
  }

  /** One doubling of a machine word is one step. */
  lemma Doubled(a: bv16, c: bv16, n: nat)
    requires c == Double(a)
    ensures Steps(Word(a), n + 1) == Steps(Word(c), n)
  {
    WordDouble(a);
    StepsAdd(Word(a), 1, n);
    assert Steps(Word(a), 1) == ShiftIn(Steps(Word(a), 0), false);
  }

  lemma FifthRoot()
    ensures Steps(Word(0xfc02), 5) == Word(0x0001)
  {
    Doubled(0xfc02, 0x7801, 4);
    Doubled(0x7801, 0xf002, 3);
    Doubled(0xf002, 0x6001, 2);
    Doubled(0x6001, 0xc002, 1);
    Doubled(0xc002, 0x0001, 0);
  }

  lemma NinthRoot()
    ensures Steps(Word(0xffc2), 4) == Word(0xfc02) && Steps(Word(0x7fe1), 5) == Word(0xfc02)
  {
    Doubled(0x7fe1, 0xffc2, 4);
    Doubled(0xffc2, 0x7f81, 3);
    Doubled(0x7f81, 0xff02, 2);
    Doubled(0xff02, 0x7e01, 1);
    Doubled(0x7e01, 0xfc02, 0);
  }

  /** 0xffc2 is x^-9 and 0x7fe1 is x^-10. */
  lemma {:induction false} Inverses()
    ensures Steps(Word(0xffc2), 16) == PowX(7) && Steps(Word(0x7fe1), 16) == PowX(6)
  {
    FifthRoot();
    NinthRoot();
    UnitWord(0, 0x0001);
    StepsAdd(Word(0xffc2), 4, 12);
    StepsAdd(Word(0x7fe1), 5, 11);
    StepsAdd(Word(0xfc02), 5, 7);
    StepsAdd(Word(0xfc02), 5, 6);
  }

  lemma InverseTops()
    ensures Word(0xffc2)[15] && Word(0xffc2)[14] && !Word(0x7fe1)[15] && Word(0x7fe1)[14]
  {
    PowersOfTwo();
  }

  /** A register that sixteen steps send to a * x^7 + b * x^6. */
  lemma {:induction false} BeforeBoundary(r: Reg, a: bool, b: bool)
    requires Steps(r, 16) == Xor(if a then PowX(7) else ZERO, if b then PowX(6) else ZERO)
    ensures r[15] == a && r[14] == (a != b)
  {
    var x := if a then Word(0xffc2) else ZERO;
    var y := if b then Word(0x7fe1) else ZERO;
    Inverses();
    InverseTops();
    StepsZero(16);
    StepsXor(x, y, 16);
    StepsInjective(r, Xor(x, y), 16);
  }

  /** What a packet stores when all its checksum bits but the first two are zero. */
  lemma {:induction false} TwoStored(s: Reg, a: bool, b: bool)
    requires forall j :: 0 <= j < 16 ==> s[j] == ((j == 7 && a) || (j == 6 && b))
    ensures s == Xor(if a then PowX(7) else ZERO, if b then PowX(6) else ZERO)
  {
    UnitIsPowX(7);
    UnitIsPowX(6);
  }

  /** A valid packet with its bits in a window that ends two bits into the checksum stores zero. */
  lemma {:induction false} NothingReachesOver(e: seq<Byte>, s: nat)
    requires |e| >= 2 && CrcOk(e) && Within(BitsOf(e), s, 16) && s + 14 <= 8 * (|e| - 2)
    ensures Mirror(Stored(e)) == ZERO
  {
    var d := 8 * (|e| - 2);
    var data := BitsOf(e[..|e| - 2]);
    var m := Mirror(Stored(e));
    SplitBits(e);
    forall j | 0 <= j < 16 ensures m[j] == ((j == 7 && m[7]) || (j == 6 && m[6])) { StoredAt(e, j); }
    StoredAt(e, 6);
    StoredAt(e, 7);
    TwoStored(m, m[7], m[6]);
    ValidInRegister(e);
    BeforeBoundary(Run(ZERO, data), m[7], m[6]);
    forall i | 0 <= i < s ensures !data[i] { assert data[i] == BitsOf(e)[i]; }
    if s + 16 > d { LowRun(data, d - s); }
  }

  lemma {:induction false} DataWithin(e: seq<Byte>, s: nat, i: nat)
    requires |e| >= 2 && Within(BitsOf(e), s, 16) && i < 8 * (|e| - 2) && BitsOf(e[..|e| - 2])[i]
    ensures s <= i < s + 16
  {
    SplitBits(e);
    assert BitsOf(e)[i];
  }

  lemma {:induction false} OnlyChecksum(e: seq<Byte>, s: nat)
    requires |e| >= 2 && CrcOk(e) && Within(BitsOf(e), s, 16) && s >= 8 * (|e| - 2)
    ensures Flips(e) == 0
  {
    var data := BitsOf(e[..|e| - 2]);
    forall i | 0 <= i < |data| ensures !data[i] { if data[i] { DataWithin(e, s, i); } }
    assert data == Zeros(|data|);
    WeightZeros(|data|);
    FlipsSplit(e);
    if Weight(Stored(e)) > 0 { NoDataFlip(e); }
  }

  lemma {:induction false} NothingStoredIsZero(e: seq<Byte>, start: nat, end: nat)
    requires |e| >= 2 && CrcOk(e) && Mirror(Stored(e)) == ZERO
    requires start <= end <= 8 * (|e| - 2) && end - start <= 16
    requires Within(BitsOf(e[..|e| - 2]), start, end - start)
    ensures Flips(e) == 0
  {
    var data := BitsOf(e[..|e| - 2]);
    MirroredZero(Stored(e));
    ValidInRegister(e);
    StepsZero(16);
    StepsInjective(Run(ZERO, data), ZERO, 16);
    BurstRun(data, start, end);
    WeightZeros(|data|);
    FlipsSplit(e);
  }

  /** No valid packet but the zero one has all its bits in such a window, or in the checksum. */
  lemma {:induction false} WindowInvalid(e: seq<Byte>, s: nat)
    requires |e| >= 2 && CrcOk(e) && Within(BitsOf(e), s, 16)
    requires s + 14 <= 8 * (|e| - 2) || s >= 8 * (|e| - 2)
    ensures Flips(e) == 0
  {
    var d := 8 * (|e| - 2);
    if s >= d {
      OnlyChecksum(e, s);
    } else {
      NothingReachesOver(e, s);
      var data, end := BitsOf(e[..|e| - 2]), if s + 16 < d then s + 16 else d;
      forall i | 0 <= i < d && data[i] ensures s <= i < end { DataWithin(e, s, i); }
      NothingStoredIsZero(e, s, end);
    }
  }

  /** Every other window holds a nonzero valid packet. */
  lemma {:induction false} WindowValid(n: nat, s: nat) returns (e: seq<Byte>)
    requires n >= 2 && s < 8 * (n - 2) < s + 14
    ensures |e| == n && CrcOk(e) && Flips(e) > 0 && Within(BitsOf(e), s, 16)
  {
    if s + 6 <= 8 * (n - 2) {
      e := BoundaryError(n);
      BoundaryErrorUndetected(n);
    } else {
      e := LastBitError(n);
      LastBitErrorData(n);
      LastBitValid(e, 8 * (n - 3) + 7);
    }
  }

  /** Every nonzero error within the 16 bits from s on makes the packet fail its check. */
  ghost predicate DetectsBurstsAt(frame: seq<Byte>, s: nat)
    requires |frame| >= 2
  {
    forall error: seq<Byte> :: |error| == |frame| && Flips(error) > 0 && Within(BitsOf(error), s, 16) ==>
      !CrcOk(XorBytes(frame, error))
  }

  /**
   * The bursts at s are detected exactly when the window holds at most the first two bits of the
   * checksum, or nothing but checksum.
   */
  lemma {:induction false} BurstsDetectedIff(frame: seq<Byte>, s: nat)
    requires |frame| >= 2 && CrcOk(frame)
    ensures DetectsBurstsAt(frame, s) <==> s + 14 <= 8 * (|frame| - 2) || s >= 8 * (|frame| - 2)
  {
    if s + 14 <= 8 * (|frame| - 2) || s >= 8 * (|frame| - 2) {
      forall error: seq<Byte> | |error| == |frame| && Flips(error) > 0 && Within(BitsOf(error), s, 16)
        ensures !CrcOk(XorBytes(frame, error))
      {
        UndetectedIff(frame, error);
        if CrcOk(error) { WindowInvalid(error, s); }
      }
    } else {
      var error := WindowValid(|frame|, s);
      UndetectedIff(frame, error);
      assert CrcOk(XorBytes(frame, error));
    }
  }
}
