/** The order of x modulo G is exactly 32767 = 7 * 31 * 151. */
module CrcOrder {
  import opened Crc16
  import opened CrcAlgebra

  const PERIOD: nat := 32767

  // ---------------------------------------------------------------------
  // Evaluating powers of x on machine words
  // ---------------------------------------------------------------------

  function Double(a: bv16): bv16 {
    XorReg(a << 1, a >> 15)
  }

  function Term(b: bv16, m: bv16, a: bv16): bv16 {
    if b & m != 0 then a else 0
  }

  function Shift2(a: bv16): bv16 {
    Double(Double(a))
  }

  /** A row of the product, for the bit m of b. */
  function Row(acc: bv16, a: bv16, b: bv16, m: bv16): bv16 {
    acc ^ Term(b, m, a)
  }

  function Rows2(acc: bv16, a: bv16, b: bv16, m0: bv16, m1: bv16): bv16 {
    Row(Row(acc, a, b, m0), Double(a), b, m1)
  }

  function Shift4(a: bv16): bv16 {
    Shift2(Shift2(a))
  }

  function Rows4(acc: bv16, a: bv16, b: bv16, m0: bv16, m1: bv16, m2: bv16, m3: bv16): bv16 {
    Rows2(Rows2(acc, a, b, m0, m1), Shift2(a), b, m2, m3)
  }

  /** a * b modulo G: a schoolbook product with one row per bit of b. */
  function Product(a: bv16, b: bv16): bv16 {
    var a4 := Shift4(a); var a8 := Shift4(a4); var a12 := Shift4(a8);
    Rows4(Rows4(Rows4(Rows4(0,
      a, b, 0x0001, 0x0002, 0x0004, 0x0008),
      a4, b, 0x0010, 0x0020, 0x0040, 0x0080),
      a8, b, 0x0100, 0x0200, 0x0400, 0x0800),
      a12, b, 0x1000, 0x2000, 0x4000, 0x8000)
  }

  lemma WordDouble(a: bv16)
    ensures Word(Double(a)) == ShiftIn(Word(a), false)
  {
    OrZero(a << 1);
    ShiftedWord(a, false, 0, a << 1, a >> 15, Double(a));
  }

  lemma WordXor(a: bv16, b: bv16)
    ensures Word(a ^ b) == Xor(Word(a), Word(b))
  {
    forall i | 0 <= i < 16 ensures Test(a ^ b, i) == (Test(a, i) != Test(b, i)) {
      BitFacts(i);
      MaskXor(a, b, Bit(i));
    }
  }

  /** acc is the product of a with the low k bits of b, and s is a * x^k. */
  ghost predicate Holds(acc: bv16, s: bv16, a: bv16, b: bv16, k: nat)
    requires k <= 16
  {
    Word(acc) == Times(Word(a), Word(b), k) && Word(s) == Steps(Word(a), k)
  }

  lemma WordTerm(b: bv16, k: nat, m: bv16, s: bv16)
    requires k < 16 && m == Bit(k)
    ensures Word(Term(b, m, s)) == if Word(b)[k] then Word(s) else ZERO
  {
    ZeroWord();
    assert Word(b)[k] == Test(b, k);
  }

  lemma RowHolds(acc: bv16, s: bv16, a: bv16, b: bv16, k: nat, m: bv16)
    requires k < 16 && m == Bit(k) && Holds(acc, s, a, b, k)
    ensures Holds(Row(acc, s, b, m), Double(s), a, b, k + 1)
  {
    WordDouble(s);
    WordTerm(b, k, m, s);
    WordXor(acc, Term(b, m, s));
  }

  lemma RowsHold2(acc: bv16, s: bv16, a: bv16, b: bv16, k: nat, m0: bv16, m1: bv16)
    requires k <= 14 && Holds(acc, s, a, b, k)
    requires m0 == Bit(k) && m1 == Bit(k + 1)
    ensures Holds(Rows2(acc, s, b, m0, m1), Shift2(s), a, b, k + 2)
  {
    RowHolds(acc, s, a, b, k, m0);
    RowHolds(Row(acc, s, b, m0), Double(s), a, b, k + 1, m1);
  }

  lemma RowsHold4(acc: bv16, s: bv16, a: bv16, b: bv16, k: nat, m0: bv16, m1: bv16, m2: bv16, m3: bv16)
    requires k <= 12 && Holds(acc, s, a, b, k)
    requires m0 == Bit(k) && m1 == Bit(k + 1) && m2 == Bit(k + 2) && m3 == Bit(k + 3)
    ensures Holds(Rows4(acc, s, b, m0, m1, m2, m3), Shift4(s), a, b, k + 4)
  {
    RowsHold2(acc, s, a, b, k, m0, m1);
    RowsHold2(Rows2(acc, s, b, m0, m1), Shift2(s), a, b, k + 2, m2, m3);
  }

  lemma ProductIsTimes(a: bv16, b: bv16)
    ensures Word(Product(a, b)) == Times(Word(a), Word(b), 16)
  {
    PowersOfTwo();
    ZeroWord();
    var a4 := Shift4(a);
    var a8 := Shift4(a4);
    var a12 := Shift4(a8);
    var acc4 := Rows4(0, a, b, 0x0001, 0x0002, 0x0004, 0x0008);
    var acc8 := Rows4(acc4, a4, b, 0x0010, 0x0020, 0x0040, 0x0080);
    var acc12 := Rows4(acc8, a8, b, 0x0100, 0x0200, 0x0400, 0x0800);
    RowsHold4(0, a, a, b, 0, 0x0001, 0x0002, 0x0004, 0x0008);
    RowsHold4(acc4, a4, a, b, 4, 0x0010, 0x0020, 0x0040, 0x0080);
    RowsHold4(acc8, a8, a, b, 8, 0x0100, 0x0200, 0x0400, 0x0800);
    RowsHold4(acc12, a12, a, b, 12, 0x1000, 0x2000, 0x4000, 0x8000);
  }

  /** x^m * x^n, with the product evaluated on words. */
  lemma Combine(m: nat, a: bv16, n: nat, b: bv16, c: bv16)
    requires PowX(m) == Word(a) && PowX(n) == Word(b) && c == Product(b, a)
    ensures PowX(m + n) == Word(c)
  {
    PowXAdd(m, n);
    ProductIsTimes(b, a);
  }

  /** The powers below x^16 are single bits. */
  lemma {:induction false} UnitWord(k: nat, v: bv16)
    requires k < 16 && v == Bit(k)
    ensures PowX(k) == Word(v)
  {
    UnitIsPowX(k);
    forall i | 0 <= i < 16 ensures Test(v, i) == (i == k) { UnitTest(k, i); }
  }

  lemma UnitTest(k: nat, i: nat)
    requires k < 16 && i < 16
    ensures Test(Bit(k), i) == (i == k)
  {
    BitFacts(k);
    BitFacts(i);
    MaskSelf(Bit(k), Bit(i));
    if k < i { BitsAscend(k, i); } else if i < k { BitsAscend(i, k); }
  }

  lemma MaskSelf(m: bv16, n: bv16)
    requires IsBit(m) && IsBit(n)
    ensures (m & n != 0) == (m == n)
  {
  }

  lemma Power16()
    ensures PowX(16) == Word(0x8005)
  {
    PowersOfTwo();
    UnitWord(8, 0x0100);
    Combine(8, 0x0100, 8, 0x0100, 0x8005);
  }

  lemma Power32()
    ensures PowX(32) == Word(0x8017)
  {
    Power16();
    Combine(16, 0x8005, 16, 0x8005, 0x8017);
  }

  lemma Power64()
    ensures PowX(64) == Word(0x8113)
  {
    Power32();
    Combine(32, 0x8017, 32, 0x8017, 0x8113);
  }

  lemma Power128()
    ensures PowX(128) == Word(0x0106)
  {
    Power64();
    Combine(64, 0x8113, 64, 0x8113, 0x0106);
  }

  lemma Power256()
    ensures PowX(256) == Word(0x8011)
  {
    Power128();
    Combine(128, 0x0106, 128, 0x0106, 0x8011);
  }

  lemma Power512()
    ensures PowX(512) == Word(0x8107)
  {
    Power256();
    Combine(256, 0x8011, 256, 0x8011, 0x8107);
  }

  lemma Power1024()
    ensures PowX(1024) == Word(0x0016)
  {
    Power512();
    Combine(512, 0x8107, 512, 0x8107, 0x0016);
  }

  lemma Power2048()
    ensures PowX(2048) == Word(0x0114)
  {
    Power1024();
    Combine(1024, 0x0016, 1024, 0x0016, 0x0114);
  }

  lemma Power4096()
    ensures PowX(4096) == Word(0x8115)
  {
    Power2048();
    Combine(2048, 0x0114, 2048, 0x0114, 0x8115);
  }

  lemma Power8192()
    ensures PowX(8192) == Word(0x0112)
  {
    Power4096();
    Combine(4096, 0x8115, 4096, 0x8115, 0x0112);
  }

  lemma Power16384()
    ensures PowX(16384) == Word(0x8101)
  {
    Power8192();
    Combine(8192, 0x0112, 8192, 0x0112, 0x8101);
  }

  lemma Power23()
    ensures PowX(23) == Word(0x8303)
  {
    PowersOfTwo();
    UnitWord(7, 0x0080);
    Power16();
    Combine(7, 0x0080, 16, 0x8005, 0x8303);
  }

  lemma Power25()
    ensures PowX(25) == Word(0x8c03)
  {
    PowersOfTwo();
    UnitWord(9, 0x0200);
    Power16();
    Combine(9, 0x0200, 16, 0x8005, 0x8c03);
  }

  lemma Power31()
    ensures PowX(31) == Word(0x8009)
  {
    PowersOfTwo();
    UnitWord(15, 0x8000);
    Power16();
    Combine(15, 0x8000, 16, 0x8005, 0x8009);
  }

  lemma Power33()
    ensures PowX(33) == Word(0x802b)
  {
    PowersOfTwo();
    UnitWord(1, 0x0002);
    Power32();
    Combine(1, 0x0002, 32, 0x8017, 0x802b);
  }

  lemma Power73()
    ensures PowX(73) == Word(0x200c)
  {
    PowersOfTwo();
    UnitWord(9, 0x0200);
    Power64();
    Combine(9, 0x0200, 64, 0x8113, 0x200c);
  }

  lemma Power89()
    ensures PowX(89) == Word(0x402b)
  {
    Power25();
    Power64();
    Combine(25, 0x8c03, 64, 0x8113, 0x402b);
  }

  lemma Power585()
    ensures PowX(585) == Word(0x8cf0)
  {
    Power73();
    Power512();
    Combine(73, 0x200c, 512, 0x8107, 0x8cf0);
  }

  lemma Power151()
    ensures PowX(151) == Word(0x8a09)
  {
    Power23();
    Power128();
    Combine(23, 0x8303, 128, 0x0106, 0x8a09);
  }

  lemma Power217()
    ensures PowX(217) == Word(0xaa7c)
  {
    Power89();
    Power128();
    Combine(89, 0x402b, 128, 0x0106, 0xaa7c);
  }

  lemma Power1057()
    ensures PowX(1057) == Word(0x8273)
  {
    Power33();
    Power1024();
    Combine(33, 0x802b, 1024, 0x0016, 0x8273);
  }

  lemma Power4681()
    ensures PowX(4681) == Word(0x9631)
  {
    Power585();
    Power4096();
    Combine(585, 0x8cf0, 4096, 0x8115, 0x9631);
  }

  lemma WordsDiffer(a: bv16)
    requires Word(a) == ONE
    ensures a & 1 != 0 && a & 0x8000 == 0 && a & 0x0080 == 0
  {
    assert Word(a)[15] == ONE[15] && Word(a)[7] == ONE[7] && Word(a)[0] == ONE[0];
    assert Bit(15) == 0x8000 && Bit(7) == 0x0080 && Bit(0) == 1;
  }

  lemma NotOneAt1()
    ensures PowX(1) != ONE
  {
    UnitIsPowX(1);
    assert PowX(1)[1] && !ONE[1];
  }

  lemma NotOneAt7()
    ensures PowX(7) != ONE
  {
    UnitIsPowX(7);
    assert PowX(7)[7] && !ONE[7];
  }

  lemma NotOneAt31()
    ensures PowX(31) != ONE
  {
    Power31();
    if PowX(31) == ONE { WordsDiffer(0x8009); }
  }

  lemma NotOneAt151()
    ensures PowX(151) != ONE
  {
    Power151();
    if PowX(151) == ONE { WordsDiffer(0x8a09); }
  }

  lemma NotOneAt217()
    ensures PowX(217) != ONE
  {
    Power217();
    if PowX(217) == ONE { WordsDiffer(0xaa7c); }
  }

  lemma NotOneAt1057()
    ensures PowX(1057) != ONE
  {
    Power1057();
    if PowX(1057) == ONE { WordsDiffer(0x8273); }
  }

  lemma NotOneAt4681()
    ensures PowX(4681) != ONE
  {
    Power4681();
    if PowX(4681) == ONE { WordsDiffer(0x9631); }
  }

  /** x^32767 = 1. */
  lemma FullPeriod()
    ensures PowX(PERIOD) == ONE
  {
    Power16384();
    Combine(16384, 0x8101, 16384, 0x8101, 0x0002);
    PowersOfTwo();
    UnitWord(1, 0x0002);
    PowXQuotient(32768, 1);
  }

  // ---------------------------------------------------------------------
  // No smaller period
  // ---------------------------------------------------------------------

  lemma {:induction false} PeriodMultiple(p: nat, k: nat)
    requires PowX(p) == ONE
    ensures PowX(p * k) == ONE
  {
    if k > 0 {
      PeriodMultiple(p, k - 1);
      assert p * k == p * (k - 1) + p;
      StepsAdd(ONE, p * (k - 1), p);
    }
  }

  lemma PeriodRemainder(a: nat, b: nat, q: nat, r: nat)
    requires a == b * q + r && PowX(a) == ONE && PowX(b) == ONE
    ensures PowX(r) == ONE
  {
    PeriodMultiple(b, q);
    StepsAdd(ONE, b * q, r);
  }

  /** Euclid's algorithm on two periods finds a period dividing both. */
  lemma {:induction false} CommonPeriod(a: nat, b: nat) returns (g: nat, u: nat, v: nat)
    requires a > 0 && PowX(a) == ONE && PowX(b) == ONE
    ensures g > 0 && PowX(g) == ONE && a == g * u && b == g * v
    decreases b
  {
    if b == 0 {
      g, u, v := a, 1, 0;
    } else {
      PeriodRemainder(a, b, a / b, a % b);
      var w: nat;
      g, v, w := CommonPeriod(b, a % b);
      u := v * (a / b) + w;
      Distribute(g, v, a / b, w);
    }
  }

  lemma Distribute(g: nat, v: nat, q: nat, w: nat)
    ensures g * (v * q + w) == (g * v) * q + g * w
  {
  }

  lemma SmallFactor(k: nat, g: nat)
    requires 2 <= k <= 181 && g * k == 32767
    ensures k == 7 || k == 31 || k == 151
  {
  }

  lemma ProperDivisors(g: nat, k: nat)
    requires 0 < g < 32767 && g * k == 32767
    ensures g in {1, 7, 31, 151, 217, 1057, 4681}
  {
    if k <= 181 {
      SmallFactor(k, g);
    } else {
      if g > 181 { LargeFactors(g, k); }
      if g > 1 { SmallFactor(g, k); }
    }
  }

  lemma LargeFactors(g: nat, k: nat)
    requires g > 181 && k > 181
    ensures g * k > 32767
  {
    assert g * k >= 182 * k >= 182 * 182;
  }

  lemma NoProperPeriod(g: nat)
    requires g in {1, 7, 31, 151, 217, 1057, 4681}
    ensures PowX(g) != ONE
  {
    if g == 1 {
      NotOneAt1();
    } else if g == 7 {
      NotOneAt7();
    } else if g == 31 {
      NotOneAt31();
    } else if g == 151 {
      NotOneAt151();
    } else if g == 217 {
      NotOneAt217();
    } else if g == 1057 {
      NotOneAt1057();
    } else {
      NotOneAt4681();
    }
  }

  /** x has order exactly 32767: no smaller power of it is 1. */
  lemma SmallestPeriod(d: nat)
    requires 0 < d < PERIOD
    ensures PowX(d) != ONE
  {
    if PowX(d) == ONE {
      FullPeriod();
      var g, u, v := CommonPeriod(PERIOD, d);
      Multiple(g, v, d);
      ProperDivisors(g, u);
      NoProperPeriod(g);
    }
  }

  lemma Multiple(g: nat, v: nat, d: nat)
    requires d == g * v && d > 0
    ensures g <= d
  {
    assert v >= 1;
    assert g * v >= g * 1;
  }
}
