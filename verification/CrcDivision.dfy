/** crc16_compute is polynomial division over GF(2) by x^16 + x^15 + x^2 + 1. */
module CrcDivision {
  import opened Polynomial
  import opened Crc16

  /** x^16 + x^15 + x^2 + 1: the generator's taps and the leading term the register drops. */
  const G: Poly := [true, false, true] + Zeros(12) + [true, true]

  /** The message polynomial: the first bit shifted in is the highest coefficient. */
  function PolyOf(bits: seq<bool>): (p: Poly)
    ensures |p| == |bits|
  {
    if bits == [] then [] else [bits[|bits| - 1]] + PolyOf(bits[..|bits| - 1])
  }

  lemma {:induction false} PolyOfAt(bits: seq<bool>, i: nat)
    requires i < |bits|
    ensures PolyOf(bits)[i] == bits[|bits| - 1 - i]
  {
    if i > 0 { PolyOfAt(bits[..|bits| - 1], i - 1); }
  }

  /** The bits the register pushes out at the top, latest first, are the quotient. */
  function Quotient(bits: seq<bool>): Poly {
    if bits == [] then []
    else [Run(ZERO, bits[..|bits| - 1])[15]] + Quotient(bits[..|bits| - 1])
  }

  /** The machine constant 0x8005 is this generator without its leading term. */
  lemma GeneratorWord()
    ensures G == Word(GENERATOR) + [true]
    ensures HasDegree(G, 16)
  {
    forall i | 0 <= i < 16 ensures Test(GENERATOR, i) == Tap(i) {
      BitFacts(i);
    }
  }

  /** x^16 + x^15 + x^2 + 1 = (x + 1)(x^15 + x + 1). */
  lemma GeneratorFactors(i: int)
    ensures Coef(G, i) == ProductCoef([true, true], [true, true] + seq(13, _ => false) + [true], i)
  {
    var f := [true, true] + seq(13, _ => false) + [true];
    assert [true, true][1..] == [true] && [true][1..] == [];
    assert ProductCoef([true, true], f, i) == (Coef(f, i) != ProductCoef([true], f, i - 1));
    assert ProductCoef([true], f, i - 1) == Coef(f, i - 1);
  }

  lemma {:induction false} ProductBelowZero(p: Poly, q: Poly, i: int)
    requires i < 0
    ensures !ProductCoef(p, q, i)
  {
    if p != [] { ProductBelowZero(p[1..], q, i - 1); }
  }

  /** Times x, plus the new bit, minus G when a term overflows: one shift of the register. */
  lemma ShiftCoef(r: Reg, bit: bool, i: int)
    ensures Coef([bit] + r, i) == ((r[15] && Coef(G, i)) != Coef(ShiftIn(r, bit), i))
  {
  }

  /** Shifting one bit in multiplies the dividend by x and adds the bit. */
  lemma DivisionStep(m: Poly, q: Poly, r: Reg, bit: bool)
    requires Division(m, G, q, r)
    ensures Division([bit] + m, G, [r[15]] + q, ShiftIn(r, bit))
  {
    var q' := [r[15]] + q;
    assert q'[1..] == q;
    forall i: int ensures Coef([bit] + m, i) == (ProductCoef(q', G, i) != Coef(ShiftIn(r, bit), i)) {
      assert ProductCoef(q', G, i) == ((r[15] && Coef(G, i)) != ProductCoef(q, G, i - 1));
      ShiftCoef(r, bit, i);
      if i <= 0 {
        ProductBelowZero(q, G, i - 1);
      } else {
        assert Coef([bit] + m, i) == Coef(m, i - 1);
        assert Coef([bit] + r, i) == Coef(r, i - 1);
      }
    }
  }

  /** The register after the data loop is the remainder of the message polynomial. */
  lemma {:induction false} RunIsRemainder(bits: seq<bool>)
    ensures Division(PolyOf(bits), G, Quotient(bits), Run(ZERO, bits))
  {
    if bits == [] {
      assert forall i: int :: !Coef(ZERO, i);
    } else {
      var front := bits[..|bits| - 1];
      RunIsRemainder(front);
      DivisionStep(PolyOf(front), Quotient(front), Run(ZERO, front), bits[|bits| - 1]);
    }
  }

  lemma MirrorInvolutive(r: Reg)
    ensures Mirror(Mirror(r)) == r
  {
  }

  /** The message polynomial times x^16: sixteen zero coefficients below it. */
  function Shifted(data: seq<Byte>): Poly {
    seq(16, _ => false) + PolyOf(BitsOf(data))
  }

  lemma PolyOfFlush(bits: seq<bool>)
    ensures PolyOf(bits + Zeros(16)) == seq(16, _ => false) + PolyOf(bits)
  {
    var all := bits + Zeros(16);
    forall i | 0 <= i < |all| ensures PolyOf(all)[i] == (seq(16, _ => false) + PolyOf(bits))[i] {
      PolyOfAt(all, i);
      if i >= 16 { PolyOfAt(bits, i - 16); }
    }
  }

  /**
   * The returned CRC, read backwards, is the remainder of M * x^16 by G, and no other
   * polynomial of degree below 16 is.
   */
  lemma CrcIsRemainder(data: seq<Byte>, r: Reg)
    ensures Mirror(Crc(data)) == r <==> exists q :: Division(Shifted(data), G, q, r)
  {
    var bits := BitsOf(data) + Zeros(16);
    RunIsRemainder(bits);
    PolyOfFlush(BitsOf(data));
    RunAppend(ZERO, BitsOf(data), Zeros(16));
    var rem := Flush(Run(ZERO, BitsOf(data)));
    MirrorInvolutive(rem);
    assert Division(Shifted(data), G, Quotient(bits), rem);
    forall q | Division(Shifted(data), G, q, r) ensures r == rem {
      assert HasDegree(G, 16);
      RemainderUnique(Shifted(data), G, 16, q, r, Quotient(bits), rem);
      forall i | 0 <= i < 16 ensures r[i] == rem[i] {
        assert Coef(r, i) == Coef(rem, i);
      }
    }
  }
}
