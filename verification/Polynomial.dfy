/** Polynomials over GF(2), as the reference against which the CRC register is judged. */
module Polynomial {

  /** Coefficients, lowest power first. Trailing zeros carry no meaning: compare with Same. */
  type Poly = seq<bool>

  function Coef(p: Poly, i: int): bool {
    0 <= i < |p| && p[i]
  }

  ghost predicate Same(p: Poly, q: Poly) {
    forall i: int :: Coef(p, i) == Coef(q, i)
  }

  ghost predicate IsZero(p: Poly) {
    forall i: int :: !Coef(p, i)
  }

  /** n is the degree of p: its highest nonzero coefficient. */
  ghost predicate HasDegree(p: Poly, n: nat) {
    Coef(p, n) && forall i :: i > n ==> !Coef(p, i)
  }

  function Add(p: Poly, q: Poly): (r: Poly)
    ensures forall i: int :: Coef(r, i) == (Coef(p, i) != Coef(q, i))
  {
    seq(if |p| < |q| then |q| else |p|, i => Coef(p, i) != Coef(q, i))
  }

  /** The coefficient of x^i in the product p * q: schoolbook, one coefficient of p at a time. */
  function ProductCoef(p: Poly, q: Poly, i: int): bool {
    if p == [] then false
    else (p[0] && Coef(q, i)) != ProductCoef(p[1..], q, i - 1)
  }

  /** m = q * g + r, as polynomials. */
  ghost predicate Division(m: Poly, g: Poly, q: Poly, r: Poly) {
    forall i: int :: Coef(m, i) == (ProductCoef(q, g, i) != Coef(r, i))
  }

  lemma {:induction false} ZeroProduct(p: Poly, g: Poly, i: int)
    requires IsZero(p)
    ensures !ProductCoef(p, g, i)
  {
    if p != [] {
      assert !Coef(p, 0);
      forall k: int ensures !Coef(p[1..], k) {
        if k >= 0 { assert !Coef(p, k + 1); }
      }
      ZeroProduct(p[1..], g, i - 1);
    }
  }

  lemma AddTail(p: Poly, q: Poly)
    requires p != [] && q != []
    ensures Add(p, q) != [] && Add(p, q)[0] == (p[0] != q[0])
    ensures Add(p, q)[1..] == Add(p[1..], q[1..])
  {
  }

  /** Multiplication distributes over addition on the left. */
  lemma {:induction false} ProductAdd(p: Poly, q: Poly, g: Poly, i: int)
    ensures ProductCoef(Add(p, q), g, i) == (ProductCoef(p, g, i) != ProductCoef(q, g, i))
  {
    if p == [] {
      assert Add(p, q) == q;
    } else if q == [] {
      assert Add(p, q) == p;
    } else {
      AddTail(p, q);
      ProductAdd(p[1..], q[1..], g, i - 1);
    }
  }

  /** The degree of a polynomial with a nonzero coefficient. */
  lemma {:induction false} Degree(p: Poly) returns (m: nat)
    requires !IsZero(p)
    ensures HasDegree(p, m)
  {
    if p[|p| - 1] {
      m := |p| - 1;
    } else {
      var q := p[..|p| - 1];
      assert forall i: int :: Coef(q, i) == Coef(p, i);
      m := Degree(q);
    }
  }

  lemma TailDegree(p: Poly, m: nat)
    requires HasDegree(p, m)
    ensures p[0] == Coef(p, 0)
    ensures if m == 0 then IsZero(p[1..]) else HasDegree(p[1..], m - 1)
  {
    forall i: int | i >= 0 ensures Coef(p[1..], i) == Coef(p, i + 1) {}
  }

  /** Degrees add up under multiplication. */
  lemma {:induction false} ProductDegree(p: Poly, g: Poly, m: nat, n: nat, i: int)
    requires HasDegree(p, m) && HasDegree(g, n) && i >= m + n
    ensures ProductCoef(p, g, i) == (i == m + n)
  {
    TailDegree(p, m);
    if m == 0 {
      ZeroProduct(p[1..], g, i - 1);
    } else {
      ProductDegree(p[1..], g, m - 1, n, i - 1);
      assert !Coef(g, i);
    }
  }

  lemma LowProductIsZero(d: Poly, g: Poly, n: nat)
    requires HasDegree(g, n)
    requires forall i :: i >= n ==> !ProductCoef(d, g, i)
    ensures IsZero(d)
  {
    if !IsZero(d) {
      var m := Degree(d);
      ProductDegree(d, g, m, n, m + n);
      assert false;
    }
  }

  /** Division with remainder has at most one remainder below the degree of the divisor. */
  lemma RemainderUnique(m: Poly, g: Poly, n: nat, q1: Poly, r1: Poly, q2: Poly, r2: Poly)
    requires HasDegree(g, n) && |r1| <= n && |r2| <= n
    requires Division(m, g, q1, r1) && Division(m, g, q2, r2)
    ensures Same(q1, q2) && Same(r1, r2)
  {
    var d := Add(q1, q2);
    forall i: int ensures ProductCoef(d, g, i) == (Coef(r1, i) != Coef(r2, i)) {
      ProductAdd(q1, q2, g, i);
      assert Coef(m, i) == Coef(m, i);
    }
    LowProductIsZero(d, g, n);
    forall i: int ensures Coef(q1, i) == Coef(q2, i) { assert !Coef(d, i); }
    forall i: int ensures Coef(r1, i) == Coef(r2, i) { ZeroProduct(d, g, i); }
  }
}
