/** filter_fft with dir = 0 and then with dir = 1 gives the signal back. */
module FilterRoundTrip {
  import opened PowersOfTwo
  import opened FourierInverse
  import opened DigitalFilter

  function Conjugate(c: Complex): Complex {
    Complex(c.re, -c.im)
  }

  predicate OnCircle(c: Complex) {
    c.re * c.re + c.im * c.im == 1.0
  }

  /** The twiddle factors of the two directions are conjugates. */
  lemma {:induction false} TwiddleConjugate(sqrt: real -> real, l: nat)
    ensures Twiddle(sqrt, true, l) == Conjugate(Twiddle(sqrt, false, l))
  {
    if l > 0 {
      TwiddleConjugate(sqrt, l - 1);
    }
  }

  lemma ConjugateProduct(c: Complex)
    requires OnCircle(c)
    ensures ComplexRing().mul(c, Conjugate(c)) == ComplexRing().one
  {
    assert c.re * (-c.im) + c.im * c.re == 0.0;
  }

  lemma RootConjugate(sqrt: real -> real, l: nat)
    ensures Roots(sqrt, true)(l) == Conjugate(Roots(sqrt, false)(l))
  {
    if l > 0 {
      TwiddleConjugate(sqrt, l - 1);
    }
  }

  lemma RootOnCircle(sqrt: real -> real, l: nat)
    requires IsSqrt(sqrt)
    ensures OnCircle(Roots(sqrt, false)(l))
  {
    if l == 0 {
      assert Roots(sqrt, false)(l) == Complex(1.0, 0.0);
    } else {
      TwiddleOnArc(sqrt, false, l - 1);
      assert Roots(sqrt, false)(l) == Twiddle(sqrt, false, l - 1);
    }
  }

  lemma RootInverse(sqrt: real -> real, l: nat)
    requires IsSqrt(sqrt)
    ensures Inverse(ComplexRing(), Roots(sqrt, false), Roots(sqrt, true), l)
  {
    RootConjugate(sqrt, l);
    RootOnCircle(sqrt, l);
    ConjugateProduct(Roots(sqrt, false)(l));
  }

  lemma RootsInverse(sqrt: real -> real)
    requires IsSqrt(sqrt)
    ensures Inverses(ComplexRing(), Roots(sqrt, false), Roots(sqrt, true))
  {
    RootsAreChain(sqrt, false);
    RootsAreChain(sqrt, true);
    forall l: nat ensures Inverse(ComplexRing(), Roots(sqrt, false), Roots(sqrt, true), l) {
      RootInverse(sqrt, l);
    }
  }

  lemma {:induction false} DoubledIsMultiple(m: nat, a: Complex)
    ensures Doubled(ComplexRing(), m, a) == Complex(Pow2(m) as real * a.re, Pow2(m) as real * a.im)
  {
    if m > 0 {
      DoubledIsMultiple(m - 1, a);
    }
  }

  lemma ScaleBack(n: nat, x: real)
    requires n > 0
    ensures (n as real * x) / n as real == x
  {
  }

  lemma ScaledDoubled(m: nat, x: seq<Complex>)
    ensures Scaled(AllDoubled(ComplexRing(), m, x), Pow2(m)) == x
  {
    forall j: nat | j < |x| ensures Scaled(AllDoubled(ComplexRing(), m, x), Pow2(m))[j] == x[j] {
      DoubledIsMultiple(m, x[j]);
      ScaleBack(Pow2(m), x[j].re);
      ScaleBack(Pow2(m), x[j].im);
    }
  }

  /** The reverse transform of the forward transform is the signal. */
  lemma ForthAndBack(sqrt: real -> real, m: nat, x: seq<Complex>)
    requires IsSqrt(sqrt) && |x| == Pow2(m)
    ensures var y := Transform(false, Roots(sqrt, false)(m), x);
            |y| == |x| && Transform(true, Roots(sqrt, true)(m), y) == x
  {
    ComplexIsRing();
    RootsInverse(sqrt);
    ReverseTransform(ComplexRing(), Roots(sqrt, false), Roots(sqrt, true), m, x);
    ScaledDoubled(m, x);
  }
}
