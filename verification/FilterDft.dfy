/** filter_dft of digital_filter.c with its sines and cosines, and that filter_fft computes the same. */
module FilterDft {
  import opened PowersOfTwo
  import opened Rings
  import opened DigitalFilter
  import opened FilterRoundTrip

  /** cosf, sinf and M_PI. */
  datatype Trig = Trig(cos: real -> real, sin: real -> real, pi: real)

  function Turn(t: Trig, x: real): Complex {
    Complex(t.cos(x), t.sin(x))
  }

  /** The addition theorem. */
  ghost predicate Adds(t: Trig, x: real, y: real) {
    Turn(t, x + y) == ComplexRing().mul(Turn(t, x), Turn(t, y))
  }

  /** The cosine is even and the sine odd. */
  ghost predicate Mirrors(t: Trig, x: real) {
    Turn(t, -x) == Conjugate(Turn(t, x))
  }

  /** The sine on the first half turn and the cosine on the first quarter. */
  ghost predicate Signs(t: Trig, x: real) {
    0.0 <= x <= t.pi ==> t.sin(x) >= 0.0 && (x <= t.pi / 2.0 ==> t.cos(x) >= 0.0)
  }

  ghost predicate IsTrig(t: Trig) {
    && t.pi > 0.0 && Turn(t, 0.0) == Complex(1.0, 0.0) && Turn(t, t.pi) == Complex(-1.0, 0.0)
    && (forall x, y :: Adds(t, x, y))
    && (forall x :: Mirrors(t, x))
    && (forall x :: Signs(t, x))
  }

  // ----- The code -----

  /** A full turn, with the sign that filter_dft makes of dir. */
  function FullTurn(t: Trig, dir: bool): real {
    -(if dir then 1.0 else -1.0) * 2.0 * t.pi
  }

  /** arg, for sample i of len. */
  function Arg(t: Trig, dir: bool, i: nat, len: nat): real
    requires len > 0
  {
    Fraction(FullTurn(t, dir), i as real, len as real)
  }

  function Fraction(c: real, i: real, n: real): real
    requires n != 0.0
  {
    c * i / n
  }

  /** k * arg. */
  function Multiple(k: nat, x: real): real {
    k as real * x
  }

  function FirstRoot(t: Trig, dir: bool, len: nat): Complex
    requires len > 0
  {
    Turn(t, Arg(t, dir, 1, len))
  }

  lemma OneMore(k: nat, x: real)
    ensures Multiple(0, x) == 0.0 && Multiple(k + 1, x) == Multiple(k, x) + x
  {
  }

  /** Multiples of an angle are powers of its turn. */
  lemma {:induction false} TurnPow(t: Trig, x: real, k: nat)
    requires IsTrig(t)
    ensures Turn(t, Multiple(k, x)) == Pow(ComplexRing(), Turn(t, x), k)
  {
    if k == 0 {
      OneMore(0, x);
    } else {
      OneMore(k - 1, x);
      TurnPow(t, x, k - 1);
      assert Adds(t, Multiple(k - 1, x), x);
    }
  }

  lemma ArgScales(t: Trig, dir: bool, i: nat, len: nat)
    requires len > 0
    ensures Arg(t, dir, i, len) == Multiple(i, Arg(t, dir, 1, len))
  {
    Quotient(FullTurn(t, dir), i as real, len as real);
  }

  lemma Quotient(c: real, i: real, n: real)
    requires n != 0.0
    ensures Fraction(c, i, n) == i * Fraction(c, 1.0, n)
  {
    var q := c / n;
    assert q * n == c;
    assert (i * q) * n == c * i;
  }

  lemma SampleRoot(t: Trig, dir: bool, i: nat, len: nat)
    requires IsTrig(t) && len > 0
    ensures Turn(t, Arg(t, dir, i, len)) == Pow(ComplexRing(), FirstRoot(t, dir, len), i)
  {
    ArgScales(t, dir, i, len);
    TurnPow(t, Arg(t, dir, 1, len), i);
  }

  /** One output sample. */
  method DftSample(t: Trig, dir: bool, i: nat, re: array<real>, im: array<real>) returns (x2: real, y2: real)
    requires IsTrig(t) && re.Length == im.Length > 0
    ensures var r, root := ComplexRing(), FirstRoot(t, dir, re.Length);
            Complex(x2, y2) == Eval(r, Zip(re[..], im[..]), Pow(r, root, i))
  {
    ghost var r, x := ComplexRing(), Zip(re[..], im[..]);
    var arg := Arg(t, dir, i, re.Length);
    ghost var z := Turn(t, arg);
    SampleRoot(t, dir, i, re.Length);
    x2, y2 := 0.0, 0.0;
    var k := 0;
    while k < re.Length
      invariant 0 <= k <= re.Length
      invariant Complex(x2, y2) == Eval(r, x[..k], z)
    {
      var cosarg, sinarg := t.cos(Multiple(k, arg)), t.sin(Multiple(k, arg));
      x2, y2 := Accumulate(x2, y2, re[k], im[k], cosarg, sinarg);
      SampleTerm(t, x, k, arg);
      k := k + 1;
    }
    assert x[..k] == x;
  }

  lemma SampleTerm(t: Trig, x: seq<Complex>, k: nat, arg: real)
    requires IsTrig(t) && k < |x|
    ensures var r, z := ComplexRing(), Turn(t, arg);
            Eval(r, x[..k + 1], z) == r.add(Eval(r, x[..k], z), r.mul(x[k], Turn(t, Multiple(k, arg))))
  {
    TurnPow(t, arg, k);
    assert x[..k + 1] == x[..k] + [x[k]];
    EvalSnoc(ComplexRing(), x[..k], x[k], Turn(t, arg));
  }

  method Accumulate(x: real, y: real, a: real, b: real, cosarg: real, sinarg: real) returns (x': real, y': real)
    ensures var r := ComplexRing();
            Complex(x', y') == r.add(Complex(x, y), r.mul(Complex(a, b), Complex(cosarg, sinarg)))
  {
    x' := x + (a * cosarg - b * sinarg);
    y' := y + (a * sinarg + b * cosarg);
  }

  /** filter_dft computes the transform by definition, for every length. */
  method FilterDft(t: Trig, dir: bool, re: array<real>, im: array<real>)
    requires IsTrig(t)
    requires re != im && re.Length == im.Length && re.Length > 0
    modifies re, im
    ensures Zip(re[..], im[..]) == Transform(dir, FirstRoot(t, dir, re.Length), old(Zip(re[..], im[..])))
    ensures var s := FourierSpec.Dft(ComplexRing(), FirstRoot(t, dir, re.Length), old(Zip(re[..], im[..])));
            if dir then IsNth(Zip(re[..], im[..]), re.Length, s) else Zip(re[..], im[..]) == s
  {
    ghost var x, root := Zip(re[..], im[..]), FirstRoot(t, dir, re.Length);
    TransformScales(root, x);
    var len := re.Length;
    var x2, y2 := new real[len], new real[len];
    var i := 0;
    while i < len
      invariant 0 <= i <= len
      invariant Zip(re[..], im[..]) == x
      invariant forall k: nat :: k < i ==> Complex(x2[k], y2[k]) == FourierSpec.Dft(ComplexRing(), root, x)[k]
    {
      x2[i], y2[i] := DftSample(t, dir, i, re, im);
      i := i + 1;
    }
    assert Zip(x2[..], y2[..]) == FourierSpec.Dft(ComplexRing(), root, x);
    forall k | 0 <= k < len {
      re[k] := x2[k];
    }
    forall k | 0 <= k < len {
      im[k] := y2[k];
    }
    assert re[..] == x2[..] && im[..] == y2[..];
    if dir {
      Scale(re, im);
    }
  }

  // ----- The roots of filter_dft are those of filter_fft -----

  lemma DoubleAngle(t: Trig, x: real)
    requires IsTrig(t)
    ensures t.cos(2.0 * x) == t.cos(x) * t.cos(x) - t.sin(x) * t.sin(x)
    ensures t.cos(x) * t.cos(x) + t.sin(x) * t.sin(x) == 1.0
  {
    assert Adds(t, x, x) && x + x == 2.0 * x;
    assert Adds(t, x, -x) && Mirrors(t, x) && x + -x == 0.0;
  }

  /** The half-angle formulas with the signs of the first quarter turn. */
  lemma HalfAngleIsTurn(t: Trig, sqrt: real -> real, x: real)
    requires IsTrig(t) && IsSqrt(sqrt) && 0.0 <= x <= t.pi / 2.0
    ensures HalfAngle(sqrt, false, Turn(t, 2.0 * x)) == Turn(t, x)
  {
    var c, s := t.cos(x), t.sin(x);
    DoubleAngle(t, x);
    assert Signs(t, x);
    var u, v := (1.0 - t.cos(2.0 * x)) / 2.0, (1.0 + t.cos(2.0 * x)) / 2.0;
    assert u == s * s && v == c * c;
    SameRoot(sqrt(u), s);
    SameRoot(sqrt(v), c);
  }

  lemma ArgHalves(t: Trig, n: nat)
    requires n > 0
    ensures Arg(t, false, 1, n) == 2.0 * Arg(t, false, 1, 2 * n)
  {
    var c := 2.0 * t.pi;
    assert (c / (2 * n) as real) * (2.0 * n as real) == c;
    assert (c / n as real) * n as real == c;
  }

  /** The angle of the 2^m-th root lies in the first quarter turn. */
  lemma {:induction false} ArgBound(t: Trig, m: nat)
    requires IsTrig(t) && m >= 2
    ensures 0.0 <= Arg(t, false, 1, Pow2(m)) <= t.pi / 2.0
  {
    ArgHalves(t, Pow2(m - 1));
    if m == 2 {
      ArgHalves(t, 1);
    } else {
      ArgBound(t, m - 1);
    }
  }

  lemma RootOfOne(t: Trig)
    requires IsTrig(t)
    ensures FirstRoot(t, false, 1) == Complex(1.0, 0.0)
  {
    assert Adds(t, t.pi, t.pi);
    assert Arg(t, false, 1, 1) == t.pi + t.pi;
  }

  lemma RootOfTwo(t: Trig)
    requires IsTrig(t)
    ensures FirstRoot(t, false, 2) == Complex(-1.0, 0.0)
  {
    assert Arg(t, false, 1, 2) == t.pi;
  }

  lemma RootHalves(t: Trig, sqrt: real -> real, m: nat)
    requires IsTrig(t) && IsSqrt(sqrt) && m >= 2
    ensures FirstRoot(t, false, Pow2(m)) == HalfAngle(sqrt, false, FirstRoot(t, false, Pow2(m - 1)))
  {
    ArgHalves(t, Pow2(m - 1));
    ArgBound(t, m);
    HalfAngleIsTurn(t, sqrt, Arg(t, false, 1, Pow2(m)));
  }

  lemma {:induction false} ForwardRoot(t: Trig, sqrt: real -> real, m: nat)
    requires IsTrig(t) && IsSqrt(sqrt)
    ensures FirstRoot(t, false, Pow2(m)) == Roots(sqrt, false)(m)
  {
    if m == 0 {
      RootOfOne(t);
    } else if m == 1 {
      RootOfTwo(t);
    } else {
      ForwardRoot(t, sqrt, m - 1);
      RootHalves(t, sqrt, m);
    }
  }

  lemma BackwardRoot(t: Trig, len: nat)
    requires IsTrig(t) && len > 0
    ensures FirstRoot(t, true, len) == Conjugate(FirstRoot(t, false, len))
  {
    var x := Arg(t, false, 1, len);
    assert Mirrors(t, x);
    assert Arg(t, true, 1, len) == -x;
  }

  /** The root of unity that filter_dft takes for 2^m samples is the one that filter_fft reaches by
      half angles, in either direction. */
  lemma RootsAgree(t: Trig, sqrt: real -> real, dir: bool, m: nat)
    requires IsTrig(t) && IsSqrt(sqrt)
    ensures FirstRoot(t, dir, Pow2(m)) == Roots(sqrt, dir)(m)
  {
    ForwardRoot(t, sqrt, m);
    if dir {
      RootConjugate(sqrt, m);
      BackwardRoot(t, Pow2(m));
    }
  }

  /** filter_fft and filter_dft give the same result for the same dir: that of filter_fft is the left
      side and that of filter_dft the right. */
  lemma FftIsDft(t: Trig, sqrt: real -> real, dir: bool, m: nat, x: seq<Complex>)
    requires IsTrig(t) && IsSqrt(sqrt) && |x| == Pow2(m)
    ensures Transform(dir, Roots(sqrt, dir)(m), x) == Transform(dir, FirstRoot(t, dir, |x|), x)
  {
    RootsAgree(t, sqrt, dir, m);
  }

  // ----- Four samples, in numbers -----

  /** The square root of -1 that the forward transform of four samples takes is the one above the real
      axis, and the reverse transform takes the one below. */
  lemma RootOfFour(sqrt: real -> real)
    requires IsSqrt(sqrt)
    ensures Roots(sqrt, false)(2) == Complex(0.0, 1.0) && Roots(sqrt, true)(2) == Complex(0.0, -1.0)
  {
    SameRoot(sqrt(0.0), 0.0);
    SameRoot(sqrt(1.0), 1.0);
    assert Twiddle(sqrt, false, 0) == Twiddle(sqrt, true, 0) == Complex(-1.0, 0.0);
    assert Roots(sqrt, false)(2) == Twiddle(sqrt, false, 1) && Roots(sqrt, true)(2) == Twiddle(sqrt, true, 1);
  }

  lemma EvalFour(a: Complex, b: Complex, c: Complex, d: Complex, y: real)
    requires y * y == 1.0
    ensures Eval(ComplexRing(), [a, b, c, d], Complex(0.0, y)) ==
            Complex(a.re - y * b.im - c.re + y * d.im, a.im + y * b.re - c.im - y * d.re)
  {
    var r, z := ComplexRing(), Complex(0.0, y);
    assert Pow(r, z, 0) == Complex(1.0, 0.0);
    assert Pow(r, z, 1) == z;
    assert Pow(r, z, 2) == Complex(-1.0, 0.0);
    assert Pow(r, z, 3) == Complex(0.0, -y);
    EvalOf(a, b, c, d, z);
  }

  lemma EvalOf(a: Complex, b: Complex, c: Complex, d: Complex, z: Complex)
    ensures var r := ComplexRing();
            Eval(r, [a, b, c, d], z) ==
            r.add(r.add(r.add(r.mul(a, Pow(r, z, 0)), r.mul(b, Pow(r, z, 1))), r.mul(c, Pow(r, z, 2))),
                  r.mul(d, Pow(r, z, 3)))
  {
    var r := ComplexRing();
    assert [a, b, c, d] == [a, b, c] + [d] && [a, b, c] == [a, b] + [c] && [a, b] == [a] + [b];
    EvalSnoc(r, [a, b, c], d, z);
    EvalSnoc(r, [a, b], c, z);
    EvalSnoc(r, [a], b, z);
    assert [a] == [] + [a];
    EvalSnoc(r, [], a, z);
  }

  /** Sample 1 of the transform of four samples: a + ib - c - id, or a quarter of a - ib - c + id. */
  lemma FourSamples(sqrt: real -> real, a: Complex, b: Complex, c: Complex, d: Complex)
    requires IsSqrt(sqrt)
    ensures var y := Transform(false, Roots(sqrt, false)(2), [a, b, c, d]);
            |y| == 4 && y[1] == Complex(a.re - b.im - c.re + d.im, a.im + b.re - c.im - d.re)
    ensures var y := Transform(true, Roots(sqrt, true)(2), [a, b, c, d]);
            && |y| == 4
            && y[1].re * 4.0 == a.re + b.im - c.re - d.im
            && y[1].im * 4.0 == a.im - b.re - c.im + d.re
  {
    var x := [a, b, c, d];
    RootOfFour(sqrt);
    EvalFour(a, b, c, d, 1.0);
    EvalFour(a, b, c, d, -1.0);
    SampleOne(Complex(0.0, 1.0), x);
    SampleOne(Complex(0.0, -1.0), x);
    TransformScales(Complex(0.0, 1.0), x);
    TransformScales(Complex(0.0, -1.0), x);
  }

  lemma SampleOne(root: Complex, x: seq<Complex>)
    requires |x| > 1
    ensures FourierSpec.Dft(ComplexRing(), root, x)[1] == Eval(ComplexRing(), x, root)
  {
    assert Pow(ComplexRing(), root, 1) == root;
  }
}
