/** filter_fft of digital_filter.c, over real numbers without rounding. */
module DigitalFilter {
  import opened PowersOfTwo
  import opened Rings
  import opened FourierSpec
  import opened FourierLoops

  datatype Complex = Complex(re: real, im: real)

  function ComplexRing(): Ring<Complex> {
    Ring(
      Complex(0.0, 0.0),
      Complex(1.0, 0.0),
      (a: Complex) => Complex(-a.re, -a.im),
      (a: Complex, b: Complex) => Complex(a.re + b.re, a.im + b.im),
      (a: Complex, b: Complex) => Complex(a.re * b.re - a.im * b.im, a.re * b.im + a.im * b.re))
  }

  lemma ComplexProduct(a: Complex, b: Complex)
    ensures ComplexRing().mul(a, b) == Complex(a.re * b.re - a.im * b.im, a.re * b.im + a.im * b.re)
  {
  }

  lemma ComplexMulAssociates(a: Complex, b: Complex, c: Complex)
    ensures MulAssociates(ComplexRing(), a, b, c)
  {
  }

  lemma ComplexDistributes(a: Complex, b: Complex, c: Complex)
    ensures Distributes(ComplexRing(), a, b, c)
  {
  }

  lemma ComplexIsRing()
    ensures IsRing(ComplexRing())
  {
    var r := ComplexRing();
    forall a, b ensures AddCommutes(r, a, b) && MulCommutes(r, a, b) {
    }
    forall a, b, c ensures AddAssociates(r, a, b, c) {
    }
    forall a, b, c ensures MulAssociates(r, a, b, c) {
      ComplexMulAssociates(a, b, c);
    }
    forall a, b, c ensures Distributes(r, a, b, c) {
      ComplexDistributes(a, b, c);
    }
  }

  // ----- Twiddle factors by the half-angle formulas -----

  ghost predicate IsSqrt(sqrt: real -> real) {
    forall x: real :: x >= 0.0 ==> sqrt(x) >= 0.0 && sqrt(x) * sqrt(x) == x
  }

  function HalfAngle(sqrt: real -> real, dir: bool, c: Complex): Complex {
    var s := sqrt((1.0 - c.re) / 2.0);
    Complex(sqrt((1.0 + c.re) / 2.0), if dir then -s else s)
  }

  /** (c1, c2) in the l-th pass of filter_fft. */
  function Twiddle(sqrt: real -> real, dir: bool, l: nat): Complex {
    if l == 0 then Complex(-1.0, 0.0) else HalfAngle(sqrt, dir, Twiddle(sqrt, dir, l - 1))
  }

  /** The 2^l-th roots of unity: of argument 2 pi / 2^l, or of its negative if dir is set. */
  function Roots(sqrt: real -> real, dir: bool): nat -> Complex {
    (l: nat) => if l == 0 then Complex(1.0, 0.0) else Twiddle(sqrt, dir, l - 1)
  }

  /** On the unit circle, and on the side that dir asks for. */
  predicate OnArc(c: Complex, dir: bool) {
    && c.re * c.re + c.im * c.im == 1.0
    && -1.0 <= c.re <= 1.0
    && (if dir then c.im <= 0.0 else c.im >= 0.0)
  }

  lemma HalfAngleSquares(sqrt: real -> real, dir: bool, c: Complex)
    requires IsSqrt(sqrt) && OnArc(c, dir)
    ensures var h := HalfAngle(sqrt, dir, c); OnArc(h, dir) && ComplexRing().mul(h, h) == c
  {
    var s, t := sqrt((1.0 - c.re) / 2.0), sqrt((1.0 + c.re) / 2.0);
    assert s >= 0.0 && s * s == (1.0 - c.re) / 2.0;
    assert t >= 0.0 && t * t == (1.0 + c.re) / 2.0;
    ProductSquared(s, t, c.re);
    var y := if dir then -c.im else c.im;
    assert y * y == c.im * c.im;
    SameRoot(2.0 * (s * t), y);
    UnitBound(t);
  }

  lemma ProductSquared(s: real, t: real, x: real)
    requires s * s == (1.0 - x) / 2.0 && t * t == (1.0 + x) / 2.0
    ensures (2.0 * (s * t)) * (2.0 * (s * t)) == 1.0 - x * x
  {
    assert (s * t) * (s * t) == (s * s) * (t * t);
  }

  lemma SameRoot(a: real, b: real)
    requires a >= 0.0 && b >= 0.0 && a * a == b * b
    ensures a == b
  {
    assert (a - b) * (a + b) == a * a - b * b;
    ZeroProduct(a - b, a + b);
  }

  lemma ZeroProduct(x: real, y: real)
    requires x * y == 0.0
    ensures x == 0.0 || y == 0.0
  {
  }

  lemma UnitBound(t: real)
    requires t >= 0.0 && t * t <= 1.0
    ensures t <= 1.0
  {
  }

  lemma {:induction false} TwiddleOnArc(sqrt: real -> real, dir: bool, l: nat)
    requires IsSqrt(sqrt)
    ensures OnArc(Twiddle(sqrt, dir, l), dir)
  {
    if l > 0 {
      TwiddleOnArc(sqrt, dir, l - 1);
      HalfAngleSquares(sqrt, dir, Twiddle(sqrt, dir, l - 1));
    }
  }

  lemma RootsAreChain(sqrt: real -> real, dir: bool)
    requires IsSqrt(sqrt)
    ensures RootChain(ComplexRing(), Roots(sqrt, dir))
  {
    var r, w := ComplexRing(), Roots(sqrt, dir);
    forall l: nat ensures Squares(r, w, l) {
      if l > 0 {
        TwiddleOnArc(sqrt, dir, l - 1);
        HalfAngleSquares(sqrt, dir, Twiddle(sqrt, dir, l - 1));
      }
    }
  }

  // ----- The arrays as complex numbers -----

  ghost function Zip(re: seq<real>, im: seq<real>): (z: seq<Complex>)
    requires |re| == |im|
    ensures |z| == |re|
  {
    seq(|re|, i requires 0 <= i < |re| => Complex(re[i], im[i]))
  }

  /** The first loop: j runs through the bit reversals of i by a carry that goes downwards. */
  method BitReversal(m: nat, re: array<real>, im: array<real>)
    requires re != im && re.Length == im.Length == Pow2(m)
    modifies re, im
    ensures forall p: nat :: p < Pow2(m) ==> re[p] == old(re[..])[Rev(m, p)] && im[p] == old(im[..])[Rev(m, p)]
  {
    ghost var x, y := re[..], im[..];
    var n := Pow2(m);
    var i2 := n / 2;
    var j := 0;
    var i := 0;
    RevZero(m);
    while i < n - 1
      invariant 0 <= i <= n - 1 && j == Rev(m, i)
      invariant forall p: nat :: p < n ==> re[p] == x[Moved(m, p, i)] && im[p] == y[Moved(m, p, i)]
    {
      if i < j {
        re[i], re[j] := re[j], re[i];
        im[i], im[j] := im[j], im[i];
      }
      forall p: nat | p < n ensures re[p] == x[Moved(m, p, i + 1)] && im[p] == y[Moved(m, p, i + 1)] {
        MovedStep(m, p, i);
      }
      j := NextReversed(m, i, j, i2);
      i := i + 1;
    }
    forall p: nat | p < n ensures Moved(m, p, i) == Rev(m, p) {
      RevInvolution(m, p);
    }
  }

  /** Where the value at p comes from before step i of the first loop. */
  function Moved(m: nat, p: nat, i: nat): nat
    requires p < Pow2(m)
  {
    if p < i || Rev(m, p) < i then Rev(m, p) else p
  }

  /** Step i of the first loop swaps the values at i and at its reversal, if that is higher. */
  lemma MovedStep(m: nat, p: nat, i: nat)
    requires p < Pow2(m) && i < Pow2(m)
    ensures Moved(m, p, i + 1) ==
            if i < Rev(m, i) && p == i then Moved(m, Rev(m, i), i)
            else if i < Rev(m, i) && p == Rev(m, i) then Moved(m, i, i)
            else Moved(m, p, i)
  {
    RevInvolution(m, p);
    RevInvolution(m, i);
  }

  lemma {:induction false} RevZero(m: nat)
    ensures Rev(m, 0) == 0
  {
    if m > 0 {
      RevZero(m - 1);
    }
  }

  /** The inner loop of the bit reversal. It ends because i is not the last index: the bits of j
      are not all ones. */
  method NextReversed(m: nat, ghost i: nat, j0: nat, i2: nat) returns (j: nat)
    requires m >= 1 && i + 1 < Pow2(m) && j0 == Rev(m, i) && i2 == Pow2(m - 1)
    ensures j == Rev(m, i + 1)
  {
    j := j0;
    var k := i2;
    ghost var p: nat, ii: nat := m, i;
    while k <= j
      invariant 1 <= p <= m && k == Pow2(p - 1) && ii + 1 < Pow2(p)
      invariant j == Rev(p, ii) && Rev(m, i + 1) == Rev(p, ii + 1)
      decreases k
    {
      assert Rev(p - 1, ii / 2) < Pow2(p - 1);
      assert ii % 2 == 1 && (ii + 1) / 2 == ii / 2 + 1;
      j := j - k;
      k := k / 2;
      p, ii := p - 1, ii / 2;
    }
    assert ii % 2 == 0 && (ii + 1) / 2 == ii / 2;
    j := j + k;
  }

  // ----- The passes of butterflies -----

  /** Sample k belongs to the butterfly with twiddle index Column and lower index Lower. */
  function Column(k: nat, l1: nat): nat
    requires l1 > 0
  {
    if k % (2 * l1) < l1 then k % (2 * l1) else k % (2 * l1) - l1
  }

  function Lower(k: nat, l1: nat): int
    requires l1 > 0
  {
    if k % (2 * l1) < l1 then k else k - l1
  }

  /** Before butterfly i of column j, these samples have been computed. */
  predicate Done(k: nat, l1: nat, j: nat, i: nat)
    requires l1 > 0
  {
    Column(k, l1) < j || (Column(k, l1) == j && Lower(k, l1) < i)
  }

  /** The samples of one butterfly, and no others, are what is done next. */
  lemma DoneNext(k: nat, l1: nat, j: nat, i: nat, n: nat)
    requires l1 > 0 && n % (2 * l1) == 0 && k < n && i < n && j < l1 && i % (2 * l1) == j
    ensures i + l1 < n
    ensures Done(k, l1, j, i + 2 * l1) <==> Done(k, l1, j, i) || k == i || k == i + l1
    ensures !Done(i, l1, j, i) && !Done(i + l1, l1, j, i)
  {
    PartnerInside(i, l1, n);
    PartnerInside(k, l1, n);
    if Column(k, l1) == j && i <= Lower(k, l1) < i + 2 * l1 {
      SameColumn(Lower(k, l1), i, 2 * l1);
    }
  }

  lemma SameColumn(a: nat, b: nat, l: nat)
    requires l > 0 && b <= a < b + l && a % l == b % l
    ensures a == b
  {
    var q, r := DivMod(a, l);
    var p, s := DivMod(b, l);
    MulSum(q, 0 - p, l);
    MulSum(p, 0 - p, l);
    MulAtLeast(q - p, l);
  }

  /** One butterfly, in place. */
  method ButterflyAt(re: array<real>, im: array<real>, i: nat, i1: nat, u1: real, u2: real)
    requires re != im && re.Length == im.Length && i < i1 < re.Length
    modifies re, im
    ensures var a, b := old(Complex(re[i], im[i])), old(Complex(re[i1], im[i1]));
            && Complex(re[i], im[i]) == Butterfly(ComplexRing(), Complex(u1, u2), a, b, false)
            && Complex(re[i1], im[i1]) == Butterfly(ComplexRing(), Complex(u1, u2), a, b, true)
    ensures forall k :: 0 <= k < re.Length && k != i && k != i1 ==> re[k] == old(re[k]) && im[k] == old(im[k])
  {
    ComplexProduct(Complex(u1, u2), Complex(re[i1], im[i1]));
    var t1 := u1 * re[i1] - u2 * im[i1];
    var t2 := u1 * im[i1] + u2 * re[i1];
    re[i1] := re[i] - t1;
    im[i1] := im[i] - t2;
    re[i] := re[i] + t1;
    im[i] := im[i] + t2;
  }

  method Times(u1: real, u2: real, c1: real, c2: real) returns (v1: real, v2: real)
    ensures Complex(v1, v2) == ComplexRing().mul(Complex(u1, u2), Complex(c1, c2))
  {
    v1 := u1 * c1 - u2 * c2;
    v2 := u1 * c2 + u2 * c1;
  }

  /** Sample k in the course of a pass over the array a. */
  ghost function PassAt(a: seq<Complex>, root: Complex, l1: nat, j: nat, i: nat, k: nat): Complex
    requires l1 > 0 && |a| % (2 * l1) == 0 && k < |a|
  {
    if Done(k, l1, j, i) then StageAt(ComplexRing(), root, l1, a, k) else a[k]
  }

  lemma ColumnBounds(k: nat, l1: nat, n: nat)
    requires l1 > 0 && n % (2 * l1) == 0 && k < n
    ensures Column(k, l1) < l1 && Column(k, l1) <= Lower(k, l1) < n
  {
    PartnerInside(k, l1, n);
    var q, r := DivMod(k, 2 * l1);
    MulAtLeast(q, 2 * l1);
  }

  /** A column starts where the one before it ended. */
  lemma DoneColumn(k: nat, l1: nat, j: nat, i: nat, n: nat)
    requires l1 > 0 && n % (2 * l1) == 0 && k < n && n <= i
    ensures Done(k, l1, j, i) <==> Done(k, l1, j + 1, j + 1)
    ensures Done(k, l1, 0, 0) <==> false
    ensures Done(k, l1, l1, l1) <==> true
  {
    ColumnBounds(k, l1, n);
  }

  /** The values of one butterfly are those of the pass. */
  lemma ButterflyIsStage(a: seq<Complex>, root: Complex, l1: nat, i: nat)
    requires l1 > 0 && |a| % (2 * l1) == 0 && i < |a| && i % (2 * l1) < l1
    ensures i + l1 < |a|
    ensures var u := Pow(ComplexRing(), root, i % (2 * l1));
            && StageAt(ComplexRing(), root, l1, a, i) == Butterfly(ComplexRing(), u, a[i], a[i + l1], false)
            && StageAt(ComplexRing(), root, l1, a, i + l1) == Butterfly(ComplexRing(), u, a[i], a[i + l1], true)
  {
    PartnerInside(i, l1, |a|);
  }

  /** The innermost loop: the butterflies of column j. */
  method PassColumn(re: array<real>, im: array<real>, l1: nat, j: nat, u1: real, u2: real,
                    ghost a: seq<Complex>, ghost root: Complex)
    requires re != im && re.Length == im.Length == |a| && l1 > 0 && |a| % (2 * l1) == 0 && j < l1
    requires Complex(u1, u2) == Pow(ComplexRing(), root, j)
    requires forall k: nat :: k < |a| ==> Complex(re[k], im[k]) == PassAt(a, root, l1, j, j, k)
    modifies re, im
    ensures forall k: nat :: k < |a| ==> Complex(re[k], im[k]) == PassAt(a, root, l1, j + 1, j + 1, k)
  {
    var n := re.Length;
    var l2 := 2 * l1;
    var i := j;
    ModUnique(j, l2, 0, j);
    while i < n
      invariant i % l2 == j && i >= 0
      invariant forall k: nat :: k < n ==> Complex(re[k], im[k]) == PassAt(a, root, l1, j, i, k)
      decreases n - i
    {
      DoneNext(i, l1, j, i, n);
      assert Complex(re[i], im[i]) == a[i] && Complex(re[i + l1], im[i + l1]) == a[i + l1];
      ButterflyIsStage(a, root, l1, i);
      ButterflyAt(re, im, i, i + l1, u1, u2);
      forall k: nat | k < n ensures Complex(re[k], im[k]) == PassAt(a, root, l1, j, i + l2, k) {
        DoneNext(k, l1, j, i, n);
      }
      ModAdd(i, l2, l2);
      i := i + l2;
    }
    forall k: nat | k < n ensures PassAt(a, root, l1, j, i, k) == PassAt(a, root, l1, j + 1, j + 1, k) {
      DoneColumn(k, l1, j, i, n);
    }
  }

  /** One pass of filter_fft, with twiddle factor root = (c1, c2). */
  method Pass(re: array<real>, im: array<real>, l1: nat, c1: real, c2: real)
    requires re != im && re.Length == im.Length && l1 > 0 && re.Length % (2 * l1) == 0
    modifies re, im
    ensures Zip(re[..], im[..]) == Stage(ComplexRing(), Complex(c1, c2), l1, old(Zip(re[..], im[..])))
  {
    ghost var a, root := Zip(re[..], im[..]), Complex(c1, c2);
    ghost var n := re.Length;
    var u1, u2 := 1.0, 0.0;
    forall k: nat | k < n ensures Complex(re[k], im[k]) == PassAt(a, root, l1, 0, 0, k) {
      DoneColumn(k, l1, 0, n, n);
    }
    var j := 0;
    while j < l1
      invariant 0 <= j <= l1
      invariant Complex(u1, u2) == Pow(ComplexRing(), root, j)
      invariant forall k: nat :: k < n ==> Complex(re[k], im[k]) == PassAt(a, root, l1, j, j, k)
    {
      PassColumn(re, im, l1, j, u1, u2, a, root);
      u1, u2 := Times(u1, u2, c1, c2);
      j := j + 1;
    }
    forall k: nat | k < n ensures Complex(re[k], im[k]) == StageAt(ComplexRing(), root, l1, a, k) {
      DoneColumn(k, l1, l1, n, n);
    }
  }

  // ----- filter_fft -----

  ghost function Scaled(z: seq<Complex>, n: nat): (s: seq<Complex>)
    requires n > 0
    ensures |s| == |z|
  {
    seq(|z|, i requires 0 <= i < |z| => Complex(z[i].re / n as real, z[i].im / n as real))
  }

  /** What both transforms compute: the definition, divided by the length if dir is set. */
  ghost function Transform(dir: bool, root: Complex, x: seq<Complex>): seq<Complex>
    requires |x| > 0
  {
    var y := FourierSpec.Dft(ComplexRing(), root, x);
    if dir then Scaled(y, |x|) else y
  }

  /** y is s divided by n. */
  ghost predicate IsNth(y: seq<Complex>, n: nat, s: seq<Complex>) {
    |y| == |s| && forall k :: 0 <= k < |y| ==> y[k].re * n as real == s[k].re && y[k].im * n as real == s[k].im
  }

  lemma ScaledIsNth(s: seq<Complex>, n: nat)
    requires n > 0
    ensures IsNth(Scaled(s, n), n, s)
  {
  }

  /** The forward transform is not divided by the length, and the reverse one is. */
  lemma TransformScales(root: Complex, x: seq<Complex>)
    requires |x| > 0
    ensures Transform(false, root, x) == FourierSpec.Dft(ComplexRing(), root, x)
    ensures IsNth(Transform(true, root, x), |x|, FourierSpec.Dft(ComplexRing(), root, x))
  {
    ScaledIsNth(FourierSpec.Dft(ComplexRing(), root, x), |x|);
  }

  lemma ZipReversed(m: nat, x: seq<Complex>, re: seq<real>, im: seq<real>)
    requires |x| == Pow2(m) == |re| == |im|
    requires forall p: nat :: p < Pow2(m) ==> Complex(re[p], im[p]) == x[Rev(m, p)]
    ensures Zip(re, im) == BitReverse(m, x)
  {
    forall p: nat | p < Pow2(m) ensures Zip(re, im)[p] == BitReverse(m, x)[p] {
      BitReverseAt(m, x, p);
    }
  }

  method Scale(re: array<real>, im: array<real>)
    requires re != im && re.Length == im.Length && re.Length > 0
    modifies re, im
    ensures Zip(re[..], im[..]) == Scaled(old(Zip(re[..], im[..])), re.Length)
  {
    var n := re.Length;
    var i := 0;
    while i < n
      invariant 0 <= i <= n
      invariant forall k :: 0 <= k < n ==>
                  && re[k] == (if k < i then old(re[k]) / n as real else old(re[k]))
                  && im[k] == (if k < i then old(im[k]) / n as real else old(im[k]))
    {
      re[i] := re[i] / n as real;
      im[i] := im[i] / n as real;
      i := i + 1;
    }
  }

  method NextTwiddle(sqrt: real -> real, dir: bool, c1: real, c2: real) returns (d1: real, d2: real)
    ensures Complex(d1, d2) == HalfAngle(sqrt, dir, Complex(c1, c2))
  {
    d2 := sqrt((1.0 - c1) / 2.0);
    if dir {
      d2 := -d2;
    }
    d1 := sqrt((1.0 + c1) / 2.0);
  }

  method PassOverBlocks(re: array<real>, im: array<real>, l1: nat, c1: real, c2: real,
                        ghost w: nat -> Complex, ghost l: nat, ghost m: nat, ghost y: seq<Complex>)
    requires re != im && re.Length == im.Length == Pow2(m) == |y|
    requires l < m && l1 == Pow2(l) && w(l + 1) == Complex(c1, c2)
    requires Zip(re[..], im[..]) == Blocks(ComplexRing(), w, l, m, y)
    modifies re, im
    ensures Zip(re[..], im[..]) == Blocks(ComplexRing(), w, l + 1, m, y)
  {
    StageBlocks(ComplexRing(), w, l, m, y);
    Pass(re, im, l1, c1, c2);
  }

  /** The outer loop of filter_fft over the passes. */
  method Passes(dir: bool, m: nat, re: array<real>, im: array<real>, sqrt: real -> real)
    requires re != im && re.Length == im.Length == Pow2(m)
    modifies re, im
    ensures Zip(re[..], im[..]) == Dit(ComplexRing(), Roots(sqrt, dir), m, old(Zip(re[..], im[..])))
  {
    ghost var r, w, y := ComplexRing(), Roots(sqrt, dir), Zip(re[..], im[..]);
    BlocksOfOne(r, w, m, y);
    var c1, c2 := -1.0, 0.0;
    var l2 := 1;
    var l := 0;
    while l < m
      invariant 0 <= l <= m && l2 == Pow2(l)
      invariant Complex(c1, c2) == Twiddle(sqrt, dir, l)
      invariant Zip(re[..], im[..]) == Blocks(r, w, l, m, y)
    {
      var l1 := l2;
      l2 := l2 * 2;
      PassOverBlocks(re, im, l1, c1, c2, w, l, m, y);
      c1, c2 := NextTwiddle(sqrt, dir, c1, c2);
      l := l + 1;
    }
  }

  /** filter_fft computes the transform by definition, for every power of two. */
  method FilterFft(dir: bool, m: nat, re: array<real>, im: array<real>, sqrt: real -> real)
    requires IsSqrt(sqrt)
    requires re != im && re.Length == im.Length == Pow2(m)
    modifies re, im
    ensures Zip(re[..], im[..]) == Transform(dir, Roots(sqrt, dir)(m), old(Zip(re[..], im[..])))
    ensures var s := FourierSpec.Dft(ComplexRing(), Roots(sqrt, dir)(m), old(Zip(re[..], im[..])));
            if dir then IsNth(Zip(re[..], im[..]), Pow2(m), s) else Zip(re[..], im[..]) == s
  {
    ghost var x := Zip(re[..], im[..]);
    TransformScales(Roots(sqrt, dir)(m), x);
    BitReversal(m, re, im);
    ZipReversed(m, x, re[..], im[..]);
    Passes(dir, m, re, im, sqrt);
    ComplexIsRing();
    RootsAreChain(sqrt, dir);
    DitIsDft(ComplexRing(), Roots(sqrt, dir), m, x);
    if dir {
      Scale(re, im);
    }
  }
}
