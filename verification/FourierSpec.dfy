/** The discrete Fourier transform over a commutative ring, and the two halves of the fast one:
    bit reversal and recursive butterflies. */
module FourierSpec {
  import opened PowersOfTwo
  import opened Rings

  /** The transform by definition: the polynomial x at the powers of a root of unity. */
  function Dft<T(!new)>(r: Ring<T>, root: T, x: seq<T>): (y: seq<T>)
    ensures |y| == |x|
  {
    seq(|x|, i requires 0 <= i < |x| => Eval(r, x, Pow(r, root, i)))
  }

  /** w(l) is a 2^l-th root of unity: w(1) = -1, and each is the square of the next. */
  ghost predicate RootChain<T(!new)>(r: Ring<T>, w: nat -> T) {
    && w(0) == r.one
    && w(1) == r.neg(r.one)
    && forall l: nat :: Squares(r, w, l)
  }

  ghost predicate Squares<T(!new)>(r: Ring<T>, w: nat -> T, l: nat) {
    r.mul(w(l + 1), w(l + 1)) == w(l)
  }

  // ----- The fast transform as a recursion -----

  function BitReverse<T>(m: nat, x: seq<T>): (y: seq<T>)
    requires |x| == Pow2(m)
    ensures |y| == |x|
  {
    if m == 0 then x else BitReverse(m - 1, Evens(x)) + BitReverse(m - 1, Odds(x))
  }

  /** One butterfly: the sum for the lower half, the difference for the upper. */
  function Butterfly<T(!new)>(r: Ring<T>, u: T, a: T, b: T, upper: bool): T {
    if upper then r.Sub(a, r.mul(u, b)) else r.add(a, r.mul(u, b))
  }

  function CombineAt<T(!new)>(r: Ring<T>, root: T, lo: seq<T>, hi: seq<T>, i: nat): T
    requires |lo| == |hi| && i < 2 * |lo|
  {
    if i < |lo| then Butterfly(r, Pow(r, root, i), lo[i], hi[i], false)
    else Butterfly(r, Pow(r, root, i - |lo|), lo[i - |lo|], hi[i - |lo|], true)
  }

  function Combine<T(!new)>(r: Ring<T>, root: T, lo: seq<T>, hi: seq<T>): (y: seq<T>)
    requires |lo| == |hi|
    ensures |y| == 2 * |lo|
  {
    seq(2 * |lo|, i requires 0 <= i < 2 * |lo| => CombineAt(r, root, lo, hi, i))
  }

  function Dit<T(!new)>(r: Ring<T>, w: nat -> T, m: nat, y: seq<T>): (z: seq<T>)
    requires |y| == Pow2(m)
    ensures |z| == |y|
  {
    if m == 0 then y
    else
      var h := Pow2(m - 1);
      Combine(r, w(m), Dit(r, w, m - 1, y[..h]), Dit(r, w, m - 1, y[h..]))
  }

  // ----- It computes the transform -----

  lemma {:induction false} RootHalf<T(!new)>(r: Ring<T>, w: nat -> T, m: nat)
    requires IsRing(r) && RootChain(r, w) && m >= 1
    ensures Pow(r, w(m), Pow2(m - 1)) == r.neg(r.one)
  {
    if m == 1 {
      assert Pow(r, w(1), 1) == r.mul(Pow(r, w(1), 0), w(1));
      assert MulCommutes(r, r.one, w(1));
    } else {
      assert Squares(r, w, m - 1);
      RootHalf(r, w, m - 1);
      PowSquare(r, w(m), Pow2(m - 2));
    }
  }

  ghost predicate Opposite<T(!new)>(r: Ring<T>, root: T, h: nat, j: nat) {
    Pow(r, root, j + h) == r.neg(Pow(r, root, j))
  }

  /** The second half of the sample points are the negatives of the first. */
  lemma RootOpposite<T(!new)>(r: Ring<T>, w: nat -> T, m: nat, i: nat)
    requires IsRing(r) && RootChain(r, w) && m >= 1
    ensures Opposite(r, w(m), Pow2(m - 1), i)
  {
    var p := Pow(r, w(m), i);
    RootHalf(r, w, m);
    PowAdd(r, w(m), i, Pow2(m - 1));
    MulNeg(r, p, r.one);
  }

  /** The transform at z and at -z, from the transforms of the even and odd parts at z^2. */
  lemma EvalButterfly<T(!new)>(r: Ring<T>, x: seq<T>, z: T)
    requires IsRing(r)
    ensures var e, o := Eval(r, Evens(x), r.mul(z, z)), Eval(r, Odds(x), r.mul(z, z));
            && Eval(r, x, z) == Butterfly(r, z, e, o, false)
            && Eval(r, x, r.neg(z)) == Butterfly(r, z, e, o, true)
  {
    EvalSplits(r, x, z);
    EvalSplits(r, x, r.neg(z));
    SquareOfNeg(r, z);
    var o := Eval(r, Odds(x), r.mul(z, z));
    MulNeg(r, o, z);
    assert MulCommutes(r, o, z);
    assert MulCommutes(r, r.neg(z), o);
  }

  /** One butterfly of the last stage, for sample j of each half. */
  lemma LastStageAt<T(!new)>(r: Ring<T>, root: T, half: T, h: nat, x: seq<T>, j: nat)
    requires IsRing(r) && r.mul(root, root) == half
    requires Opposite(r, root, h, j)
    ensures var e, o := Eval(r, Evens(x), Pow(r, half, j)), Eval(r, Odds(x), Pow(r, half, j));
            && Eval(r, x, Pow(r, root, j)) == Butterfly(r, Pow(r, root, j), e, o, false)
            && Eval(r, x, Pow(r, root, j + h)) == Butterfly(r, Pow(r, root, j), e, o, true)
  {
    PowSquare(r, root, j);
    EvalButterfly(r, x, Pow(r, root, j));
  }

  lemma DftAt<T(!new)>(r: Ring<T>, root: T, x: seq<T>, i: nat)
    requires i < |x|
    ensures Dft(r, root, x)[i] == Eval(r, x, Pow(r, root, i))
  {
  }

  lemma CombineHalves<T(!new)>(r: Ring<T>, root: T, lo: seq<T>, hi: seq<T>, j: nat)
    requires |lo| == |hi| && j < |lo|
    ensures CombineAt(r, root, lo, hi, j) == Butterfly(r, Pow(r, root, j), lo[j], hi[j], false)
    ensures CombineAt(r, root, lo, hi, j + |lo|) == Butterfly(r, Pow(r, root, j), lo[j], hi[j], true)
  {
  }

  lemma CombineDftAt<T(!new)>(r: Ring<T>, root: T, half: T, x: seq<T>, j: nat)
    requires IsRing(r) && r.mul(root, root) == half && |x| % 2 == 0 && j < |x| / 2
    requires Opposite(r, root, |x| / 2, j)
    ensures var lo, hi := Dft(r, half, Evens(x)), Dft(r, half, Odds(x));
            && CombineAt(r, root, lo, hi, j) == Eval(r, x, Pow(r, root, j))
            && CombineAt(r, root, lo, hi, j + |x| / 2) == Eval(r, x, Pow(r, root, j + |x| / 2))
  {
    CombineHalves(r, root, Dft(r, half, Evens(x)), Dft(r, half, Odds(x)), j);
    DftAt(r, half, Evens(x), j);
    DftAt(r, half, Odds(x), j);
    LastStageAt(r, root, half, |x| / 2, x, j);
  }

  lemma CombineDft<T(!new)>(r: Ring<T>, root: T, half: T, x: seq<T>)
    requires IsRing(r) && r.mul(root, root) == half && |x| % 2 == 0
    requires forall j: nat :: Opposite(r, root, |x| / 2, j)
    ensures Combine(r, root, Dft(r, half, Evens(x)), Dft(r, half, Odds(x))) == Dft(r, root, x)
  {
    var lo, hi, h := Dft(r, half, Evens(x)), Dft(r, half, Odds(x)), |x| / 2;
    forall i: nat | i < |x| ensures CombineAt(r, root, lo, hi, i) == Eval(r, x, Pow(r, root, i)) {
      var j := if i < h then i else i - h;
      assert Opposite(r, root, h, j);
      CombineDftAt(r, root, half, x, j);
    }
  }

  lemma DftCombines<T(!new)>(r: Ring<T>, w: nat -> T, m: nat, x: seq<T>)
    requires IsRing(r) && RootChain(r, w) && m >= 1 && |x| == Pow2(m)
    ensures Dft(r, w(m), x) == Combine(r, w(m), Dft(r, w(m - 1), Evens(x)), Dft(r, w(m - 1), Odds(x)))
  {
    assert Squares(r, w, m - 1);
    forall j: nat ensures Opposite(r, w(m), |x| / 2, j) {
      RootOpposite(r, w, m, j);
    }
    CombineDft(r, w(m), w(m - 1), x);
  }

  lemma DftOfOne<T(!new)>(r: Ring<T>, root: T, x: seq<T>)
    requires IsRing(r) && |x| == 1
    ensures Dft(r, root, x) == x
  {
    assert x == [x[0]];
    EvalConstant(r, x[0], Pow(r, root, 0));
  }

  /** The fast transform of the bit-reversed input is the transform of the input. */
  lemma {:induction false} DitIsDft<T(!new)>(r: Ring<T>, w: nat -> T, m: nat, x: seq<T>)
    requires IsRing(r) && RootChain(r, w) && |x| == Pow2(m)
    ensures Dit(r, w, m, BitReverse(m, x)) == Dft(r, w(m), x)
  {
    if m == 0 {
      DftOfOne(r, w(0), x);
    } else {
      var h, e, o := Pow2(m - 1), BitReverse(m - 1, Evens(x)), BitReverse(m - 1, Odds(x));
      assert (e + o)[..h] == e && (e + o)[h..] == o;
      DitIsDft(r, w, m - 1, Evens(x));
      DitIsDft(r, w, m - 1, Odds(x));
      DftCombines(r, w, m, x);
    }
  }

  lemma EvalConstant<T(!new)>(r: Ring<T>, c: T, z: T)
    requires IsRing(r)
    ensures Eval(r, [c], z) == c
  {
    assert [c][..0] == [];
    assert Eval(r, [c], z) == r.add(r.zero, r.mul(c, r.one));
    assert AddCommutes(r, r.zero, c);
  }
}
