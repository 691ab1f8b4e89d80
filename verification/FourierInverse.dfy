/** The reverse transform undoes the forward one. */
module FourierInverse {
  import opened PowersOfTwo
  import opened Rings
  import opened FourierSpec

  // ----- More on powers and polynomials -----

  lemma {:induction false} PowProduct<T(!new)>(r: Ring<T>, x: T, y: T, e: nat)
    requires IsRing(r)
    ensures Pow(r, r.mul(x, y), e) == r.mul(Pow(r, x, e), Pow(r, y, e))
  {
    if e > 0 {
      PowProduct(r, x, y, e - 1);
      MulSwap(r, Pow(r, x, e - 1), Pow(r, y, e - 1), x, y);
    }
  }

  lemma {:induction false} PowOfOne<T(!new)>(r: Ring<T>, e: nat)
    requires IsRing(r)
    ensures Pow(r, r.one, e) == r.one
  {
    if e > 0 {
      PowOfOne(r, e - 1);
    }
  }

  lemma {:induction false} PowExchange<T(!new)>(r: Ring<T>, z: T, a: nat, b: nat)
    requires IsRing(r)
    ensures Pow(r, Pow(r, z, a), b) == Pow(r, Pow(r, z, b), a)
  {
    if a == 0 {
      PowOfOne(r, b);
    } else {
      PowExchange(r, z, a - 1, b);
      PowProduct(r, Pow(r, z, a - 1), z, b);
    }
  }

  lemma {:induction false} PowNegOne<T(!new)>(r: Ring<T>, e: nat)
    requires IsRing(r)
    ensures Pow(r, r.neg(r.one), e) == if e % 2 == 0 then r.one else r.neg(r.one)
  {
    if e > 0 {
      PowNegOne(r, e - 1);
      var p := Pow(r, r.neg(r.one), e - 1);
      MulNeg(r, p, r.one);
      NegNeg(r, r.one);
    }
  }

  lemma {:induction false} EvalAdd<T(!new)>(r: Ring<T>, a: seq<T>, b: seq<T>, c: seq<T>, z: T)
    requires IsRing(r) && |a| == |b| == |c|
    requires forall k :: 0 <= k < |a| ==> c[k] == r.add(a[k], b[k])
    ensures Eval(r, c, z) == r.add(Eval(r, a, z), Eval(r, b, z))
  {
    if a != [] {
      var n := |a| - 1;
      EvalAdd(r, a[..n], b[..n], c[..n], z);
      EvalAddStep(r, Eval(r, a[..n], z), Eval(r, b[..n], z), a[n], b[n], Pow(r, z, n));
    }
  }

  lemma EvalAddStep<T(!new)>(r: Ring<T>, p: T, q: T, a: T, b: T, z: T)
    requires IsRing(r)
    ensures r.add(r.add(p, q), r.mul(r.add(a, b), z)) == r.add(r.add(p, r.mul(a, z)), r.add(q, r.mul(b, z)))
  {
    var az, bz := r.mul(a, z), r.mul(b, z);
    calc {
      r.mul(r.add(a, b), z);
      { assert MulCommutes(r, r.add(a, b), z) && Distributes(r, z, a, b); }
      r.add(r.mul(z, a), r.mul(z, b));
      { assert MulCommutes(r, z, a) && MulCommutes(r, z, b); }
      r.add(az, bz);
    }
    calc {
      r.add(r.add(p, q), r.add(az, bz));
      { assert AddAssociates(r, p, q, r.add(az, bz)); }
      r.add(p, r.add(q, r.add(az, bz)));
      { assert AddAssociates(r, q, az, bz) && AddCommutes(r, q, az) && AddAssociates(r, az, q, bz); }
      r.add(p, r.add(az, r.add(q, bz)));
      { assert AddAssociates(r, p, az, r.add(q, bz)); }
      r.add(r.add(p, az), r.add(q, bz));
    }
  }

  lemma {:induction false} EvalNeg<T(!new)>(r: Ring<T>, a: seq<T>, b: seq<T>, z: T)
    requires IsRing(r) && |a| == |b|
    requires forall k :: 0 <= k < |a| ==> b[k] == r.neg(a[k])
    ensures Eval(r, b, z) == r.neg(Eval(r, a, z))
  {
    if a == [] {
      NegUnique(r, r.zero, r.zero);
    } else {
      var n := |a| - 1;
      var p, q := Eval(r, a[..n], z), r.mul(a[n], Pow(r, z, n));
      EvalNeg(r, a[..n], b[..n], z);
      MulNeg(r, Pow(r, z, n), a[n]);
      assert MulCommutes(r, Pow(r, z, n), a[n]);
      NegSum(r, p, q);
    }
  }

  lemma NegSum<T(!new)>(r: Ring<T>, p: T, q: T)
    requires IsRing(r)
    ensures r.neg(r.add(p, q)) == r.add(r.neg(p), r.neg(q))
  {
    calc {
      r.add(r.add(p, q), r.add(r.neg(p), r.neg(q)));
      { assert AddCommutes(r, r.neg(p), r.neg(q)) && AddAssociates(r, p, q, r.add(r.neg(q), r.neg(p))); }
      r.add(p, r.add(q, r.add(r.neg(q), r.neg(p))));
      { assert AddAssociates(r, q, r.neg(q), r.neg(p)) && AddCommutes(r, r.zero, r.neg(p)); }
      r.add(p, r.neg(p));
    }
    NegUnique(r, r.add(p, q), r.add(r.neg(p), r.neg(q)));
  }

  lemma {:induction false} EvalConcat<T(!new)>(r: Ring<T>, a: seq<T>, b: seq<T>, z: T)
    requires IsRing(r)
    ensures Eval(r, a + b, z) == r.add(Eval(r, a, z), r.mul(Pow(r, z, |a|), Eval(r, b, z)))
    decreases |b|
  {
    var s := Pow(r, z, |a|);
    if b == [] {
      assert a + b == a;
      MulZero(r, s);
    } else {
      var n, init := |b| - 1, b[..|b| - 1];
      assert (a + b)[..|a| + n] == a + init;
      EvalConcat(r, a, init, z);
      PowAdd(r, z, |a|, n);
      var q, c, t := Eval(r, init, z), b[n], Pow(r, z, n);
      calc {
        r.mul(c, r.mul(s, t));
        { assert MulAssociates(r, c, s, t) && MulCommutes(r, c, s) && MulAssociates(r, s, c, t); }
        r.mul(s, r.mul(c, t));
      }
      assert Distributes(r, s, q, r.mul(c, t));
      assert AddAssociates(r, Eval(r, a, z), r.mul(s, q), r.mul(s, r.mul(c, t)));
    }
  }

  /** Coefficients multiplied by powers of u move the sample point by u. */
  lemma {:induction false} EvalTwist<T(!new)>(r: Ring<T>, a: seq<T>, b: seq<T>, u: T, z: T)
    requires IsRing(r) && |a| == |b|
    requires forall k :: 0 <= k < |a| ==> b[k] == r.mul(a[k], Pow(r, u, k))
    ensures Eval(r, b, z) == Eval(r, a, r.mul(u, z))
  {
    if a != [] {
      var n := |a| - 1;
      EvalTwist(r, a[..n], b[..n], u, z);
      PowProduct(r, u, z, n);
      assert MulAssociates(r, a[n], Pow(r, u, n), Pow(r, z, n));
    }
  }

  // ----- Inversion -----

  /** 2^m times an element. */
  function Doubled<T(!new)>(r: Ring<T>, m: nat, a: T): T {
    if m == 0 then a else r.add(Doubled(r, m - 1, a), Doubled(r, m - 1, a))
  }

  ghost predicate Inverse<T(!new)>(r: Ring<T>, w: nat -> T, v: nat -> T, l: nat) {
    r.mul(w(l), v(l)) == r.one
  }

  /** Two halves of a transform, L[k] = E[k] + w^k O[k] and U[k] = E[k] - w^k O[k]: their sum and
      difference, sampled at z. */
  lemma SumOfHalves<T(!new)>(r: Ring<T>, root: T, e: seq<T>, o: seq<T>, z: T)
    requires IsRing(r) && |e| == |o|
    ensures var x, h := Combine(r, root, e, o), |e|;
            r.add(Eval(r, x[..h], z), Eval(r, x[h..], z)) == r.add(Eval(r, e, z), Eval(r, e, z))
  {
    var x, h := Combine(r, root, e, o), |e|;
    var d := seq(h, k requires 0 <= k < h => r.add(e[k], e[k]));
    forall k | 0 <= k < h ensures d[k] == r.add(x[..h][k], x[h..][k]) {
      CombineHalves(r, root, e, o, k);
      SumCancels(r, e[k], r.mul(Pow(r, root, k), o[k]));
    }
    EvalAdd(r, x[..h], x[h..], d, z);
    EvalAdd(r, e, e, d, z);
  }

  lemma SumCancels<T(!new)>(r: Ring<T>, a: T, b: T)
    requires IsRing(r)
    ensures r.add(r.add(a, b), r.Sub(a, b)) == r.add(a, a)
    ensures r.add(r.add(a, b), r.neg(r.Sub(a, b))) == r.add(b, b)
  {
    calc {
      r.add(r.add(a, b), r.add(a, r.neg(b)));
      { assert AddCommutes(r, a, r.neg(b)) && AddAssociates(r, a, b, r.add(r.neg(b), a)); }
      r.add(a, r.add(b, r.add(r.neg(b), a)));
      { assert AddAssociates(r, b, r.neg(b), a) && AddCommutes(r, r.zero, a); }
      r.add(a, a);
    }
    NegSum(r, a, r.neg(b));
    NegNeg(r, b);
    calc {
      r.add(r.add(a, b), r.add(r.neg(a), b));
      { assert AddCommutes(r, a, b) && AddAssociates(r, b, a, r.add(r.neg(a), b)); }
      r.add(b, r.add(a, r.add(r.neg(a), b)));
      { assert AddAssociates(r, a, r.neg(a), b) && AddCommutes(r, r.zero, b); }
      r.add(b, b);
    }
  }

  lemma DifferenceOfHalves<T(!new)>(r: Ring<T>, root: T, e: seq<T>, o: seq<T>, z: T)
    requires IsRing(r) && |e| == |o|
    ensures var x, h, y := Combine(r, root, e, o), |e|, Eval(r, o, r.mul(root, z));
            r.add(Eval(r, x[..h], z), r.neg(Eval(r, x[h..], z))) == r.add(y, y)
  {
    var x, h := Combine(r, root, e, o), |e|;
    var minus := seq(h, k requires 0 <= k < h => r.neg(x[h..][k]));
    var twisted := seq(h, k requires 0 <= k < h => r.mul(o[k], Pow(r, root, k)));
    var d := seq(h, k requires 0 <= k < h => r.add(twisted[k], twisted[k]));
    forall k | 0 <= k < h ensures d[k] == r.add(x[..h][k], minus[k]) {
      CombineHalves(r, root, e, o, k);
      SumCancels(r, e[k], r.mul(Pow(r, root, k), o[k]));
      assert MulCommutes(r, Pow(r, root, k), o[k]);
    }
    EvalNeg(r, x[h..], minus, z);
    EvalAdd(r, x[..h], minus, d, z);
    EvalAdd(r, twisted, twisted, d, z);
    EvalTwist(r, o, twisted, root, z);
  }

  /** The sign that half a turn gives to sample j. */
  lemma HalfTurn<T(!new)>(r: Ring<T>, v: nat -> T, m: nat, j: nat)
    requires IsRing(r) && RootChain(r, v) && m >= 1
    ensures Pow(r, Pow(r, v(m), j), Pow2(m - 1)) == if j % 2 == 0 then r.one else r.neg(r.one)
  {
    PowExchange(r, v(m), j, Pow2(m - 1));
    RootHalf(r, v, m);
    PowNegOne(r, j);
  }

  /** The reverse transform of E and O combined, at any point, from its two halves. */
  lemma CombinedAt<T(!new)>(r: Ring<T>, root: T, e: seq<T>, o: seq<T>, z: T)
    requires IsRing(r) && |e| == |o|
    ensures var x, h := Combine(r, root, e, o), |e|;
            Eval(r, x, z) == r.add(Eval(r, x[..h], z), r.mul(Pow(r, z, h), Eval(r, x[h..], z)))
  {
    var x, h := Combine(r, root, e, o), |e|;
    assert x == x[..h] + x[h..];
    EvalConcat(r, x[..h], x[h..], z);
  }

  lemma InverseEven<T(!new)>(r: Ring<T>, root: T, e: seq<T>, o: seq<T>, z: T)
    requires IsRing(r) && |e| == |o| && Pow(r, z, |e|) == r.one
    ensures Eval(r, Combine(r, root, e, o), z) == r.add(Eval(r, e, z), Eval(r, e, z))
  {
    CombinedAt(r, root, e, o, z);
    assert MulCommutes(r, r.one, Eval(r, Combine(r, root, e, o)[|e|..], z));
    SumOfHalves(r, root, e, o, z);
  }

  lemma InverseOdd<T(!new)>(r: Ring<T>, root: T, e: seq<T>, o: seq<T>, z: T)
    requires IsRing(r) && |e| == |o| && Pow(r, z, |e|) == r.neg(r.one)
    ensures var y := Eval(r, o, r.mul(root, z)); Eval(r, Combine(r, root, e, o), z) == r.add(y, y)
  {
    CombinedAt(r, root, e, o, z);
    var upper := Eval(r, Combine(r, root, e, o)[|e|..], z);
    MulNeg(r, upper, r.one);
    assert MulCommutes(r, r.neg(r.one), upper);
    DifferenceOfHalves(r, root, e, o, z);
  }

  /** The sample points of the halves: v(m)^j for even j, w(m) v(m)^j for odd j. */
  lemma HalfPoint<T(!new)>(r: Ring<T>, w: nat -> T, v: nat -> T, m: nat, j: nat)
    requires IsRing(r) && RootChain(r, v) && Inverse(r, w, v, m) && m >= 1
    ensures var z := Pow(r, v(m), j);
            Pow(r, v(m - 1), j / 2) == if j % 2 == 0 then z else r.mul(w(m), z)
  {
    assert Squares(r, v, m - 1);
    PowSquare(r, v(m), j / 2);
    if j % 2 == 1 {
      var p := Pow(r, v(m), j - 1);
      calc {
        r.mul(w(m), r.mul(p, v(m)));
        { assert MulCommutes(r, p, v(m)) && MulAssociates(r, w(m), v(m), p); }
        r.mul(r.mul(w(m), v(m)), p);
        { assert MulCommutes(r, r.one, p); }
        p;
      }
    }
  }

  /** Sample j of the reverse transform of E and O combined, from those of E and O alone. */
  lemma InverseStep<T(!new)>(r: Ring<T>, w: nat -> T, v: nat -> T, m: nat, e: seq<T>, o: seq<T>, j: nat)
    requires IsRing(r) && RootChain(r, v) && Inverse(r, w, v, m)
    requires m >= 1 && |e| == |o| == Pow2(m - 1)
    ensures var y := Eval(r, if j % 2 == 0 then e else o, Pow(r, v(m - 1), j / 2));
            Eval(r, Combine(r, w(m), e, o), Pow(r, v(m), j)) == r.add(y, y)
  {
    HalfTurn(r, v, m, j);
    HalfPoint(r, w, v, m, j);
    if j % 2 == 0 {
      InverseEven(r, w(m), e, o, Pow(r, v(m), j));
    } else {
      InverseOdd(r, w(m), e, o, Pow(r, v(m), j));
    }
  }

  ghost predicate Inverses<T(!new)>(r: Ring<T>, w: nat -> T, v: nat -> T) {
    && RootChain(r, w)
    && RootChain(r, v)
    && forall l: nat :: Inverse(r, w, v, l)
  }

  lemma InverseOfOne<T(!new)>(r: Ring<T>, root: T, z: T, x: seq<T>)
    requires IsRing(r) && |x| == 1
    ensures Eval(r, Dft(r, root, x), z) == x[0]
  {
    DftOfOne(r, root, x);
    assert x == [x[0]];
    EvalConstant(r, x[0], z);
  }

  /** Sample j of x, transformed forth and back, comes out 2^m times. */
  ghost predicate Restores<T(!new)>(r: Ring<T>, w: nat -> T, v: nat -> T, m: nat, x: seq<T>, j: nat)
    requires j < |x|
  {
    Eval(r, Dft(r, w(m), x), Pow(r, v(m), j)) == Doubled(r, m, x[j])
  }

  function Half<T>(x: seq<T>, j: nat): (h: seq<T>)
    requires |x| % 2 == 0 && j < |x|
    ensures |h| == |x| / 2 && h[j / 2] == x[j]
  {
    if j % 2 == 0 then Evens(x) else Odds(x)
  }

  lemma RestoresStep<T(!new)>(r: Ring<T>, w: nat -> T, v: nat -> T, m: nat, x: seq<T>, j: nat)
    requires IsRing(r) && Inverses(r, w, v) && m >= 1 && |x| == Pow2(m) && j < |x|
    requires Restores(r, w, v, m - 1, Half(x, j), j / 2)
    ensures Restores(r, w, v, m, x, j)
  {
    assert Inverse(r, w, v, m);
    DftCombines(r, w, m, x);
    InverseStep(r, w, v, m, Dft(r, w(m - 1), Evens(x)), Dft(r, w(m - 1), Odds(x)), j);
  }

  lemma {:induction false} InverseDft<T(!new)>(r: Ring<T>, w: nat -> T, v: nat -> T, m: nat, x: seq<T>, j: nat)
    requires IsRing(r) && Inverses(r, w, v) && |x| == Pow2(m) && j < |x|
    ensures Restores(r, w, v, m, x, j)
    decreases m
  {
    if m == 0 {
      InverseOfOne(r, w(0), Pow(r, v(0), j), x);
    } else {
      InverseDft(r, w, v, m - 1, Half(x, j), j / 2);
      RestoresStep(r, w, v, m, x, j);
    }
  }

  function AllDoubled<T(!new)>(r: Ring<T>, m: nat, x: seq<T>): (y: seq<T>)
    ensures |y| == |x|
  {
    seq(|x|, j requires 0 <= j < |x| => Doubled(r, m, x[j]))
  }

  /** Transforming with the roots w and then with their inverses v is multiplying by the length. */
  lemma ReverseTransform<T(!new)>(r: Ring<T>, w: nat -> T, v: nat -> T, m: nat, x: seq<T>)
    requires IsRing(r) && Inverses(r, w, v) && |x| == Pow2(m)
    ensures Dft(r, v(m), Dft(r, w(m), x)) == AllDoubled(r, m, x)
  {
    var y := Dft(r, w(m), x);
    forall j: nat | j < |x| ensures Dft(r, v(m), y)[j] == AllDoubled(r, m, x)[j] {
      InverseDft(r, w, v, m, x, j);
      DftAt(r, v(m), y, j);
    }
  }
}
