/** Commutative rings, powers and polynomial evaluation, as far as the Fourier transform needs them. */
module Rings {

  datatype Ring<!T(!new)> = Ring(zero: T, one: T, neg: T -> T, add: (T, T) -> T, mul: (T, T) -> T) {
    function Sub(a: T, b: T): T {
      add(a, neg(b))
    }
  }

  // The laws that would let a prover rewrite without end are named, and used where they are named.

  ghost predicate AddCommutes<T(!new)>(r: Ring<T>, a: T, b: T) {
    r.add(a, b) == r.add(b, a)
  }

  ghost predicate MulCommutes<T(!new)>(r: Ring<T>, a: T, b: T) {
    r.mul(a, b) == r.mul(b, a)
  }

  ghost predicate AddAssociates<T(!new)>(r: Ring<T>, a: T, b: T, c: T) {
    r.add(r.add(a, b), c) == r.add(a, r.add(b, c))
  }

  ghost predicate MulAssociates<T(!new)>(r: Ring<T>, a: T, b: T, c: T) {
    r.mul(r.mul(a, b), c) == r.mul(a, r.mul(b, c))
  }

  ghost predicate Distributes<T(!new)>(r: Ring<T>, a: T, b: T, c: T) {
    r.mul(a, r.add(b, c)) == r.add(r.mul(a, b), r.mul(a, c))
  }

  ghost predicate IsRing<T(!new)>(r: Ring<T>) {
    && (forall a, b :: AddCommutes(r, a, b))
    && (forall a, b, c :: AddAssociates(r, a, b, c))
    && (forall a :: r.add(a, r.zero) == a)
    && (forall a :: r.add(a, r.neg(a)) == r.zero)
    && (forall a, b :: MulCommutes(r, a, b))
    && (forall a, b, c :: MulAssociates(r, a, b, c))
    && (forall a :: r.mul(a, r.one) == a)
    && (forall a, b, c :: Distributes(r, a, b, c))
  }

  // ----- Consequences -----

  lemma MulSwap<T(!new)>(r: Ring<T>, a: T, b: T, c: T, d: T)
    requires IsRing(r)
    ensures r.mul(r.mul(a, b), r.mul(c, d)) == r.mul(r.mul(a, c), r.mul(b, d))
  {
    assert MulAssociates(r, a, b, r.mul(c, d)) && MulAssociates(r, b, c, d) && MulCommutes(r, b, c);
    assert MulAssociates(r, c, b, d) && MulAssociates(r, a, c, r.mul(b, d));
  }

  lemma MulZero<T(!new)>(r: Ring<T>, a: T)
    requires IsRing(r)
    ensures r.mul(a, r.zero) == r.zero
  {
    var z := r.mul(a, r.zero);
    assert Distributes(r, a, r.zero, r.zero);
    assert AddAssociates(r, z, z, r.neg(z));
  }

  lemma NegUnique<T(!new)>(r: Ring<T>, a: T, b: T)
    requires IsRing(r) && r.add(a, b) == r.zero
    ensures b == r.neg(a)
  {
    assert AddAssociates(r, r.neg(a), a, b) && AddCommutes(r, r.neg(a), a);
    assert AddCommutes(r, r.zero, b);
  }

  lemma MulNeg<T(!new)>(r: Ring<T>, a: T, b: T)
    requires IsRing(r)
    ensures r.mul(a, r.neg(b)) == r.neg(r.mul(a, b))
    ensures r.mul(r.neg(b), a) == r.neg(r.mul(a, b))
  {
    assert Distributes(r, a, b, r.neg(b));
    MulZero(r, a);
    NegUnique(r, r.mul(a, b), r.mul(a, r.neg(b)));
    assert MulCommutes(r, a, r.neg(b));
  }

  lemma NegNeg<T(!new)>(r: Ring<T>, a: T)
    requires IsRing(r)
    ensures r.neg(r.neg(a)) == a
  {
    assert AddCommutes(r, r.neg(a), a);
    NegUnique(r, r.neg(a), a);
  }

  lemma SquareOfNeg<T(!new)>(r: Ring<T>, a: T)
    requires IsRing(r)
    ensures r.mul(r.neg(a), r.neg(a)) == r.mul(a, a)
  {
    MulNeg(r, r.neg(a), a);
    MulNeg(r, a, a);
    NegNeg(r, r.mul(a, a));
  }

  // ----- Powers -----

  function Pow<T(!new)>(r: Ring<T>, z: T, e: nat): T {
    if e == 0 then r.one else r.mul(Pow(r, z, e - 1), z)
  }

  lemma {:induction false} PowAdd<T(!new)>(r: Ring<T>, z: T, a: nat, b: nat)
    requires IsRing(r)
    ensures Pow(r, z, a + b) == r.mul(Pow(r, z, a), Pow(r, z, b))
  {
    if b > 0 {
      PowAdd(r, z, a, b - 1);
      assert MulAssociates(r, Pow(r, z, a), Pow(r, z, b - 1), z);
    }
  }

  lemma {:induction false} PowSquare<T(!new)>(r: Ring<T>, z: T, e: nat)
    requires IsRing(r)
    ensures Pow(r, r.mul(z, z), e) == Pow(r, z, 2 * e)
    ensures Pow(r, r.mul(z, z), e) == r.mul(Pow(r, z, e), Pow(r, z, e))
  {
    PowAdd(r, z, e, e);
    assert e + e == 2 * e;
    if e > 0 {
      PowSquare(r, z, e - 1);
      MulSwap(r, Pow(r, z, e - 1), Pow(r, z, e - 1), z, z);
    } else {
      assert r.mul(r.one, r.one) == r.one;
    }
  }

  // ----- Polynomials: the value of x[0] + x[1] z + x[2] z^2 + ... -----

  function Eval<T(!new)>(r: Ring<T>, x: seq<T>, z: T): T {
    if x == [] then r.zero
    else
      var n := |x| - 1;
      r.add(Eval(r, x[..n], z), r.mul(x[n], Pow(r, z, n)))
  }

  function Evens<T>(x: seq<T>): (y: seq<T>)
    ensures |y| == (|x| + 1) / 2
  {
    seq((|x| + 1) / 2, i requires 0 <= i < (|x| + 1) / 2 => x[2 * i])
  }

  function Odds<T>(x: seq<T>): (y: seq<T>)
    ensures |y| == |x| / 2
  {
    seq(|x| / 2, i requires 0 <= i < |x| / 2 => x[2 * i + 1])
  }

  lemma EvalSnoc<T(!new)>(r: Ring<T>, x: seq<T>, c: T, z: T)
    ensures Eval(r, x + [c], z) == r.add(Eval(r, x, z), r.mul(c, Pow(r, z, |x|)))
  {
    assert (x + [c])[..|x|] == x;
  }

  lemma DecimateSnoc<T>(x: seq<T>, c: T)
    ensures |x| % 2 == 0 ==> Evens(x + [c]) == Evens(x) + [c] && Odds(x + [c]) == Odds(x)
    ensures |x| % 2 == 1 ==> Evens(x + [c]) == Evens(x) && Odds(x + [c]) == Odds(x) + [c]
  {
  }

  /** What one more coefficient adds to the even part. */
  lemma AddToEven<T(!new)>(r: Ring<T>, e: T, o: T, c: T)
    requires IsRing(r)
    ensures r.add(r.add(e, o), c) == r.add(r.add(e, c), o)
  {
    assert AddAssociates(r, e, o, c) && AddAssociates(r, e, c, o) && AddCommutes(r, o, c);
  }

  /** What one more coefficient adds to the odd part. */
  lemma AddToOdd<T(!new)>(r: Ring<T>, e: T, o: T, z: T, c: T, p: T)
    requires IsRing(r)
    ensures r.add(r.add(e, r.mul(z, o)), r.mul(c, r.mul(p, z))) == r.add(e, r.mul(z, r.add(o, r.mul(c, p))))
  {
    assert MulAssociates(r, c, p, z) && MulCommutes(r, r.mul(c, p), z);
    assert Distributes(r, z, o, r.mul(c, p));
    assert AddAssociates(r, e, r.mul(z, o), r.mul(z, r.mul(c, p)));
  }

  ghost predicate Splits<T(!new)>(r: Ring<T>, x: seq<T>, z: T) {
    Eval(r, x, z) == r.add(Eval(r, Evens(x), r.mul(z, z)), r.mul(z, Eval(r, Odds(x), r.mul(z, z))))
  }

  lemma SplitsEven<T(!new)>(r: Ring<T>, y: seq<T>, c: T, z: T)
    requires IsRing(r) && Splits(r, y, z) && |y| % 2 == 0
    ensures Splits(r, y + [c], z)
  {
    var zz := r.mul(z, z);
    DecimateSnoc(y, c);
    EvalSnoc(r, y, c, z);
    EvalSnoc(r, Evens(y), c, zz);
    PowSquare(r, z, |y| / 2);
    AddToEven(r, Eval(r, Evens(y), zz), r.mul(z, Eval(r, Odds(y), zz)), r.mul(c, Pow(r, z, |y|)));
  }

  lemma SplitsOdd<T(!new)>(r: Ring<T>, y: seq<T>, c: T, z: T)
    requires IsRing(r) && Splits(r, y, z) && |y| % 2 == 1
    ensures Splits(r, y + [c], z)
  {
    var zz, h := r.mul(z, z), |y| / 2;
    var p := Pow(r, z, 2 * h);
    var e, o := Eval(r, Evens(y), zz), Eval(r, Odds(y), zz);
    calc {
      Eval(r, y + [c], z);
      { EvalSnoc(r, y, c, z); }
      r.add(r.add(e, r.mul(z, o)), r.mul(c, r.mul(p, z)));
      { AddToOdd(r, e, o, z, c, p); }
      r.add(e, r.mul(z, r.add(o, r.mul(c, p))));
      { PowSquare(r, z, h); EvalSnoc(r, Odds(y), c, zz); }
      r.add(e, r.mul(z, Eval(r, Odds(y) + [c], zz)));
      { DecimateSnoc(y, c); }
      r.add(Eval(r, Evens(y + [c]), zz), r.mul(z, Eval(r, Odds(y + [c]), zz)));
    }
  }

  /** Decimation: a polynomial is its even part at z^2 plus z times its odd part at z^2. */
  lemma {:induction false} EvalSplits<T(!new)>(r: Ring<T>, x: seq<T>, z: T)
    requires IsRing(r)
    ensures Splits(r, x, z)
  {
    if x == [] {
      MulZero(r, z);
      assert Evens(x) == [] && Odds(x) == [];
    } else {
      var y, c := x[..|x| - 1], x[|x| - 1];
      assert x == y + [c];
      EvalSplits(r, y, z);
      if |y| % 2 == 0 {
        SplitsEven(r, y, c, z);
      } else {
        SplitsOdd(r, y, c, z);
      }
    }
  }
}
