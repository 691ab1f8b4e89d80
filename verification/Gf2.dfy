/** Long division over GF(2) by x^16 + x^12 + x^5 + 1.

    Polynomials are bit strings, leading coefficient first. A register is a remainder:
    sixteen coefficients. The generator is the one of section 2 of ITU-T V.41. */
module Gf2 {

  type Poly = seq<bool>
  type Register = r: Poly | |r| == 16 witness Zeros(16)

  function Zeros(n: nat): (z: Poly)
    ensures |z| == n
    ensures forall i :: 0 <= i < n ==> !z[i]
  {
    seq(n, _ => false)
  }

  const ZERO: Register := Zeros(16)

  /** The generator without its leading term. */
  const GENERATOR: Register := [
    false, false, false, true, false, false, false, false,
    false, false, true, false, false, false, false, true]

  function Xor(a: Poly, b: Poly): (c: Poly)
    requires |a| == |b|
    ensures |c| == |a|
    ensures forall i :: 0 <= i < |a| ==> c[i] == (a[i] != b[i])
  {
    seq(|a|, i requires 0 <= i < |a| => a[i] != b[i])
  }

  /** Brings down one more bit of the dividend; subtracts the generator if it fits. */
  function Step(r: Register, bit: bool): Register {
    var shifted := r[1..] + [bit];
    if r[0] then Xor(shifted, GENERATOR) else shifted
  }

  function Divide(r: Register, bits: Poly): Register {
    if bits == [] then r else Step(Divide(r, bits[..|bits| - 1]), bits[|bits| - 1])
  }

  /** The remainder of a polynomial. */
  function Remainder(bits: Poly): Register {
    Divide(ZERO, bits)
  }

  lemma {:induction false} DivideAppend(r: Register, a: Poly, b: Poly)
    ensures Divide(r, a + b) == Divide(Divide(r, a), b)
    decreases |b|
  {
    if b == [] {
      assert a + b == a;
    } else {
      var init := b[..|b| - 1];
      assert (a + b)[..|a + b| - 1] == a + init;
      DivideAppend(r, a, init);
    }
  }

  // ----- The division is linear -----

  lemma StepXor(r: Register, s: Register, a: bool, b: bool)
    ensures Step(Xor(r, s), a != b) == Xor(Step(r, a), Step(s, b))
  {
  }

  lemma {:induction false} DivideXor(r: Register, s: Register, a: Poly, b: Poly)
    requires |a| == |b|
    ensures Divide(Xor(r, s), Xor(a, b)) == Xor(Divide(r, a), Divide(s, b))
    decreases |a|
  {
    if a != [] {
      var n := |a| - 1;
      assert Xor(a, b)[..n] == Xor(a[..n], b[..n]);
      DivideXor(r, s, a[..n], b[..n]);
      StepXor(Divide(r, a[..n]), Divide(s, b[..n]), a[n], b[n]);
    }
  }

  lemma RemainderXor(a: Poly, b: Poly)
    requires |a| == |b|
    ensures Remainder(Xor(a, b)) == Xor(Remainder(a), Remainder(b))
  {
    assert Xor(ZERO, ZERO) == ZERO;
    DivideXor(ZERO, ZERO, a, b);
  }

  /** A dividend of degree below 16 is its own remainder. */
  lemma {:induction false} DivideShort(bits: Poly)
    requires |bits| <= 16
    ensures Remainder(bits) == Zeros(16 - |bits|) + bits
  {
    if bits != [] {
      var n := |bits| - 1;
      DivideShort(bits[..n]);
    }
  }

  lemma DivideRegister(r: Register, bits: Poly)
    ensures Divide(r, bits) == Remainder(r + bits)
  {
    DivideShort(r);
    assert Zeros(0) + r == r;
    DivideAppend(ZERO, r, bits);
  }

  lemma {:induction false} DivideZeros(n: nat)
    ensures Remainder(Zeros(n)) == ZERO
  {
    if n > 0 {
      assert Zeros(n)[..n - 1] == Zeros(n - 1);
      DivideZeros(n - 1);
      assert Step(ZERO, false) == ZERO;
    }
  }

  // ----- A nonzero remainder never dies out -----

  lemma StepNonzero(r: Register)
    requires Step(r, false) == ZERO
    ensures r == ZERO
  {
    var next := Step(r, false);
    assert !next[15];
    assert !r[0];
    assert forall i :: 1 <= i < 16 ==> r[i] == next[i - 1];
  }

  lemma {:induction false} DivideNonzero(r: Register, n: nat)
    requires r != ZERO
    ensures Divide(r, Zeros(n)) != ZERO
  {
    if n > 0 {
      assert Zeros(n)[..n - 1] == Zeros(n - 1);
      DivideNonzero(r, n - 1);
      if Step(Divide(r, Zeros(n - 1)), false) == ZERO {
        StepNonzero(Divide(r, Zeros(n - 1)));
      }
    }
  }

  // ----- The generator is divisible by x + 1 -----

  /** The number of terms. */
  function Weight(p: Poly): nat {
    if p == [] then 0 else Weight(p[..|p| - 1]) + if p[|p| - 1] then 1 else 0
  }

  predicate Odd(p: Poly) {
    Weight(p) % 2 == 1
  }

  lemma {:induction false} WeightAppend(a: Poly, b: Poly)
    ensures Weight(a + b) == Weight(a) + Weight(b)
    decreases |b|
  {
    if b == [] {
      assert a + b == a;
    } else {
      var n := |b| - 1;
      assert (a + b)[..|a| + n] == a + b[..n];
      WeightAppend(a, b[..n]);
    }
  }

  lemma WeightOne(bit: bool)
    ensures Weight([bit]) == if bit then 1 else 0
  {
    assert [bit][..0] == [];
    assert Weight([]) == 0;
  }

  lemma {:induction false} WeightZeros(n: nat)
    ensures Weight(Zeros(n)) == 0
  {
    if n > 0 {
      assert Zeros(n)[..n - 1] == Zeros(n - 1);
      WeightZeros(n - 1);
    }
  }

  lemma {:induction false} OddXor(a: Poly, b: Poly)
    requires |a| == |b|
    ensures Odd(Xor(a, b)) == (Odd(a) != Odd(b))
    decreases |a|
  {
    if a != [] {
      var n := |a| - 1;
      assert Xor(a, b)[..n] == Xor(a[..n], b[..n]);
      OddXor(a[..n], b[..n]);
    }
  }

  lemma OddGenerator()
    ensures Odd(GENERATOR)
  {
    var high, middle := Zeros(3) + [true], Zeros(6) + [true];
    var low := Zeros(4) + [true];
    assert GENERATOR == (high + middle) + low;
    WeightAppend(high + middle, low);
    WeightAppend(high, middle);
    WeightAppend(Zeros(3), [true]);
    WeightAppend(Zeros(6), [true]);
    WeightAppend(Zeros(4), [true]);
    WeightOne(true);
    WeightZeros(3);
    WeightZeros(6);
    WeightZeros(4);
  }

  lemma StepOdd(r: Register, bit: bool)
    ensures Odd(Step(r, bit)) == (Odd(r) != bit)
  {
    var shifted := r[1..] + [bit];
    assert r == [r[0]] + r[1..];
    WeightAppend([r[0]], r[1..]);
    WeightOne(r[0]);
    WeightAppend(r[1..], [bit]);
    WeightOne(bit);
    if r[0] {
      OddGenerator();
      OddXor(shifted, GENERATOR);
    }
  }

  /** Division keeps the parity of the number of terms. */
  lemma {:induction false} DivideOdd(r: Register, bits: Poly)
    ensures Odd(Divide(r, bits)) == (Odd(r) != Odd(bits))
    decreases |bits|
  {
    if bits != [] {
      var n := |bits| - 1;
      DivideOdd(r, bits[..n]);
      StepOdd(Divide(r, bits[..n]), bits[n]);
    }
  }

  // ----- The quotient -----

  /** t with one more row of the long multiplication. */
  function NextRow(t: Poly, bit: bool): (p: Poly)
    requires |t| >= 16
    ensures |p| == |t| + 1
  {
    if bit then Xor(t + [false], Zeros(|t| - 16) + [true] + GENERATOR) else t + [false]
  }

  /** Product of q and the whole generator, one row of the long multiplication at a time. */
  function TimesGenerator(q: Poly): (p: Poly)
    ensures |p| == |q| + 16
  {
    if q == [] then ZERO
    else
      var n := |q| - 1;
      NextRow(TimesGenerator(q[..n]), q[n])
  }

  lemma TimesGeneratorSnoc(q: Poly, bit: bool)
    ensures TimesGenerator(q + [bit]) == NextRow(TimesGenerator(q), bit)
  {
    assert (q + [bit])[..|q|] == q;
  }

  lemma DivisionStepAt(t: Poly, r: Register, bit: bool, i: nat)
    requires 16 <= |t| && i <= |t|
    ensures var n := |t| - 16;
            (Xor(t, Zeros(n) + r) + [bit])[i] == Xor(NextRow(t, r[0]), Zeros(n + 1) + Step(r, bit))[i]
  {
    var n := |t| - 16;
    var row, next := Zeros(n) + [true] + GENERATOR, Zeros(n + 1) + Step(r, bit);
    if i < n {
      assert !row[i] && !next[i];
    } else if i == n {
      assert row[i] && !next[i];
    } else {
      var k := i - n - 1;
      assert row[i] == GENERATOR[k] && next[i] == Step(r, bit)[k];
      assert i < |t| ==> (Zeros(n) + r)[i] == r[k + 1];
    }
  }

  lemma DivisionStep(t: Poly, r: Register, bit: bool)
    requires |t| >= 16
    ensures Xor(t, Zeros(|t| - 16) + r) + [bit] == Xor(NextRow(t, r[0]), Zeros(|t| - 15) + Step(r, bit))
  {
    var n := |t| - 16;
    var x, y := Xor(t, Zeros(n) + r) + [bit], Xor(NextRow(t, r[0]), Zeros(n + 1) + Step(r, bit));
    forall i: nat | i < |x| ensures x[i] == y[i] {
      DivisionStepAt(t, r, bit, i);
    }
  }

  /** Remainder is what division promises: every polynomial is a multiple of the generator
      plus its remainder, whose degree is below 16. */
  lemma {:induction false} DivisionAlgorithm(bits: Poly) returns (q: Poly)
    ensures |q| == |bits|
    ensures ZERO + bits == Xor(TimesGenerator(q), Zeros(|bits|) + Remainder(bits))
  {
    if bits == [] {
      q := [];
      assert ZERO + bits == ZERO;
    } else {
      var init, last := bits[..|bits| - 1], bits[|bits| - 1];
      var q0 := DivisionAlgorithm(init);
      var r := Remainder(init);
      q := q0 + [r[0]];
      TimesGeneratorSnoc(q0, r[0]);
      calc {
        ZERO + bits;
        ZERO + init + [last];
        { DivisionStep(TimesGenerator(q0), r, last); }
        Xor(TimesGenerator(q), Zeros(|bits|) + Step(r, last));
        Xor(TimesGenerator(q), Zeros(|bits|) + Remainder(bits));
      }
    }
  }

  lemma {:induction false} MultiplesDivide(q: Poly)
    ensures Remainder(TimesGenerator(q)) == ZERO
  {
    if q == [] {
      DivideZeros(16);
    } else {
      var n := |q| - 1;
      var shifted := TimesGenerator(q[..n]) + [false];
      MultiplesDivide(q[..n]);
      DivideAppend(ZERO, TimesGenerator(q[..n]), [false]);
      assert [false][..0] == [] && Divide(ZERO, []) == ZERO;
      assert Divide(ZERO, [false]) == Step(ZERO, false) == ZERO;
      if q[n] {
        GeneratorDivides(n);
        RemainderXor(shifted, Zeros(n) + [true] + GENERATOR);
      }
    }
  }

  lemma GeneratorDivides(n: nat)
    ensures Remainder(Zeros(n) + [true] + GENERATOR) == ZERO
  {
    var lead := [true] + GENERATOR[..15];
    assert Zeros(n) + [true] + GENERATOR == Zeros(n) + (lead + [true]);
    DivideZeros(n);
    DivideAppend(ZERO, Zeros(n), lead + [true]);
    DivideShort(lead);
    assert (lead + [true])[..16] == lead;
    assert Step(lead, true) == ZERO;
  }

  lemma PaddedRemainder(bits: Poly)
    ensures Remainder(ZERO + bits) == Remainder(bits)
  {
    DivideAppend(ZERO, ZERO, bits);
    DivideZeros(16);
  }

  lemma ShiftedRemainder(n: nat, r: Register)
    ensures Remainder(Zeros(n) + r) == r
  {
    DivideAppend(ZERO, Zeros(n), r);
    DivideZeros(n);
    DivideShort(r);
    assert Zeros(0) + r == r;
  }

  /** ... and it is the only such remainder. */
  lemma RemainderUnique(bits: Poly, q: Poly, r: Register)
    requires |q| == |bits|
    requires ZERO + bits == Xor(TimesGenerator(q), Zeros(|bits|) + r)
    ensures r == Remainder(bits)
  {
    PaddedRemainder(bits);
    RemainderXor(TimesGenerator(q), Zeros(|bits|) + r);
    MultiplesDivide(q);
    ShiftedRemainder(|bits|, r);
    assert Xor(ZERO, r) == r;
  }
}
