/** The portable float codec of buffer.c: a float as the four bytes of its binary32 pattern, without
    looking at its representation. Floats are exact: a sign, an integer significand and an exponent. */
module FloatCodec {
  import opened MachineWords
  import opened PowersOfTwo

  const HIDDEN_BIT := 0x80_0000
  const SIGN_BIT := 0x8000_0000

  // ----- Scaling by powers of two -----

  function Abs(k: int): nat {
    if k < 0 then -k else k
  }

  /** x * 2^e. */
  function Ldexp(x: real, e: int): real
    decreases Abs(e)
  {
    if e == 0 then x else if e > 0 then Ldexp(2.0 * x, e - 1) else Ldexp(x / 2.0, e + 1)
  }

  lemma LdexpShift(x: real, e: int)
    ensures Ldexp(2.0 * x, e - 1) == Ldexp(x, e)
  {
    assert (2.0 * x) / 2.0 == x;
  }

  lemma LdexpShift4(x: real, e: int)
    ensures Ldexp(16.0 * x, e - 4) == Ldexp(x, e)
  {
    LdexpShift(x, e);
    LdexpShift(2.0 * x, e - 1);
    LdexpShift(4.0 * x, e - 2);
    LdexpShift(8.0 * x, e - 3);
  }

  lemma LdexpShift12(x: real, e: int)
    ensures Ldexp(4096.0 * x, e - 12) == Ldexp(x, e)
  {
    LdexpShift4(x, e);
    LdexpShift4(16.0 * x, e - 4);
    LdexpShift4(256.0 * x, e - 8);
  }

  lemma LdexpShift24(x: real, e: int)
    ensures Ldexp(16777216.0 * x, e - 24) == Ldexp(x, e)
  {
    LdexpShift12(x, e);
    LdexpShift12(4096.0 * x, e - 12);
  }

  lemma {:induction false} LdexpIncreases(x: real, y: real, e: int)
    requires x < y
    ensures Ldexp(x, e) < Ldexp(y, e)
    decreases Abs(e)
  {
    if e > 0 {
      LdexpIncreases(2.0 * x, 2.0 * y, e - 1);
    } else if e < 0 {
      LdexpIncreases(x / 2.0, y / 2.0, e + 1);
    }
  }

  lemma {:induction false} LdexpNegates(x: real, e: int)
    ensures Ldexp(-x, e) == -Ldexp(x, e)
    decreases Abs(e)
  {
    if e > 0 {
      LdexpNegates(2.0 * x, e - 1);
    } else if e < 0 {
      LdexpNegates(x / 2.0, e + 1);
    }
  }

  lemma {:induction false} LdexpZero(e: int)
    ensures Ldexp(0.0, e) == 0.0
    decreases Abs(e)
  {
    if e > 0 {
      LdexpZero(e - 1);
    } else if e < 0 {
      LdexpZero(e + 1);
    }
  }

  lemma {:induction false} LdexpGrows(x: real, j: int, k: int)
    requires x > 0.0 && j < k
    ensures Ldexp(x, j) < Ldexp(x, k)
    decreases k - j
  {
    LdexpShift(x, k);
    LdexpIncreases(x, 2.0 * x, k - 1);
    if j < k - 1 {
      LdexpGrows(x, j, k - 1);
    }
  }

  // ----- Floats -----

  function Signed(neg: bool, x: real): real {
    if neg then -x else x
  }

  /** (-1)^neg * m * 2^q. */
  datatype Float = Float(neg: bool, m: nat, q: int) {
    predicate Normal() {
      HIDDEN_BIT <= m < 2 * HIDDEN_BIT && -149 <= q <= 104
    }

    predicate Subnormal() {
      0 < m < HIDDEN_BIT && q == -149
    }

    predicate Zero() {
      m == 0 && q == -149
    }

    function Magnitude(): real {
      Ldexp(m as real, q)
    }

    function Value(): real {
      Signed(neg, Magnitude())
    }
  }

  /** The finite numbers of the binary32 format of IEEE 754-2008. */
  type Binary32 = f: Float | f.Normal() || f.Subnormal() || f.Zero() witness Float(false, 0, -149)

  /** The significand shifted up until the hidden bit is set. */
  function Normalised(m: nat, q: int): (r: (nat, int))
    requires 0 < m < 2 * HIDDEN_BIT
    ensures HIDDEN_BIT <= r.0 < 2 * HIDDEN_BIT && r.1 <= q
    decreases 2 * HIDDEN_BIT - m
  {
    if m < HIDDEN_BIT then Normalised(2 * m, q - 1) else (m, q)
  }

  lemma {:induction false} NormalisedMagnitude(m: nat, q: int)
    requires 0 < m < 2 * HIDDEN_BIT
    ensures var r := Normalised(m, q); Ldexp(r.0 as real, r.1) == Ldexp(m as real, q)
    decreases 2 * HIDDEN_BIT - m
  {
    if m < HIDDEN_BIT {
      LdexpShift(m as real, q);
      assert (2 * m) as real == 2.0 * m as real;
      NormalisedMagnitude(2 * m, q - 1);
    }
  }

  lemma HiddenBitIsPower()
    ensures Pow2(23) == HIDDEN_BIT
  {
    assert Pow2(6) == 0x40 && Pow2(12) == 0x1000 && Pow2(18) == 0x4_0000;
  }

  /** How far the shift goes at most. */
  lemma {:induction false} ShiftBound(m: nat, q: int, n: nat)
    requires 0 < m < 2 * HIDDEN_BIT && n <= 23 && m >= Pow2(23 - n)
    ensures Normalised(m, q).1 >= q - n
    decreases n
  {
    HiddenBitIsPower();
    if m < HIDDEN_BIT {
      ShiftBound(2 * m, q - 1, n - 1);
    }
  }

  /** frexpf: a fraction of magnitude in [0.5, 1), and an exponent. */
  function Frexp(f: Binary32): (real, int) {
    if f.m == 0 then (0.0, 0)
    else
      var (m, q) := Normalised(f.m, f.q);
      var sig := m as real / 16777216.0;
      (if f.neg then -sig else sig, q + 24)
  }

  // ----- ldexpf -----

  /** What ldexpf returns. The sign of a zero is not part of it. */
  datatype Number = Finite(value: real) | Infinite(neg: bool)

  /** 2^128, which is beyond the largest finite number. */
  function Limit(): real {
    Ldexp(1.0, 128)
  }

  /** n / 2, to the nearest integer, and to the even one of two. */
  function HalfToEven(n: nat): nat {
    if n % 2 == 0 || n / 2 % 2 == 0 then n / 2 else n / 2 + 1
  }

  /** A result that is a number of the format is exact. */
  ghost predicate Exact(ldexpf: (real, int) -> Number, x: real, e: int, f: Binary32) {
    Ldexp(x, e) == f.Value() ==> ldexpf(x, e) == Finite(f.Value())
  }

  /** A result beyond the largest number is infinite. */
  ghost predicate Overflows(ldexpf: (real, int) -> Number, x: real, e: int, neg: bool) {
    Signed(neg, Ldexp(x, e)) >= Limit() ==> ldexpf(x, e) == Infinite(neg)
  }

  /** A result with one bit too many at the lower end of the format is rounded to even. */
  ghost predicate Underflows(ldexpf: (real, int) -> Number, x: real, e: int, neg: bool, n: nat) {
    n < 2 * HIDDEN_BIT && Ldexp(x, e) == Signed(neg, Ldexp(n as real, -150)) ==>
      ldexpf(x, e) == Finite(Signed(neg, Ldexp(HalfToEven(n) as real, -149)))
  }

  ghost predicate IsLdexpf(ldexpf: (real, int) -> Number) {
    && (forall x, e, f: Binary32 :: Exact(ldexpf, x, e, f))
    && (forall x, e, neg :: Overflows(ldexpf, x, e, neg))
    && (forall x, e, neg, n: nat :: Underflows(ldexpf, x, e, neg, n))
  }

  // ----- Four bytes -----

  function BigEndian(n: Word): (b: seq<Byte>)
    ensures |b| == 4
  {
    [n / 0x100_0000, n / 0x1_0000 % 0x100, n / 0x100 % 0x100, n % 0x100]
  }

  function FromBigEndian(b: seq<Byte>): Word
    requires |b| == 4
  {
    b[0] as nat * 0x100_0000 + b[1] as nat * 0x1_0000 + b[2] as nat * 0x100 + b[3]
  }

  lemma BigEndianRoundTrip(n: Word)
    ensures FromBigEndian(BigEndian(n)) == n
  {
    var a := n / 0x100;
    var b := a / 0x100;
    assert n / 0x1_0000 == b && n / 0x100_0000 == b / 0x100;
    assert n == a * 0x100 + n % 0x100 && a == b * 0x100 + a % 0x100 && b == b / 0x100 * 0x100 + b % 0x100;
  }

  /** Four bytes as a number, the first one the most significant. */
  lemma BigEndianWeights(n: Word, b: seq<Byte>)
    ensures var w := BigEndian(n);
            w[0] as nat * 16777216 + w[1] as nat * 65536 + w[2] as nat * 256 + w[3] as nat == n
    ensures |b| == 4 ==>
              FromBigEndian(b) == b[0] as nat * 16777216 + b[1] as nat * 65536 + b[2] as nat * 256 + b[3] as nat
  {
    BigEndianRoundTrip(n);
  }

  /** buffer_append_uint32. */
  method AppendUint32(buffer: array<Byte>, number: Word, index: nat) returns (index': nat)
    requires index + 4 <= buffer.Length
    modifies buffer
    ensures index' == index + 4
    ensures buffer[..] == old(buffer[..index]) + BigEndian(number) + old(buffer[index + 4..])
    ensures buffer[index] as nat * 16777216 + buffer[index + 1] as nat * 65536
            + buffer[index + 2] as nat * 256 + buffer[index + 3] as nat == number
  {
    BigEndianWeights(number, []);
    buffer[index] := number / 0x100_0000;
    buffer[index + 1] := number / 0x1_0000 % 0x100;
    buffer[index + 2] := number / 0x100 % 0x100;
    buffer[index + 3] := number % 0x100;
    index' := index + 4;
  }

  /** buffer_get_uint32. */
  method GetUint32(buffer: array<Byte>, index: nat) returns (res: Word, index': nat)
    requires index + 4 <= buffer.Length
    ensures res == FromBigEndian(buffer[index..index + 4]) && index' == index + 4
    ensures buffer[index] as nat * 16777216 + buffer[index + 1] as nat * 65536
            + buffer[index + 2] as nat * 256 + buffer[index + 3] as nat == res
  {
    res := buffer[index] as nat * 0x100_0000 + buffer[index + 1] as nat * 0x1_0000
           + buffer[index + 2] as nat * 0x100 + buffer[index + 3];
    index' := index + 4;
  }

  /** The three fields of a pattern. */
  datatype Fields = Fields(sign: bool, exponent: nat, fraction: nat) {
    predicate Valid() {
      exponent < 0x100 && fraction < HIDDEN_BIT
    }

    function Packed(): Word
      requires Valid()
    {
      (if sign then SIGN_BIT else 0) + exponent * HIDDEN_BIT + fraction
    }
  }

  function Unpacked(n: Word): (f: Fields)
    ensures f.Valid()
  {
    Fields(n >= SIGN_BIT, n / HIDDEN_BIT % 0x100, n % HIDDEN_BIT)
  }

  lemma UnpackedPacked(f: Fields)
    requires f.Valid()
    ensures Unpacked(f.Packed()) == f
  {
    var n, sign := f.Packed(), if f.sign then 1 else 0;
    assert n == (sign * 0x100 + f.exponent) * HIDDEN_BIT + f.fraction;
    assert n / HIDDEN_BIT == sign * 0x100 + f.exponent && n % HIDDEN_BIT == f.fraction;
  }

  // ----- The encoder -----

  /** The fields that buffer_append_float32_auto writes: the exponent is truncated to eight bits. */
  function Encoded(f: Binary32): (r: Fields)
    ensures r.Valid()
  {
    if f.m == 0 then Fields(false, 0, 0)
    else
      var (m, q) := Normalised(f.m, f.q);
      Fields(f.neg, (q + 150) % 0x100, m - HIDDEN_BIT)
  }

  lemma ScaledSignificand(m: nat, sigAbs: real)
    requires HIDDEN_BIT <= m < 2 * HIDDEN_BIT && sigAbs == m as real / 16777216.0
    ensures 0.5 <= sigAbs < 1.0
    ensures ((sigAbs - 0.5) * 2.0 * 8388608.0).Floor == m - HIDDEN_BIT
  {
    assert (sigAbs - 0.5) * 2.0 * 8388608.0 == (m - HIDDEN_BIT) as real;
  }

  method Encode(number: Binary32) returns (res: Word)
    ensures res == Encoded(number).Packed()
  {
    var (sig, e) := Frexp(number);
    var sigAbs := if sig < 0.0 then -sig else sig;
    var sigI := 0;
    if number.m > 0 {
      ScaledSignificand(Normalised(number.m, number.q).0, sigAbs);
    }
    if sigAbs >= 0.5 {
      sigI := ((sigAbs - 0.5) * 2.0 * 8388608.0).Floor;
      e := e + 126;
    }
    res := e % 0x100 * 0x80_0000 + sigI % 0x80_0000;
    if sig < 0.0 {
      res := res + 0x8000_0000;
    }
  }

  /** buffer_append_float32_auto. */
  method AppendFloat32Auto(buffer: array<Byte>, number: Binary32, index: nat) returns (index': nat)
    requires index + 4 <= buffer.Length
    modifies buffer
    ensures index' == index + 4
    ensures buffer[..] == old(buffer[..index]) + BigEndian(Encoded(number).Packed()) + old(buffer[index + 4..])
    ensures buffer[index] as nat * 16777216 + buffer[index + 1] as nat * 65536
            + buffer[index + 2] as nat * 256 + buffer[index + 3] as nat == Encoded(number).Packed()
  {
    var res := Encode(number);
    index' := AppendUint32(buffer, res, index);
  }

  lemma SubnormalShifts(f: Binary32)
    requires f.Subnormal()
    ensures -172 <= Normalised(f.m, f.q).1 <= -150
    ensures Normalised(f.m, f.q).1 == -150 ==> Normalised(f.m, f.q).0 == 2 * f.m
  {
    ShiftBound(f.m, f.q, 23);
    assert Normalised(f.m, f.q) == Normalised(2 * f.m, f.q - 1);
    if 2 * f.m < HIDDEN_BIT {
      assert Normalised(2 * f.m, f.q - 1) == Normalised(4 * f.m, f.q - 2);
    }
  }

  /** The encoding of section 3.4 of IEEE 754-2008. */
  function IeeeEncoded(f: Binary32): Fields {
    if f.Normal() then Fields(f.neg, f.q + 150, f.m - HIDDEN_BIT) else Fields(f.neg, 0, f.m)
  }

  /** The pattern is that of the standard for the normal numbers and for positive zero, and for no
      others. */
  lemma EncodedIsIeee(f: Binary32)
    ensures Encoded(f) == IeeeEncoded(f) <==> f.Normal() || (f.Zero() && !f.neg)
  {
    if f.Subnormal() {
      SubnormalShifts(f);
      var q := Normalised(f.m, f.q).1;
      if q < -150 {
        Truncated(q);
      }
    }
  }

  /** An exponent below the field's range comes out at its upper end. */
  lemma Truncated(q: int)
    requires -172 <= q < -150
    ensures (q + 150) % 0x100 == q + 406
  {
  }

  /** The four bytes of a normal number: the sign and the upper seven bits of the exponent field, its
      lowest bit and the upper seven of the fraction, and the other sixteen. */
  lemma BytesOfNormal(f: Binary32)
    requires f.Normal()
    ensures var b, e, fraction := BigEndian(Encoded(f).Packed()), f.q + 150, f.m - 8388608;
            && b[0] == (if f.neg then 128 else 0) + e / 2
            && b[1] == (if e % 2 == 1 then 128 else 0) + fraction / 65536
            && b[2] == fraction / 256 % 256 && b[3] == fraction % 256
  {
    var e, fraction := f.q + 150, f.m - 8388608;
    var sign := if f.neg then 1 else 0;
    assert Encoded(f) == Fields(f.neg, e, fraction);
    var high, low := fraction / 65536, fraction % 65536;
    var top := (sign * 256 + e) * 128 + high;
    HalvesOf(sign, e, fraction);
    BytesOfHalves(top, low);
    TopBytes(sign, e, high);
    BytesOfFraction(high, low);
  }

  lemma HalvesOf(sign: nat, e: nat, fraction: nat)
    requires sign <= 1 && e < 256 && fraction < 8388608
    ensures var high := fraction / 65536;
            high < 128 && (sign * 256 + e) * 128 + high < 65536
    ensures sign * 0x8000_0000 + e * 8388608 + fraction ==
            ((sign * 256 + e) * 128 + fraction / 65536) * 65536 + fraction % 65536
  {
  }

  lemma BytesOfHalves(top: nat, low: nat)
    requires top < 65536 && low < 65536
    ensures BigEndian(top * 65536 + low) == [top / 256, top % 256, low / 256, low % 256]
  {
    var n := top * 65536 + low;
    assert n / 65536 == top && n % 65536 == low;
    assert n / 16777216 == top / 256;
    BytesOfFraction(top, low);
  }

  lemma BytesOfFraction(high: nat, low: nat)
    requires low < 65536
    ensures var n := high * 65536 + low; n / 256 % 256 == low / 256 && n % 256 == low % 256
  {
    var n := high * 65536 + low;
    assert n == (high * 256 + low / 256) * 256 + low % 256;
    assert n / 256 == high * 256 + low / 256;
  }

  lemma TopBytes(sign: nat, e: nat, high: nat)
    requires sign <= 1 && e < 256 && high < 128
    ensures var top := (sign * 256 + e) * 128 + high;
            top / 256 == sign * 128 + e / 2 && top % 256 == e % 2 * 128 + high
  {
    var top := (sign * 256 + e) * 128 + high;
    assert top == (sign * 128 + e / 2) * 256 + (e % 2 * 128 + high);
  }

  /** One is 3F 80 00 00, and minus two C0 00 00 00. */
  lemma SomePatterns()
    ensures BigEndian(Encoded(Float(false, 8388608, -23)).Packed()) == [0x3F, 0x80, 0, 0]
    ensures BigEndian(Encoded(Float(true, 8388608, -22)).Packed()) == [0xC0, 0, 0, 0]
    ensures Ldexp(8388608.0, -23) == 1.0 && Ldexp(8388608.0, -22) == 2.0
  {
    BytesOfNormal(Float(false, 8388608, -23));
    BytesOfNormal(Float(true, 8388608, -22));
    LdexpShift24(0.5, 1);
    LdexpShift24(0.5, 2);
  }

  // ----- The decoder -----

  /** The number that buffer_get_float32_auto makes of the fields. */
  function Decoded(f: Fields): Number {
    var m := f.fraction + HIDDEN_BIT;
    if f.exponent == 0 && f.fraction == 0 then Finite(0.0)
    else if f.exponent == 0 then Finite(Signed(f.sign, Ldexp(HalfToEven(m) as real, -149)))
    else if f.exponent == 0xFF then Infinite(f.sign)
    else Finite(Signed(f.sign, Ldexp(m as real, f.exponent - 150)))
  }

  lemma LdexpScaled(sigI: nat, e: int)
    ensures Ldexp(sigI as real / 16777216.0 + 0.5, e) == Ldexp((sigI + HIDDEN_BIT) as real, e - 24)
  {
    var x := sigI as real / 16777216.0 + 0.5;
    LdexpShift24(x, e);
    assert 16777216.0 * x == (sigI + HIDDEN_BIT) as real;
  }

  /** 2^23 * 2^q and 2^24 * 2^q. */
  lemma PowersAt(q: int)
    ensures Ldexp(8388608.0, q) == Ldexp(1.0, q + 23)
    ensures Ldexp(16777216.0, q) == Ldexp(1.0, q + 24)
  {
    LdexpShift24(1.0, q + 24);
    LdexpShift24(0.5, q + 24);
    LdexpShift(0.5, q + 24);
  }

  /** The last call of the decoder. */
  lemma LastCall(ldexpf: (real, int) -> Number, f: Fields)
    requires IsLdexpf(ldexpf) && f.Valid() && (f.exponent > 0 || f.fraction > 0)
    ensures ldexpf(Signed(f.sign, f.fraction as real / 16777216.0 + 0.5), f.exponent - 126) == Decoded(f)
  {
    var sig, e, m := f.fraction as real / 16777216.0 + 0.5, f.exponent - 126, f.fraction + HIDDEN_BIT;
    var x := Signed(f.sign, sig);
    LdexpScaled(f.fraction, e);
    LdexpNegates(sig, e);
    assert Ldexp(x, e) == Signed(f.sign, Ldexp(m as real, e - 24));
    if f.exponent == 0 {
      assert Underflows(ldexpf, x, e, f.sign, m);
    } else if f.exponent == 0xFF {
      PowersAt(105);
      if m > HIDDEN_BIT {
        LdexpIncreases(8388608.0, m as real, 105);
      }
      assert Overflows(ldexpf, x, e, f.sign);
    } else {
      var g: Binary32 := Float(f.sign, m, e - 24);
      assert Exact(ldexpf, x, e, g);
    }
  }

  lemma ZeroCall(ldexpf: (real, int) -> Number)
    requires IsLdexpf(ldexpf)
    ensures ldexpf(0.0, 0) == Finite(0.0)
  {
    var zero: Binary32 := Float(false, 0, -149);
    LdexpZero(-149);
    assert Exact(ldexpf, 0.0, 0, zero);
  }

  /** buffer_get_float32_auto. */
  method GetFloat32Auto(buffer: array<Byte>, index: nat, ldexpf: (real, int) -> Number)
    returns (value: Number, index': nat)
    requires IsLdexpf(ldexpf) && index + 4 <= buffer.Length
    ensures value == Decoded(Unpacked(FromBigEndian(buffer[index..index + 4]))) && index' == index + 4
    ensures var n := buffer[index] as nat * 16777216 + buffer[index + 1] as nat * 65536
                     + buffer[index + 2] as nat * 256 + buffer[index + 3] as nat;
            n < 4294967296 && value == Decoded(Unpacked(n))
  {
    var res: Word;
    res, index' := GetUint32(buffer, index);
    value := Decode(res, ldexpf);
  }

  method Decode(res: Word, ldexpf: (real, int) -> Number) returns (value: Number)
    requires IsLdexpf(ldexpf)
    ensures value == Decoded(Unpacked(res))
  {
    var e: int := res / 0x80_0000 % 0x100;
    var sigI := res % 0x80_0000;
    var neg := res / 0x8000_0000 % 2 == 1;
    var sig := 0.0;
    if e != 0 || sigI != 0 {
      LastCall(ldexpf, Fields(neg, e, sigI));
      sig := sigI as real / (8388608.0 * 2.0) + 0.5;
      e := e - 126;
    } else {
      ZeroCall(ldexpf);
    }
    if neg {
      sig := -sig;
    }
    value := ldexpf(sig, e);
  }

  // ----- Round trip -----

  /** 2^-127. */
  function Threshold(): real {
    Ldexp(1.0, -127)
  }

  /** Between which powers of two a number with the hidden bit lies. */
  lemma Bracketed(m: nat, q: int)
    requires HIDDEN_BIT <= m < 2 * HIDDEN_BIT
    ensures Ldexp(1.0, q + 23) <= Ldexp(m as real, q) < Ldexp(1.0, q + 24)
    ensures m > HIDDEN_BIT <==> Ldexp(1.0, q + 23) < Ldexp(m as real, q)
  {
    PowersAt(q);
    LdexpIncreases(m as real, 16777216.0, q);
    if m > HIDDEN_BIT {
      LdexpIncreases(8388608.0, m as real, q);
    }
  }

  lemma PowersOrdered(j: int, k: int)
    ensures j < k ==> Ldexp(1.0, j) < Ldexp(1.0, k)
    ensures j <= k ==> Ldexp(1.0, j) <= Ldexp(1.0, k)
  {
    if j < k {
      LdexpGrows(1.0, j, k);
    }
  }

  /** Numbers above 2^-127 are those whose exponent field is not truncated to another. */
  lemma AboveThreshold(m: nat, q: int)
    requires HIDDEN_BIT <= m < 2 * HIDDEN_BIT
    ensures Ldexp(m as real, q) > Threshold() <==> q >= -149 || (q == -150 && m > HIDDEN_BIT)
  {
    Bracketed(m, q);
    PowersOrdered(-127, q + 23);
    PowersOrdered(q + 24, -127);
  }

  lemma HalfOfEven(m: nat)
    requires m % 2 == 0
    ensures HalfToEven(m) == m / 2 && Ldexp((m / 2) as real, -149) == Ldexp(m as real, -150)
  {
    LdexpShift((m / 2) as real, -149);
    assert 2.0 * (m / 2) as real == m as real;
  }

  /** A number is decoded correctly exactly if it is above the threshold. */
  lemma MagnitudeRoundTrip(neg: bool, m: nat, q: int)
    requires HIDDEN_BIT <= m < 2 * HIDDEN_BIT && -172 <= q <= 104 && (q == -150 ==> m % 2 == 0)
    ensures Decoded(Fields(neg, (q + 150) % 0x100, m - HIDDEN_BIT)) == Finite(Signed(neg, Ldexp(m as real, q)))
            <==> Ldexp(m as real, q) > Threshold()
  {
    AboveThreshold(m, q);
    LdexpIncreases(0.0, m as real, q);
    LdexpZero(q);
    if q < -150 {
      Truncated(q);
      LdexpGrows(m as real, q, q + 256);
    } else {
      assert (q + 150) % 0x100 == q + 150;
      if q == -150 {
        HalfOfEven(m);
      }
    }
  }

  lemma NormalisedRange(f: Binary32)
    requires f.m > 0
    ensures var (m, q) := Normalised(f.m, f.q);
            && Ldexp(m as real, q) == f.Magnitude()
            && -172 <= q <= 104 && (q == -150 ==> m % 2 == 0)
  {
    NormalisedMagnitude(f.m, f.q);
    if f.Subnormal() {
      SubnormalShifts(f);
    }
  }

  /** What is written is read back with its value exactly for zero and for all numbers of magnitude
      above 2^-127, and for no others. */
  lemma RoundTrip(f: Binary32)
    ensures Decoded(Encoded(f)) == Finite(f.Value()) <==> f.Zero() || f.Magnitude() > Threshold()
  {
    if f.m > 0 {
      var (m, q) := Normalised(f.m, f.q);
      NormalisedRange(f);
      MagnitudeRoundTrip(f.neg, m, q);
    } else {
      LdexpZero(f.q);
    }
  }

  /** The exponent field that stands for infinity is reached exactly from the numbers of magnitude
      between 2^-128 and 2^-127. */
  lemma SmallIsInfinite(f: Binary32)
    ensures Decoded(Encoded(f)) == Infinite(f.neg) <==> Ldexp(1.0, -128) <= f.Magnitude() < Threshold()
  {
    if f.m > 0 {
      var (m, q) := Normalised(f.m, f.q);
      NormalisedRange(f);
      Bracketed(m, q);
      PowersOrdered(-127, q + 23);
      PowersOrdered(q + 24, -128);
      if q < -150 {
        Truncated(q);
      } else {
        assert (q + 150) % 0x100 == q + 150;
      }
    } else {
      LdexpZero(f.q);
      LdexpZero(-128);
      LdexpIncreases(0.0, 1.0, -128);
    }
  }

  /** In particular, every normal number survives the four bytes. */
  lemma NormalRoundTrip(f: Binary32)
    requires f.Normal()
    ensures Decoded(Unpacked(FromBigEndian(BigEndian(Encoded(f).Packed())))) == Finite(f.Value())
  {
    BigEndianRoundTrip(Encoded(f).Packed());
    UnpackedPacked(Encoded(f));
    AboveThreshold(f.m, f.q);
    RoundTrip(f);
  }
}
