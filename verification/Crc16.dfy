/** The table-driven CRC-16 of crc.c computes the remainder of a polynomial division. */
module Crc16 {
  import opened MachineWords
  import opened Gf2

  const ROW_0: seq<bv16> := [
    0x0000, 0x1021, 0x2042, 0x3063, 0x4084, 0x50A5, 0x60C6, 0x70E7,
    0x8108, 0x9129, 0xA14A, 0xB16B, 0xC18C, 0xD1AD, 0xE1CE, 0xF1EF]
  const ROW_1: seq<bv16> := [
    0x1231, 0x0210, 0x3273, 0x2252, 0x52B5, 0x4294, 0x72F7, 0x62D6,
    0x9339, 0x8318, 0xB37B, 0xA35A, 0xD3BD, 0xC39C, 0xF3FF, 0xE3DE]
  const ROW_2: seq<bv16> := [
    0x2462, 0x3443, 0x0420, 0x1401, 0x64E6, 0x74C7, 0x44A4, 0x5485,
    0xA56A, 0xB54B, 0x8528, 0x9509, 0xE5EE, 0xF5CF, 0xC5AC, 0xD58D]
  const ROW_3: seq<bv16> := [
    0x3653, 0x2672, 0x1611, 0x0630, 0x76D7, 0x66F6, 0x5695, 0x46B4,
    0xB75B, 0xA77A, 0x9719, 0x8738, 0xF7DF, 0xE7FE, 0xD79D, 0xC7BC]
  const ROW_4: seq<bv16> := [
    0x48C4, 0x58E5, 0x6886, 0x78A7, 0x0840, 0x1861, 0x2802, 0x3823,
    0xC9CC, 0xD9ED, 0xE98E, 0xF9AF, 0x8948, 0x9969, 0xA90A, 0xB92B]
  const ROW_5: seq<bv16> := [
    0x5AF5, 0x4AD4, 0x7AB7, 0x6A96, 0x1A71, 0x0A50, 0x3A33, 0x2A12,
    0xDBFD, 0xCBDC, 0xFBBF, 0xEB9E, 0x9B79, 0x8B58, 0xBB3B, 0xAB1A]
  const ROW_6: seq<bv16> := [
    0x6CA6, 0x7C87, 0x4CE4, 0x5CC5, 0x2C22, 0x3C03, 0x0C60, 0x1C41,
    0xEDAE, 0xFD8F, 0xCDEC, 0xDDCD, 0xAD2A, 0xBD0B, 0x8D68, 0x9D49]
  const ROW_7: seq<bv16> := [
    0x7E97, 0x6EB6, 0x5ED5, 0x4EF4, 0x3E13, 0x2E32, 0x1E51, 0x0E70,
    0xFF9F, 0xEFBE, 0xDFDD, 0xCFFC, 0xBF1B, 0xAF3A, 0x9F59, 0x8F78]
  const ROW_8: seq<bv16> := [
    0x9188, 0x81A9, 0xB1CA, 0xA1EB, 0xD10C, 0xC12D, 0xF14E, 0xE16F,
    0x1080, 0x00A1, 0x30C2, 0x20E3, 0x5004, 0x4025, 0x7046, 0x6067]
  const ROW_9: seq<bv16> := [
    0x83B9, 0x9398, 0xA3FB, 0xB3DA, 0xC33D, 0xD31C, 0xE37F, 0xF35E,
    0x02B1, 0x1290, 0x22F3, 0x32D2, 0x4235, 0x5214, 0x6277, 0x7256]
  const ROW_A: seq<bv16> := [
    0xB5EA, 0xA5CB, 0x95A8, 0x8589, 0xF56E, 0xE54F, 0xD52C, 0xC50D,
    0x34E2, 0x24C3, 0x14A0, 0x0481, 0x7466, 0x6447, 0x5424, 0x4405]
  const ROW_B: seq<bv16> := [
    0xA7DB, 0xB7FA, 0x8799, 0x97B8, 0xE75F, 0xF77E, 0xC71D, 0xD73C,
    0x26D3, 0x36F2, 0x0691, 0x16B0, 0x6657, 0x7676, 0x4615, 0x5634]
  const ROW_C: seq<bv16> := [
    0xD94C, 0xC96D, 0xF90E, 0xE92F, 0x99C8, 0x89E9, 0xB98A, 0xA9AB,
    0x5844, 0x4865, 0x7806, 0x6827, 0x18C0, 0x08E1, 0x3882, 0x28A3]
  const ROW_D: seq<bv16> := [
    0xCB7D, 0xDB5C, 0xEB3F, 0xFB1E, 0x8BF9, 0x9BD8, 0xABBB, 0xBB9A,
    0x4A75, 0x5A54, 0x6A37, 0x7A16, 0x0AF1, 0x1AD0, 0x2AB3, 0x3A92]
  const ROW_E: seq<bv16> := [
    0xFD2E, 0xED0F, 0xDD6C, 0xCD4D, 0xBDAA, 0xAD8B, 0x9DE8, 0x8DC9,
    0x7C26, 0x6C07, 0x5C64, 0x4C45, 0x3CA2, 0x2C83, 0x1CE0, 0x0CC1]
  const ROW_F: seq<bv16> := [
    0xEF1F, 0xFF3E, 0xCF5D, 0xDF7C, 0xAF9B, 0xBFBA, 0x8FD9, 0x9FF8,
    0x6E17, 0x7E36, 0x4E55, 0x5E74, 0x2E93, 0x3EB2, 0x0ED1, 0x1EF0]

  /** crc16_tab, split by the high nibble of the index. */
  const TABLE: seq<seq<bv16>> := [
    ROW_0, ROW_1, ROW_2, ROW_3, ROW_4, ROW_5, ROW_6, ROW_7,
    ROW_8, ROW_9, ROW_A, ROW_B, ROW_C, ROW_D, ROW_E, ROW_F]

  function TableEntry(i: bv8): bv16 {
    TABLE[i >> 4][i & 0xF]
  }

  // ----- Bytes and words as polynomials, most significant bit first -----

  function Mask(k: nat): bv16
    requires k < 16
    decreases 15 - k
  {
    if k == 15 then 1 else Mask(k + 1) << 1
  }

  /** The k-th coefficient of a word. */
  predicate Bit(x: bv16, k: nat)
    requires k < 16
  {
    x & Mask(k) != 0
  }

  function WordBits(x: bv16): Register {
    seq(16, k requires 0 <= k < 16 => Bit(x, k))
  }

  function OctetBits(b: bv8): (p: Poly)
    ensures |p| == 8
  {
    WordBits((b as bv16) << 8)[..8]
  }

  function ByteBits(b: Byte): (p: Poly)
    ensures |p| == 8
  {
    OctetBits(b as bv8)
  }

  function Bits(buf: seq<Byte>): (p: Poly)
    ensures |p| == 8 * |buf|
  {
    if buf == [] then [] else Bits(buf[..|buf| - 1]) + ByteBits(buf[|buf| - 1])
  }

  /** The checksum polynomial by definition: the remainder of the message times x^16. */
  function Checksum(buf: seq<Byte>): Register {
    Remainder(Bits(buf) + Zeros(16))
  }

  // ----- The table -----

  function ShiftWord(x: bv16): bv16 {
    if x & 0x8000 != 0 then (x << 1) ^ 0x1021 else x << 1
  }

  lemma MaskValues()
    ensures Mask(0) == 0x8000 && Mask(1) == 0x4000 && Mask(2) == 0x2000 && Mask(3) == 0x1000
    ensures Mask(4) == 0x0800 && Mask(5) == 0x0400 && Mask(6) == 0x0200 && Mask(7) == 0x0100
    ensures Mask(8) == 0x0080 && Mask(9) == 0x0040 && Mask(10) == 0x0020 && Mask(11) == 0x0010
    ensures Mask(12) == 0x0008 && Mask(13) == 0x0004 && Mask(14) == 0x0002 && Mask(15) == 0x0001
  {
    assert Mask(15) == 1;
    assert Mask(14) == 2;
    assert Mask(13) == 4;
    assert Mask(12) == 8;
    assert Mask(11) == 0x10;
    assert Mask(10) == 0x20;
    assert Mask(9) == 0x40;
    assert Mask(8) == 0x80;
    assert Mask(7) == 0x100;
    assert Mask(6) == 0x200;
    assert Mask(5) == 0x400;
    assert Mask(4) == 0x800;
    assert Mask(3) == 0x1000;
    assert Mask(2) == 0x2000;
    assert Mask(1) == 0x4000;
  }

  lemma MaskShape(k: nat)
    requires k < 16
    ensures Mask(k) & (Mask(k) - 1) == 0
    ensures k >= 1 ==> Mask(k) < 0x8000
    ensures k >= 8 ==> Mask(k) < 0x100 && Mask(k - 8) == Mask(k) << 8
    ensures k < 8 ==> Mask(k) & 0xFF == 0
  {
    MaskValues();
  }

  lemma OneBit(x: bv16, mask: bv16)
    requires mask & (mask - 1) == 0
    ensures x & mask == 0 || x & mask == mask
  {
  }

  lemma MaskXor(x: bv16, y: bv16, mask: bv16)
    requires mask & (mask - 1) == 0
    ensures (x ^ y) & mask != 0 <==> (x & mask != 0) != (y & mask != 0)
  {
    assert (x ^ y) & mask == (x & mask) ^ (y & mask);
    OneBit(x, mask);
    OneBit(y, mask);
  }

  lemma BitXor(x: bv16, y: bv16, k: nat)
    requires k < 16
    ensures Bit(x ^ y, k) == (Bit(x, k) != Bit(y, k))
  {
    MaskShape(k);
    MaskXor(x, y, Mask(k));
  }

  lemma WordBitsXor(x: bv16, y: bv16)
    ensures WordBits(x ^ y) == Xor(WordBits(x), WordBits(y))
  {
    forall k: nat | k < 16 ensures Bit(x ^ y, k) == (Bit(x, k) != Bit(y, k)) {
      BitXor(x, y, k);
    }
  }

  lemma MaskUp(x: bv16, mask: bv16)
    ensures mask < 0x8000 ==> ((x << 1) & (mask << 1) != 0 <==> x & mask != 0)
    ensures mask < 0x100 ==> ((x << 8) & (mask << 8) != 0 <==> x & mask != 0)
    ensures mask < 0x100 ==> (x << 8) & mask == 0
  {
  }

  lemma BitShift(x: bv16, k: nat)
    requires k < 15
    ensures Bit(x << 1, k) == Bit(x, k + 1)
  {
    MaskShape(k + 1);
    MaskUp(x, Mask(k + 1));
  }

  lemma BitShift8(x: bv16, k: nat)
    requires k < 8
    ensures Bit(x << 8, k) == Bit(x, k + 8)
    ensures !Bit(x << 8, k + 8)
  {
    MaskShape(k + 8);
    MaskUp(x, Mask(k + 8));
  }

  lemma WordBitsShift(x: bv16)
    ensures WordBits(x << 1) == WordBits(x)[1..] + [false]
  {
    var y := x << 1;
    forall k: nat | k < 15 ensures Bit(y, k) == Bit(x, k + 1) {
      BitShift(x, k);
    }
    assert !Bit(y, 15);
  }

  lemma WordBitsShift8(x: bv16)
    ensures WordBits(x << 8) == WordBits(x)[8..] + Zeros(8)
  {
    var y := x << 8;
    forall k: nat | k < 8 ensures Bit(y, k) == Bit(x, k + 8) {
      BitShift8(x, k);
    }
    forall k: nat | 8 <= k < 16 ensures !Bit(y, k) {
      BitShift8(x, k - 8);
    }
  }

  lemma ByteShifted(b: bv8)
    ensures WordBits((b as bv16) << 8) == OctetBits(b) + Zeros(8)
  {
    WordBitsShift8(b as bv16);
  }

  lemma WordBitsGenerator()
    ensures WordBits(0x1021) == GENERATOR
    ensures WordBits(0) == ZERO
  {
    MaskValues();
  }

  lemma TopBit(x: bv16)
    ensures WordBits(x)[0] == (x & 0x8000 != 0)
  {
    MaskValues();
  }

  lemma ShiftSubtract(x: bv16)
    ensures WordBits((x << 1) ^ 0x1021) == Xor(WordBits(x)[1..] + [false], GENERATOR)
  {
    WordBitsXor(x << 1, 0x1021);
    WordBitsShift(x);
    WordBitsGenerator();
  }

  lemma ShiftWordIsStep(x: bv16)
    ensures WordBits(ShiftWord(x)) == Step(WordBits(x), false)
  {
    TopBit(x);
    if x & 0x8000 != 0 {
      ShiftSubtract(x);
    } else {
      WordBitsShift(x);
    }
  }

  function ShiftTimes(n: nat, x: bv16): bv16 {
    if n == 0 then x else ShiftWord(ShiftTimes(n - 1, x))
  }

  function Shift8(x: bv16): bv16 {
    ShiftWord(ShiftWord(ShiftWord(ShiftWord(ShiftWord(ShiftWord(ShiftWord(ShiftWord(x))))))))
  }

  lemma Shift8Unrolls(x: bv16)
    ensures ShiftTimes(8, x) == Shift8(x)
  {
    assert ShiftTimes(2, x) == ShiftWord(ShiftWord(ShiftTimes(0, x)));
    assert ShiftTimes(4, x) == ShiftWord(ShiftWord(ShiftTimes(2, x)));
    assert ShiftTimes(6, x) == ShiftWord(ShiftWord(ShiftTimes(4, x)));
  }

  lemma {:induction false} ShiftTimesIsDivide(n: nat, x: bv16)
    ensures WordBits(ShiftTimes(n, x)) == Divide(WordBits(x), Zeros(n))
  {
    if n > 0 {
      assert Zeros(n)[..n - 1] == Zeros(n - 1);
      ShiftTimesIsDivide(n - 1, x);
      ShiftWordIsStep(ShiftTimes(n - 1, x));
    }
  }

  lemma TableIsShift(i: bv8)
    ensures i < 0x40 ==> TableEntry(i) == Shift8((i as bv16) << 8)
    ensures 0x40 <= i < 0x80 ==> TableEntry(i) == Shift8((i as bv16) << 8)
  {
  }

  lemma TableIsShiftHigh(i: bv8)
    ensures 0x80 <= i < 0xC0 ==> TableEntry(i) == Shift8((i as bv16) << 8)
    ensures 0xC0 <= i ==> TableEntry(i) == Shift8((i as bv16) << 8)
  {
  }

  /** Every table entry is the remainder of its index, sixteen positions up. */
  lemma TableIsDivision(i: bv8)
    ensures WordBits(TableEntry(i)) == Remainder(OctetBits(i) + Zeros(16))
  {
    var x := (i as bv16) << 8;
    TableIsShift(i);
    TableIsShiftHigh(i);
    Shift8Unrolls(x);
    ShiftTimesIsDivide(8, x);
    ByteShifted(i);
    var top := OctetBits(i) + Zeros(8);
    assert OctetBits(i) + Zeros(16) == top + Zeros(8);
    DivideRegister(top, Zeros(8));
  }

  // ----- The loop -----

  function TableStep(cksum: bv16, b: bv8): bv16 {
    TableEntry(((cksum >> 8) as bv8) ^ b) ^ (cksum << 8)
  }

  lemma IndexIsXor(c: bv16, b: bv8, mask: bv16)
    requires mask & 0xFF == 0
    ensures (((((c >> 8) as bv8) ^ b) as bv16) << 8) & mask == (c ^ ((b as bv16) << 8)) & mask
  {
  }

  lemma BitOfWord(x: bv16, k: nat)
    requires k < 8
    ensures WordBits(x)[..8][k] == Bit(x, k)
  {
  }

  lemma IndexBits(c: bv16, b: bv8, i: bv8)
    requires i == ((c >> 8) as bv8) ^ b
    ensures OctetBits(i) == Xor(WordBits(c)[..8], OctetBits(b))
  {
    var x, y := OctetBits(i), Xor(WordBits(c)[..8], OctetBits(b));
    forall k: nat | k < 8 ensures x[k] == y[k] {
      IndexBit(c, b, i, k);
      BitOfWord((i as bv16) << 8, k);
      BitOfWord(c, k);
      BitOfWord((b as bv16) << 8, k);
    }
  }

  lemma IndexBit(c: bv16, b: bv8, i: bv8, k: nat)
    requires i == ((c >> 8) as bv8) ^ b && k < 8
    ensures Bit((i as bv16) << 8, k) == (Bit(c, k) != Bit((b as bv16) << 8, k))
  {
    MaskShape(k);
    IndexIsXor(c, b, Mask(k));
    BitXor(c, (b as bv16) << 8, k);
  }

  lemma TableStepBits(c: bv16, b: bv8, i: bv8)
    requires i == ((c >> 8) as bv8) ^ b
    ensures WordBits(TableEntry(i) ^ (c << 8))
            == Xor(Remainder(OctetBits(i) + Zeros(16)), WordBits(c)[8..] + Zeros(8))
  {
    WordBitsXor(TableEntry(i), c << 8);
    TableIsDivision(i);
    WordBitsShift8(c);
  }

  /** One table step divides eight more bits. */
  lemma TableStepDivides(c: bv16, b: bv8)
    ensures WordBits(TableStep(c, b)) == Divide(Xor(WordBits(c), OctetBits(b) + Zeros(8)), Zeros(8))
  {
    var i := ((c >> 8) as bv8) ^ b;
    TableStepBits(c, b, i);
    IndexBits(c, b, i);
    StepSplits(WordBits(c), OctetBits(b));
  }

  lemma StepSplits(c: Register, b: Poly)
    requires |b| == 8
    ensures Divide(Xor(c, b + Zeros(8)), Zeros(8))
            == Xor(Remainder(Xor(c[..8], b) + Zeros(16)), c[8..] + Zeros(8))
  {
    var top := Xor(c[..8], b) + Zeros(8);
    var low := Zeros(8) + c[8..];
    assert Xor(c, b + Zeros(8)) == Xor(top, low);
    assert Xor(Zeros(8), Zeros(8)) == Zeros(8);
    DivideXor(top, low, Zeros(8), Zeros(8));
    DivideRegister(top, Zeros(8));
    assert top + Zeros(8) == Xor(c[..8], b) + Zeros(16);
    DivideRegister(low, Zeros(8));
    PaddedRemainder8(c[8..]);
  }

  lemma PaddedRemainder8(b: Poly)
    requires |b| == 8
    ensures Remainder(Zeros(8) + b + Zeros(8)) == b + Zeros(8)
  {
    var s := b + Zeros(8);
    assert Zeros(8) + b + Zeros(8) == Zeros(8) + s;
    ShiftedRemainder(8, s);
  }

  /** A message one byte longer: the division goes on from the old remainder. */
  lemma ChecksumSnoc(buf: seq<Byte>, b: Byte)
    ensures Checksum(buf + [b]) == Divide(Xor(Checksum(buf), ByteBits(b) + Zeros(8)), Zeros(8))
  {
    var m, e := Bits(buf), ByteBits(b);
    assert (buf + [b])[..|buf|] == buf;
    assert Bits(buf + [b]) + Zeros(16) == m + (e + Zeros(8)) + Zeros(8);
    DivideAppend(ZERO, m + (e + Zeros(8)), Zeros(8));
    var top := e + Zeros(8);
    assert m + top == Xor(m + Zeros(16), Zeros(|m|) + top);
    RemainderXor(m + Zeros(16), Zeros(|m|) + top);
    ShiftedRemainder(|m|, top);
  }

  lemma ChecksumEmpty()
    ensures WordBits(0) == Checksum([])
  {
    WordBitsGenerator();
    assert Bits([]) + Zeros(16) == Zeros(16);
    DivideZeros(16);
  }

  /** crc16: the loop over the table computes the remainder of the long division. */
  method Compute(buf: seq<Byte>) returns (cksum: bv16)
    ensures WordBits(cksum) == Checksum(buf)
  {
    cksum := 0;
    ChecksumEmpty();
    var i := 0;
    while i < |buf|
      invariant 0 <= i <= |buf|
      invariant WordBits(cksum) == Checksum(buf[..i])
    {
      ChecksumSnoc(buf[..i], buf[i]);
      TableStepDivides(cksum, buf[i] as bv8);
      cksum := TableStep(cksum, buf[i] as bv8);
      assert buf[..i + 1] == buf[..i] + [buf[i]];
      i := i + 1;
    }
    assert buf[..i] == buf;
  }

  // ----- What the checksum detects -----

  function XorByte(x: Byte, y: Byte): Byte {
    ((x as bv8) ^ (y as bv8)) as Byte
  }

  function XorBytes(x: seq<Byte>, y: seq<Byte>): (z: seq<Byte>)
    requires |x| == |y|
    ensures |z| == |x|
  {
    seq(|x|, i requires 0 <= i < |x| => XorByte(x[i], y[i]))
  }

  lemma OctetBitsXor(x: bv8, y: bv8)
    ensures OctetBits(x ^ y) == Xor(OctetBits(x), OctetBits(y))
  {
    assert ((x ^ y) as bv16) << 8 == ((x as bv16) << 8) ^ ((y as bv16) << 8);
    WordBitsXor((x as bv16) << 8, (y as bv16) << 8);
  }

  lemma ByteBitsXor(x: Byte, y: Byte)
    ensures ByteBits(XorByte(x, y)) == Xor(ByteBits(x), ByteBits(y))
  {
    OctetBitsXor(x as bv8, y as bv8);
    RoundTrip((x as bv8) ^ (y as bv8));
  }

  lemma RoundTrip(z: bv8)
    ensures (z as Byte) as bv8 == z
  {
  }

  lemma XorConcat(a: Poly, b: Poly, c: Poly, d: Poly)
    requires |a| == |c| && |b| == |d|
    ensures Xor(a + b, c + d) == Xor(a, c) + Xor(b, d)
  {
  }

  lemma {:induction false} BitsXor(x: seq<Byte>, y: seq<Byte>)
    requires |x| == |y|
    ensures Bits(XorBytes(x, y)) == Xor(Bits(x), Bits(y))
  {
    if x != [] {
      var n := |x| - 1;
      assert XorBytes(x, y)[..n] == XorBytes(x[..n], y[..n]);
      BitsXor(x[..n], y[..n]);
      ByteBitsXor(x[n], y[n]);
      XorConcat(Bits(x[..n]), ByteBits(x[n]), Bits(y[..n]), ByteBits(y[n]));
    }
  }

  /** crc16 is linear: the checksum of a bytewise sum is the sum of the checksums. */
  lemma ChecksumXor(x: seq<Byte>, y: seq<Byte>)
    requires |x| == |y|
    ensures Checksum(XorBytes(x, y)) == Xor(Checksum(x), Checksum(y))
  {
    BitsXor(x, y);
    assert Xor(Bits(x), Bits(y)) + Zeros(16) == Xor(Bits(x) + Zeros(16), Bits(y) + Zeros(16));
    RemainderXor(Bits(x) + Zeros(16), Bits(y) + Zeros(16));
  }

  lemma BitsPair(buf: seq<Byte>, hi: Byte, lo: Byte)
    ensures Bits(buf + [hi, lo]) == Bits(buf) + (ByteBits(hi) + ByteBits(lo))
  {
    assert (buf + [hi, lo])[..|buf| + 1] == buf + [hi];
    assert (buf + [hi])[..|buf|] == buf;
  }

  /** The two bytes after a payload are its checksum. */
  predicate ChecksumMatches(payload: seq<Byte>, high: Byte, low: Byte) {
    Checksum(payload) == ByteBits(high) + ByteBits(low)
  }

  /** The two bytes after a message are its checksum exactly when the whole divides evenly. */
  lemma AppendedChecksum(buf: seq<Byte>, hi: Byte, lo: Byte)
    ensures Checksum(buf) == ByteBits(hi) + ByteBits(lo) <==> Checksum(buf + [hi, lo]) == ZERO
  {
    var m, t := Bits(buf), ByteBits(hi) + ByteBits(lo);
    BitsPair(buf, hi, lo);
    assert m + t == Xor(m + Zeros(16), Zeros(|m|) + t);
    RemainderXor(m + Zeros(16), Zeros(|m|) + t);
    ShiftedRemainder(|m|, t);
    assert Remainder(m + t) == Xor(Checksum(buf), t);
    assert Xor(Checksum(buf), t) == ZERO <==> Checksum(buf) == t by {
      if Xor(Checksum(buf), t) == ZERO {
        assert forall i :: 0 <= i < 16 ==> !Xor(Checksum(buf), t)[i];
      }
    }
    DivideAppend(ZERO, m + t, Zeros(16));
    DivideRegister(ZERO, Zeros(16));
    if Remainder(m + t) == ZERO {
      DivideZeros(16);
    } else {
      DivideNonzero(Remainder(m + t), 16);
    }
  }

  lemma OctetBitsInjective(a: bv8, b: bv8)
    requires OctetBits(a) == OctetBits(b)
    ensures a == b
  {
    LowOctet(a);
    LowOctet(b);
    WordBitsInjective(a as bv16, b as bv16);
    SameOctet(a, b);
  }

  lemma SameOctet(a: bv8, b: bv8)
    requires a as bv16 == b as bv16
    ensures a == b
  {
  }

  lemma ByteOfOctet(b: Byte)
    ensures (b as bv8) as int == b
  {
    assert b % 0x100 == b;
  }

  lemma ByteBitsInjective(a: Byte, b: Byte)
    requires ByteBits(a) == ByteBits(b)
    ensures a == b
  {
    OctetBitsInjective(a as bv8, b as bv8);
    ByteOfOctet(a);
    ByteOfOctet(b);
  }

  lemma {:induction false} BitsInjective(x: seq<Byte>, y: seq<Byte>)
    requires |x| == |y| && Bits(x) == Bits(y)
    ensures x == y
  {
    if x != [] {
      var n := |x| - 1;
      assert Bits(x) == Bits(x[..n]) + ByteBits(x[n]) && Bits(y) == Bits(y[..n]) + ByteBits(y[n]);
      assert Bits(x)[..8 * n] == Bits(x[..n]) && Bits(y)[..8 * n] == Bits(y[..n]);
      assert Bits(x)[8 * n..] == ByteBits(x[n]) && Bits(y)[8 * n..] == ByteBits(y[n]);
      BitsInjective(x[..n], y[..n]);
      ByteBitsInjective(x[n], y[n]);
      assert x == x[..n] + [x[n]] && y == y[..n] + [y[n]];
    }
  }

  /** Equal but for sixteen consecutive bits. */
  ghost predicate SameOutside(x: seq<Byte>, y: seq<Byte>, start: nat)
    requires |x| == |y|
  {
    forall i :: 0 <= i < 8 * |x| && !(start <= i < start + 16) ==> Bits(x)[i] == Bits(y)[i]
  }

  /** Burst errors: payloads that differ, but only inside sixteen consecutive bits, never
      have the same checksum. */
  lemma BurstDetected(x: seq<Byte>, y: seq<Byte>, start: nat)
    requires |x| == |y| && x != y && SameOutside(x, y, start)
    ensures Checksum(x) != Checksum(y)
  {
    var d := Xor(Bits(x), Bits(y));
    var padded := d + Zeros(16);
    assert exists i :: 0 <= i < |d| && d[i] by {
      if Bits(x) == Bits(y) {
        BitsInjective(x, y);
      }
      assert exists i :: 0 <= i < |d| && Bits(x)[i] != Bits(y)[i];
    }
    var hit :| 0 <= hit < |d| && d[hit];
    var window := padded[start..start + 16];
    assert window[hit - start];
    BurstRemainder(padded, start);
    ChecksumXor(x, y);
    BitsXor(x, y);
    assert Xor(Checksum(x), Checksum(x)) == ZERO;
  }

  /** The checksum has the parity of the message. */
  lemma ChecksumOdd(x: seq<Byte>)
    ensures Odd(Checksum(x)) == Odd(Bits(x))
  {
    DivideOdd(ZERO, Bits(x) + Zeros(16));
    WeightAppend(Bits(x), Zeros(16));
    WeightZeros(16);
  }

  /** An odd number of flipped bits always changes the checksum. */
  lemma OddErrorDetected(x: seq<Byte>, y: seq<Byte>)
    requires |x| == |y| && Odd(Xor(Bits(x), Bits(y)))
    ensures Checksum(x) != Checksum(y)
  {
    OddXor(Bits(x), Bits(y));
    ChecksumOdd(x);
    ChecksumOdd(y);
  }

  /** Bytes that were changed, inside sixteen consecutive bits or in an odd number of bits. */
  ghost predicate Damaged(x: seq<Byte>, y: seq<Byte>) {
    && |x| == |y| && x != y
    && (Odd(Xor(Bits(x), Bits(y)))
        || exists start: nat :: SameOutside(x, y, start))
  }

  lemma DamageDetected(x: seq<Byte>, y: seq<Byte>)
    requires Damaged(x, y)
    ensures Checksum(x) != Checksum(y)
  {
    if Odd(Xor(Bits(x), Bits(y))) {
      OddErrorDetected(x, y);
    } else {
      var start: nat :| SameOutside(x, y, start);
      BurstDetected(x, y, start);
    }
  }

  /** A message with its checksum behind it does not survive such damage, be it to the message, to
      the checksum or to both. */
  lemma DamagedMismatch(message: seq<Byte>, hi: Byte, lo: Byte, message': seq<Byte>, hi': Byte, lo': Byte)
    requires ChecksumMatches(message, hi, lo)
    requires Damaged(message + [hi, lo], message' + [hi', lo'])
    ensures !ChecksumMatches(message', hi', lo')
  {
    DamageDetected(message + [hi, lo], message' + [hi', lo']);
    AppendedChecksum(message, hi, lo);
    AppendedChecksum(message', hi', lo');
  }

  lemma BurstRemainder(p: Poly, start: nat)
    requires start + 16 <= |p|
    requires forall i :: 0 <= i < |p| && !(start <= i < start + 16) ==> !p[i]
    requires p[start..start + 16] != ZERO
    ensures Remainder(p) != ZERO
  {
    var window, tail := p[start..start + 16], |p| - start - 16;
    assert p == Zeros(start) + window + Zeros(tail);
    DivideAppend(ZERO, Zeros(start) + window, Zeros(tail));
    ShiftedRemainder(start, window);
    DivideNonzero(window, tail);
  }

  // ----- The checksum as two bytes -----

  lemma WordBitsZero(x: bv16)
    requires WordBits(x) == ZERO
    ensures x == 0
  {
    forall k: nat | k < 16 ensures x & Mask(k) == 0 {
      assert !WordBits(x)[k];
    }
    MaskValues();
    NoBits(x);
  }

  lemma NoBits(x: bv16)
    requires x & 0x8000 == 0 && x & 0x4000 == 0 && x & 0x2000 == 0 && x & 0x1000 == 0
    requires x & 0x0800 == 0 && x & 0x0400 == 0 && x & 0x0200 == 0 && x & 0x0100 == 0
    requires x & 0x0080 == 0 && x & 0x0040 == 0 && x & 0x0020 == 0 && x & 0x0010 == 0
    requires x & 0x0008 == 0 && x & 0x0004 == 0 && x & 0x0002 == 0 && x & 0x0001 == 0
    ensures x == 0
  {
  }

  lemma WordBitsInjective(x: bv16, y: bv16)
    requires WordBits(x) == WordBits(y)
    ensures x == y
  {
    WordBitsXor(x, y);
    assert Xor(WordBits(x), WordBits(x)) == ZERO;
    WordBitsZero(x ^ y);
    XorZero(x, y);
  }

  lemma XorZero(x: bv16, y: bv16)
    requires x ^ y == 0
    ensures x == y
  {
  }

  lemma LowOctet(low: bv8)
    ensures WordBits(low as bv16) == Zeros(8) + OctetBits(low)
  {
    WordBitsShift8(low as bv16);
    LowBits(low);
  }

  lemma XorHalves(a: Poly, b: Poly)
    requires |a| == 8 && |b| == 8
    ensures Xor(a + Zeros(8), Zeros(8) + b) == a + b
  {
  }

  lemma WordOfOctets(high: bv8, low: bv8)
    ensures WordBits(((high as bv16) << 8) | (low as bv16)) == OctetBits(high) + OctetBits(low)
  {
    OrIsXor(high, low);
    WordBitsXor((high as bv16) << 8, low as bv16);
    ByteShifted(high);
    LowOctet(low);
    XorHalves(OctetBits(high), OctetBits(low));
  }

  lemma OrIsXor(high: bv8, low: bv8)
    ensures ((high as bv16) << 8) | (low as bv16) == ((high as bv16) << 8) ^ (low as bv16)
  {
  }

  lemma LowBits(low: bv8)
    ensures WordBits(low as bv16)[..8] == Zeros(8)
  {
    var x := low as bv16;
    forall k: nat | k < 8 ensures !Bit(x, k) {
      MaskShape(k);
      HighMask(low, Mask(k));
    }
  }

  lemma HighMask(low: bv8, mask: bv16)
    requires mask & 0xFF == 0
    ensures (low as bv16) & mask == 0
  {
  }

  lemma OctetComparison(cksum: bv16, high: bv8, low: bv8)
    ensures cksum == ((high as bv16) << 8) | (low as bv16)
            <==> WordBits(cksum) == OctetBits(high) + OctetBits(low)
  {
    var w := ((high as bv16) << 8) | (low as bv16);
    WordOfOctets(high, low);
    if WordBits(cksum) == WordBits(w) {
      WordBitsInjective(cksum, w);
    }
  }

  /** The received checksum is compared as a number, which compares the polynomials. */
  lemma ChecksumComparison(cksum: bv16, high: Byte, low: Byte)
    ensures cksum == ((high as bv16) << 8) | (low as bv16)
            <==> WordBits(cksum) == ByteBits(high) + ByteBits(low)
  {
    Widen(high);
    Widen(low);
    OctetComparison(cksum, high as bv8, low as bv8);
  }

  lemma Widen(b: Byte)
    ensures (b as bv8) as bv16 == b as bv16
  {
  }

  /** The two bytes that a sender writes after the payload. */
  lemma ChecksumBytes(cksum: bv16)
    ensures WordBits(cksum) == ByteBits((cksum >> 8) as Byte) + ByteBits((cksum & 0xFF) as Byte)
  {
    var high, low := ((cksum >> 8) as bv8), ((cksum & 0xFF) as bv8);
    WordOfOctets(high, low);
    assert ((high as bv16) << 8) | (low as bv16) == cksum;
    RoundTrip(high);
    RoundTrip(low);
  }

  method CompareChecksum(payload: seq<Byte>, high: Byte, low: Byte) returns (matches: bool)
    ensures matches == ChecksumMatches(payload, high, low)
  {
    var crcCalc := Compute(payload);
    var crcRx := ((high as bv16) << 8) | (low as bv16);
    ChecksumComparison(crcCalc, high, low);
    matches := crcCalc == crcRx;
  }

  /** The checksum of the single byte 5 is 0x50A5. */
  lemma ChecksumOfFive()
    ensures ChecksumMatches([5], 0x50, 0xA5)
  {
    var five: seq<Byte> := [5];
    assert five[..0] == [];
    assert Bits([]) == [] && Bits(five) == Bits([]) + ByteBits(5) == OctetBits(5);
    TableIsDivision(5);
    assert TableEntry(5) == ROW_0[5] == 0x50A5;
    ChecksumBytes(0x50A5);
  }

  function ZeroBytes(n: nat): (z: seq<Byte>)
    ensures |z| == n
  {
    seq(n, _ => 0)
  }

  /** Zero bytes have the checksum zero, whatever their number. */
  lemma ZeroChecksum(n: nat)
    ensures ChecksumMatches(ZeroBytes(n), 0, 0)
  {
    var z := ZeroBytes(n);
    ByteBitsXor(0, 0);
    ChecksumXor(z, z);
    assert XorByte(0, 0) == 0;
    assert XorBytes(z, z) == z;
    assert Checksum(z) == Xor(Checksum(z), Checksum(z)) && ByteBits(0) == Xor(ByteBits(0), ByteBits(0));
  }
}
