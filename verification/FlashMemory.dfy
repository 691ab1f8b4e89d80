/** Two flash sectors as the EEPROM emulation sees them.

    Programming a halfword can only clear bits; erasing a sector sets them all. Each of the
    two is one atomic step, and a power cut may fall between any two steps. */
module FlashMemory {
  import opened MachineWords
  import opened PowersOfTwo

  const BLANK: Halfword := 0xFFFF

  /** Halfwords in a page (PAGE_SIZE / 2) and 4-byte slots in a page. */
  const PAGE_HALFWORDS := 0x2000
  const SLOTS := 0x1000

  type Offset = n: nat | n < PAGE_HALFWORDS
  type PageId = p: nat | p < 2

  type Page = p: seq<Halfword> | |p| == PAGE_HALFWORDS witness seq(PAGE_HALFWORDS, _ => BLANK)

  function ErasedPage(): (page: Page)
    ensures forall i :: 0 <= i < PAGE_HALFWORDS ==> page[i] == BLANK
  {
    seq(PAGE_HALFWORDS, _ => BLANK)
  }

  datatype Flash = Flash(page0: Page, page1: Page) {
    function At(p: PageId): Page {
      if p == 0 then page0 else page1
    }
  }

  datatype Op = Program(page: PageId, at: Offset, value: Halfword) | Erase(page: PageId)

  /** Bitwise conjunction. */
  function And(a: nat, b: nat): nat
    decreases a
  {
    if a == 0 then 0 else (if a % 2 == 1 then b % 2 else 0) + 2 * And(a / 2, b / 2)
  }

  lemma {:induction false} AndBounded(a: nat, b: nat)
    ensures And(a, b) <= a
  {
    if a != 0 {
      AndBounded(a / 2, b / 2);
    }
  }

  lemma {:induction false} AndOnes(n: nat, b: nat)
    requires b < Pow2(n)
    ensures And(Pow2(n) - 1, b) == b
  {
    if n > 0 {
      var ones := Pow2(n) - 1;
      assert ones / 2 == Pow2(n - 1) - 1 && ones % 2 == 1;
      AndOnes(n - 1, b / 2);
      assert And(ones, b) == b % 2 + 2 * And(ones / 2, b / 2);
    }
  }

  predicate Bit(a: nat, k: nat) {
    if k == 0 then a % 2 == 1 else Bit(a / 2, k - 1)
  }

  /** A bit is set in the conjunction if and only if it is set in both. */
  lemma {:induction false} AndBits(a: nat, b: nat, k: nat)
    ensures Bit(And(a, b), k) <==> Bit(a, k) && Bit(b, k)
    decreases k
  {
    if a == 0 {
      NoBits(k);
    } else if k > 0 {
      AndBits(a / 2, b / 2, k - 1);
      assert And(a, b) / 2 == And(a / 2, b / 2);
    }
  }

  lemma {:induction false} NoBits(k: nat)
    ensures !Bit(0, k)
  {
    if k > 0 {
      NoBits(k - 1);
    }
  }

  /** A cell after its value was programmed: a blank cell takes any value, and zero always takes. */
  function Programmed(cell: Halfword, value: Halfword): (result: Halfword)
    ensures cell == BLANK ==> result == value
    ensures value == 0 ==> result == 0
  {
    AndHalfword(cell, value);
    And(cell, value)
  }

  lemma AndHalfword(cell: Halfword, value: Halfword)
    ensures And(cell, value) <= cell
    ensures cell == BLANK ==> And(cell, value) == value
    ensures value == 0 ==> And(cell, value) == 0
  {
    AndBounded(cell, value);
    assert Pow2(4) == 16 && Pow2(8) == 256 && Pow2(12) == 4096;
    assert Pow2(16) == 0x1_0000;
    AndOnes(16, value);
    AndNone(cell);
  }

  lemma {:induction false} AndSelf(a: nat)
    ensures And(a, a) == a
  {
    if a != 0 {
      AndSelf(a / 2);
    }
  }

  lemma {:induction false} AndNone(a: nat)
    ensures And(a, 0) == 0
  {
    if a != 0 {
      AndNone(a / 2);
    }
  }

  function SetPage(f: Flash, p: PageId, page: Page): (g: Flash)
    ensures g.At(p) == page && g.At(1 - p) == f.At(1 - p)
  {
    if p == 0 then f.(page0 := page) else f.(page1 := page)
  }

  function SetCell(page: Page, at: Offset, value: Halfword): Page {
    page[at := Programmed(page[at], value)]
  }

  function Perform(f: Flash, op: Op): Flash {
    match op
    case Program(p, at, v) => SetPage(f, p, SetCell(f.At(p), at, v))
    case Erase(p) => SetPage(f, p, ErasedPage())
  }

  function PerformAll(f: Flash, ops: seq<Op>): Flash
    decreases |ops|
  {
    if ops == [] then f else PerformAll(Perform(f, ops[0]), ops[1..])
  }

  lemma {:induction false} PerformAppend(f: Flash, a: seq<Op>, b: seq<Op>)
    ensures PerformAll(f, a + b) == PerformAll(PerformAll(f, a), b)
    decreases |a|
  {
    if a == [] {
      assert a + b == b;
    } else {
      assert (a + b)[1..] == a[1..] + b;
      PerformAppend(Perform(f, a[0]), a[1..], b);
    }
  }
}
