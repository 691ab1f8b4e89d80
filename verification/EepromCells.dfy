/** The emulated EEPROM in numbers: where values lie in a page, which of them is read, and what reads and
    writes return when there is nothing to read from or the supply is low. */
module EepromCells {
  import opened MachineWords
  import opened FlashMemory
  import opened EepromPlan
  import opened EepromPages
  import opened EepromRecovery
  import opened EepromTransfer
  import opened EepromSafety

  // A slot is two halfwords: the value, and behind it the virtual address.

  predicate AddressAt(page: Page, i: nat, a: Halfword)
    requires i < 0x1000
  {
    page[2 * i + 1] == a
  }

  /** a is in no slot from i on. */
  predicate NoneFrom(page: Page, i: nat, a: Halfword) {
    forall j: nat :: i <= j < 0x1000 ==> !AddressAt(page, j, a)
  }

  lemma {:induction false} NewestBelow(page: Page, a: Halfword, i: nat, n: nat)
    requires 1 <= i < n <= 0x1000 && AddressAt(page, i, a)
    requires forall j: nat :: i < j < n ==> !AddressAt(page, j, a)
    ensures LookupBelow(page, a, n) == Some(page[2 * i])
    decreases n
  {
    if i < n - 1 {
      assert !AddressAt(page, n - 1, a);
      NewestBelow(page, a, i, n - 1);
    }
  }

  lemma {:induction false} NothingBelow(page: Page, a: Halfword, n: nat)
    requires n <= 0x1000 && forall j: nat :: 1 <= j < n ==> !AddressAt(page, j, a)
    ensures LookupBelow(page, a, n) == None
    decreases n
  {
    if n > 1 {
      assert !AddressAt(page, n - 1, a);
      NothingBelow(page, a, n - 1);
    }
  }

  /** Reads are from page 0 if it is valid, and otherwise from page 1. */
  predicate ReadsFrom(f: Flash, page: Page) {
    if f.page0[0] == 0 then page == f.page0 else f.page1[0] == 0 && page == f.page1
  }

  /** What is read is the value in the last slot with that address, slot 0 excepted. */
  lemma ReadsNewest(f: Flash, page: Page, a: Halfword, i: nat)
    requires ReadsFrom(f, page)
    ensures 1 <= i < 0x1000 && AddressAt(page, i, a) && NoneFrom(page, i + 1, a) ==> Read(f, a) == Found(page[2 * i])
    ensures NoneFrom(page, 1, a) ==> Read(f, a) == NotFound
  {
    if 1 <= i < 0x1000 && AddressAt(page, i, a) && NoneFrom(page, i + 1, a) {
      NewestBelow(page, a, i, 0x1000);
    }
    if NoneFrom(page, 1, a) {
      NothingBelow(page, a, 0x1000);
    }
  }

  /** Without a valid page nothing is read or written, and both say so. */
  lemma NoValidPage(f: Flash, tab: Table, a: Halfword, d: Halfword)
    requires f.page0[0] != 0 && f.page1[0] != 0
    ensures Read(f, a) == NoPage
    ensures WritePlan(f, tab, a, d, false) == Plan([], Status.NoValidPage)
  {
  }

  /** What is appended goes to a receiving page beside a valid one, and otherwise to the valid page, to
      page 1 if both are. */
  lemma AppendsTo(f: Flash, a: Halfword, d: Halfword, i: nat)
    requires i < |AppendPlan(f, a, d).ops|
    ensures AppendPlan(f, a, d).ops[i].page ==
            if f.page1[0] == 0 then (if f.page0[0] == 0xEEEE then 0 else 1)
            else (if f.page1[0] == 0xEEEE then 1 else 0)
    ensures f.page0[0] == 0 || f.page1[0] == 0
  {
  }

  lemma FreeCells(page: Page)
    requires Used(page) < 0x1000
    ensures page[2 * Used(page)] == page[2 * Used(page) + 1] == 0xFFFF
  {
    FirstFreeFrom(page, 0);
    assert Free(page, Used(page));
  }

  /** That plan puts a value and then its address into the slot, whose cells are blank, and no other cell
      changes. */
  ghost predicate PutsCells(f: Flash, p: PageId, n: nat, a: Halfword, d: Halfword, plan: Plan)
    requires n < 0x1000
  {
    && f.At(p)[2 * n] == f.At(p)[2 * n + 1] == 0xFFFF
    && plan == Plan([Program(p, 2 * n, d), Program(p, 2 * n + 1, a)], Complete)
    && After(f, plan) == SetPage(f, p, f.At(p)[2 * n := d][2 * n + 1 := a])
  }

  lemma AppendsOps(f: Flash, p: PageId, a: Halfword, d: Halfword)
    requires WritePage(f) == Some(p) && Used(f.At(p)) < 0x1000
    ensures var n := Used(f.At(p));
            AppendPlan(f, a, d) == Plan([Program(p, 2 * n, d), Program(p, 2 * n + 1, a)], Complete)
  {
  }

  lemma AppendsPage(f: Flash, p: PageId, a: Halfword, d: Halfword)
    requires WritePage(f) == Some(p) && Used(f.At(p)) < 0x1000
    ensures var n := Used(f.At(p));
            After(f, AppendPlan(f, a, d)) == SetPage(f, p, f.At(p)[2 * n := d][2 * n + 1 := a])
  {
    CutAppendPlan(f, p, a, d, 2);
    CutWhole(f, AppendPlan(f, a, d));
  }

  lemma AppendsCells(f: Flash, p: PageId, a: Halfword, d: Halfword)
    requires WritePage(f) == Some(p) && Used(f.At(p)) < 0x1000
    ensures PutsCells(f, p, Used(f.At(p)), a, d, AppendPlan(f, a, d))
  {
    FreeCells(f.At(p));
    AppendsOps(f, p, a, d);
    AppendsPage(f, p, a, d);
  }

  /** A write to a clean store with a free slot goes to the first one. */
  lemma WritesCells(f: Flash, p: PageId, tab: Table, m: Contents, a: Halfword, d: Halfword)
    requires Legal(tab) && Holds(f, p, tab, m) && a != BLANK
    requires Read(f, a) != Found(d) && Used(f.At(p)) < 0x1000
    ensures PutsCells(f, p, Used(f.At(p)), a, d, WritePlan(f, tab, a, d, false))
  {
    WriteCases(f, p, tab, m, a, d, false);
    HoldsPages(f, p, tab, m);
    AppendsCells(f, p, a, d);
  }

  /** A value that is stored already is not written again. With the supply low nothing else is written
      either, and that is an error. */
  lemma WritesNothing(f: Flash, tab: Table, a: Halfword, d: Halfword, lowVoltage: bool)
    ensures Read(f, a) == Found(d) ==> WritePlan(f, tab, a, d, lowVoltage) == Plan([], Complete)
    ensures Read(f, a) != Found(d) ==> WritePlan(f, tab, a, d, true) == Plan([], FlashError)
  {
  }

  /** A page is erased if and only if one of its halfwords is not blank. */
  lemma ErasesExactly(f: Flash, p: PageId)
    ensures ErasePlan(f, p).status == Complete
    ensures ErasePlan(f, p).ops == if forall i: Offset :: f.At(p)[i] == 0xFFFF then [] else [Erase(p)]
  {
    if forall i: Offset :: f.At(p)[i] == 0xFFFF {
      assert f.At(p) == ErasedPage();
    }
  }

  /** A page that is transferred to begins with 0xEEEE, and one that is in use with zero. */
  lemma TransferHeaders(f: Flash, p: PageId, tab: Table, m: Contents, a: Halfword, d: Halfword)
    requires Legal(tab) && Holds(f, p, tab, m) && a != BLANK
    ensures |TransferPlan(f, tab, a, d).ops| >= 3
    ensures TransferPlan(f, tab, a, d).ops[0] == Program(1 - p, 0, 0xEEEE)
    ensures f.At(p)[0] == 0 && Cut(f, TransferPlan(f, tab, a, d), 1).At(1 - p)[0] == 0xEEEE
  {
    HoldsPages(f, p, tab, m);
    TransferKeeps(f, p, tab, m, a, d, 1);
  }
}
