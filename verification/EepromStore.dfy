/** The functions of eeprom.c over the flash itself.

    The flash is two arrays that are programmed and erased in place. `power` is the number of
    flash steps that still succeed: the step after them fails, as a flash error or a power cut
    makes it fail. Every method is proved to perform its plan, cut where the power ends. */
module EepromStore {
  import opened MachineWords
  import opened FlashMemory
  import opened EepromPlan
  import opened EepromPages

  /** From flash f with power n, the plan was performed as far as the power went. */
  ghost predicate Ran(f: Flash, n: nat, plan: Plan, g: Flash, n': nat, status: Status) {
    && g == Powered(f, plan, n)
    && n' == (if |plan.ops| <= n then n - |plan.ops| else 0)
    && status == (if |plan.ops| <= n then plan.status else FlashError)
  }

  lemma RanThen(f: Flash, n: nat, p: Plan, f1: Flash, n1: nat, s1: Status,
                q: Plan, f2: Flash, n2: nat, s2: Status)
    requires Ran(f, n, p, f1, n1, s1)
    requires if s1 == Complete then Ran(f1, n1, q, f2, n2, s2) else f2 == f1 && n2 == n1 && s2 == s1
    ensures Ran(f, n, Then(p, q), f2, n2, s2)
  {
    var k := if n < |Then(p, q).ops| then n else |Then(p, q).ops|;
    CutThen(f, p, q, k);
    CutWhole(f, p);
  }

  lemma RanNothing(f: Flash, n: nat, status: Status)
    ensures Ran(f, n, Plan([], status), f, n, status)
  {
    CutWhole(f, Plan([], status));
  }

  lemma RanJust(f: Flash, n: nat, op: Op)
    ensures n == 0 ==> Ran(f, n, Just(op), f, 0, FlashError)
    ensures n > 0 ==> Ran(f, n, Just(op), Perform(f, op), n - 1, Complete)
  {
    CutWhole(f, Just(op));
    AfterJust(f, op);
  }

  lemma RanAppend(f: Flash, n: nat, p: PageId, i: Slot, a: Halfword, d: Halfword,
                  f1: Flash, n1: nat, s1: Status, f2: Flash, n2: nat, s2: Status)
    requires WritePage(f) == Some(p) && FirstFree(f.At(p), 0) == i
    requires Ran(f, n, Just(Program(p, 2 * i, d)), f1, n1, s1)
    requires if s1 == Complete then Ran(f1, n1, Just(Program(p, 2 * i + 1, a)), f2, n2, s2)
             else f2 == f1 && n2 == n1 && s2 == s1
    ensures Ran(f, n, AppendPlan(f, a, d), f2, n2, s2)
  {
    RanThen(f, n, Just(Program(p, 2 * i, d)), f1, n1, s1, Just(Program(p, 2 * i + 1, a)), f2, n2, s2);
    assert Then(Just(Program(p, 2 * i, d)), Just(Program(p, 2 * i + 1, a))) == AppendPlan(f, a, d);
  }

  datatype Operation = ReadFromValidPage | WriteInValidPage

  class Eeprom {
    const page0: array<Halfword>
    const page1: array<Halfword>
    const tab: Table
    var power: nat
    var dataVar: Halfword

    ghost predicate Valid() {
      page0 != page1 && page0.Length == PAGE_HALFWORDS && page1.Length == PAGE_HALFWORDS
    }

    ghost function View(): Flash
      requires Valid()
      reads page0, page1
    {
      Flash(page0[..], page1[..])
    }

    /** Power-up: whatever the two sectors hold. */
    constructor (sector1: array<Halfword>, sector2: array<Halfword>, virtAddVarTab: Table, supply: nat)
      requires sector1 != sector2
      requires sector1.Length == PAGE_HALFWORDS && sector2.Length == PAGE_HALFWORDS
      ensures Valid() && page0 == sector1 && page1 == sector2 && tab == virtAddVarTab && power == supply
    {
      page0, page1, tab, power, dataVar := sector1, sector2, virtAddVarTab, supply, 0;
    }

    method ProgramHalfWord(p: PageId, at: Offset, value: Halfword) returns (status: Status)
      requires Valid()
      modifies this`power, page0, page1
      ensures Ran(old(View()), old(power), Just(Program(p, at, value)), View(), power, status)
    {
      RanJust(View(), power, Program(p, at, value));
      if power == 0 {
        return FlashError;
      }
      power := power - 1;
      if p == 0 {
        page0[at] := Programmed(page0[at], value);
      } else {
        page1[at] := Programmed(page1[at], value);
      }
      status := Complete;
    }

    method EraseSector(p: PageId) returns (status: Status)
      requires Valid()
      modifies this`power, page0, page1
      ensures Ran(old(View()), old(power), Just(Erase(p)), View(), power, status)
    {
      RanJust(View(), power, Erase(p));
      if power == 0 {
        return FlashError;
      }
      power := power - 1;
      var page := if p == 0 then page0 else page1;
      forall i | 0 <= i < page.Length {
        page[i] := BLANK;
      }
      assert page[..] == ErasedPage();
      status := Complete;
    }

    /** EE_EraseSectorIfNotEmpty. */
    method EraseSectorIfNotEmpty(p: PageId) returns (status: Status)
      requires Valid()
      modifies this`power, page0, page1
      ensures Ran(old(View()), old(power), ErasePlan(old(View()), p), View(), power, status)
    {
      var page := if p == 0 then page0 else page1;
      var i := 0;
      while i < PAGE_HALFWORDS
        invariant 0 <= i <= PAGE_HALFWORDS
        invariant forall j :: 0 <= j < i ==> page[j] == BLANK
      {
        if page[i] != BLANK {
          status := EraseSector(p);
          return;
        }
        i := i + 1;
      }
      assert page[..] == ErasedPage();
      RanNothing(View(), power, Complete);
      status := Complete;
    }

    /** EE_FindValidPage. */
    method FindValidPage(operation: Operation) returns (r: Option<PageId>)
      requires Valid()
      ensures r == if operation == WriteInValidPage then WritePage(View()) else ReadPage(View())
    {
      var status0, status1 := page0[0], page1[0];
      match operation {
        case WriteInValidPage =>
          if status1 == VALID_PAGE {
            if status0 == RECEIVE_DATA {
              return Some(0);
            } else {
              return Some(1);
            }
          } else if status0 == VALID_PAGE {
            if status1 == RECEIVE_DATA {
              return Some(1);
            } else {
              return Some(0);
            }
          } else {
            return None;
          }
        case ReadFromValidPage =>
          if status0 == VALID_PAGE {
            return Some(0);
          } else if status1 == VALID_PAGE {
            return Some(1);
          } else {
            return None;
          }
      }
    }

    /** EE_ReadVariable: scans the valid page from its end. */
    method ReadVariable(a: Halfword) returns (r: ReadResult)
      requires Valid()
      ensures r == Read(View(), a)
    {
      var valid := FindValidPage(ReadFromValidPage);
      if valid == None {
        return NoPage;
      }
      var page := if valid.value == 0 then page0 else page1;
      var i := SLOTS - 1;
      while i >= 1
        invariant 0 <= i < SLOTS
        invariant Lookup(page[..], a) == LookupBelow(page[..], a, i + 1)
      {
        if page[2 * i + 1] == a {
          return Found(page[2 * i]);
        }
        i := i - 1;
      }
      r := NotFound;
    }

    method ProgramSlot(p: PageId, i: Slot, a: Halfword, d: Halfword) returns (status: Status)
      requires Valid()
      requires WritePage(View()) == Some(p) && FirstFree(View().At(p), 0) == i
      modifies this`power, page0, page1
      ensures Ran(old(View()), old(power), AppendPlan(old(View()), a, d), View(), power, status)
    {
      ghost var f, n := View(), power;
      status := ProgramHalfWord(p, 2 * i, d);
      ghost var f1, n1, s1 := View(), power, status;
      if status == Complete {
        status := ProgramHalfWord(p, 2 * i + 1, a);
      }
      RanAppend(f, n, p, i, a, d, f1, n1, s1, View(), power, status);
    }

    /** The scan of EE_VerifyPageFullWriteVariable, from the start of the page. */
    method FindFreeSlot(p: PageId) returns (i: nat)
      requires Valid()
      ensures i == FirstFree(View().At(p), 0)
    {
      var page := if p == 0 then page0 else page1;
      i := 0;
      while i < SLOTS
        invariant 0 <= i <= SLOTS
        invariant FirstFree(page[..], 0) == FirstFree(page[..], i)
      {
        if page[2 * i] == BLANK && page[2 * i + 1] == BLANK {
          return;
        }
        i := i + 1;
      }
    }

    /** EE_VerifyPageFullWriteVariable. */
    method VerifyPageFullWriteVariable(a: Halfword, d: Halfword) returns (status: Status)
      requires Valid()
      modifies this`power, page0, page1
      ensures Ran(old(View()), old(power), AppendPlan(old(View()), a, d), View(), power, status)
    {
      RanNothing(View(), power, NoValidPage);
      RanNothing(View(), power, PageFull);
      var valid := FindValidPage(WriteInValidPage);
      if valid == None {
        return NoValidPage;
      }
      var i := FindFreeSlot(valid.value);
      if i < SLOTS {
        status := ProgramSlot(valid.value, i, a, d);
      } else {
        status := PageFull;
      }
    }

    /** EE_Format. */
    method Format() returns (status: Status)
      requires Valid()
      modifies this`power, page0, page1
      ensures Ran(old(View()), old(power), FormatPlan(old(View())), View(), power, status)
    {
      ghost var f, n := View(), power;
      ghost var erase0, mark := ErasePlan(f, 0), Just(Program(0, 0, VALID_PAGE));
      ghost var f2 := After(After(f, erase0), mark);
      status := EraseSectorIfNotEmpty(0);
      ghost var f1, n1, s1 := View(), power, status;
      if status == Complete {
        RanAfter(f, n, erase0, f1, n1, s1);
        status := ProgramHalfWord(0, 0, VALID_PAGE);
        ghost var f2', n2, s2 := View(), power, status;
        if status == Complete {
          RanAfter(f1, n1, mark, f2', n2, s2);
          status := EraseSectorIfNotEmpty(1);
        }
        RanThen(f1, n1, mark, f2', n2, s2, ErasePlan(f2, 1), View(), power, status);
      }
      RanThen(f, n, erase0, f1, n1, s1, Then(mark, ErasePlan(f2, 1)), View(), power, status);
    }

    /** The body of a copy loop for a variable that is not left out. */
    method CopyVariable(varIdx: nat, skip: Skip, ghost f0: Flash, ghost n0: nat) returns (status: Status)
      requires Valid() && varIdx < |tab| && !Skips(View(), skip, tab[varIdx])
      requires Continues(f0, n0, tab, skip, View(), power, varIdx)
      modifies this`power, this`dataVar, page0, page1
      ensures status == Complete ==> Continues(f0, n0, tab, skip, View(), power, varIdx + 1)
      ensures status != Complete ==> Ran(f0, n0, CopyPlan(f0, tab, 0, skip), View(), power, status)
    {
      var read := ReadVariable(tab[varIdx]);
      if read.Found? {
        dataVar := read.data;
      }
      if read != NotFound {
        ghost var f, n := View(), power;
        status := VerifyPageFullWriteVariable(tab[varIdx], dataVar);
        RanCopy(f0, n0, f, n, tab, varIdx, skip, dataVar, View(), power, status);
      } else {
        SkippedCopy(f0, n0, View(), power, tab, varIdx, skip);
        status := Complete;
      }
    }

    /** One copy loop: EE_PageTransfer leaves out the address it has written, EE_Init the
        address in the first data slot of the page that receives. */
    method CopyVariables(skip: Skip) returns (status: Status)
      requires Valid()
      modifies this`power, this`dataVar, page0, page1
      ensures Ran(old(View()), old(power), CopyPlan(old(View()), tab, 0, skip), View(), power, status)
    {
      ghost var f0, n0 := View(), power;
      var x := -1;
      var varIdx := 0;
      while varIdx < |tab|
        invariant 0 <= varIdx <= |tab| && x < varIdx
        invariant Continues(f0, n0, tab, skip, View(), power, varIdx)
      {
        match skip {
          case Written(a) =>
            if tab[varIdx] == a {
              x := varIdx;
            }
          case FirstSlotOf(q) =>
            var page := if q == 0 then page0 else page1;
            if page[3] == tab[varIdx] {
              x := varIdx;
            }
        }
        if varIdx != x {
          status := CopyVariable(varIdx, skip, f0, n0);
          if status != Complete {
            return;
          }
        } else {
          SkippedCopy(f0, n0, View(), power, tab, varIdx, skip);
        }
        varIdx := varIdx + 1;
      }
      RanNothing(View(), power, Complete);
      assert Ran(View(), power, CopyPlan(View(), tab, |tab|, skip), View(), power, Complete);
      status := Complete;
    }

    /** EE_PageTransfer. */
    method PageTransfer(a: Halfword, d: Halfword) returns (status: Status)
      requires Valid()
      modifies this`power, this`dataVar, page0, page1
      ensures Ran(old(View()), old(power), TransferPlan(old(View()), tab, a, d), View(), power, status)
    {
      ghost var f, n := View(), power;
      var valid := FindValidPage(ReadFromValidPage);
      if valid == None {
        RanNothing(f, n, NoValidPage);
        return NoValidPage;
      }
      var p := valid.value;
      ghost var mark := Just(Program(1 - p, 0, RECEIVE_DATA));
      ghost var f1 := After(f, mark);
      ghost var append := AppendPlan(f1, a, d);
      ghost var rest := CopyAndCommit(After(f1, append), p, tab, a);
      status := ProgramHalfWord(1 - p, 0, RECEIVE_DATA);
      ghost var g1, n1, s1 := View(), power, status;
      if status == Complete {
        RanAfter(f, n, mark, g1, n1, s1);
        status := VerifyPageFullWriteVariable(a, d);
        ghost var g2, n2, s2 := View(), power, status;
        if status == Complete {
          RanAfter(f1, n1, append, g2, n2, s2);
          status := FinishTransfer(p, a);
        }
        RanThen(g1, n1, append, g2, n2, s2, rest, View(), power, status);
      }
      RanThen(f, n, mark, g1, n1, s1, Then(append, rest), View(), power, status);
    }

    /** EE_PageTransfer from the copy loop on. */
    method FinishTransfer(p: PageId, a: Halfword) returns (status: Status)
      requires Valid()
      modifies this`power, this`dataVar, page0, page1
      ensures Ran(old(View()), old(power), CopyAndCommit(old(View()), p, tab, a), View(), power, status)
    {
      ghost var f, n := View(), power;
      ghost var copy, mark := CopyPlan(f, tab, 0, Written(a)), Just(Program(1 - p, 0, VALID_PAGE));
      ghost var erase := ErasePlan(After(f, copy), p);
      status := CopyVariables(Written(a));
      ghost var f1, n1, s1 := View(), power, status;
      if status == Complete {
        RanAfter(f, n, copy, f1, n1, s1);
        status := EraseSectorIfNotEmpty(p);
        ghost var f2, n2, s2 := View(), power, status;
        if status == Complete {
          status := ProgramHalfWord(1 - p, 0, VALID_PAGE);
        }
        RanThen(f1, n1, erase, f2, n2, s2, mark, View(), power, status);
      }
      RanThen(f, n, copy, f1, n1, s1, Then(erase, mark), View(), power, status);
    }

    /** EE_WriteVariable. lowVoltage is the supply monitor's flag. */
    method WriteVariable(a: Halfword, d: Halfword, lowVoltage: bool) returns (status: Status)
      requires Valid()
      modifies this`power, this`dataVar, page0, page1
      ensures Ran(old(View()), old(power), WritePlan(old(View()), tab, a, d, lowVoltage), View(), power, status)
    {
      ghost var f, n := View(), power;
      var read := ReadVariable(a);
      if read == Found(d) {
        RanNothing(f, n, Complete);
        return Complete;
      }
      if lowVoltage {
        RanNothing(f, n, FlashError);
        status := FlashError;
      } else {
        status := VerifyPageFullWriteVariable(a, d);
        if status == PageFull {
          CutWhole(f, AppendPlan(f, a, d));
          status := PageTransfer(a, d);
        }
      }
    }

    /** EE_Init's completion of a transfer from page p. */
    method Resume(p: PageId) returns (status: Status)
      requires Valid()
      modifies this`power, this`dataVar, page0, page1
      ensures Ran(old(View()), old(power), ResumePlan(old(View()), tab, p), View(), power, status)
    {
      ghost var f, n := View(), power;
      ghost var copy, mark := CopyPlan(f, tab, 0, FirstSlotOf(1 - p)), Just(Program(1 - p, 0, VALID_PAGE));
      ghost var erase := ErasePlan(After(After(f, copy), mark), p);
      status := CopyVariables(FirstSlotOf(1 - p));
      ghost var f1, n1, s1 := View(), power, status;
      if status == Complete {
        RanAfter(f, n, copy, f1, n1, s1);
        status := ProgramHalfWord(1 - p, 0, VALID_PAGE);
        ghost var f2, n2, s2 := View(), power, status;
        if status == Complete {
          RanAfter(f1, n1, mark, f2, n2, s2);
          status := EraseSectorIfNotEmpty(p);
        }
        RanThen(f1, n1, mark, f2, n2, s2, erase, View(), power, status);
      }
      RanThen(f, n, copy, f1, n1, s1, Then(mark, erase), View(), power, status);
    }

    method EraseAndMark(p: PageId) returns (status: Status)
      requires Valid()
      modifies this`power, page0, page1
      ensures Ran(old(View()), old(power),
                  Then(ErasePlan(old(View()), p), Just(Program(1 - p, 0, VALID_PAGE))), View(), power, status)
    {
      ghost var f, n := View(), power;
      status := EraseSectorIfNotEmpty(p);
      ghost var f1, n1, s1 := View(), power, status;
      if status == Complete {
        status := ProgramHalfWord(1 - p, 0, VALID_PAGE);
      }
      RanThen(f, n, ErasePlan(f, p), f1, n1, s1, Just(Program(1 - p, 0, VALID_PAGE)), View(), power, status);
    }

    /** EE_Init. */
    method Init() returns (status: Status)
      requires Valid()
      modifies this`power, this`dataVar, page0, page1
      ensures Ran(old(View()), old(power), InitPlan(old(View()), tab), View(), power, status)
    {
      var status0, status1 := page0[0], page1[0];
      if status0 == BLANK {
        if status1 == VALID_PAGE {
          status := EraseSectorIfNotEmpty(0);
        } else if status1 == RECEIVE_DATA {
          status := EraseAndMark(0);
        } else {
          status := Format();
        }
      } else if status0 == RECEIVE_DATA {
        if status1 == VALID_PAGE {
          status := Resume(1);
        } else if status1 == BLANK {
          status := EraseAndMark(1);
        } else {
          status := Format();
        }
      } else if status0 == VALID_PAGE {
        if status1 == VALID_PAGE {
          status := Format();
        } else if status1 == BLANK {
          status := EraseSectorIfNotEmpty(1);
        } else {
          status := Resume(0);
        }
      } else {
        status := Format();
      }
    }
  }

  lemma RanAfter(f: Flash, n: nat, plan: Plan, g: Flash, n': nat, status: Status)
    requires Ran(f, n, plan, g, n', status) && status == Complete
    ensures g == After(f, plan) && plan.status == Complete
  {
    CutWhole(f, plan);
  }

  /** What the copy loop still does from index i on completes what it does in all. */
  ghost predicate Continues(f0: Flash, n0: nat, tab: Table, skip: Skip, f: Flash, n: nat, i: nat)
    requires i <= |tab|
  {
    forall g, n', status ::
      Ran(f, n, CopyPlan(f, tab, i, skip), g, n', status) ==>
      Ran(f0, n0, CopyPlan(f0, tab, 0, skip), g, n', status)
  }

  /** One round of the copy loop that writes. */
  lemma RanCopy(f0: Flash, n0: nat, f: Flash, n: nat, tab: Table, i: nat, skip: Skip, d: Halfword,
                g: Flash, n': nat, status: Status)
    requires i < |tab| && Continues(f0, n0, tab, skip, f, n, i)
    requires !Skips(f, skip, tab[i]) && Read(f, tab[i]) != NotFound
    requires Read(f, tab[i]).Found? ==> d == Read(f, tab[i]).data
    requires Ran(f, n, AppendPlan(f, tab[i], d), g, n', status)
    ensures status != Complete ==> Ran(f0, n0, CopyPlan(f0, tab, 0, skip), g, n', status)
    ensures status == Complete ==> Continues(f0, n0, tab, skip, g, n', i + 1)
  {
    var append, plan := AppendPlan(f, tab[i], d), CopyPlan(f, tab, i, skip);
    if Read(f, tab[i]) == NoPage {
      RanNothing(f, n, NoValidPage);
      assert Ran(f, n, plan, g, n', status);
    } else {
      var rest := CopyPlan(After(f, append), tab, i + 1, skip);
      assert plan == Then(append, rest);
      if status != Complete {
        RanThen(f, n, append, g, n', status, rest, g, n', status);
        assert Ran(f, n, plan, g, n', status);
      } else {
        RanAfter(f, n, append, g, n', status);
        forall h, n'', s | Ran(g, n', CopyPlan(g, tab, i + 1, skip), h, n'', s)
          ensures Ran(f0, n0, CopyPlan(f0, tab, 0, skip), h, n'', s)
        {
          RanThen(f, n, append, g, n', status, rest, h, n'', s);
          assert Ran(f, n, plan, h, n'', s);
        }
      }
    }
  }

  lemma SkippedCopy(f0: Flash, n0: nat, f: Flash, n: nat, tab: Table, i: nat, skip: Skip)
    requires i < |tab| && Continues(f0, n0, tab, skip, f, n, i)
    requires Skips(f, skip, tab[i]) || Read(f, tab[i]) == NotFound
    ensures Continues(f0, n0, tab, skip, f, n, i + 1)
  {
    assert CopyPlan(f, tab, i, skip) == CopyPlan(f, tab, i + 1, skip);
  }
}
