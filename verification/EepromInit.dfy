/** EE_Init from any state of the two pages. */
module EepromInit {
  import opened MachineWords
  import opened FlashMemory
  import opened EepromPlan
  import opened EepromPages
  import opened EepromRecovery
  import opened EepromTransfer
  import opened EepromSafety

  predicate OneValid(f: Flash, p: PageId) {
    f.At(p)[0] == VALID_PAGE && f.At(1 - p) == ErasedPage()
  }

  lemma {:induction false} CopyKeepsHeaders(f: Flash, tab: Table, i: nat, skip: Skip)
    requires i <= |tab|
    requires WritePage(f).Some?
    ensures var g := After(f, CopyPlan(f, tab, i, skip));
            g.page0[0] == f.page0[0] && g.page1[0] == f.page1[0]
    decreases |tab| - i
  {
    if i < |tab| {
      if Skips(f, skip, tab[i]) || Read(f, tab[i]) == NotFound {
        CopyKeepsHeaders(f, tab, i + 1, skip);
      } else if Read(f, tab[i]).Found? {
        var append := AppendPlan(f, tab[i], Read(f, tab[i]).data);
        var f1 := After(f, append);
        AppendKeepsHeaders(f, tab[i], Read(f, tab[i]).data);
        AfterThen(f, append, CopyPlan(f1, tab, i + 1, skip));
        CopyKeepsHeaders(f1, tab, i + 1, skip);
      }
    }
  }

  lemma AppendKeepsHeaders(f: Flash, a: Halfword, d: Halfword)
    requires WritePage(f).Some?
    ensures var g := After(f, AppendPlan(f, a, d));
            g.page0[0] == f.page0[0] && g.page1[0] == f.page1[0]
  {
    var q := WritePage(f).value;
    if Used(f.At(q)) < SLOTS {
      CutAppendPlan(f, q, a, d, 2);
      CutWhole(f, AppendPlan(f, a, d));
      AppendingKeepsHeader(f.At(q), a, d);
    } else {
      AppendFull(f, q, a, d);
    }
  }

  lemma AppendingKeepsHeader(page: Page, a: Halfword, d: Halfword)
    requires page[0] != BLANK && Used(page) < SLOTS
    ensures Appending(page, a, d, 2)[0] == page[0]
  {
    FirstFreeFrom(page, 0);
  }

  lemma ResumeSettles(f: Flash, tab: Table, p: PageId)
    requires f.At(p)[0] == VALID_PAGE && f.At(1 - p)[0] != VALID_PAGE
    requires ResumePlan(f, tab, p).status == Complete
    ensures OneValid(After(f, ResumePlan(f, tab, p)), 1 - p)
  {
    var copy := CopyPlan(f, tab, 0, FirstSlotOf(1 - p));
    var f1 := After(f, copy);
    var mark := Just(Program(1 - p, 0, VALID_PAGE));
    var f2 := After(f1, mark);
    CopyKeepsHeaders(f, tab, 0, FirstSlotOf(1 - p));
    AfterThen(f, copy, Then(mark, ErasePlan(f2, p)));
    AfterThen(f1, mark, ErasePlan(f2, p));
    AfterJust(f1, Program(1 - p, 0, VALID_PAGE));
    ErasePlanErases(f2, p);
  }

  /** EE_Init, whenever it succeeds and whatever it found, legal page states or not, leaves
      exactly one valid page and the other erased, and a second EE_Init does nothing. */
  lemma InitSettles(f: Flash, tab: Table)
    requires Legal(tab) && InitPlan(f, tab).status == Complete
    ensures var g := After(f, InitPlan(f, tab));
            (OneValid(g, 0) || OneValid(g, 1)) && InitPlan(g, tab) == Plan([], Complete)
  {
    var s0, s1 := f.page0[0], f.page1[0];
    var g := After(f, InitPlan(f, tab));
    FormatEmpties(f, tab);
    if (s0 == BLANK && s1 == VALID_PAGE) || (s0 == VALID_PAGE && s1 == BLANK) {
      ErasePlanErases(f, if s0 == BLANK then 0 else 1);
    } else if s0 == BLANK && s1 == RECEIVE_DATA {
      EraseAndMark(f, 0);
    } else if s0 == RECEIVE_DATA && s1 == BLANK {
      EraseAndMark(f, 1);
    } else if s0 == RECEIVE_DATA && s1 == VALID_PAGE {
      ResumeSettles(f, tab, 1);
    } else if s0 == VALID_PAGE && s1 != VALID_PAGE {
      ResumeSettles(f, tab, 0);
    }
    assert OneValid(g, 0) || OneValid(g, 1);
    assert OneValid(g, 0) ==> g.page1[0] == BLANK;
    assert OneValid(g, 1) ==> g.page0[0] == BLANK;
  }

  lemma EraseAndMark(f: Flash, p: PageId)
    ensures OneValid(After(f, Then(ErasePlan(f, p), Just(Program(1 - p, 0, VALID_PAGE)))), 1 - p)
  {
    var f1 := After(f, ErasePlan(f, p));
    ErasePlanErases(f, p);
    AfterThen(f, ErasePlan(f, p), Just(Program(1 - p, 0, VALID_PAGE)));
    AfterJust(f1, Program(1 - p, 0, VALID_PAGE));
  }

  // ----- What EE_Init makes of each pair of page headers, in numbers -----

  /** The headers for which EE_Init formats: both pages blank, as on a new device; both receiving; both
      valid; or a page that no transfer leaves. */
  predicate Formatted(h0: Halfword, h1: Halfword) {
    || (h0 == 0xFFFF && h1 != 0 && h1 != 0xEEEE)
    || (h0 == 0xEEEE && h1 != 0 && h1 != 0xFFFF)
    || (h0 == 0 && h1 == 0)
    || (h0 != 0 && h0 != 0xFFFF && h0 != 0xEEEE)
  }

  /** There EE_Init succeeds and leaves an empty store. */
  lemma InitFormats(f: Flash, tab: Table)
    requires Legal(tab) && Formatted(f.page0[0], f.page1[0])
    ensures RecoversTo(f, tab, map[])
  {
    FormatEmpties(f, tab);
  }

  /** A valid or receiving page beside a blank one is kept, whatever the rest of the other page is. */
  lemma InitKeepsPage(f: Flash, p: PageId, tab: Table, m: Contents)
    requires Legal(tab) && (f.At(p)[0] == 0 || f.At(p)[0] == 0xEEEE) && f.At(1 - p)[0] == 0xFFFF
    requires Packed(f.At(p)) && Agrees(f.At(p), tab, m)
    ensures RecoversTo(f, tab, m)
  {
    var erase := ErasePlan(f, 1 - p);
    var f1 := After(f, erase);
    ErasePlanErases(f, 1 - p);
    if f.At(p)[0] == 0 {
      assert Holds(f1, p, tab, m);
    } else {
      AfterThen(f, erase, Just(Program(p, 0, VALID_PAGE)));
      HandedOverCommits(f1, p, tab, m);
    }
  }

  /** Otherwise one page is valid, and the other one is when EE_Init has succeeded. */
  lemma InitHandsOver(f: Flash, p: PageId, tab: Table)
    requires f.At(p)[0] == 0 && f.At(1 - p)[0] != 0 && f.At(1 - p)[0] != 0xFFFF
    requires p == 1 ==> f.page0[0] == 0xEEEE
    requires InitPlan(f, tab).status == Complete
    ensures OneValid(After(f, InitPlan(f, tab)), 1 - p)
  {
    ResumeSettles(f, tab, p);
  }

  // ----- The first start of a device -----

  /** Both headers are blank, or the first start was cut after it had marked page 0. */
  ghost predicate New(f: Flash, tab: Table) {
    && f.page1[0] == BLANK
    && (f.page0[0] == BLANK
        || (f.page0[0] == VALID_PAGE && Packed(f.page0) && Agrees(f.page0, tab, map[])))
  }

  lemma NewRecovers(f: Flash, tab: Table)
    requires Legal(tab) && New(f, tab)
    ensures RecoversTo(f, tab, map[])
  {
    if f.page0[0] == BLANK {
      InitFormats(f, tab);
    } else {
      InitKeepsPage(f, 0, tab, map[]);
    }
  }

  /** The first start can be cut anywhere and repeated. */
  lemma NewCut(f: Flash, tab: Table, k: nat)
    requires Legal(tab) && New(f, tab) && k <= |InitPlan(f, tab).ops|
    ensures InitPlan(f, tab).status == Complete
    ensures New(Cut(f, InitPlan(f, tab), k), tab)
    ensures k == |InitPlan(f, tab).ops| ==> Holds(Cut(f, InitPlan(f, tab), k), 0, tab, map[])
  {
    if f.page0[0] == BLANK {
      FirstFormatCut(f, tab, k);
    } else {
      ErasePlanErases(f, 1);
      CutWhole(f, ErasePlan(f, 1));
    }
  }

  /** EE_Format has at most three steps: it can be cut in four places. */
  lemma FormatStages(f: Flash, k: nat)
    requires k <= |FormatPlan(f).ops|
    ensures var f1 := After(f, ErasePlan(f, 0));
            var f2 := After(f1, Just(Program(0, 0, VALID_PAGE)));
            var g := Cut(f, FormatPlan(f), k);
            && (k < |FormatPlan(f).ops| ==> g == f || g == f1 || g == f2)
            && (k == |FormatPlan(f).ops| ==> g == After(f, FormatPlan(f)))
  {
    var erase, mark := ErasePlan(f, 0), Just(Program(0, 0, VALID_PAGE));
    var f1 := After(f, erase);
    var last := ErasePlan(After(f1, mark), 1);
    CutWhole(f, FormatPlan(f));
    CutThen(f, erase, Then(mark, last), k);
    CutWhole(f, erase);
    if |erase.ops| <= k < |FormatPlan(f).ops| {
      CutThen(f1, mark, last, k - |erase.ops|);
      CutWhole(f1, mark);
    }
  }

  lemma FirstFormatCut(f: Flash, tab: Table, k: nat)
    requires Legal(tab) && f.page0[0] == BLANK && f.page1[0] == BLANK && k <= |FormatPlan(f).ops|
    ensures FormatPlan(f).status == Complete && New(Cut(f, FormatPlan(f), k), tab)
    ensures k == |FormatPlan(f).ops| ==> Holds(Cut(f, FormatPlan(f), k), 0, tab, map[])
  {
    FormatStages(f, k);
    FormatEmpties(f, tab);
    EraseAndMarkFirst(f, tab);
    assert Holds(After(f, FormatPlan(f)), 0, tab, map[]) ==> New(After(f, FormatPlan(f)), tab);
  }

  lemma EraseAndMarkFirst(f: Flash, tab: Table)
    requires Legal(tab) && f.page1[0] == BLANK
    ensures var f1 := After(f, ErasePlan(f, 0));
            New(f1, tab) && New(After(f1, Just(Program(0, 0, VALID_PAGE))), tab)
  {
    var f1 := After(f, ErasePlan(f, 0));
    var f2 := After(f1, Just(Program(0, 0, VALID_PAGE)));
    ErasePlanErases(f, 0);
    AfterJust(f1, Program(0, 0, VALID_PAGE));
    FreshPage(f2.page0, tab);
  }

  /** On a new device, with both headers blank, EE_Init leaves an empty store, however often it was cut
      before. */
  lemma FirstStart(f: Flash, tab: Table, k: nat)
    requires Legal(tab) && f.page0[0] == 0xFFFF && f.page1[0] == 0xFFFF && k <= |InitPlan(f, tab).ops|
    ensures RecoversTo(f, tab, map[]) && RecoversTo(Cut(f, InitPlan(f, tab), k), tab, map[])
  {
    NewRecovers(f, tab);
    NewCut(f, tab, k);
    NewRecovers(Cut(f, InitPlan(f, tab), k), tab);
  }
}
