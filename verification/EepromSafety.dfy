/** The promises of the EEPROM emulation over whole runs: writes are atomic under power cuts,
    recovery can itself be interrupted, and reads return the last value written. */
module EepromSafety {
  import opened MachineWords
  import opened FlashMemory
  import opened EepromPlan
  import opened EepromPages
  import opened EepromRecovery
  import opened EepromTransfer

  // ----- EE_WriteVariable -----

  lemma AppendKeeps(f: Flash, p: PageId, tab: Table, m: Contents, a: Halfword, d: Halfword, k: nat)
    requires Legal(tab) && Holds(f, p, tab, m) && a != BLANK
    requires Used(f.At(p)) < SLOTS && k <= 2
    ensures AppendPlan(f, a, d).status == Complete && |AppendPlan(f, a, d).ops| == 2
    ensures Holds(Cut(f, AppendPlan(f, a, d), k), p, tab, if k < 2 then m else m[a := d])
  {
    HoldsPages(f, p, tab, m);
    CutAppendPlan(f, p, a, d, k);
    AppendingKeeps(f.At(p), a, d, k);
  }

  /** If a transfer is under way, it has used at most n slots of its receiving page. */
  ghost predicate Spent(f: Flash, n: nat) {
    forall q: PageId ::
      f.At(q)[0] == RECEIVE_DATA && f.At(1 - q)[0] == VALID_PAGE ==> Used(f.At(q)) <= n
  }

  /** A write, cut after some steps, has left the flash g: the old contents or the new ones can
      be recovered, few slots of a receiving page are spent, and a write that reports success has
      left a clean store with the new ones. */
  ghost predicate WriteOutcome(g: Flash, tab: Table, m: Contents, m': Contents,
                               took: bool, done: bool, untouched: bool)
  {
    && Preserves(g, tab, if took then m' else m)
    && (done ==> took && Clean(g, tab, m'))
    && (untouched ==> Clean(g, tab, if took then m' else m))
    && Spent(g, 2 + |tab|)
  }

  lemma HoldsOutcome(g: Flash, p: PageId, tab: Table, m: Contents, m': Contents,
                     took: bool, done: bool, untouched: bool)
    requires Holds(g, p, tab, if took then m' else m) && (done ==> took)
    ensures WriteOutcome(g, tab, m, m', took, done, untouched)
  {
    assert g.At(1 - p)[0] == BLANK;
  }

  lemma TransferOutcome(g: Flash, p: PageId, tab: Table, m: Contents, m': Contents, n: nat, k: nat)
    requires n >= 3 && 1 <= k && TransferPhase(g, p, tab, m, m', n, k)
    ensures WriteOutcome(g, tab, m, m', k >= 3, k > n + 1, false)
  {
    if k > n + 1 {
      HoldsOutcome(g, 1 - p, tab, m, m', true, true, false);
    } else if k == n + 1 {
      assert HandedOver(g, 1 - p, tab, m');
      assert g.At(p)[0] == BLANK;
    } else {
      assert Transferring(g, p, tab, if k < 3 then m else m');
    }
  }

  lemma SameValue(f: Flash, p: PageId, tab: Table, m: Contents, a: Halfword, d: Halfword)
    requires Holds(f, p, tab, m) && Read(f, a) == Found(d)
    ensures Holds(f, p, tab, m[a := d])
  {
    HoldsPages(f, p, tab, m);
  }

  lemma AppendOutcome(f: Flash, p: PageId, tab: Table, m: Contents, a: Halfword, d: Halfword, k: nat)
    requires Legal(tab) && Holds(f, p, tab, m) && a != BLANK
    requires Used(f.At(p)) < SLOTS && k <= 2
    ensures AppendPlan(f, a, d).status == Complete && |AppendPlan(f, a, d).ops| == 2
    ensures WriteOutcome(Cut(f, AppendPlan(f, a, d), k), tab, m, m[a := d], k == 2, k == 2, k == 0)
  {
    AppendKeeps(f, p, tab, m, a, d, k);
    HoldsOutcome(Cut(f, AppendPlan(f, a, d), k), p, tab, m, m[a := d], k == 2, k == 2, k == 0);
  }

  lemma PageFullOutcome(f: Flash, p: PageId, tab: Table, m: Contents, a: Halfword, d: Halfword, k: nat)
    requires Legal(tab) && Holds(f, p, tab, m) && a != BLANK
    requires k <= |TransferPlan(f, tab, a, d).ops|
    ensures |TransferPlan(f, tab, a, d).ops| >= 3
    ensures var plan := TransferPlan(f, tab, a, d);
            WriteOutcome(Cut(f, plan, k), tab, m, m[a := d], k >= 3,
                         k == |plan.ops| && plan.status == Complete, k == 0)
  {
    var plan := TransferPlan(f, tab, a, d);
    TransferKeeps(f, p, tab, m, a, d, k);
    if k == 0 {
      HoldsOutcome(Cut(f, plan, k), p, tab, m, m[a := d], false, false, true);
    } else {
      var n := if plan.status == Complete then |plan.ops| - 2 else |plan.ops|;
      TransferOutcome(Cut(f, plan, k), p, tab, m, m[a := d], n, k);
    }
  }

  lemma WriteCases(f: Flash, p: PageId, tab: Table, m: Contents, a: Halfword, d: Halfword, lowVoltage: bool)
    requires Holds(f, p, tab, m)
    ensures WritePlan(f, tab, a, d, lowVoltage) ==
            if Read(f, a) == Found(d) then Plan([], Complete)
            else if lowVoltage then Plan([], FlashError)
            else if Used(f.At(p)) < SLOTS then AppendPlan(f, a, d)
            else TransferPlan(f, tab, a, d)
  {
    HoldsPages(f, p, tab, m);
  }

  lemma WriteKeeps(f: Flash, p: PageId, tab: Table, m: Contents, a: Halfword, d: Halfword,
                   lowVoltage: bool, k: nat)
    returns (took: bool)
    requires Legal(tab) && Holds(f, p, tab, m) && a != BLANK
    requires k <= |WritePlan(f, tab, a, d, lowVoltage).ops|
    ensures var plan := WritePlan(f, tab, a, d, lowVoltage);
            WriteOutcome(Cut(f, plan, k), tab, m, m[a := d], took,
                         k == |plan.ops| && plan.status == Complete, k == 0)
  {
    WriteCases(f, p, tab, m, a, d, lowVoltage);
    if Read(f, a) == Found(d) || lowVoltage {
      took := Read(f, a) == Found(d);
      CutWhole(f, WritePlan(f, tab, a, d, lowVoltage));
      if took {
        SameValue(f, p, tab, m, a, d);
      }
      HoldsOutcome(f, p, tab, m, m[a := d], took, took, true);
    } else if Used(f.At(p)) < SLOTS {
      AppendOutcome(f, p, tab, m, a, d, 2);
      AppendOutcome(f, p, tab, m, a, d, k);
      took := k == 2;
    } else {
      PageFullOutcome(f, p, tab, m, a, d, k);
      took := k >= 3;
    }
  }

  // ----- EE_Init -----

  lemma InitOfClean(f: Flash, p: PageId, tab: Table, m: Contents)
    requires Holds(f, p, tab, m)
    ensures InitPlan(f, tab) == Plan([], Complete)
  {
    assert f.At(1 - p)[0] == BLANK;
  }

  lemma InitOfHandedOver(f: Flash, q: PageId, tab: Table, m: Contents)
    requires HandedOver(f, q, tab, m)
    ensures InitPlan(f, tab) == Just(Program(q, 0, VALID_PAGE))
  {
    assert f.At(1 - q)[0] == BLANK;
    assert InitPlan(f, tab).ops == [Program(q, 0, VALID_PAGE)];
  }

  lemma InitOfTransfer(f: Flash, p: PageId, tab: Table, m: Contents)
    requires Transferring(f, p, tab, m)
    ensures InitPlan(f, tab) == ResumePlan(f, tab, p)
  {
  }

  /** The one unsafe moment of EE_Init: after the receiving page was marked valid and before
      the other page is erased. */
  predicate BothValidCut(f: Flash, tab: Table, k: nat) {
    var plan := InitPlan(f, tab);
    && ((f.page0[0] == RECEIVE_DATA && f.page1[0] == VALID_PAGE)
        || (f.page0[0] == VALID_PAGE && f.page1[0] == RECEIVE_DATA))
    && plan.status == Complete && k == |plan.ops| - 1
  }

  /** EE_Init cut anywhere else leaves a store that still holds the same contents; cut there, it
      leaves one that does not. */
  lemma InitCut(f: Flash, tab: Table, m: Contents, k: nat)
    requires Legal(tab) && Preserves(f, tab, m)
    requires k <= |InitPlan(f, tab).ops|
    ensures Preserves(Cut(f, InitPlan(f, tab), k), tab, m) <==> !BothValidCut(f, tab, k)
    ensures BothValidCut(f, tab, k) ==>
              var g := Cut(f, InitPlan(f, tab), k);
              g.page0[0] == VALID_PAGE && g.page1[0] == VALID_PAGE
    ensures k == |InitPlan(f, tab).ops| && InitPlan(f, tab).status == Complete ==>
              Clean(Cut(f, InitPlan(f, tab), k), tab, m)
  {
    var p: PageId :| Holds(f, p, tab, m) || Transferring(f, p, tab, m) || HandedOver(f, p, tab, m);
    if Holds(f, p, tab, m) {
      InitOfClean(f, p, tab, m);
      CutWhole(f, InitPlan(f, tab));
      assert f.At(1 - p)[0] == BLANK;
    } else if HandedOver(f, p, tab, m) {
      InitOfHandedOver(f, p, tab, m);
      CutWhole(f, InitPlan(f, tab));
      HandedOverCommits(f, p, tab, m);
      assert f.At(1 - p)[0] == BLANK;
    } else {
      InitOfTransfer(f, p, tab, m);
      ResumeKeeps(f, p, tab, m, k);
      BothValidNotPreserved(Cut(f, InitPlan(f, tab), k), tab, m);
    }
  }

  lemma BothValidNotPreserved(f: Flash, tab: Table, m: Contents)
    ensures f.page0[0] == VALID_PAGE && f.page1[0] == VALID_PAGE ==> !Preserves(f, tab, m)
  {
    if p: PageId :| Holds(f, p, tab, m) || HandedOver(f, p, tab, m) {
      assert f.At(1 - p)[0] == BLANK;
    }
  }

  lemma ErasedSpends(f: Flash, p: PageId, n: nat)
    requires f.At(p) == ErasedPage()
    ensures Spent(f, n)
  {
    assert f.At(p)[0] == BLANK;
    forall q: PageId
      ensures !(f.At(q)[0] == RECEIVE_DATA && f.At(1 - q)[0] == VALID_PAGE)
    {
      assert q == p || 1 - q == p;
    }
  }

  lemma ResumeSpends(f: Flash, p: PageId, tab: Table, m: Contents, k: nat, n: nat)
    requires Legal(tab) && Transferring(f, p, tab, m) && Spent(f, n)
    requires k <= |ResumePlan(f, tab, p).ops|
    requires !BothValidCut(f, tab, k)
    ensures Spent(Cut(f, ResumePlan(f, tab, p), k), n + |tab|)
  {
    InitOfTransfer(f, p, tab, m);
    ResumeKeeps(f, p, tab, m, k);
    assert Used(f.At(1 - p)) <= n;
    var g := Cut(f, ResumePlan(f, tab, p), k);
    if Holds(g, 1 - p, tab, m) {
      ErasedSpends(g, p, n + |tab|);
    }
  }

  /** A cut EE_Init spends at most one slot for every variable. */
  lemma InitCutSpends(f: Flash, tab: Table, m: Contents, k: nat, n: nat)
    requires Legal(tab) && Preserves(f, tab, m) && Spent(f, n)
    requires k <= |InitPlan(f, tab).ops| && !BothValidCut(f, tab, k)
    ensures Spent(Cut(f, InitPlan(f, tab), k), n + |tab|)
  {
    var p: PageId :| Holds(f, p, tab, m) || Transferring(f, p, tab, m) || HandedOver(f, p, tab, m);
    if Transferring(f, p, tab, m) {
      InitOfTransfer(f, p, tab, m);
      ResumeSpends(f, p, tab, m, k, n);
    } else {
      InitCutErased(f, p, tab, m, k);
      ErasedSpends(Cut(f, InitPlan(f, tab), k), 1 - p, n + |tab|);
    }
  }

  lemma InitCutErased(f: Flash, p: PageId, tab: Table, m: Contents, k: nat)
    requires Holds(f, p, tab, m) || HandedOver(f, p, tab, m)
    requires k <= |InitPlan(f, tab).ops|
    ensures Cut(f, InitPlan(f, tab), k).At(1 - p) == ErasedPage()
  {
    if Holds(f, p, tab, m) {
      InitOfClean(f, p, tab, m);
      CutWhole(f, InitPlan(f, tab));
    } else {
      InitOfHandedOver(f, p, tab, m);
      MarkCutErased(f, p, k);
    }
  }

  lemma MarkCutErased(f: Flash, q: PageId, k: nat)
    requires f.At(1 - q) == ErasedPage() && k <= 1
    ensures Cut(f, Just(Program(q, 0, VALID_PAGE)), k).At(1 - q) == ErasedPage()
  {
    CutWhole(f, Just(Program(q, 0, VALID_PAGE)));
    AfterJust(f, Program(q, 0, VALID_PAGE));
  }

  /** If a transfer is under way, the receiving page has room for the copies still to be made. */
  predicate HasRoom(f: Flash, tab: Table) {
    forall p: PageId :: f.At(p)[0] == VALID_PAGE && f.At(1 - p)[0] == RECEIVE_DATA ==>
      Used(f.At(1 - p)) + NeedOf(f, p, tab, 0) <= SLOTS
  }

  /** EE_Init brings the contents back exactly if there is room, and otherwise reports a full page. */
  lemma InitCompletesExactly(f: Flash, tab: Table, m: Contents)
    requires Legal(tab) && Preserves(f, tab, m)
    ensures RecoversTo(f, tab, m) <==> HasRoom(f, tab)
    ensures !HasRoom(f, tab) ==> InitPlan(f, tab).status == PageFull
  {
    var plan := InitPlan(f, tab);
    CutWhole(f, plan);
    InitCut(f, tab, m, |plan.ops|);
    var p: PageId :| Holds(f, p, tab, m) || Transferring(f, p, tab, m) || HandedOver(f, p, tab, m);
    if Transferring(f, p, tab, m) {
      InitOfTransfer(f, p, tab, m);
      ResumeKeeps(f, p, tab, m, 0);
      CopyCompletesExactly(f, p, tab, m, 0, FirstSlotOf(1 - p));
      OneTransfer(f, p, tab);
    } else {
      ErasedHasRoom(f, 1 - p, tab);
      if Holds(f, p, tab, m) {
        InitOfClean(f, p, tab, m);
      } else {
        InitOfHandedOver(f, p, tab, m);
      }
    }
  }

  lemma OneTransfer(f: Flash, p: PageId, tab: Table)
    requires f.At(p)[0] == VALID_PAGE && f.At(1 - p)[0] == RECEIVE_DATA
    ensures HasRoom(f, tab) <==> Used(f.At(1 - p)) + NeedOf(f, p, tab, 0) <= SLOTS
  {
    forall r: PageId | f.At(r)[0] == VALID_PAGE && f.At(1 - r)[0] == RECEIVE_DATA ensures r == p {
      assert f.At(r)[0] != RECEIVE_DATA;
    }
  }

  lemma ErasedHasRoom(f: Flash, p: PageId, tab: Table)
    requires f.At(p) == ErasedPage()
    ensures HasRoom(f, tab)
  {
    ErasedSpends(f, p, 0);
  }

  lemma SpentHasRoom(f: Flash, tab: Table, n: nat)
    requires Spent(f, n) && n + |tab| <= SLOTS
    ensures HasRoom(f, tab)
  {
  }

  /** Given room for one more copy of every variable, EE_Init completes. */
  lemma InitRecovers(f: Flash, tab: Table, m: Contents, n: nat)
    requires Legal(tab) && Preserves(f, tab, m)
    requires Spent(f, n) && n + |tab| <= SLOTS
    ensures RecoversTo(f, tab, m)
  {
    SpentHasRoom(f, tab, n);
    InitCompletesExactly(f, tab, m);
  }

  // ----- Crash safety -----

  /** EE_WriteVariable cut after any number of flash steps, followed by a complete EE_Init,
      reads as exactly the old contents or exactly the new ones. */
  lemma WriteIsAtomic(f: Flash, tab: Table, m: Contents, a: Halfword, d: Halfword, lowVoltage: bool, k: nat)
    requires Legal(tab) && Clean(f, tab, m) && a != BLANK
    requires 2 * |tab| + 1 <= SLOTS - 1
    requires k <= |WritePlan(f, tab, a, d, lowVoltage).ops|
    ensures var g := Cut(f, WritePlan(f, tab, a, d, lowVoltage), k);
            RecoversTo(g, tab, m) || RecoversTo(g, tab, m[a := d])
  {
    var p: PageId :| Holds(f, p, tab, m);
    var took := WriteKeeps(f, p, tab, m, a, d, lowVoltage, k);
    InitRecovers(Cut(f, WritePlan(f, tab, a, d, lowVoltage), k), tab,
                 if took then m[a := d] else m, 2 + |tab|);
  }

  /** EE_Init started again and again, each time with the supply failing too early. */
  function Restarts(f: Flash, tab: Table, powers: seq<nat>): Flash
    decreases |powers|
  {
    if powers == [] then f
    else Restarts(Powered(f, InitPlan(f, tab), powers[0]), tab, powers[1..])
  }

  predicate NeverBothValid(f: Flash, tab: Table, powers: seq<nat>)
    decreases |powers|
  {
    powers == [] ||
    (!BothValidCut(f, tab, powers[0]) &&
     NeverBothValid(Powered(f, InitPlan(f, tab), powers[0]), tab, powers[1..]))
  }

  lemma OneMore(k: nat, t: nat)
    ensures (k + 1) * t == t + k * t
  {
  }

  /** One start that was cut. */
  lemma RestartKeeps(f: Flash, tab: Table, m: Contents, power: nat, n: nat)
    requires Legal(tab) && Preserves(f, tab, m) && Spent(f, n)
    requires !BothValidCut(f, tab, power)
    ensures var g := Powered(f, InitPlan(f, tab), power); Preserves(g, tab, m) && Spent(g, n + |tab|)
    ensures |InitPlan(f, tab).ops| <= power && InitPlan(f, tab).status == Complete ==>
              Clean(Powered(f, InitPlan(f, tab), power), tab, m)
  {
    var plan := InitPlan(f, tab);
    var k := if power < |plan.ops| then power else |plan.ops|;
    InitCut(f, tab, m, k);
    InitCutSpends(f, tab, m, k, n);
  }

  /** Recovery is restartable, one slot for every variable and every start. */
  lemma {:induction false} RestartsRecover(f: Flash, tab: Table, m: Contents, powers: seq<nat>, n: nat)
    requires Legal(tab) && Preserves(f, tab, m) && NeverBothValid(f, tab, powers)
    requires Spent(f, n) && n + (|powers| + 1) * |tab| <= SLOTS
    ensures RecoversTo(Restarts(f, tab, powers), tab, m)
    decreases |powers|
  {
    if powers == [] {
      InitRecovers(f, tab, m, n);
    } else {
      RestartKeeps(f, tab, m, powers[0], n);
      OneMore(|powers|, |tab|);
      assert |powers[1..]| + 1 == |powers|;
      RestartsRecover(Powered(f, InitPlan(f, tab), powers[0]), tab, m, powers[1..], n + |tab|);
    }
  }

  /** A cut write, then any number of cut recoveries, then a complete one: still old or new. */
  lemma WriteSurvivesRestarts(f: Flash, tab: Table, m: Contents, a: Halfword, d: Halfword,
                              lowVoltage: bool, k: nat, powers: seq<nat>)
    requires Legal(tab) && Clean(f, tab, m) && a != BLANK
    requires k <= |WritePlan(f, tab, a, d, lowVoltage).ops|
    requires NeverBothValid(Cut(f, WritePlan(f, tab, a, d, lowVoltage), k), tab, powers)
    requires 1 + (|powers| + 2) * |tab| <= SLOTS - 1
    ensures var g := Restarts(Cut(f, WritePlan(f, tab, a, d, lowVoltage), k), tab, powers);
            RecoversTo(g, tab, m) || RecoversTo(g, tab, m[a := d])
  {
    var p: PageId :| Holds(f, p, tab, m);
    var took := WriteKeeps(f, p, tab, m, a, d, lowVoltage, k);
    OneMore(|powers| + 1, |tab|);
    RestartsRecover(Cut(f, WritePlan(f, tab, a, d, lowVoltage), k), tab,
                    if took then m[a := d] else m, powers, 2 + |tab|);
  }

  // ----- Formatting, and what the unsafe cut costs -----

  lemma ErasePlanErases(f: Flash, p: PageId)
    ensures After(f, ErasePlan(f, p)) == SetPage(f, p, ErasedPage())
    ensures ErasePlan(f, p).status == Complete
  {
    if f.At(p) != ErasedPage() {
      AfterJust(f, Erase(p));
    }
  }

  lemma FormatEmpties(f: Flash, tab: Table)
    requires Legal(tab)
    ensures FormatPlan(f).status == Complete
    ensures Holds(After(f, FormatPlan(f)), 0, tab, map[])
  {
    var f1 := After(f, ErasePlan(f, 0));
    var mark := Just(Program(0, 0, VALID_PAGE));
    var f2 := After(f1, mark);
    ErasePlanErases(f, 0);
    AfterThen(f, ErasePlan(f, 0), Then(mark, ErasePlan(f2, 1)));
    AfterThen(f1, mark, ErasePlan(f2, 1));
    AfterJust(f1, Program(0, 0, VALID_PAGE));
    ErasePlanErases(f2, 1);
    FreshPage(f2.page0, tab);
  }

  lemma FreshPage(page: Page, tab: Table)
    requires Legal(tab) && page == SetCell(ErasedPage(), 0, VALID_PAGE)
    ensures Packed(page) && Agrees(page, tab, map[])
  {
    assert forall i: Slot :: 1 <= i ==> Free(page, i);
    UsedIs(page, 1);
    forall v: Halfword | v in tab ensures Lookup(page, v) == None {
      LookupBlank(page, v);
    }
  }

  /** The unsafe cut loses everything: the next EE_Init finds two valid pages and formats. So after a
      cut at step k, the next EE_Init restores the contents exactly if k was not that step and there
      is room, or if k was that step and there was nothing to lose. */
  lemma RestartableExactly(f: Flash, tab: Table, m: Contents, k: nat)
    requires Legal(tab) && Preserves(f, tab, m)
    requires k <= |InitPlan(f, tab).ops|
    ensures var g := Cut(f, InitPlan(f, tab), k);
            RecoversTo(g, tab, m) <==>
            if BothValidCut(f, tab, k) then forall v: Halfword :: v in tab ==> v !in m else HasRoom(g, tab)
  {
    var g := Cut(f, InitPlan(f, tab), k);
    InitCut(f, tab, m, k);
    if BothValidCut(f, tab, k) {
      BothValidFormats(g, tab, m);
    } else {
      InitCompletesExactly(g, tab, m);
    }
  }

  lemma BothValidFormats(g: Flash, tab: Table, m: Contents)
    requires Legal(tab) && g.page0[0] == VALID_PAGE && g.page1[0] == VALID_PAGE
    ensures RecoversTo(g, tab, m) <==> forall v: Halfword :: v in tab ==> v !in m
  {
    assert InitPlan(g, tab) == FormatPlan(g);
    FormatEmpties(g, tab);
    var g' := After(g, FormatPlan(g));
    if Clean(g', tab, m) {
      SameContents(g', tab, map[], m);
    }
    if forall v: Halfword :: v in tab ==> v !in m {
      assert Holds(g', 0, tab, m);
    }
  }

  /** With slots for two more copies of every variable, room is not a question. */
  lemma RestartableWithRoom(f: Flash, tab: Table, m: Contents, k: nat, n: nat)
    requires Legal(tab) && Preserves(f, tab, m)
    requires Spent(f, n) && n + 2 * |tab| <= SLOTS
    requires k <= |InitPlan(f, tab).ops|
    ensures RecoversTo(Cut(f, InitPlan(f, tab), k), tab, m)
            <==> (BothValidCut(f, tab, k) ==> forall v: Halfword :: v in tab ==> v !in m)
  {
    RestartableExactly(f, tab, m, k);
    if !BothValidCut(f, tab, k) {
      InitCutSpends(f, tab, m, k, n);
      SpentHasRoom(Cut(f, InitPlan(f, tab), k), tab, n + |tab|);
    }
  }

  /** A clean store has one contents only. */
  lemma SameContents(f: Flash, tab: Table, m: Contents, m': Contents)
    requires Clean(f, tab, m) && Clean(f, tab, m')
    ensures forall v: Halfword :: v in tab ==> Value(m, v) == Value(m', v)
  {
    var p: PageId, p': PageId :| Holds(f, p, tab, m) && Holds(f, p', tab, m');
    HoldsPages(f, p, tab, m);
    HoldsPages(f, p', tab, m');
  }

  // ----- Uncut writes and reads -----

  /** EE_ReadVariable on a clean store returns the last value written, or 1 if there is none. */
  lemma ReadsContents(f: Flash, tab: Table, m: Contents, v: Halfword)
    requires Clean(f, tab, m) && v in tab
    ensures Read(f, v) == if v in m then Found(m[v]) else NotFound
  {
    var p: PageId :| Holds(f, p, tab, m);
    HoldsPages(f, p, tab, m);
  }

  lemma WriteCommits(f: Flash, tab: Table, m: Contents, a: Halfword, d: Halfword, lowVoltage: bool)
    requires Legal(tab) && Clean(f, tab, m) && a != BLANK
    requires WritePlan(f, tab, a, d, lowVoltage).status == Complete
    ensures Clean(After(f, WritePlan(f, tab, a, d, lowVoltage)), tab, m[a := d])
  {
    var p: PageId :| Holds(f, p, tab, m);
    var plan := WritePlan(f, tab, a, d, lowVoltage);
    CutWhole(f, plan);
    var took := WriteKeeps(f, p, tab, m, a, d, lowVoltage, |plan.ops|);
  }

  /** With the supply up and one slot for every variable and one more, a write succeeds. */
  lemma WriteSucceeds(f: Flash, tab: Table, m: Contents, a: Halfword, d: Halfword)
    requires Legal(tab) && Clean(f, tab, m) && a != BLANK
    requires |tab| + 1 <= SLOTS - 1
    ensures WritePlan(f, tab, a, d, false).status == Complete
  {
    var p: PageId :| Holds(f, p, tab, m);
    WriteCases(f, p, tab, m, a, d, false);
    if Read(f, a) == Found(d) {
    } else if Used(f.At(p)) < SLOTS {
      AppendOutcome(f, p, tab, m, a, d, 0);
    } else {
      HoldsPages(f, p, tab, m);
      TransferStarts(f, p, tab, m);
      var f1 := After(f, Just(Program(1 - p, 0, RECEIVE_DATA)));
      TransferAppends(f1, p, tab, m, a, d, 2);
      CutWhole(f1, AppendPlan(f1, a, d));
      var f2 := After(f1, AppendPlan(f1, a, d));
      CopyFits(f2, p, tab, m[a := d], 0, Written(a));
      TransferEnds(f2, p, tab, m[a := d], a);
      TransferShape(f, p, tab, a, d);
    }
  }
}
