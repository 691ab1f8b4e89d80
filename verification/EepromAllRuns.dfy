/** Every run of the EEPROM emulation, boots that are cut at the unsafe step of EE_Init and formats
    that are cut themselves included: what is lost, and when. */
module EepromAllRuns {
  import opened MachineWords
  import opened FlashMemory
  import opened EepromPlan
  import opened EepromPages
  import opened EepromRecovery
  import opened EepromTransfer
  import opened EepromSafety
  import opened EepromInit
  import opened EepromRuns

  // ----- The old page stays as it is until it is erased -----

  predicate Spares(ops: seq<Op>, p: PageId) {
    forall i :: 0 <= i < |ops| && ops[i].page == p ==> ops[i].Erase?
  }

  lemma {:induction false} PerformSpares(f: Flash, ops: seq<Op>, p: PageId)
    requires Spares(ops, p)
    ensures PerformAll(f, ops).At(p) == f.At(p) || PerformAll(f, ops).At(p) == ErasedPage()
    decreases |ops|
  {
    if ops != [] {
      assert ops[0].page == p ==> ops[0].Erase?;
      PerformSpares(Perform(f, ops[0]), ops[1..], p);
    }
  }

  lemma CutSpares(f: Flash, plan: Plan, p: PageId, k: nat)
    requires Spares(plan.ops, p) && k <= |plan.ops|
    ensures Cut(f, plan, k).At(p) == f.At(p) || Cut(f, plan, k).At(p) == ErasedPage()
  {
    PerformSpares(f, plan.ops[..k], p);
  }

  lemma AppendSpares(f: Flash, p: PageId, tab: Table, m: Contents, a: Halfword, d: Halfword)
    requires Transferring(f, p, tab, m)
    ensures Spares(AppendPlan(f, a, d).ops, p)
  {
    TransferPages(f, p, tab, m);
  }

  lemma {:induction false} CopySpares(f: Flash, p: PageId, tab: Table, m: Contents, i: nat, skip: Skip)
    requires Legal(tab) && i <= |tab|
    requires Transferring(f, p, tab, m) && SkipsFirst(f, 1 - p, skip)
    ensures Spares(CopyPlan(f, tab, i, skip).ops, p)
    decreases |tab| - i
  {
    if i < |tab| {
      CopyUnrolls(f, p, tab, m, i, skip);
      if f.At(1 - p)[3] == tab[i] || Value(m, tab[i]) == None {
        CopySpares(f, p, tab, m, i + 1, skip);
      } else {
        var d := Value(m, tab[i]).value;
        AppendSpares(f, p, tab, m, tab[i], d);
        CopyAppends(f, p, tab, m, tab[i], d, skip);
        if Used(f.At(1 - p)) < SLOTS {
          CopySpares(After(f, AppendPlan(f, tab[i], d)), p, tab, m, i + 1, skip);
        }
      }
    }
  }

  lemma CopyAndCommitSpares(f: Flash, p: PageId, tab: Table, m: Contents, a: Halfword)
    requires Legal(tab) && Transferring(f, p, tab, m) && a != BLANK && f.At(1 - p)[3] == a
    ensures Spares(CopyAndCommit(f, p, tab, a).ops, p)
  {
    CopySpares(f, p, tab, m, 0, Written(a));
  }

  lemma TransferSpares(f: Flash, p: PageId, tab: Table, m: Contents, a: Halfword, d: Halfword)
    requires Legal(tab) && Holds(f, p, tab, m) && a != BLANK
    ensures Spares(TransferPlan(f, tab, a, d).ops, p)
  {
    var f1 := After(f, Just(Program(1 - p, 0, RECEIVE_DATA)));
    HoldsPages(f, p, tab, m);
    TransferStarts(f, p, tab, m);
    TransferWritten(f1, p, tab, m, a, d);
    TransferShape(f, p, tab, a, d);
    AppendSpares(f1, p, tab, m, a, d);
    CopyAndCommitSpares(After(f1, AppendPlan(f1, a, d)), p, tab, m[a := d], a);
  }

  lemma ResumeSpares(f: Flash, p: PageId, tab: Table, m: Contents)
    requires Legal(tab) && Transferring(f, p, tab, m)
    ensures Spares(ResumePlan(f, tab, p).ops, p)
  {
    CopySpares(f, p, tab, m, 0, FirstSlotOf(1 - p));
  }

  // ----- What the old page holds -----

  /** If a transfer is under way, the page that it copies from has these contents. */
  ghost predicate OldPage(f: Flash, tab: Table, before: Contents) {
    forall p: PageId :: f.At(p)[0] == VALID_PAGE && f.At(1 - p)[0] == RECEIVE_DATA ==>
      Packed(f.At(p)) && Agrees(f.At(p), tab, before)
  }

  lemma NoOldPage(f: Flash, p: PageId, tab: Table, before: Contents)
    requires f.At(p)[0] == BLANK
    ensures OldPage(f, tab, before)
  {
    forall q: PageId ensures !(f.At(q)[0] == VALID_PAGE && f.At(1 - q)[0] == RECEIVE_DATA) {
      assert q == p || 1 - q == p;
    }
  }

  lemma SameOldPage(f: Flash, g: Flash, p: PageId, tab: Table, m: Contents, before: Contents)
    requires Transferring(g, p, tab, m) && (g.At(p) == f.At(p) || g.At(p) == ErasedPage())
    requires Packed(f.At(p)) && Agrees(f.At(p), tab, before)
    ensures OldPage(g, tab, before)
  {
    forall q: PageId | g.At(q)[0] == VALID_PAGE && g.At(1 - q)[0] == RECEIVE_DATA
      ensures Packed(g.At(q)) && Agrees(g.At(q), tab, before)
    {
      assert q == p;
    }
  }

  /** A page transfer, cut anywhere. */
  lemma TransferLeavesOld(f: Flash, p: PageId, tab: Table, m: Contents, a: Halfword, d: Halfword, k: nat)
    requires Legal(tab) && Holds(f, p, tab, m) && a != BLANK
    requires k <= |TransferPlan(f, tab, a, d).ops|
    ensures OldPage(Cut(f, TransferPlan(f, tab, a, d), k), tab, m)
  {
    var plan := TransferPlan(f, tab, a, d);
    var g := Cut(f, plan, k);
    TransferKeeps(f, p, tab, m, a, d, k);
    TransferSpares(f, p, tab, m, a, d);
    CutSpares(f, plan, p, k);
    var n := if plan.status == Complete then |plan.ops| - 2 else |plan.ops|;
    if k == 0 {
      NoOldPage(g, 1 - p, tab, m);
    } else if k <= n {
      SameOldPage(f, g, p, tab, if k < 3 then m else m[a := d], m);
    } else {
      NoOldPage(g, p, tab, m);
    }
  }

  /** A write, cut anywhere. */
  lemma WriteLeavesOld(f: Flash, p: PageId, tab: Table, m: Contents, a: Halfword, d: Halfword,
                       lowVoltage: bool, k: nat)
    requires Legal(tab) && Holds(f, p, tab, m) && a != BLANK
    requires k <= |WritePlan(f, tab, a, d, lowVoltage).ops|
    ensures OldPage(Cut(f, WritePlan(f, tab, a, d, lowVoltage), k), tab, m)
  {
    WriteCases(f, p, tab, m, a, d, lowVoltage);
    if Read(f, a) == Found(d) || lowVoltage {
      CutWhole(f, WritePlan(f, tab, a, d, lowVoltage));
      NoOldPage(f, 1 - p, tab, m);
    } else if Used(f.At(p)) < SLOTS {
      AppendKeeps(f, p, tab, m, a, d, 2);
      AppendKeeps(f, p, tab, m, a, d, k);
      NoOldPage(Cut(f, AppendPlan(f, a, d), k), 1 - p, tab, m);
    } else {
      TransferLeavesOld(f, p, tab, m, a, d, k);
    }
  }

  /** A start, cut anywhere but at the unsafe step. */
  lemma BootLeavesOld(f: Flash, tab: Table, m: Contents, before: Contents, k: nat)
    requires Legal(tab) && Preserves(f, tab, m) && OldPage(f, tab, before)
    requires k <= |InitPlan(f, tab).ops| && !BothValidCut(f, tab, k)
    ensures OldPage(Cut(f, InitPlan(f, tab), k), tab, before)
  {
    var p: PageId :| Holds(f, p, tab, m) || Transferring(f, p, tab, m) || HandedOver(f, p, tab, m);
    var g := Cut(f, InitPlan(f, tab), k);
    if Transferring(f, p, tab, m) {
      InitOfTransfer(f, p, tab, m);
      ResumeKeeps(f, p, tab, m, k);
      ResumeSpares(f, p, tab, m);
      CutSpares(f, ResumePlan(f, tab, p), p, k);
      if Transferring(g, p, tab, m) {
        SameOldPage(f, g, p, tab, m, before);
      } else {
        NoOldPage(g, p, tab, before);
      }
    } else {
      InitCutErased(f, p, tab, m, k);
      NoOldPage(g, 1 - p, tab, before);
    }
  }

  // ----- Two valid pages -----

  predicate BothValid(f: Flash) {
    f.page0[0] == VALID_PAGE && f.page1[0] == VALID_PAGE
  }

  /** Two valid pages. EE_Format erases page 0 first: what can survive is on page 1. */
  ghost predicate Doubtful(f: Flash, tab: Table, m: Contents) {
    BothValid(f) && Packed(f.page1) && Agrees(f.page1, tab, m)
  }

  lemma UnsafeInTransfer(f: Flash, tab: Table, m: Contents, k: nat) returns (p: PageId)
    requires Preserves(f, tab, m) && BothValidCut(f, tab, k)
    ensures Transferring(f, p, tab, m)
  {
    p :| Holds(f, p, tab, m) || Transferring(f, p, tab, m) || HandedOver(f, p, tab, m);
    assert f.At(1 - p)[0] != BLANK;
  }

  /** The unsafe step: page 1 is the receiving page with the current contents, or it is the old one
      with those before the last write. */
  lemma UnsafeCutLeaves(f: Flash, tab: Table, m: Contents, before: Contents, k: nat)
    requires Legal(tab) && Preserves(f, tab, m) && OldPage(f, tab, before)
    requires BothValidCut(f, tab, k)
    ensures k <= |InitPlan(f, tab).ops|
    ensures Doubtful(Cut(f, InitPlan(f, tab), k), tab, if f.page1[0] == VALID_PAGE then before else m)
  {
    var p := UnsafeInTransfer(f, tab, m, k);
    InitOfTransfer(f, p, tab, m);
    ResumeKeeps(f, p, tab, m, k);
    ResumeKeeps(f, p, tab, m, k + 1);
    var plan := ResumePlan(f, tab, p);
    var g := Cut(f, plan, k);
    ResumeSpares(f, p, tab, m);
    CutSpares(f, plan, p, k);
    assert g.At(p) == f.At(p);
    if p == 0 {
      EraseLast(f, p, tab, m, k);
    }
  }

  /** The step behind the unsafe one erases the old page and leaves the new one alone. */
  lemma EraseLast(f: Flash, p: PageId, tab: Table, m: Contents, k: nat)
    requires Legal(tab) && Transferring(f, p, tab, m) && ResumePlan(f, tab, p).status == Complete
    requires k == |ResumePlan(f, tab, p).ops| - 1
    ensures Packed(Cut(f, ResumePlan(f, tab, p), k).At(1 - p))
    ensures Agrees(Cut(f, ResumePlan(f, tab, p), k).At(1 - p), tab, m)
  {
    var copy := CopyPlan(f, tab, 0, FirstSlotOf(1 - p));
    var f1 := After(f, copy);
    var mark := Just(Program(1 - p, 0, VALID_PAGE));
    ResumeKeeps(f, p, tab, m, k);
    CutThen(f, copy, Then(mark, ErasePlan(After(f1, mark), p)), k);
    ResumeEnds(f, p, tab, m);
    MarkAndEraseCut(f1, p, 1);
    AfterJust(After(f1, mark), Erase(p));
  }

  /** EE_Format on two valid pages, step by step: it starts with page 0. */
  lemma FormatCut(f: Flash, tab: Table, m: Contents, k: nat)
    requires Legal(tab) && Doubtful(f, tab, m) && k <= 3
    ensures InitPlan(f, tab) == FormatPlan(f) && |FormatPlan(f).ops| == 3 && FormatPlan(f).status == Complete
    ensures var g := Cut(f, FormatPlan(f), k);
            if k == 3 then Holds(g, 0, tab, map[])
            else if k == 1 then Holds(g, 1, tab, m)
            else Doubtful(g, tab, m)
  {
    var erase, mark := Just(Erase(0)), Just(Program(0, 0, VALID_PAGE));
    assert ErasePlan(f, 0) == erase;
    var f1 := After(f, erase);
    var f2 := After(f1, mark);
    AfterJust(f, Erase(0));
    AfterJust(f1, Program(0, 0, VALID_PAGE));
    assert ErasePlan(f2, 1) == Just(Erase(1));
    CutThen(f, erase, Then(mark, ErasePlan(f2, 1)), k);
    CutWhole(f, FormatPlan(f));
    CutWhole(f, erase);
    FormatEmpties(f, tab);
    if 1 <= k {
      CutThen(f1, mark, ErasePlan(f2, 1), k - 1);
      CutWhole(f1, mark);
    }
  }

  // ----- Runs -----

  /** The contents, and those before the last write. */
  datatype History = History(now: Contents, before: Contents)

  /** A boot that takes back the last write: cut at the unsafe step while the old page is page 1. */
  predicate TakesBack(s: Machine, tab: Table, e: Event) {
    e.Boot? && BothValidCut(s.flash, tab, e.power) && s.flash.page1[0] == VALID_PAGE
  }

  /** A boot that empties the store: it finds two valid pages and is not cut. */
  predicate Empties(s: Machine, e: Event) {
    e.Boot? && BothValid(s.flash) && e.power >= 3
  }

  function Step(h: History, s: Machine, tab: Table, e: Event, took: bool): History {
    if e.Write? then History(if took then h.now[e.a := e.d] else h.now, h.now)
    else if TakesBack(s, tab, e) then h.(now := h.before)
    else if Empties(s, e) then h.(now := map[])
    else h
  }

  /** The contents after a run: of the writes that took effect since the store was last emptied. */
  function Outcome(m: Contents, s: Machine, tab: Table, events: seq<Event>, took: seq<bool>): Contents
    requires |took| == |events|
    decreases |events|
  {
    if events == [] then m
    else
      var e := events[0];
      var m' := if e.Write? then (if took[0] then m[e.a := e.d] else m) else if Empties(s, e) then map[] else m;
      Outcome(m', Next(s, tab, e), tab, events[1..], took[1..])
  }

  /** Writes are made to a running machine only; boots can be cut anywhere. */
  predicate PossibleRun(s: Machine, tab: Table, events: seq<Event>)
    decreases |events|
  {
    events == [] ||
    ((events[0].Write? ==> s.running && events[0].a != BLANK) &&
     PossibleRun(Next(s, tab, events[0]), tab, events[1..]))
  }

  ghost predicate Traced(s: Machine, tab: Table, h: History) {
    if BothValid(s.flash) then !s.running && Doubtful(s.flash, tab, h.now)
    else Known(s, tab, h) || Starting(s, tab, h)
  }

  ghost predicate Known(s: Machine, tab: Table, h: History) {
    Consistent(s, tab, h.now) && OldPage(s.flash, tab, h.before)
  }

  /** A device whose first start has not been completed. */
  ghost predicate Starting(s: Machine, tab: Table, h: History) {
    !s.running && New(s.flash, tab) && h == History(map[], map[])
  }

  /** What the store is good for now. Two valid pages: the next boot empties the store if it is not
      cut, and the contents are back after all if it is cut after its first step. */
  ghost predicate Yields(s: Machine, tab: Table, m: Contents) {
    if BothValid(s.flash) then
      && !s.running
      && RecoversTo(s.flash, tab, map[])
      && Clean(Powered(s.flash, InitPlan(s.flash, tab), 1), tab, m)
    else Delivers(s, tab, m)
  }

  /** A running machine can start such a run. */
  lemma RunningTraced(s: Machine, tab: Table, h: History)
    requires s.running && Clean(s.flash, tab, h.now)
    ensures Traced(s, tab, h) && !BothValid(s.flash)
  {
    var p: PageId :| Holds(s.flash, p, tab, h.now);
    assert s.flash.At(1 - p)[0] == BLANK;
    NoOldPage(s.flash, 1 - p, tab, h.before);
  }

  lemma CleanNotBothValid(f: Flash, tab: Table, m: Contents)
    requires Preserves(f, tab, m)
    ensures !BothValid(f)
  {
    BothValidNotPreserved(f, tab, m);
  }

  lemma WriteTraced(s: Machine, tab: Table, h: History, e: Event) returns (took: bool)
    requires Legal(tab) && Traced(s, tab, h) && e.Write? && s.running && e.a != BLANK
    ensures Traced(Next(s, tab, e), tab, Step(h, s, tab, e, took)) && !BothValid(Next(s, tab, e).flash)
    ensures Succeeds(s, tab, e) ==> took
  {
    took := WriteConsistent(s, tab, h.now, e);
    var g, m := Next(s, tab, e), if took then h.now[e.a := e.d] else h.now;
    var plan := PlanOf(s, tab, e);
    var p: PageId :| Holds(s.flash, p, tab, h.now);
    WriteLeavesOld(s.flash, p, tab, h.now, e.a, e.d, e.lowVoltage,
                   if e.power < |plan.ops| then e.power else |plan.ops|);
    ConsistentNotBothValid(g, tab, m);
  }

  lemma ConsistentNotBothValid(s: Machine, tab: Table, m: Contents)
    requires Consistent(s, tab, m)
    ensures !BothValid(s.flash)
  {
    CleanNotBothValid(s.flash, tab, m);
  }

  /** A boot that is cut at the unsafe step. */
  lemma UnsafeBootTraced(s: Machine, tab: Table, h: History, e: Event)
    requires Legal(tab) && Known(s, tab, h)
    requires e.Boot? && BothValidCut(s.flash, tab, e.power)
    ensures Traced(Next(s, tab, e), tab, Step(h, s, tab, e, false))
  {
    ConsistentNotBothValid(s, tab, h.now);
    CleanOrDown(s, tab, h.now);
    UnsafeCutLeaves(s.flash, tab, h.now, h.before, e.power);
  }

  /** A running machine has nothing under way that a boot could be cut in. */
  lemma CleanOrDown(s: Machine, tab: Table, m: Contents)
    requires Consistent(s, tab, m)
    ensures Preserves(s.flash, tab, m)
    ensures s.running ==> !(exists k: nat :: BothValidCut(s.flash, tab, k))
  {
    if s.running {
      var p: PageId :| Holds(s.flash, p, tab, m);
      assert s.flash.At(1 - p)[0] == BLANK;
    }
  }

  lemma SafeBootTraced(s: Machine, tab: Table, h: History, e: Event)
    requires Legal(tab) && Known(s, tab, h)
    requires e.Boot? && !BothValidCut(s.flash, tab, e.power)
    ensures Traced(Next(s, tab, e), tab, Step(h, s, tab, e, false)) && !BothValid(Next(s, tab, e).flash)
  {
    var plan := InitPlan(s.flash, tab);
    ConsistentNotBothValid(s, tab, h.now);
    BootConsistent(s, tab, h.now, e);
    ConsistentNotBothValid(Next(s, tab, e), tab, h.now);
    CleanOrDown(s, tab, h.now);
    var k := if e.power < |plan.ops| then e.power else |plan.ops|;
    BootLeavesOld(s.flash, tab, h.now, h.before, k);
  }

  /** A boot of a device whose first start has not been completed. */
  lemma FirstBootTraced(s: Machine, tab: Table, h: History, e: Event)
    requires Legal(tab) && Starting(s, tab, h) && e.Boot?
    ensures !BothValid(s.flash) && !BothValidCut(s.flash, tab, e.power)
    ensures Traced(Next(s, tab, e), tab, Step(h, s, tab, e, false)) && !BothValid(Next(s, tab, e).flash)
  {
    var plan := InitPlan(s.flash, tab);
    var g := Next(s, tab, e);
    NewCut(s.flash, tab, if e.power < |plan.ops| then e.power else |plan.ops|);
    if g.running {
      RunningTraced(g, tab, h);
    }
  }

  /** A boot that finds two valid pages. */
  lemma FormatTraced(s: Machine, tab: Table, h: History, e: Event)
    requires Legal(tab) && Traced(s, tab, h) && BothValid(s.flash) && e.Boot?
    ensures Traced(Next(s, tab, e), tab, Step(h, s, tab, e, false))
  {
    var k := if e.power < 3 then e.power else 3;
    FormatCut(s.flash, tab, h.now, k);
    var g := Next(s, tab, e);
    var m := Step(h, s, tab, e, false).now;
    if k == 1 || k == 3 {
      var p: PageId := if k == 1 then 1 else 0;
      assert Holds(g.flash, p, tab, m);
      CleanNotBothValid(g.flash, tab, m);
      ErasedSpends(g.flash, 1 - p, Spending(g.cuts, tab));
      NoOldPage(g.flash, 1 - p, tab, h.before);
    }
  }

  lemma TracedYields(s: Machine, tab: Table, h: History)
    requires Legal(tab) && Traced(s, tab, h)
    ensures Yields(s, tab, h.now)
  {
    if BothValid(s.flash) {
      FormatCut(s.flash, tab, h.now, 1);
      FormatEmpties(s.flash, tab);
    } else if Starting(s, tab, h) {
      NewRecovers(s.flash, tab);
    } else {
      ConsistentDelivers(s, tab, h.now);
    }
  }

  lemma StepTraced(s: Machine, tab: Table, h: History, e: Event) returns (took: bool)
    requires Legal(tab) && Traced(s, tab, h) && (e.Write? ==> s.running && e.a != BLANK)
    ensures Traced(Next(s, tab, e), tab, Step(h, s, tab, e, took))
    ensures e.Write? && Succeeds(s, tab, e) ==> took
    ensures !BothValid(s.flash) && Allowed(s, tab, e) ==> !BothValid(Next(s, tab, e).flash)
    ensures s.running || Empties(s, e) ==> !TakesBack(s, tab, e)
  {
    took := false;
    if e.Write? {
      took := WriteTraced(s, tab, h, e);
    } else if BothValid(s.flash) {
      FormatTraced(s, tab, h, e);
    } else if Starting(s, tab, h) {
      FirstBootTraced(s, tab, h, e);
    } else if BothValidCut(s.flash, tab, e.power) {
      UnsafeBootTraced(s, tab, h, e);
      CleanOrDown(s, tab, h.now);
    } else {
      SafeBootTraced(s, tab, h, e);
    }
  }

  /** An emptied store runs. */
  lemma EmptiedRuns(s: Machine, tab: Table, h: History, e: Event)
    requires Legal(tab) && Traced(s, tab, h) && Empties(s, e)
    ensures Next(s, tab, e).running
  {
    FormatCut(s.flash, tab, h.now, 3);
  }

  /** A write that is taken back later did not take effect; `back` says so of the last one. */
  lemma {:induction false} RunTraced(s: Machine, tab: Table, h: History, events: seq<Event>)
    returns (took: seq<bool>, back: bool)
    requires Legal(tab) && Traced(s, tab, h) && PossibleRun(s, tab, events)
    ensures |took| == |events| && KeepsPromises(s, tab, events, took) && (s.running ==> !back)
    ensures Yields(Run(s, tab, events), tab, Outcome(if back then h.before else h.now, s, tab, events, took))
    decreases |events|
  {
    if events == [] {
      took, back := [], false;
      TracedYields(s, tab, h);
    } else {
      var e := events[0];
      var first := StepTraced(s, tab, h, e);
      var rest, later := RunTraced(Next(s, tab, e), tab, Step(h, s, tab, e, first), events[1..]);
      if Empties(s, e) {
        EmptiedRuns(s, tab, h, e);
      }
      took := [first && !later] + rest;
      back := !e.Write? && (later || TakesBack(s, tab, e)) && !Empties(s, e);
      assert took[1..] == rest;
    }
  }

  /** Without an unsafe boot, no store is emptied. */
  lemma {:induction false} SafeOutcome(m: Contents, s: Machine, tab: Table, h: History, events: seq<Event>,
                                       took: seq<bool>)
    requires Legal(tab) && Traced(s, tab, h) && !BothValid(s.flash) && AllowedRun(s, tab, events)
    requires |took| == |events|
    ensures Outcome(m, s, tab, events, took) == Replay(m, events, took)
    decreases |events|
  {
    if events != [] {
      var e := events[0];
      var first := StepTraced(s, tab, h, e);
      var m' := if e.Write? && took[0] then m[e.a := e.d] else m;
      SafeOutcome(m', Next(s, tab, e), tab, Step(h, s, tab, e, first), events[1..], took[1..]);
    }
  }

  /** Every run of writes and boots, from a clean store or from a new device, each cut by a power
      failure at any step whatever: there is a choice of writes that took effect, every successful one
      among them, such that the store yields exactly their result, but for those before a boot that
      found two valid pages and emptied it. Without a boot that is cut at the unsafe step nothing is
      emptied. */
  lemma EveryRun(s: Machine, tab: Table, m: Contents, events: seq<Event>) returns (took: seq<bool>)
    requires Legal(tab) && PossibleRun(s, tab, events)
    requires if s.running then Clean(s.flash, tab, m)
             else s.flash.page0[0] == 0xFFFF && s.flash.page1[0] == 0xFFFF && m == map[]
    ensures |took| == |events| && KeepsPromises(s, tab, events, took)
    ensures Yields(Run(s, tab, events), tab, Outcome(m, s, tab, events, took))
    ensures AllowedRun(s, tab, events) ==> Outcome(m, s, tab, events, took) == Replay(m, events, took)
  {
    var h, back := History(m, m), false;
    if s.running {
      RunningTraced(s, tab, h);
    }
    took, back := RunTraced(s, tab, h, events);
    if AllowedRun(s, tab, events) {
      SafeOutcome(m, s, tab, h, events, took);
    }
  }
}
