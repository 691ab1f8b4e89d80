/** The two ways in which EE_Init can fail a store that a cut write has left, each at a real input. */
module EepromStuck {
  import opened MachineWords
  import opened FlashMemory
  import opened EepromPlan
  import opened EepromPages
  import opened EepromRecovery
  import opened EepromTransfer
  import opened EepromSafety
  import opened EepromRuns

  // ----- The unsafe step -----

  /** EE_PageTransfer cut after its first step leaves a store that EE_Init restores, but not if that
      EE_Init is cut between marking the new page valid and erasing the old one. */
  lemma UnsafeStepCosts(f: Flash, p: PageId, tab: Table, m: Contents, a: Halfword, d: Halfword, v: Halfword)
    requires Legal(tab) && Holds(f, p, tab, m) && a != BLANK
    requires 2 * |tab| + 1 <= SLOTS - 1 && v in tab && v in m
    ensures |TransferPlan(f, tab, a, d).ops| >= 1
    ensures var g := Cut(f, TransferPlan(f, tab, a, d), 1);
            var k := |InitPlan(g, tab).ops| - 1;
            && RecoversTo(g, tab, m)
            && k >= 0 && BothValidCut(g, tab, k)
            && !RecoversTo(Cut(g, InitPlan(g, tab), k), tab, m)
  {
    TransferKeeps(f, p, tab, m, a, d, 0);
    TransferKeeps(f, p, tab, m, a, d, 1);
    var g := Cut(f, TransferPlan(f, tab, a, d), 1);
    TransferSpends(g, p, tab, m, 2 + |tab|);
    InitRecovers(g, tab, m, 2 + |tab|);
    InitOfTransfer(g, p, tab, m);
    ResumeKeeps(g, p, tab, m, 0);
    RestartableExactly(g, tab, m, |InitPlan(g, tab).ops| - 1);
  }

  lemma TransferSpends(f: Flash, p: PageId, tab: Table, m: Contents, n: nat)
    requires Transferring(f, p, tab, m) && Used(f.At(1 - p)) <= n
    ensures Spent(f, n)
  {
    forall q: PageId | f.At(q)[0] == RECEIVE_DATA && f.At(1 - q)[0] == VALID_PAGE ensures Used(f.At(q)) <= n {
      assert f.At(p)[0] != RECEIVE_DATA;
    }
  }

  // ----- Restarts that fill the page -----

  /** The next copy that a loop makes takes two steps and one slot. */
  lemma {:induction false} NextCopy(f: Flash, p: PageId, tab: Table, m: Contents, i: nat, skip: Skip, j: nat)
    requires Legal(tab) && i <= j < |tab|
    requires Transferring(f, p, tab, m) && SkipsFirst(f, 1 - p, skip) && Used(f.At(1 - p)) < SLOTS
    requires f.At(1 - p)[3] != tab[j] && Value(m, tab[j]) != None
    ensures |CopyPlan(f, tab, i, skip).ops| >= 2
    ensures var g := Cut(f, CopyPlan(f, tab, i, skip), 2);
            && Transferring(g, p, tab, m)
            && Used(g.At(1 - p)) == Used(f.At(1 - p)) + 1
            && (f.At(1 - p)[3] != BLANK ==> g.At(1 - p)[3] == f.At(1 - p)[3])
    decreases j - i
  {
    CopyUnrolls(f, p, tab, m, i, skip);
    if f.At(1 - p)[3] == tab[i] || Value(m, tab[i]) == None {
      NextCopy(f, p, tab, m, i + 1, skip, j);
    } else {
      var d := Value(m, tab[i]).value;
      var append := AppendPlan(f, tab[i], d);
      CopyAppends(f, p, tab, m, tab[i], d, skip);
      CutThen(f, append, CopyPlan(After(f, append), tab, i + 1, skip), 2);
      CutWhole(f, append);
      AppendingKeeps(f.At(1 - p), tab[i], d, 2);
    }
  }

  lemma {:induction false} NoNextCopy(f: Flash, p: PageId, tab: Table, m: Contents, i: nat, skip: Skip, j: nat)
    requires Legal(tab) && i <= j < |tab|
    requires Transferring(f, p, tab, m) && SkipsFirst(f, 1 - p, skip) && Used(f.At(1 - p)) == SLOTS
    requires f.At(1 - p)[3] != tab[j] && Value(m, tab[j]) != None
    ensures CopyPlan(f, tab, i, skip) == Plan([], PageFull)
    decreases j - i
  {
    CopyUnrolls(f, p, tab, m, i, skip);
    if f.At(1 - p)[3] == tab[i] || Value(m, tab[i]) == None {
      NoNextCopy(f, p, tab, m, i + 1, skip, j);
    } else {
      CopyStops(f, p, tab, m, i, skip);
    }
  }

  /** A start cut after two steps spends a slot and is not unsafe. */
  lemma OneRestart(f: Flash, p: PageId, tab: Table, m: Contents, j: nat)
    requires Legal(tab) && Transferring(f, p, tab, m) && Used(f.At(1 - p)) < SLOTS
    requires j < |tab| && f.At(1 - p)[3] != tab[j] && Value(m, tab[j]) != None
    ensures !BothValidCut(f, tab, 2)
    ensures var g := Powered(f, InitPlan(f, tab), 2);
            && Transferring(g, p, tab, m)
            && Used(g.At(1 - p)) == Used(f.At(1 - p)) + 1
            && (f.At(1 - p)[3] != BLANK ==> g.At(1 - p)[3] == f.At(1 - p)[3])
  {
    var skip := FirstSlotOf(1 - p);
    var copy := CopyPlan(f, tab, 0, skip);
    InitOfTransfer(f, p, tab, m);
    NextCopy(f, p, tab, m, 0, skip, j);
    ResumeKeeps(f, p, tab, m, 2);
    var f1 := After(f, copy);
    var mark := Just(Program(1 - p, 0, VALID_PAGE));
    CutThen(f, copy, Then(mark, ErasePlan(After(f1, mark), p)), 2);
  }

  /** The contents are still there, but EE_Init reports a full page and does nothing. */
  ghost predicate Stuck(f: Flash, tab: Table, m: Contents) {
    Preserves(f, tab, m) && InitPlan(f, tab) == Plan([], PageFull)
  }

  lemma StuckWhenFull(f: Flash, p: PageId, tab: Table, m: Contents, j: nat)
    requires Legal(tab) && Transferring(f, p, tab, m) && Used(f.At(1 - p)) == SLOTS
    requires j < |tab| && f.At(1 - p)[3] != tab[j] && Value(m, tab[j]) != None
    ensures Stuck(f, tab, m)
  {
    InitOfTransfer(f, p, tab, m);
    NoNextCopy(f, p, tab, m, 0, FirstSlotOf(1 - p), j);
  }

  /** Nothing that is ever started on such a store changes it. */
  lemma StuckForever(f: Flash, tab: Table, m: Contents, powers: seq<nat>)
    requires Stuck(f, tab, m)
    ensures Restarts(f, tab, powers) == f && !RecoversTo(f, tab, m)
    decreases |powers|
  {
    if powers != [] {
      CutWhole(f, InitPlan(f, tab));
      StuckForever(f, tab, m, powers[1..]);
    }
  }

  /** That start, cut after two steps, is not the unsafe one and leaves that flash. */
  ghost predicate SafeStart(f: Flash, tab: Table, g: Flash) {
    !BothValidCut(f, tab, 2) && g == Powered(f, InitPlan(f, tab), 2)
  }

  /** Those starts, none of them unsafe, end in such a store. */
  ghost predicate Strands(f: Flash, tab: Table, m: Contents, powers: seq<nat>) {
    NeverBothValid(f, tab, powers) && Stuck(Restarts(f, tab, powers), tab, m)
  }

  lemma StrandsNow(f: Flash, tab: Table, m: Contents) returns (powers: seq<nat>)
    requires Stuck(f, tab, m)
    ensures Strands(f, tab, m, powers)
  {
    powers := [];
  }

  lemma StartsBefore(f: Flash, tab: Table, m: Contents, g: Flash, rest: seq<nat>) returns (powers: seq<nat>)
    requires SafeStart(f, tab, g) && Strands(g, tab, m, rest)
    ensures Strands(f, tab, m, powers)
  {
    powers := [2] + rest;
    assert powers[0] == 2 && powers[1..] == rest;
  }

  /** A transfer with n free slots and two stored variables: the free slots can all be spent. */
  ghost predicate Filling(f: Flash, p: PageId, tab: Table, m: Contents, x: nat, y: nat, n: nat) {
    && Legal(tab) && Transferring(f, p, tab, m) && Used(f.At(1 - p)) + n == SLOTS
    && x < |tab| && y < |tab| && tab[x] != tab[y]
    && Value(m, tab[x]) != None && Value(m, tab[y]) != None
  }

  lemma FillingEnds(f: Flash, p: PageId, tab: Table, m: Contents, x: nat, y: nat)
    requires Filling(f, p, tab, m, x, y, 0)
    ensures Stuck(f, tab, m)
  {
    StuckWhenFull(f, p, tab, m, if f.At(1 - p)[3] == tab[x] then y else x);
  }

  lemma FillingStep(f: Flash, p: PageId, tab: Table, m: Contents, x: nat, y: nat, n: nat) returns (g: Flash)
    requires n >= 1 && Filling(f, p, tab, m, x, y, n)
    ensures SafeStart(f, tab, g) && Filling(g, p, tab, m, x, y, n - 1)
  {
    OneRestart(f, p, tab, m, if f.At(1 - p)[3] == tab[x] then y else x);
    g := Powered(f, InitPlan(f, tab), 2);
  }

  lemma {:induction false} RestartsFill(f: Flash, p: PageId, tab: Table, m: Contents, x: nat, y: nat, n: nat)
    returns (powers: seq<nat>)
    requires Filling(f, p, tab, m, x, y, n)
    ensures Strands(f, tab, m, powers)
    decreases n
  {
    if n == 0 {
      FillingEnds(f, p, tab, m, x, y);
      powers := StrandsNow(f, tab, m);
    } else {
      var g := FillingStep(f, p, tab, m, x, y, n);
      var rest := RestartsFill(g, p, tab, m, x, y, n - 1);
      powers := StartsBefore(f, tab, m, g, rest);
    }
  }

  /** With two registered variables stored in a clean store, a page transfer cut after its first step
      and enough starts that are each cut after two steps fill the receiving page for good. */
  lemma StuckStore(f: Flash, p: PageId, tab: Table, m: Contents, a: Halfword, d: Halfword, x: nat, y: nat)
    returns (powers: seq<nat>)
    requires Legal(tab) && Holds(f, p, tab, m) && a != BLANK
    requires x < |tab| && y < |tab| && tab[x] != tab[y]
    requires Value(m, tab[x]) != None && Value(m, tab[y]) != None
    ensures |TransferPlan(f, tab, a, d).ops| >= 1
    ensures Strands(Cut(f, TransferPlan(f, tab, a, d), 1), tab, m, powers)
  {
    TransferKeeps(f, p, tab, m, a, d, 0);
    TransferKeeps(f, p, tab, m, a, d, 1);
    var g := Cut(f, TransferPlan(f, tab, a, d), 1);
    FirstFreeFrom(g.At(1 - p), 0);
    var n := SLOTS - Used(g.At(1 - p));
    powers := RestartsFill(g, p, tab, m, x, y, n);
  }

  // ----- Writing without an EE_Init that completed -----

  /** The step that marks the other page has nothing to do. */
  lemma MarkedAlready(f: Flash, q: PageId)
    requires f.At(q)[0] == RECEIVE_DATA
    ensures Perform(f, Program(q, 0, RECEIVE_DATA)) == f
  {
    AndSelf(RECEIVE_DATA);
    assert SetCell(f.At(q), 0, RECEIVE_DATA) == f.At(q);
  }

  lemma FullTransfer(f: Flash, p: PageId, tab: Table, m: Contents, a: Halfword, d: Halfword)
    requires Transferring(f, p, tab, m) && Used(f.At(1 - p)) == SLOTS
    ensures TransferPlan(f, tab, a, d) == Plan([Program(1 - p, 0, RECEIVE_DATA)], PageFull)
  {
    TransferPages(f, p, tab, m);
    AfterJust(f, Program(1 - p, 0, RECEIVE_DATA));
    MarkedAlready(f, 1 - p);
    AppendFull(f, 1 - p, a, d);
  }

  /** With the receiving page full, no write that changes a value succeeds, and none changes the
      flash, wherever it is cut. */
  lemma FullIsReadOnly(f: Flash, p: PageId, tab: Table, m: Contents, a: Halfword, d: Halfword,
                       lowVoltage: bool, power: nat)
    requires Transferring(f, p, tab, m) && Used(f.At(1 - p)) == SLOTS
    ensures WritePlan(f, tab, a, d, lowVoltage).status ==
            if Read(f, a) == Found(d) then Complete else if lowVoltage then FlashError else PageFull
    ensures Powered(f, WritePlan(f, tab, a, d, lowVoltage), power) == f
  {
    TransferPages(f, p, tab, m);
    AppendFull(f, 1 - p, a, d);
    FullTransfer(f, p, tab, m, a, d);
    CutWhole(f, Plan([], Complete));
    CutWhole(f, Plan([], FlashError));
    CutWhole(f, TransferPlan(f, tab, a, d));
    AfterJust(f, Program(1 - p, 0, RECEIVE_DATA));
    MarkedAlready(f, 1 - p);
  }

  /** With room on the receiving page such a write reports success, and no address reads differently
      afterwards, not even the one that was written. */
  lemma WriteIsHidden(f: Flash, p: PageId, tab: Table, m: Contents, a: Halfword, d: Halfword, v: Halfword)
    requires Transferring(f, p, tab, m) && Used(f.At(1 - p)) < SLOTS && a != BLANK
    ensures WritePlan(f, tab, a, d, false).status == Complete
    ensures Read(After(f, WritePlan(f, tab, a, d, false)), v) == Read(f, v)
  {
    TransferPages(f, p, tab, m);
    CutAppendPlan(f, 1 - p, a, d, 2);
    CutWhole(f, AppendPlan(f, a, d));
    AppendingKeeps(f.At(1 - p), a, d, 2);
    CutWhole(f, Plan([], Complete));
  }

  /** A full receiving page is the only way to get stuck. */
  lemma {:induction false} NothingCopied(f: Flash, p: PageId, tab: Table, m: Contents, i: nat, skip: Skip)
    requires Legal(tab) && i <= |tab|
    requires Transferring(f, p, tab, m) && SkipsFirst(f, 1 - p, skip)
    requires CopyPlan(f, tab, i, skip) == Plan([], PageFull)
    ensures Used(f.At(1 - p)) == SLOTS
    decreases |tab| - i
  {
    CopyUnrolls(f, p, tab, m, i, skip);
    if f.At(1 - p)[3] == tab[i] || Value(m, tab[i]) == None {
      NothingCopied(f, p, tab, m, i + 1, skip);
    } else {
      CopyAppends(f, p, tab, m, tab[i], Value(m, tab[i]).value, skip);
    }
  }

  lemma StuckIsFull(f: Flash, tab: Table, m: Contents) returns (p: PageId)
    requires Legal(tab) && Stuck(f, tab, m)
    ensures Transferring(f, p, tab, m) && Used(f.At(1 - p)) == SLOTS
  {
    p :| Holds(f, p, tab, m) || Transferring(f, p, tab, m) || HandedOver(f, p, tab, m);
    if Holds(f, p, tab, m) {
      InitOfClean(f, p, tab, m);
    }
    if HandedOver(f, p, tab, m) {
      InitOfHandedOver(f, p, tab, m);
    }
    InitOfTransfer(f, p, tab, m);
    ResumeKeeps(f, p, tab, m, 0);
    NothingCopied(f, p, tab, m, 0, FirstSlotOf(1 - p));
  }

  /** Nothing that is ever started or written on such a store changes it, cut or not, and no start
      restores it. */
  lemma {:induction false} StuckForGood(s: Machine, tab: Table, m: Contents, events: seq<Event>)
    requires Legal(tab) && Stuck(s.flash, tab, m)
    ensures Run(s, tab, events).flash == s.flash && !RecoversTo(s.flash, tab, m)
    decreases |events|
  {
    if events != [] {
      var e := events[0];
      if e.Write? {
        var p := StuckIsFull(s.flash, tab, m);
        FullIsReadOnly(s.flash, p, tab, m, e.a, e.d, e.lowVoltage, e.power);
      } else {
        CutWhole(s.flash, InitPlan(s.flash, tab));
      }
      StuckForGood(Next(s, tab, e), tab, m, events[1..]);
    }
  }
}
