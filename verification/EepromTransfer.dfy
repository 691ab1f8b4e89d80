/** EE_PageTransfer under power cuts: what each of its flash steps leaves behind. */
module EepromTransfer {
  import opened MachineWords
  import opened FlashMemory
  import opened EepromPlan
  import opened EepromPages
  import opened EepromRecovery

  // ----- EE_PageTransfer, step by step -----

  ghost predicate NoVariables(page: Page) {
    Used(page) == 1 && page[3] == BLANK && forall v: Halfword :: v != BLANK ==> Lookup(page, v) == None
  }

  /** The new page has been marked; nothing is on it yet. */
  lemma TransferStarts(f: Flash, p: PageId, tab: Table, m: Contents)
    requires Legal(tab) && Holds(f, p, tab, m)
    ensures var g := After(f, Just(Program(1 - p, 0, RECEIVE_DATA)));
            && Transferring(g, p, tab, m)
            && NoVariables(g.At(1 - p))
  {
    var q := 1 - p;
    AfterJust(f, Program(q, 0, RECEIVE_DATA));
    PerformProgram(f, q, 0, RECEIVE_DATA);
    var page: Page := ErasedPage()[0 := RECEIVE_DATA];
    assert forall i: Slot :: 1 <= i ==> Free(page, i);
    UsedIs(page, 1);
    forall v: Halfword | v != BLANK ensures Lookup(page, v) == None {
      LookupBlank(page, v);
    }
  }

  /** The variable being written goes first, into the first data slot. */
  lemma TransferAppends(f: Flash, p: PageId, tab: Table, m: Contents, a: Halfword, d: Halfword, k: nat)
    requires Legal(tab) && Transferring(f, p, tab, m) && a != BLANK
    requires NoVariables(f.At(1 - p))
    requires k <= 2
    ensures AppendPlan(f, a, d).status == Complete && |AppendPlan(f, a, d).ops| == 2
    ensures var g := Cut(f, AppendPlan(f, a, d), k);
            && Transferring(g, p, tab, if k < 2 then m else m[a := d])
            && Used(g.At(1 - p)) <= 2
            && (k == 2 ==> g.At(1 - p)[3] == a)
  {
    var q, page := 1 - p, f.At(1 - p);
    TransferPages(f, p, tab, m);
    CutAppendPlan(f, q, a, d, k);
    AppendingKeeps(page, a, d, k);
    var r := Appending(page, a, d, k);
    FirstFreeFrom(page, 0);
    assert k == 2 ==> r[3] == a;
    assert k < 2 ==> r[3] == BLANK;
    forall v: Halfword | v in tab
      ensures Settled(f.At(p), r, v, Value(if k < 2 then m else m[a := d], v))
    {
      assert Settled(f.At(p), page, v, Value(m, v));
    }
  }

  lemma HoldsPages(f: Flash, p: PageId, tab: Table, m: Contents)
    requires Holds(f, p, tab, m)
    ensures ReadPage(f) == Some(p) && WritePage(f) == Some(p)
    ensures Used(f.At(p)) >= 1
  {
    assert f.At(1 - p)[0] == BLANK;
  }

  /** The transfer has three parts: one step, two steps, and the rest. */
  lemma TransferShape(f: Flash, p: PageId, tab: Table, a: Halfword, d: Halfword)
    requires ReadPage(f) == Some(p)
    requires var f1 := After(f, Just(Program(1 - p, 0, RECEIVE_DATA)));
             AppendPlan(f1, a, d).status == Complete && |AppendPlan(f1, a, d).ops| == 2
    ensures var f1 := After(f, Just(Program(1 - p, 0, RECEIVE_DATA)));
            var rest := CopyAndCommit(After(f1, AppendPlan(f1, a, d)), p, tab, a);
            && TransferPlan(f, tab, a, d) ==
               Then(Just(Program(1 - p, 0, RECEIVE_DATA)), Then(AppendPlan(f1, a, d), rest))
            && TransferPlan(f, tab, a, d).status == rest.status
            && |TransferPlan(f, tab, a, d).ops| == 3 + |rest.ops|
  {
  }

  lemma TransferCut(f: Flash, p: PageId, tab: Table, a: Halfword, d: Halfword, k: nat)
    requires ReadPage(f) == Some(p)
    requires var f1 := After(f, Just(Program(1 - p, 0, RECEIVE_DATA)));
             AppendPlan(f1, a, d).status == Complete && |AppendPlan(f1, a, d).ops| == 2
    requires 1 <= k <= |TransferPlan(f, tab, a, d).ops|
    ensures var f1 := After(f, Just(Program(1 - p, 0, RECEIVE_DATA)));
            var f2 := After(f1, AppendPlan(f1, a, d));
            && |TransferPlan(f, tab, a, d).ops| == 3 + |CopyAndCommit(f2, p, tab, a).ops|
            && Cut(f, TransferPlan(f, tab, a, d), k) ==
               if k <= 3 then Cut(f1, AppendPlan(f1, a, d), k - 1)
               else Cut(f2, CopyAndCommit(f2, p, tab, a), k - 3)
  {
    var mark := Just(Program(1 - p, 0, RECEIVE_DATA));
    var f1 := After(f, mark);
    var append := AppendPlan(f1, a, d);
    TransferShape(f, p, tab, a, d);
    CutThenThen(f, mark, append, CopyAndCommit(After(f1, append), p, tab, a), k);
  }

  /** Which contents the store recovers to after k steps of a transfer: the new value counts
      from the third step on, when its address is programmed. The last two steps erase the
      old page and mark the new one valid. */
  ghost predicate TransferPhase(g: Flash, p: PageId, tab: Table, m: Contents, m': Contents, n: nat, k: nat) {
    if k == 0 then Holds(g, p, tab, m)
    else if k <= n then
      Transferring(g, p, tab, if k < 3 then m else m') && Used(g.At(1 - p)) <= 2 + |tab|
    else if k == n + 1 then HandedOver(g, 1 - p, tab, m')
    else Holds(g, 1 - p, tab, m')
  }

  lemma TransferKeeps(f: Flash, p: PageId, tab: Table, m: Contents, a: Halfword, d: Halfword, k: nat)
    requires Legal(tab) && Holds(f, p, tab, m) && a != BLANK
    requires k <= |TransferPlan(f, tab, a, d).ops|
    ensures var plan := TransferPlan(f, tab, a, d);
            var n := if plan.status == Complete then |plan.ops| - 2 else |plan.ops|;
            n >= 3 && TransferPhase(Cut(f, plan, k), p, tab, m, m[a := d], n, k)
  {
    HoldsPages(f, p, tab, m);
    TransferStarts(f, p, tab, m);
    TransferLater(f, p, tab, m, a, d, if k == 0 then 1 else k);
    if k == 0 {
      CutWhole(f, TransferPlan(f, tab, a, d));
    }
  }

  /** From the first step on. */
  lemma TransferLater(f: Flash, p: PageId, tab: Table, m: Contents, a: Halfword, d: Halfword, k: nat)
    requires Legal(tab) && ReadPage(f) == Some(p) && a != BLANK
    requires var f1 := After(f, Just(Program(1 - p, 0, RECEIVE_DATA)));
             Transferring(f1, p, tab, m) && NoVariables(f1.At(1 - p))
    ensures var plan := TransferPlan(f, tab, a, d);
            var n := if plan.status == Complete then |plan.ops| - 2 else |plan.ops|;
            n >= 3 && (1 <= k <= |plan.ops| ==> TransferPhase(Cut(f, plan, k), p, tab, m, m[a := d], n, k))
  {
    var plan := TransferPlan(f, tab, a, d);
    var n := if plan.status == Complete then |plan.ops| - 2 else |plan.ops|;
    var f1 := After(f, Just(Program(1 - p, 0, RECEIVE_DATA)));
    TransferWritten(f1, p, tab, m, a, d);
    TransferShape(f, p, tab, a, d);
    TransferRest(f1, p, tab, m, a, d, n, 3);
    if 1 <= k <= |plan.ops| {
      TransferCut(f, p, tab, a, d, k);
      if k <= 3 {
        TransferWrites(f1, p, tab, m, a, d, n, k - 1);
      } else {
        TransferRest(f1, p, tab, m, a, d, n, k);
      }
    }
  }

  /** The variable being written is on the new page. */
  lemma TransferWritten(f: Flash, p: PageId, tab: Table, m: Contents, a: Halfword, d: Halfword)
    requires Legal(tab) && Transferring(f, p, tab, m) && a != BLANK
    requires NoVariables(f.At(1 - p))
    ensures AppendPlan(f, a, d).status == Complete && |AppendPlan(f, a, d).ops| == 2
    ensures var g := After(f, AppendPlan(f, a, d));
            Transferring(g, p, tab, m[a := d]) && Used(g.At(1 - p)) <= 2 && g.At(1 - p)[3] == a
  {
    TransferAppends(f, p, tab, m, a, d, 2);
    CutWhole(f, AppendPlan(f, a, d));
  }

  /** The two steps that write it. */
  lemma TransferWrites(f: Flash, p: PageId, tab: Table, m: Contents, a: Halfword, d: Halfword, n: nat, k: nat)
    requires Legal(tab) && Transferring(f, p, tab, m) && a != BLANK
    requires NoVariables(f.At(1 - p)) && k <= 2 && n >= 3
    ensures AppendPlan(f, a, d).status == Complete && |AppendPlan(f, a, d).ops| == 2
    ensures TransferPhase(Cut(f, AppendPlan(f, a, d), k), p, tab, m, m[a := d], n, k + 1)
  {
    TransferAppends(f, p, tab, m, a, d, k);
  }

  /** The steps after them. */
  lemma TransferRest(f: Flash, p: PageId, tab: Table, m: Contents, a: Halfword, d: Halfword, n: int, k: nat)
    requires Legal(tab) && Transferring(f, p, tab, m) && a != BLANK
    requires NoVariables(f.At(1 - p))
    requires var rest := CopyAndCommit(After(f, AppendPlan(f, a, d)), p, tab, a);
             && n == (if rest.status == Complete then |rest.ops| + 1 else |rest.ops| + 3)
             && 3 <= k <= 3 + |rest.ops|
    ensures var f2 := After(f, AppendPlan(f, a, d));
            n >= 3 && TransferPhase(Cut(f2, CopyAndCommit(f2, p, tab, a), k - 3), p, tab, m, m[a := d], n, k)
  {
    TransferWritten(f, p, tab, m, a, d);
    TransferCopies(After(f, AppendPlan(f, a, d)), p, tab, m[a := d], a, k - 3);
  }

  lemma TransferCopies(f: Flash, p: PageId, tab: Table, m: Contents, a: Halfword, k: nat)
    requires Legal(tab) && Transferring(f, p, tab, m)
    requires a != BLANK && f.At(1 - p)[3] == a && Used(f.At(1 - p)) <= 2
    requires k <= |CopyAndCommit(f, p, tab, a).ops|
    ensures var plan := CopyAndCommit(f, p, tab, a);
            var n := if plan.status == Complete then |plan.ops| - 2 else |plan.ops|;
            var g := Cut(f, plan, k);
            && n >= 0
            && if k <= n then Transferring(g, p, tab, m) && Used(g.At(1 - p)) <= 2 + |tab|
               else if k == n + 1 then HandedOver(g, 1 - p, tab, m)
               else Holds(g, 1 - p, tab, m)
  {
    var skip := Written(a);
    var copy := CopyPlan(f, tab, 0, skip);
    var f1 := After(f, copy);
    var erase, mark := ErasePlan(f1, p), Just(Program(1 - p, 0, VALID_PAGE));
    CutThen(f, copy, Then(erase, mark), k);
    if k <= |copy.ops| {
      CopyKeeps(f, p, tab, m, 0, skip, k);
    }
    if copy.status == Complete {
      TransferEnds(f, p, tab, m, a);
      if k > |copy.ops| {
        CutThen(f1, erase, mark, k - |copy.ops|);
        CutWhole(f1, erase);
        CutWhole(After(f1, erase), mark);
      }
    }
  }

  /** The old page is erased before the new one is marked valid. */
  lemma TransferEnds(f: Flash, p: PageId, tab: Table, m: Contents, a: Halfword)
    requires Legal(tab) && Transferring(f, p, tab, m)
    requires a != BLANK && f.At(1 - p)[3] == a
    requires CopyPlan(f, tab, 0, Written(a)).status == Complete
    ensures var f1 := After(f, CopyPlan(f, tab, 0, Written(a)));
            var f2 := After(f1, ErasePlan(f1, p));
            && ErasePlan(f1, p) == Just(Erase(p))
            && HandedOver(f2, 1 - p, tab, m)
            && Holds(After(f2, Just(Program(1 - p, 0, VALID_PAGE))), 1 - p, tab, m)
  {
    var copy := CopyPlan(f, tab, 0, Written(a));
    CopyKeeps(f, p, tab, m, 0, Written(a), |copy.ops|);
    CutWhole(f, copy);
    CopyFinishes(f, p, tab, m, 0, Written(a));
    var f1 := After(f, copy);
    CopiedAll(f1.At(1 - p), tab, m);
    AfterJust(f1, Erase(p));
    assert f1.At(p)[0] != BLANK;
    HandedOverCommits(After(f1, Just(Erase(p))), 1 - p, tab, m);
  }

  lemma HandedOverCommits(f: Flash, q: PageId, tab: Table, m: Contents)
    requires HandedOver(f, q, tab, m)
    ensures Holds(After(f, Just(Program(q, 0, VALID_PAGE))), q, tab, m)
  {
    AfterJust(f, Program(q, 0, VALID_PAGE));
    StatusOnly(f.At(q), VALID_PAGE);
    assert Perform(f, Program(q, 0, VALID_PAGE)) == SetPage(f, q, f.At(q)[0 := VALID_PAGE]);
  }
}
