/** What one append does to a page, and how a plan that is cut short splits. */
module EepromPages {
  import opened MachineWords
  import opened FlashMemory
  import opened EepromPlan

  /** Slots in use, the status slot included. */
  function Used(page: Page): nat {
    FirstFree(page, 0)
  }

  lemma {:induction false} FirstFreeFrom(page: Page, i: nat)
    requires i <= SLOTS
    ensures var r := FirstFree(page, i);
            && (r < SLOTS ==> Free(page, r))
            && forall j: Slot :: i <= j < r ==> !Free(page, j)
    decreases SLOTS - i
  {
    if i < SLOTS && !Free(page, i) {
      FirstFreeFrom(page, i + 1);
    }
  }

  lemma UsedIs(page: Page, n: nat)
    requires n <= SLOTS
    requires n < SLOTS ==> Free(page, n)
    requires forall j: Slot :: j < n ==> !Free(page, j)
    ensures Used(page) == n
  {
    FirstFreeFrom(page, 0);
  }

  /** The slots in use form a prefix, so that the newest value is the last one. */
  ghost predicate Packed(page: Page) {
    forall i: Slot :: Used(page) <= i ==> Free(page, i)
  }

  // ----- Lookups -----

  lemma {:induction false} LookupSame(p: Page, q: Page, a: Halfword, n: nat)
    requires n <= SLOTS
    requires forall i: Slot :: 1 <= i < n ==> (Address(p, i) == a <==> Address(q, i) == a)
    requires forall i: Slot :: 1 <= i < n && Address(p, i) == a ==> Data(p, i) == Data(q, i)
    ensures LookupBelow(p, a, n) == LookupBelow(q, a, n)
  {
    if n > 1 {
      LookupSame(p, q, a, n - 1);
    }
  }

  lemma {:induction false} LookupSkips(p: Page, a: Halfword, lo: nat, hi: nat)
    requires 1 <= lo <= hi <= SLOTS
    requires forall i: Slot :: lo <= i < hi ==> Address(p, i) != a
    ensures LookupBelow(p, a, hi) == LookupBelow(p, a, lo)
  {
    if lo < hi {
      LookupSkips(p, a, lo, hi - 1);
    }
  }

  lemma LookupBlank(p: Page, a: Halfword)
    requires a != BLANK
    requires forall i: Slot :: 1 <= i ==> Free(p, i)
    ensures Lookup(p, a) == None
  {
    assert forall i: Slot :: 1 <= i ==> Free(p, i) ==> Address(p, i) != a;
    LookupSkips(p, a, 1, SLOTS);
  }

  /** A page that differs from p only in its status has the same contents. */
  lemma StatusOnly(p: Page, status: Halfword)
    requires p[0] != BLANK && status != BLANK
    ensures Used(p[0 := status]) == Used(p)
    ensures Packed(p) ==> Packed(p[0 := status])
    ensures forall a: Halfword :: Lookup(p[0 := status], a) == Lookup(p, a)
  {
    var q: Page := p[0 := status];
    assert forall i: Slot :: Free(q, i) == Free(p, i);
    FirstFreeFrom(p, 0);
    FirstFreeFrom(q, 0);
    forall a: Halfword ensures Lookup(q, a) == Lookup(p, a) {
      LookupSame(q, p, a, SLOTS);
    }
  }

  // ----- Appending one slot: first the data, then the address -----

  lemma BlankCellTakes(p: Page, at: Offset, v: Halfword)
    requires p[at] == BLANK
    ensures SetCell(p, at, v) == p[at := v]
  {
  }

  lemma OtherSlot(p: Page, q: Page, n: Slot, i: Slot)
    requires forall h: Offset :: h != 2 * n && h != 2 * n + 1 ==> q[h] == p[h]
    requires i != n
    ensures Data(q, i) == Data(p, i) && Address(q, i) == Address(p, i)
  {
  }

  /** Between the two program steps the slot is spent but holds no variable. */
  lemma AppendData(p: Page, d: Halfword, p1: Page)
    requires Packed(p) && 1 <= Used(p) < SLOTS
    requires p1 == p[2 * Used(p) := d]
    ensures Packed(p1) && Used(p) <= Used(p1) <= Used(p) + 1
    ensures forall a: Halfword :: a != BLANK ==> Lookup(p1, a) == Lookup(p, a)
  {
    var n := Used(p);
    FirstFreeFrom(p, 0);
    if d == BLANK {
      assert p1 == p;
      return;
    }
    forall i: Slot | i != n ensures Free(p1, i) == Free(p, i) {
      OtherSlot(p, p1, n, i);
    }
    UsedIs(p1, n + 1);
    forall a: Halfword | a != BLANK ensures Lookup(p1, a) == Lookup(p, a) {
      LookupSame(p1, p, a, SLOTS);
    }
  }

  lemma AppendAddress(p: Page, a: Halfword, d: Halfword, p2: Page)
    requires Packed(p) && 1 <= Used(p) < SLOTS && a != BLANK
    requires p2 == p[2 * Used(p) := d][2 * Used(p) + 1 := a]
    ensures Packed(p2) && Used(p2) == Used(p) + 1
    ensures forall v: Halfword :: v != BLANK ==>
              Lookup(p2, v) == if v == a then Some(d) else Lookup(p, v)
  {
    var n := Used(p);
    FirstFreeFrom(p, 0);
    forall i: Slot | i != n ensures Free(p2, i) == Free(p, i) && Address(p2, i) == Address(p, i) {
      OtherSlot(p, p2, n, i);
    }
    UsedIs(p2, n + 1);
    assert Address(p2, n) == a && Data(p2, n) == d;
    forall v: Halfword | v != BLANK
      ensures Lookup(p2, v) == if v == a then Some(d) else Lookup(p, v)
    {
      if v == a {
        LookupSkips(p2, v, n + 1, SLOTS);
      } else {
        LookupSame(p2, p, v, SLOTS);
      }
    }
  }

  // ----- Plans cut short -----

  /** The flash after the first k steps of a plan. */
  function Cut(f: Flash, plan: Plan, k: nat): Flash
    requires k <= |plan.ops|
  {
    PerformAll(f, plan.ops[..k])
  }

  /** What a plan leaves when the supply lasts for that many flash steps. */
  function Powered(f: Flash, plan: Plan, power: nat): Flash {
    Cut(f, plan, if power < |plan.ops| then power else |plan.ops|)
  }

  lemma CutWhole(f: Flash, plan: Plan)
    ensures Cut(f, plan, |plan.ops|) == After(f, plan)
    ensures Cut(f, plan, 0) == f
  {
    assert plan.ops[..|plan.ops|] == plan.ops;
    assert plan.ops[..0] == [];
  }

  lemma CutThen(f: Flash, p: Plan, q: Plan, k: nat)
    requires k <= |Then(p, q).ops|
    ensures k <= |p.ops| ==> Cut(f, Then(p, q), k) == Cut(f, p, k)
    ensures |p.ops| <= k && p.status == Complete ==>
              Cut(f, Then(p, q), k) == Cut(After(f, p), q, k - |p.ops|)
  {
    if k <= |p.ops| {
      assert Then(p, q).ops[..k] == p.ops[..k];
    }
    if |p.ops| <= k && p.status == Complete {
      assert Then(p, q).ops[..k] == p.ops + q.ops[..k - |p.ops|];
      PerformAppend(f, p.ops, q.ops[..k - |p.ops|]);
    }
  }

  lemma CutThenThen(f: Flash, p: Plan, q: Plan, r: Plan, k: nat)
    requires p.status == Complete && q.status == Complete
    requires |p.ops| <= k <= |p.ops| + |q.ops| + |r.ops|
    ensures |Then(p, Then(q, r)).ops| == |p.ops| + |q.ops| + |r.ops|
    ensures k <= |p.ops| + |q.ops| ==> Cut(f, Then(p, Then(q, r)), k) == Cut(After(f, p), q, k - |p.ops|)
    ensures |p.ops| + |q.ops| <= k ==>
              Cut(f, Then(p, Then(q, r)), k) == Cut(After(After(f, p), q), r, k - |p.ops| - |q.ops|)
  {
    CutThen(f, p, Then(q, r), k);
    CutThen(After(f, p), q, r, k - |p.ops|);
  }

  lemma AfterThen(f: Flash, p: Plan, q: Plan)
    ensures p.status == Complete ==> After(f, Then(p, q)) == After(After(f, p), q)
    ensures p.status != Complete ==> After(f, Then(p, q)) == After(f, p)
  {
    PerformAppend(f, p.ops, q.ops);
  }

  lemma AfterJust(f: Flash, op: Op)
    ensures After(f, Just(op)) == Perform(f, op)
  {
    assert [op][0] == op && [op][1..] == [];
    assert PerformAll(Perform(f, op), []) == Perform(f, op);
  }

  /** A page after the first k steps of an append. */
  function Appending(page: Page, a: Halfword, d: Halfword, k: nat): Page
    requires Used(page) < SLOTS
  {
    var n := Used(page);
    if k == 0 then page else if k == 1 then page[2 * n := d] else page[2 * n := d][2 * n + 1 := a]
  }

  lemma AppendingKeeps(page: Page, a: Halfword, d: Halfword, k: nat)
    requires Packed(page) && 1 <= Used(page) < SLOTS && a != BLANK && k <= 2
    ensures var r := Appending(page, a, d, k);
            && Packed(r) && Used(page) <= Used(r) <= Used(page) + 1
            && r[0] == page[0]
            && (page[3] != BLANK || k < 2 ==> r[3] == page[3])
            && (page[3] == BLANK ==> r[3] == BLANK || r[3] == a)
            && (k == 2 ==> Used(r) == Used(page) + 1 && Lookup(r, a) == Some(d))
            && (k < 2 ==> Lookup(r, a) == Lookup(page, a))
            && forall v: Halfword :: v != BLANK && v != a ==> Lookup(r, v) == Lookup(page, v)
  {
    var n := Used(page);
    FirstFreeFrom(page, 0);
    assert Free(page, n);
    if k == 1 {
      AppendData(page, d, Appending(page, a, d, 1));
    } else if k == 2 {
      AppendAddress(page, a, d, Appending(page, a, d, 2));
    }
  }

  lemma PerformProgram(f: Flash, q: PageId, at: Offset, v: Halfword)
    requires f.At(q)[at] == BLANK
    ensures Perform(f, Program(q, at, v)) == SetPage(f, q, f.At(q)[at := v])
  {
    BlankCellTakes(f.At(q), at, v);
  }

  lemma PerformTwo(f: Flash, a: Op, b: Op)
    ensures PerformAll(f, [a, b][..0]) == f
    ensures PerformAll(f, [a, b][..1]) == Perform(f, a)
    ensures PerformAll(f, [a, b][..2]) == Perform(Perform(f, a), b)
  {
    assert [a, b][..0] == [] && [a, b][..1] == [a] && [a, b][..2] == [a] + [b];
    AfterJust(f, a);
    AfterJust(Perform(f, a), b);
    PerformAppend(f, [a], [b]);
  }

  lemma SetPageTwice(f: Flash, q: PageId, page: Page, page': Page)
    ensures SetPage(f, q, page).At(q) == page && SetPage(SetPage(f, q, page), q, page') == SetPage(f, q, page')
  {
  }

  lemma AddressBehind(f: Flash, q: PageId, half: Page, at: Offset, a: Halfword)
    requires half[at] == BLANK
    ensures Perform(SetPage(f, q, half), Program(q, at, a)) == SetPage(f, q, half[at := a])
  {
    PerformProgram(SetPage(f, q, half), q, at, a);
    SetPageTwice(f, q, half, half[at := a]);
  }

  lemma SetSame(f: Flash, q: PageId)
    ensures SetPage(f, q, f.At(q)) == f
  {
  }

  /** Two blank cells of a page. */
  lemma ProgramTwo(f: Flash, q: PageId, at: Offset, at': Offset, d: Halfword, a: Halfword)
    requires at != at' && f.At(q)[at] == BLANK && f.At(q)[at'] == BLANK
    ensures Perform(f, Program(q, at, d)) == SetPage(f, q, f.At(q)[at := d])
    ensures Perform(SetPage(f, q, f.At(q)[at := d]), Program(q, at', a)) == SetPage(f, q, f.At(q)[at := d][at' := a])
  {
    PerformProgram(f, q, at, d);
    AddressBehind(f, q, f.At(q)[at := d], at', a);
  }

  lemma CutTwo(f: Flash, op1: Op, op2: Op, f1: Flash, f2: Flash, k: nat)
    requires Perform(f, op1) == f1 && Perform(f1, op2) == f2 && k <= 2
    ensures PerformAll(f, [op1, op2][..k]) == if k == 0 then f else if k == 1 then f1 else f2
  {
    PerformTwo(f, op1, op2);
  }

  lemma CutAppend(f: Flash, q: PageId, a: Halfword, d: Halfword, k: nat)
    requires Used(f.At(q)) < SLOTS && k <= 2
    ensures var n := Used(f.At(q));
            PerformAll(f, [Program(q, 2 * n, d), Program(q, 2 * n + 1, a)][..k])
            == SetPage(f, q, Appending(f.At(q), a, d, k))
  {
    var n := Used(f.At(q));
    FirstFreeFrom(f.At(q), 0);
    assert Free(f.At(q), n);
    var half: Page := f.At(q)[2 * n := d];
    var full: Page := half[2 * n + 1 := a];
    ProgramTwo(f, q, 2 * n, 2 * n + 1, d, a);
    CutTwo(f, Program(q, 2 * n, d), Program(q, 2 * n + 1, a), SetPage(f, q, half), SetPage(f, q, full), k);
    SetSame(f, q);
  }

  lemma CutAppendPlan(f: Flash, q: PageId, a: Halfword, d: Halfword, k: nat)
    requires WritePage(f) == Some(q) && Used(f.At(q)) < SLOTS
    requires k <= 2
    ensures AppendPlan(f, a, d).status == Complete && |AppendPlan(f, a, d).ops| == 2
    ensures Cut(f, AppendPlan(f, a, d), k) == SetPage(f, q, Appending(f.At(q), a, d, k))
  {
    CutAppend(f, q, a, d, k);
  }

  lemma AppendFull(f: Flash, q: PageId, a: Halfword, d: Halfword)
    requires WritePage(f) == Some(q) && Used(f.At(q)) == SLOTS
    ensures AppendPlan(f, a, d) == Plan([], PageFull)
  {
  }
}
