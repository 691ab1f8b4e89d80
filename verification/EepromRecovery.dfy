/** Crash safety of the EEPROM emulation: what every flash step of EE_WriteVariable and
    EE_Init keeps, and what EE_Init makes of a store that lost power in between. */
module EepromRecovery {
  import opened MachineWords
  import opened FlashMemory
  import opened EepromPlan
  import opened EepromPages

  /** What a user of the store sees: the last value written to each address, if any. */
  type Contents = map<Halfword, Halfword>

  function Value(m: Contents, a: Halfword): Option<Halfword> {
    if a in m then Some(m[a]) else None
  }

  /** 0xFFFF is prohibited as a virtual address. */
  predicate Legal(tab: Table) {
    BLANK !in tab
  }

  ghost predicate Agrees(page: Page, tab: Table, m: Contents) {
    forall v: Halfword :: v in tab ==> Lookup(page, v) == Value(m, v)
  }

  /** The clean state: page p is valid and has the contents m, the other page is erased. */
  ghost predicate Holds(f: Flash, p: PageId, tab: Table, m: Contents) {
    && f.At(p)[0] == VALID_PAGE
    && f.At(1 - p) == ErasedPage()
    && Packed(f.At(p))
    && Agrees(f.At(p), tab, m)
  }

  /** A variable during a transfer: its value is on the old page, unless it is the one that
      the transfer wrote first; a copy on the new page is never a wrong one. */
  predicate Settled(from: Page, to: Page, v: Halfword, value: Option<Halfword>) {
    && Lookup(if to[3] == v then to else from, v) == value
    && (Lookup(to, v) == None || Lookup(to, v) == value)
  }

  ghost predicate AllSettled(from: Page, to: Page, tab: Table, m: Contents) {
    forall v: Halfword {:trigger Settled(from, to, v, Value(m, v))} ::
      v in tab ==> Settled(from, to, v, Value(m, v))
  }

  /** A transfer from page p is under way. */
  ghost predicate Transferring(f: Flash, p: PageId, tab: Table, m: Contents) {
    && f.At(p)[0] == VALID_PAGE
    && f.At(1 - p)[0] == RECEIVE_DATA
    && Packed(f.At(1 - p))
    && AllSettled(f.At(p), f.At(1 - p), tab, m)
  }

  /** The old page is gone, the new page q is complete but not yet marked valid. */
  ghost predicate HandedOver(f: Flash, q: PageId, tab: Table, m: Contents) {
    && f.At(q)[0] == RECEIVE_DATA
    && f.At(1 - q) == ErasedPage()
    && Packed(f.At(q))
    && Agrees(f.At(q), tab, m)
  }

  /** The flash still holds the contents m, in one of the three states that EE_Init completes if the
      receiving page has room for the copies it needs. */
  ghost predicate Preserves(f: Flash, tab: Table, m: Contents) {
    exists p: PageId :: Holds(f, p, tab, m) || Transferring(f, p, tab, m) || HandedOver(f, p, tab, m)
  }

  ghost predicate Clean(f: Flash, tab: Table, m: Contents) {
    exists p: PageId :: Holds(f, p, tab, m)
  }

  /** EE_Init, run to its end, succeeds and leaves a clean store with the contents m. */
  ghost predicate RecoversTo(f: Flash, tab: Table, m: Contents) {
    && InitPlan(f, tab).status == Complete
    && Clean(After(f, InitPlan(f, tab)), tab, m)
  }

  // ----- The copy loop -----

  /** The loop's rule for leaving a variable out picks the one in the first data slot. */
  predicate SkipsFirst(f: Flash, q: PageId, skip: Skip) {
    match skip
    case Written(a) => a != BLANK && f.At(q)[3] == a
    case FirstSlotOf(page) => page == q
  }

  ghost predicate Copied(page: Page, tab: Table, m: Contents, n: nat)
    requires n <= |tab|
  {
    forall i :: 0 <= i < n ==> Lookup(page, tab[i]) == Value(m, tab[i])
  }

  lemma TransferPages(f: Flash, p: PageId, tab: Table, m: Contents)
    requires Transferring(f, p, tab, m)
    ensures ReadPage(f) == Some(p) && WritePage(f) == Some(1 - p)
    ensures Used(f.At(1 - p)) >= 1
  {
  }

  lemma SettledStep(from: Page, page: Page, v: Halfword, d: Halfword, k: nat, w: Halfword, value: Option<Halfword>)
    requires Packed(page) && 1 <= Used(page) < SLOTS && k <= 2
    requires v != BLANK && w != BLANK
    requires Settled(from, page, w, value)
    requires w == v ==> value == Some(d)
    ensures Settled(from, Appending(page, v, d, k), w, value)
  {
    AppendingKeeps(page, v, d, k);
  }

  /** One variable is copied to the receiving page: before, between and after the two steps. */
  lemma CopyOne(f: Flash, p: PageId, tab: Table, m: Contents, v: Halfword, d: Halfword, k: nat)
    requires Legal(tab) && v in tab
    requires Transferring(f, p, tab, m)
    requires Value(m, v) == Some(d)
    requires Used(f.At(1 - p)) < SLOTS && k <= 2
    ensures Transferring(SetPage(f, 1 - p, Appending(f.At(1 - p), v, d, k)), p, tab, m)
  {
    var page := f.At(1 - p);
    var g := SetPage(f, 1 - p, Appending(page, v, d, k));
    assert f.At(1 - p)[0] == RECEIVE_DATA;
    assert Used(page) >= 1;
    AppendingKeeps(page, v, d, k);
    forall w: Halfword | w in tab ensures Settled(g.At(p), g.At(1 - p), w, Value(m, w)) {
      SettledStep(f.At(p), page, v, d, k, w, Value(m, w));
    }
  }

  /** One full round of the copy loop. */
  lemma CopyAppends(f: Flash, p: PageId, tab: Table, m: Contents, v: Halfword, d: Halfword, skip: Skip)
    requires Legal(tab) && v in tab
    requires Transferring(f, p, tab, m) && SkipsFirst(f, 1 - p, skip)
    requires Value(m, v) == Some(d)
    ensures var q, append := 1 - p, AppendPlan(f, v, d);
            var g := After(f, append);
            if Used(f.At(q)) == SLOTS then append == Plan([], PageFull)
            else
              && append.status == Complete && |append.ops| == 2
              && Transferring(g, p, tab, m) && SkipsFirst(g, q, skip)
              && g.At(p) == f.At(p)
              && g == SetPage(f, q, Appending(f.At(q), v, d, 2))
              && Used(g.At(q)) == Used(f.At(q)) + 1
  {
    TransferPages(f, p, tab, m);
    var q := 1 - p;
    if Used(f.At(q)) == SLOTS {
      AppendFull(f, q, v, d);
    } else {
      CutAppendPlan(f, q, v, d, 2);
      CutWhole(f, AppendPlan(f, v, d));
      CopyOne(f, p, tab, m, v, d, 2);
      AppendingKeeps(f.At(q), v, d, 2);
    }
  }

  /** The two flash steps of one round. */
  lemma CopyRoundKeeps(f: Flash, p: PageId, tab: Table, m: Contents, v: Halfword, d: Halfword, k: nat)
    requires Legal(tab) && v in tab
    requires Transferring(f, p, tab, m) && Value(m, v) == Some(d)
    requires k <= |AppendPlan(f, v, d).ops|
    ensures var g := Cut(f, AppendPlan(f, v, d), k);
            && Transferring(g, p, tab, m)
            && g.At(p) == f.At(p)
            && Used(g.At(1 - p)) <= Used(f.At(1 - p)) + 1
  {
    var q := 1 - p;
    TransferPages(f, p, tab, m);
    if Used(f.At(q)) == SLOTS {
      AppendFull(f, q, v, d);
      CutWhole(f, AppendPlan(f, v, d));
    } else {
      CutAppendPlan(f, q, v, d, k);
      CopyOne(f, p, tab, m, v, d, k);
      AppendingKeeps(f.At(q), v, d, k);
    }
  }

  /** What a round of the copy loop does, seen from the receiving page. */
  lemma CopyUnrolls(f: Flash, p: PageId, tab: Table, m: Contents, i: nat, skip: Skip)
    requires Legal(tab) && i < |tab|
    requires Transferring(f, p, tab, m) && SkipsFirst(f, 1 - p, skip)
    ensures var v, plan := tab[i], CopyPlan(f, tab, i, skip);
            if f.At(1 - p)[3] == v then
              plan == CopyPlan(f, tab, i + 1, skip) && Lookup(f.At(1 - p), v) == Value(m, v)
            else if Value(m, v) == None then
              plan == CopyPlan(f, tab, i + 1, skip) && Lookup(f.At(1 - p), v) == None
            else
              var append := AppendPlan(f, v, Value(m, v).value);
              plan == Then(append, CopyPlan(After(f, append), tab, i + 1, skip))
  {
    TransferPages(f, p, tab, m);
    assert Settled(f.At(p), f.At(1 - p), tab[i], Value(m, tab[i]));
  }

  /** From f to g only the receiving page has changed, by at most n slots, and the contents are the same. */
  ghost predicate CopiesTo(f: Flash, g: Flash, p: PageId, tab: Table, m: Contents, n: nat) {
    Transferring(g, p, tab, m) && g.At(p) == f.At(p) && Used(g.At(1 - p)) <= Used(f.At(1 - p)) + n
  }

  /** g is what the loop leaves from f on, from that variable on, when it is cut after k steps. */
  ghost predicate CopyCutAt(f: Flash, p: PageId, tab: Table, m: Contents, i: nat, skip: Skip, k: nat, g: Flash)
    requires i <= |tab|
  {
    && Transferring(f, p, tab, m) && SkipsFirst(f, 1 - p, skip)
    && k <= |CopyPlan(f, tab, i, skip).ops| && g == Cut(f, CopyPlan(f, tab, i, skip), k)
  }

  lemma CutFirst(f: Flash, plan: Plan, append: Plan, later: Plan, k: nat, g: Flash)
    requires plan == Then(append, later) && k <= |plan.ops| && k <= |append.ops| && g == Cut(f, plan, k)
    ensures g == Cut(f, append, k)
  {
    CutThen(f, append, later, k);
  }

  lemma CutLater(f: Flash, plan: Plan, append: Plan, later: Plan, k: nat, g: Flash)
    requires plan == Then(append, later) && |append.ops| < k <= |plan.ops| && g == Cut(f, plan, k)
    ensures append.status == Complete && k - |append.ops| <= |later.ops|
    ensures g == Cut(After(f, append), later, k - |append.ops|)
  {
    CutThen(f, append, later, k);
  }

  lemma CopySkipped(f: Flash, p: PageId, tab: Table, m: Contents, i: nat, skip: Skip, k: nat, g: Flash)
    requires Legal(tab) && i < |tab| && CopyCutAt(f, p, tab, m, i, skip, k, g)
    requires f.At(1 - p)[3] == tab[i] || Value(m, tab[i]) == None
    ensures CopiesTo(f, f, p, tab, m, 1) && CopyCutAt(f, p, tab, m, i + 1, skip, k, g)
  {
    CopyUnrolls(f, p, tab, m, i, skip);
  }

  /** A cut in the round of that variable. */
  lemma CopyBroken(f: Flash, p: PageId, tab: Table, m: Contents, i: nat, skip: Skip, d: Halfword, k: nat, g: Flash)
    requires Legal(tab) && i < |tab| && CopyCutAt(f, p, tab, m, i, skip, k, g)
    requires f.At(1 - p)[3] != tab[i] && Value(m, tab[i]) == Some(d) && k <= |AppendPlan(f, tab[i], d).ops|
    ensures CopiesTo(f, g, p, tab, m, 1)
  {
    var append := AppendPlan(f, tab[i], d);
    CopyUnrolls(f, p, tab, m, i, skip);
    CutFirst(f, CopyPlan(f, tab, i, skip), append, CopyPlan(After(f, append), tab, i + 1, skip), k, g);
    CopyRoundKeeps(f, p, tab, m, tab[i], d, k);
  }

  lemma CopyTaken(f: Flash, p: PageId, tab: Table, m: Contents, skip: Skip, v: Halfword, d: Halfword)
    requires Legal(tab) && v in tab && Value(m, v) == Some(d)
    requires Transferring(f, p, tab, m) && SkipsFirst(f, 1 - p, skip) && AppendPlan(f, v, d).status == Complete
    ensures var f1 := After(f, AppendPlan(f, v, d));
            CopiesTo(f, f1, p, tab, m, 1) && SkipsFirst(f1, 1 - p, skip)
  {
    CopyAppends(f, p, tab, m, v, d, skip);
  }

  /** A cut behind it. */
  lemma CopyPassed(f: Flash, p: PageId, tab: Table, m: Contents, i: nat, skip: Skip, d: Halfword, k: nat, g: Flash)
    returns (f1: Flash, rest: nat)
    requires Legal(tab) && i < |tab| && CopyCutAt(f, p, tab, m, i, skip, k, g)
    requires f.At(1 - p)[3] != tab[i] && Value(m, tab[i]) == Some(d) && k > |AppendPlan(f, tab[i], d).ops|
    ensures CopiesTo(f, f1, p, tab, m, 1) && CopyCutAt(f1, p, tab, m, i + 1, skip, rest, g)
  {
    var append := AppendPlan(f, tab[i], d);
    f1, rest := After(f, append), k - |append.ops|;
    CopyUnrolls(f, p, tab, m, i, skip);
    CutLater(f, CopyPlan(f, tab, i, skip), append, CopyPlan(f1, tab, i + 1, skip), k, g);
    CopyTaken(f, p, tab, m, skip, tab[i], d);
  }

  lemma CopyRound(f: Flash, p: PageId, tab: Table, m: Contents, i: nat, skip: Skip, k: nat, g: Flash)
    returns (broken: bool, f1: Flash, rest: nat)
    requires Legal(tab) && i < |tab| && CopyCutAt(f, p, tab, m, i, skip, k, g)
    ensures broken ==> CopiesTo(f, g, p, tab, m, 1)
    ensures !broken ==> CopiesTo(f, f1, p, tab, m, 1) && CopyCutAt(f1, p, tab, m, i + 1, skip, rest, g)
  {
    broken, f1, rest := false, f, k;
    if f.At(1 - p)[3] == tab[i] || Value(m, tab[i]) == None {
      CopySkipped(f, p, tab, m, i, skip, k, g);
    } else {
      var d := Value(m, tab[i]).value;
      if k <= |AppendPlan(f, tab[i], d).ops| {
        broken := true;
        CopyBroken(f, p, tab, m, i, skip, d, k, g);
      } else {
        f1, rest := CopyPassed(f, p, tab, m, i, skip, d, k, g);
      }
    }
  }

  lemma CopyNothing(f: Flash, p: PageId, tab: Table, m: Contents, skip: Skip, k: nat, g: Flash)
    requires CopyCutAt(f, p, tab, m, |tab|, skip, k, g)
    ensures CopiesTo(f, g, p, tab, m, 0)
  {
    CutWhole(f, CopyPlan(f, tab, |tab|, skip));
  }

  lemma CopiesMore(f: Flash, f1: Flash, g: Flash, p: PageId, tab: Table, m: Contents, n: nat)
    requires CopiesTo(f, f1, p, tab, m, 1) && CopiesTo(f1, g, p, tab, m, n)
    ensures CopiesTo(f, g, p, tab, m, n + 1)
  {
  }

  lemma {:induction false} CopyCuts(f: Flash, p: PageId, tab: Table, m: Contents, i: nat, skip: Skip, k: nat, g: Flash)
    requires Legal(tab) && i <= |tab| && CopyCutAt(f, p, tab, m, i, skip, k, g)
    ensures CopiesTo(f, g, p, tab, m, |tab| - i)
    decreases |tab| - i
  {
    if i == |tab| {
      CopyNothing(f, p, tab, m, skip, k, g);
    } else {
      var broken, f1, rest := CopyRound(f, p, tab, m, i, skip, k, g);
      if !broken {
        CopyCuts(f1, p, tab, m, i + 1, skip, rest, g);
        CopiesMore(f, f1, g, p, tab, m, |tab| - i - 1);
      }
    }
  }

  /** Every state the copy loop passes through is a transfer of the same contents. */
  lemma CopyKeeps(f: Flash, p: PageId, tab: Table, m: Contents, i: nat, skip: Skip, k: nat)
    requires Legal(tab) && i <= |tab|
    requires Transferring(f, p, tab, m) && SkipsFirst(f, 1 - p, skip)
    requires k <= |CopyPlan(f, tab, i, skip).ops|
    ensures CopiesTo(f, Cut(f, CopyPlan(f, tab, i, skip), k), p, tab, m, |tab| - i)
  {
    CopyCuts(f, p, tab, m, i, skip, k, Cut(f, CopyPlan(f, tab, i, skip), k));
  }

  lemma CopiedStep(page: Page, tab: Table, m: Contents, i: nat, d: Halfword)
    requires Legal(tab) && i < |tab| && Value(m, tab[i]) == Some(d)
    requires Packed(page) && 1 <= Used(page) < SLOTS
    requires Copied(page, tab, m, i)
    ensures Copied(Appending(page, tab[i], d, 2), tab, m, i + 1)
  {
    AppendingKeeps(page, tab[i], d, 2);
  }

  lemma CopiedRound(f: Flash, p: PageId, tab: Table, m: Contents, i: nat, skip: Skip, d: Halfword)
    requires Legal(tab) && i < |tab|
    requires Transferring(f, p, tab, m) && SkipsFirst(f, 1 - p, skip)
    requires f.At(1 - p)[3] != tab[i] && Value(m, tab[i]) == Some(d)
    requires Copied(f.At(1 - p), tab, m, i) && CopyPlan(f, tab, i, skip).status == Complete
    ensures var g := After(f, AppendPlan(f, tab[i], d));
            && Transferring(g, p, tab, m) && SkipsFirst(g, 1 - p, skip)
            && Copied(g.At(1 - p), tab, m, i + 1)
            && CopyPlan(g, tab, i + 1, skip).status == Complete
            && After(f, CopyPlan(f, tab, i, skip)) == After(g, CopyPlan(g, tab, i + 1, skip))
  {
    var append := AppendPlan(f, tab[i], d);
    CopyUnrolls(f, p, tab, m, i, skip);
    CopyAppends(f, p, tab, m, tab[i], d, skip);
    AfterThen(f, append, CopyPlan(After(f, append), tab, i + 1, skip));
    CopiedStep(f.At(1 - p), tab, m, i, d);
  }

  lemma {:induction false} CopyFinishes(f: Flash, p: PageId, tab: Table, m: Contents, i: nat, skip: Skip)
    requires Legal(tab) && i <= |tab|
    requires Transferring(f, p, tab, m) && SkipsFirst(f, 1 - p, skip)
    requires Copied(f.At(1 - p), tab, m, i)
    requires CopyPlan(f, tab, i, skip).status == Complete
    ensures Copied(After(f, CopyPlan(f, tab, i, skip)).At(1 - p), tab, m, |tab|)
    decreases |tab| - i
  {
    if i < |tab| {
      if f.At(1 - p)[3] == tab[i] || Value(m, tab[i]) == None {
        CopyUnrolls(f, p, tab, m, i, skip);
        CopyFinishes(f, p, tab, m, i + 1, skip);
      } else {
        var d := Value(m, tab[i]).value;
        CopiedRound(f, p, tab, m, i, skip, d);
        CopyFinishes(After(f, AppendPlan(f, tab[i], d)), p, tab, m, i + 1, skip);
      }
    }
  }

  lemma CopiedAll(page: Page, tab: Table, m: Contents)
    requires Copied(page, tab, m, |tab|)
    ensures Agrees(page, tab, m)
  {
  }

  // ----- The room that the copy loop needs -----

  /** The copies that the loop makes from entry i on: of every entry that the old page holds, except
      the one in the first data slot of the new page. `first` is the address in that slot; `open`
      says that the slot is free, so that the first copy goes there. */
  function Need(from: Page, tab: Table, first: Halfword, open: bool, i: nat): (n: nat)
    requires i <= |tab|
    ensures n <= |tab| - i
    decreases |tab| - i
  {
    if i == |tab| then 0
    else if tab[i] == first || Lookup(from, tab[i]) == None then Need(from, tab, first, open, i + 1)
    else 1 + Need(from, tab, if open then tab[i] else first, false, i + 1)
  }

  function NeedOf(f: Flash, p: PageId, tab: Table, i: nat): nat
    requires i <= |tab|
  {
    Need(f.At(p), tab, f.At(1 - p)[3], Used(f.At(1 - p)) == 1, i)
  }

  lemma FirstAddress(page: Page, a: Halfword, d: Halfword)
    requires Packed(page) && 1 <= Used(page) < SLOTS
    ensures Appending(page, a, d, 2)[3] == if Used(page) == 1 then a else page[3]
  {
  }

  /** One copy uses one slot of the need. */
  lemma NeedStep(f: Flash, p: PageId, tab: Table, m: Contents, i: nat, d: Halfword)
    requires Legal(tab) && i < |tab| && Transferring(f, p, tab, m)
    requires f.At(1 - p)[3] != tab[i] && Value(m, tab[i]) == Some(d) && Used(f.At(1 - p)) < SLOTS
    ensures var g := SetPage(f, 1 - p, Appending(f.At(1 - p), tab[i], d, 2));
            NeedOf(f, p, tab, i) == 1 + NeedOf(g, p, tab, i + 1)
  {
    var page := f.At(1 - p);
    TransferPages(f, p, tab, m);
    assert Settled(f.At(p), page, tab[i], Value(m, tab[i]));
    FirstAddress(page, tab[i], d);
    AppendingKeeps(page, tab[i], d, 2);
  }

  lemma NeedSkips(f: Flash, p: PageId, tab: Table, m: Contents, i: nat)
    requires Legal(tab) && i < |tab| && Transferring(f, p, tab, m)
    requires f.At(1 - p)[3] == tab[i] || Value(m, tab[i]) == None
    ensures NeedOf(f, p, tab, i) == NeedOf(f, p, tab, i + 1)
  {
    assert Settled(f.At(p), f.At(1 - p), tab[i], Value(m, tab[i]));
  }

  /** One copy, and the rest of the loop after it. */
  lemma CopyGoesOn(f: Flash, p: PageId, tab: Table, m: Contents, i: nat, skip: Skip, d: Halfword)
    requires Legal(tab) && i < |tab|
    requires Transferring(f, p, tab, m) && SkipsFirst(f, 1 - p, skip)
    requires f.At(1 - p)[3] != tab[i] && Value(m, tab[i]) == Some(d) && Used(f.At(1 - p)) < SLOTS
    ensures var g := After(f, AppendPlan(f, tab[i], d));
            && Transferring(g, p, tab, m) && SkipsFirst(g, 1 - p, skip)
            && CopyPlan(f, tab, i, skip).status == CopyPlan(g, tab, i + 1, skip).status
            && Used(f.At(1 - p)) + NeedOf(f, p, tab, i) == Used(g.At(1 - p)) + NeedOf(g, p, tab, i + 1)
  {
    CopyUnrolls(f, p, tab, m, i, skip);
    CopyAppends(f, p, tab, m, tab[i], d, skip);
    NeedStep(f, p, tab, m, i, d);
  }

  lemma CopySkips(f: Flash, p: PageId, tab: Table, m: Contents, i: nat, skip: Skip)
    requires Legal(tab) && i < |tab|
    requires Transferring(f, p, tab, m) && SkipsFirst(f, 1 - p, skip)
    requires f.At(1 - p)[3] == tab[i] || Value(m, tab[i]) == None
    ensures CopyPlan(f, tab, i, skip) == CopyPlan(f, tab, i + 1, skip)
    ensures NeedOf(f, p, tab, i) == NeedOf(f, p, tab, i + 1)
  {
    CopyUnrolls(f, p, tab, m, i, skip);
    NeedSkips(f, p, tab, m, i);
  }

  /** A full page stops the loop at the next copy. */
  lemma CopyStops(f: Flash, p: PageId, tab: Table, m: Contents, i: nat, skip: Skip)
    requires Legal(tab) && i < |tab|
    requires Transferring(f, p, tab, m) && SkipsFirst(f, 1 - p, skip)
    requires f.At(1 - p)[3] != tab[i] && Value(m, tab[i]) != None && Used(f.At(1 - p)) == SLOTS
    ensures CopyPlan(f, tab, i, skip) == Plan([], PageFull) && NeedOf(f, p, tab, i) >= 1
  {
    CopyUnrolls(f, p, tab, m, i, skip);
    CopyAppends(f, p, tab, m, tab[i], Value(m, tab[i]).value, skip);
    assert Settled(f.At(p), f.At(1 - p), tab[i], Value(m, tab[i]));
  }

  /** The copy loop completes exactly if the receiving page has room for the copies that it makes;
      otherwise it ends with a full page. */
  lemma {:induction false} CopyCompletesExactly(f: Flash, p: PageId, tab: Table, m: Contents, i: nat, skip: Skip)
    requires Legal(tab) && i <= |tab|
    requires Transferring(f, p, tab, m) && SkipsFirst(f, 1 - p, skip)
    ensures CopyPlan(f, tab, i, skip).status ==
            if Used(f.At(1 - p)) + NeedOf(f, p, tab, i) <= SLOTS then Complete else PageFull
    decreases |tab| - i
  {
    if i == |tab| {
      assert Used(f.At(1 - p)) <= SLOTS;
    } else if f.At(1 - p)[3] == tab[i] || Value(m, tab[i]) == None {
      CopySkips(f, p, tab, m, i, skip);
      CopyCompletesExactly(f, p, tab, m, i + 1, skip);
    } else if Used(f.At(1 - p)) < SLOTS {
      CopyGoesOn(f, p, tab, m, i, skip, Value(m, tab[i]).value);
      CopyCompletesExactly(After(f, AppendPlan(f, tab[i], Value(m, tab[i]).value)), p, tab, m, i + 1, skip);
    } else {
      CopyStops(f, p, tab, m, i, skip);
    }
  }

  /** In particular it completes when there is a free slot for every variable left. */
  lemma CopyFits(f: Flash, p: PageId, tab: Table, m: Contents, i: nat, skip: Skip)
    requires Legal(tab) && i <= |tab|
    requires Transferring(f, p, tab, m) && SkipsFirst(f, 1 - p, skip)
    requires Used(f.At(1 - p)) + |tab| - i <= SLOTS
    ensures CopyPlan(f, tab, i, skip).status == Complete
  {
    CopyCompletesExactly(f, p, tab, m, i, skip);
  }

  // ----- EE_Init -----

  /** EE_Init finishes a transfer. Cut anywhere but between marking the new page valid and
      erasing the old one, the store stays recoverable to the same contents. */
  lemma ResumeKeeps(f: Flash, p: PageId, tab: Table, m: Contents, k: nat)
    requires Legal(tab) && Transferring(f, p, tab, m)
    requires k <= |ResumePlan(f, tab, p).ops|
    ensures var plan := ResumePlan(f, tab, p);
            var copy := CopyPlan(f, tab, 0, FirstSlotOf(1 - p));
            var g := Cut(f, plan, k);
            && plan.status == copy.status
            && (copy.status == Complete ==> |plan.ops| == |copy.ops| + 2)
            && (copy.status != Complete ==> |plan.ops| == |copy.ops|)
            && if k <= |copy.ops| then
                 && Transferring(g, p, tab, m)
                 && Used(g.At(1 - p)) <= Used(f.At(1 - p)) + |tab|
               else if k == |copy.ops| + 1 then
                 g.page0[0] == VALID_PAGE && g.page1[0] == VALID_PAGE
               else
                 Holds(g, 1 - p, tab, m)
  {
    var copy := CopyPlan(f, tab, 0, FirstSlotOf(1 - p));
    var f1 := After(f, copy);
    var mark := Just(Program(1 - p, 0, VALID_PAGE));
    CutThen(f, copy, Then(mark, ErasePlan(After(f1, mark), p)), k);
    if copy.status == Complete {
      ResumeEnds(f, p, tab, m);
      if k > |copy.ops| {
        MarkAndEraseCut(f1, p, k - |copy.ops|);
      }
    }
    if k <= |copy.ops| {
      CopyKeeps(f, p, tab, m, 0, FirstSlotOf(1 - p), k);
    }
  }

  lemma MarkAndEraseCut(f: Flash, p: PageId, k: nat)
    requires var g := After(f, Just(Program(1 - p, 0, VALID_PAGE))); ErasePlan(g, p) == Just(Erase(p))
    requires 1 <= k <= 2
    ensures var mark := Just(Program(1 - p, 0, VALID_PAGE));
            var g := After(f, mark);
            && |Then(mark, ErasePlan(g, p)).ops| == 2
            && Cut(f, Then(mark, ErasePlan(g, p)), k) == if k == 1 then g else After(g, ErasePlan(g, p))
  {
    var mark := Just(Program(1 - p, 0, VALID_PAGE));
    var g := After(f, mark);
    CutThen(f, mark, ErasePlan(g, p), k);
    CutWhole(f, mark);
    CutWhole(g, ErasePlan(g, p));
  }

  lemma ResumeEnds(f: Flash, p: PageId, tab: Table, m: Contents)
    requires Legal(tab) && Transferring(f, p, tab, m)
    requires CopyPlan(f, tab, 0, FirstSlotOf(1 - p)).status == Complete
    ensures var f1 := After(f, CopyPlan(f, tab, 0, FirstSlotOf(1 - p)));
            var f2 := After(f1, Just(Program(1 - p, 0, VALID_PAGE)));
            && f2.page0[0] == VALID_PAGE && f2.page1[0] == VALID_PAGE
            && ErasePlan(f2, p) == Just(Erase(p))
            && Holds(After(f2, ErasePlan(f2, p)), 1 - p, tab, m)
  {
    var skip := FirstSlotOf(1 - p);
    var copy := CopyPlan(f, tab, 0, skip);
    CopyKeeps(f, p, tab, m, 0, skip, |copy.ops|);
    CutWhole(f, copy);
    CopyFinishes(f, p, tab, m, 0, skip);
    MarkAndErase(After(f, copy), p, tab, m);
  }

  lemma MarkAndErase(f: Flash, p: PageId, tab: Table, m: Contents)
    requires Transferring(f, p, tab, m) && Copied(f.At(1 - p), tab, m, |tab|)
    ensures var g := After(f, Just(Program(1 - p, 0, VALID_PAGE)));
            && g.page0[0] == VALID_PAGE && g.page1[0] == VALID_PAGE
            && ErasePlan(g, p) == Just(Erase(p))
            && Holds(After(g, ErasePlan(g, p)), 1 - p, tab, m)
  {
    var q := 1 - p;
    var op := Program(q, 0, VALID_PAGE);
    AfterJust(f, op);
    var g := Perform(f, op);
    assert g == SetPage(f, q, f.At(q)[0 := VALID_PAGE]);
    StatusOnly(f.At(q), VALID_PAGE);
    CopiedAll(f.At(q), tab, m);
    assert g.At(p)[0] != BLANK;
    AfterJust(g, Erase(p));
  }
}
