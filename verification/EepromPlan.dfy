/** eeprom.c as the flash steps it asks for.

    A plan is the list of program and erase steps a function issues when none of them fails,
    with the status it then returns. A flash error or a power cut after k steps leaves the
    flash as the first k steps of the plan left it: every function returns at once when a
    step fails. */
module EepromPlan {
  import opened MachineWords
  import opened FlashMemory

  const RECEIVE_DATA: Halfword := 0xEEEE
  const VALID_PAGE: Halfword := 0

  datatype Option<+T> = None | Some(value: T)

  datatype Status = Complete | FlashError | PageFull | NoValidPage

  datatype ReadResult = Found(data: Halfword) | NotFound | NoPage

  datatype Plan = Plan(ops: seq<Op>, status: Status)

  /** The registered virtual addresses, VirtAddVarTab. */
  type Table = seq<Halfword>

  function After(f: Flash, plan: Plan): Flash {
    PerformAll(f, plan.ops)
  }

  function Just(op: Op): Plan {
    Plan([op], Complete)
  }

  /** p, and q after it unless p returned an error. */
  function Then(p: Plan, q: Plan): Plan {
    if p.status == Complete then Plan(p.ops + q.ops, q.status) else p
  }

  // ----- Slots: four bytes each, data before virtual address. Slot 0 holds the page status. -----

  type Slot = i: nat | i < SLOTS

  function Data(page: Page, i: Slot): Halfword {
    page[2 * i]
  }

  function Address(page: Page, i: Slot): Halfword {
    page[2 * i + 1]
  }

  predicate Free(page: Page, i: Slot) {
    Data(page, i) == BLANK && Address(page, i) == BLANK
  }

  /** The first free slot from i on, or SLOTS. */
  function FirstFree(page: Page, i: nat): (r: nat)
    requires i <= SLOTS
    ensures i <= r <= SLOTS
    decreases SLOTS - i
  {
    if i == SLOTS || Free(page, i) then i else FirstFree(page, i + 1)
  }

  /** The newest value of a below slot n. */
  function LookupBelow(page: Page, a: Halfword, n: nat): Option<Halfword>
    requires n <= SLOTS
  {
    if n <= 1 then None
    else if Address(page, n - 1) == a then Some(Data(page, n - 1))
    else LookupBelow(page, a, n - 1)
  }

  function Lookup(page: Page, a: Halfword): Option<Halfword> {
    LookupBelow(page, a, SLOTS)
  }

  // ----- EE_FindValidPage, EE_ReadVariable -----

  function ReadPage(f: Flash): Option<PageId> {
    if f.At(0)[0] == VALID_PAGE then Some(0)
    else if f.At(1)[0] == VALID_PAGE then Some(1)
    else None
  }

  function WritePage(f: Flash): Option<PageId> {
    if f.At(1)[0] == VALID_PAGE then
      if f.At(0)[0] == RECEIVE_DATA then Some(0) else Some(1)
    else if f.At(0)[0] == VALID_PAGE then
      if f.At(1)[0] == RECEIVE_DATA then Some(1) else Some(0)
    else None
  }

  function ReadIn(page: Page, a: Halfword): ReadResult {
    match Lookup(page, a)
    case None => NotFound
    case Some(d) => Found(d)
  }

  function Read(f: Flash, a: Halfword): ReadResult {
    match ReadPage(f)
    case None => NoPage
    case Some(p) => ReadIn(f.At(p), a)
  }

  // ----- EE_VerifyPageFullWriteVariable -----

  function AppendPlan(f: Flash, a: Halfword, d: Halfword): Plan {
    match WritePage(f)
    case None => Plan([], NoValidPage)
    case Some(p) =>
      var i := FirstFree(f.At(p), 0);
      if i == SLOTS then Plan([], PageFull)
      else Plan([Program(p, 2 * i, d), Program(p, 2 * i + 1, a)], Complete)
  }

  // ----- EE_EraseSectorIfNotEmpty, EE_Format -----

  function ErasePlan(f: Flash, p: PageId): Plan {
    if f.At(p) == ErasedPage() then Plan([], Complete) else Just(Erase(p))
  }

  function FormatPlan(f: Flash): Plan {
    var erase0 := ErasePlan(f, 0);
    var mark := Just(Program(0, 0, VALID_PAGE));
    Then(erase0, Then(mark, ErasePlan(After(After(f, erase0), mark), 1)))
  }

  // ----- The copy loops of EE_PageTransfer and EE_Init -----

  /** Which variable a copy loop leaves out: the one just written, or the one that the
      first data slot of the receiving page holds. */
  datatype Skip = Written(a: Halfword) | FirstSlotOf(page: PageId)

  predicate Skips(f: Flash, skip: Skip, v: Halfword) {
    match skip
    case Written(a) => v == a
    case FirstSlotOf(q) => f.At(q)[3] == v
  }

  function CopyPlan(f: Flash, tab: Table, i: nat, skip: Skip): Plan
    requires i <= |tab|
    decreases |tab| - i
  {
    if i == |tab| then Plan([], Complete)
    else if Skips(f, skip, tab[i]) then CopyPlan(f, tab, i + 1, skip)
    else
      match Read(f, tab[i])
      case NotFound => CopyPlan(f, tab, i + 1, skip)
      case NoPage => Plan([], NoValidPage)
      case Found(d) =>
        var append := AppendPlan(f, tab[i], d);
        Then(append, CopyPlan(After(f, append), tab, i + 1, skip))
  }

  // ----- EE_PageTransfer, EE_WriteVariable -----

  /** EE_PageTransfer from the copy loop on: the old page is erased before the new one is
      marked valid. */
  function CopyAndCommit(f: Flash, p: PageId, tab: Table, a: Halfword): Plan {
    var copy := CopyPlan(f, tab, 0, Written(a));
    Then(copy, Then(ErasePlan(After(f, copy), p), Just(Program(1 - p, 0, VALID_PAGE))))
  }

  function TransferPlan(f: Flash, tab: Table, a: Halfword, d: Halfword): Plan {
    match ReadPage(f)
    case None => Plan([], NoValidPage)
    case Some(p) =>
      var mark := Just(Program(1 - p, 0, RECEIVE_DATA));
      var f1 := After(f, mark);
      var append := AppendPlan(f1, a, d);
      var f2 := After(f1, append);
      Then(mark, Then(append, CopyAndCommit(f2, p, tab, a)))
  }

  function WritePlan(f: Flash, tab: Table, a: Halfword, d: Halfword, lowVoltage: bool): Plan {
    if Read(f, a) == Found(d) then Plan([], Complete)
    else if lowVoltage then Plan([], FlashError)
    else
      var append := AppendPlan(f, a, d);
      if append.status == PageFull then TransferPlan(f, tab, a, d) else append
  }

  // ----- EE_Init -----

  /** Finishes a page transfer that was cut short: page p is valid, the other receives. */
  function ResumePlan(f: Flash, tab: Table, p: PageId): Plan {
    var q := 1 - p;
    var copy := CopyPlan(f, tab, 0, FirstSlotOf(q));
    var f1 := After(f, copy);
    var mark := Just(Program(q, 0, VALID_PAGE));
    Then(copy, Then(mark, ErasePlan(After(f1, mark), p)))
  }

  function InitPlan(f: Flash, tab: Table): Plan {
    var status0, status1 := f.At(0)[0], f.At(1)[0];
    if status0 == BLANK then
      if status1 == VALID_PAGE then ErasePlan(f, 0)
      else if status1 == RECEIVE_DATA then
        Then(ErasePlan(f, 0), Just(Program(1, 0, VALID_PAGE)))
      else FormatPlan(f)
    else if status0 == RECEIVE_DATA then
      if status1 == VALID_PAGE then ResumePlan(f, tab, 1)
      else if status1 == BLANK then
        Then(ErasePlan(f, 1), Just(Program(0, 0, VALID_PAGE)))
      else FormatPlan(f)
    else if status0 == VALID_PAGE then
      if status1 == VALID_PAGE then FormatPlan(f)
      else if status1 == BLANK then ErasePlan(f, 1)
      else ResumePlan(f, tab, 0)
    else FormatPlan(f)
  }
}
