/** Successful writes, one and many: what every address reads afterwards, registered or not. */
module EepromWrites {
  import opened MachineWords
  import opened FlashMemory
  import opened EepromPlan
  import opened EepromPages
  import opened EepromRecovery
  import opened EepromTransfer
  import opened EepromSafety

  // ----- What a page transfer drops: every address that is not in VirtAddVarTab -----

  lemma RoundLeavesOut(f: Flash, q: PageId, w: Halfword, d: Halfword, v: Halfword)
    requires WritePage(f) == Some(q) && Packed(f.At(q)) && Used(f.At(q)) >= 1
    requires w != BLANK && v != BLANK && v != w
    ensures var g := After(f, AppendPlan(f, w, d));
            && WritePage(g) == Some(q) && Packed(g.At(q)) && Used(g.At(q)) >= 1
            && Lookup(g.At(q), v) == Lookup(f.At(q), v)
  {
    if Used(f.At(q)) < SLOTS {
      CutAppendPlan(f, q, w, d, 2);
      CutWhole(f, AppendPlan(f, w, d));
      AppendingKeeps(f.At(q), w, d, 2);
    }
  }

  lemma {:induction false} CopyLeavesOut(f: Flash, q: PageId, tab: Table, i: nat, skip: Skip, v: Halfword)
    requires Legal(tab) && i <= |tab| && v != BLANK && v !in tab
    requires WritePage(f) == Some(q) && Packed(f.At(q)) && Used(f.At(q)) >= 1
    ensures Lookup(After(f, CopyPlan(f, tab, i, skip)).At(q), v) == Lookup(f.At(q), v)
    decreases |tab| - i
  {
    if i < |tab| {
      if Skips(f, skip, tab[i]) || Read(f, tab[i]) == NotFound {
        CopyLeavesOut(f, q, tab, i + 1, skip, v);
      } else if Read(f, tab[i]).Found? {
        var append := AppendPlan(f, tab[i], Read(f, tab[i]).data);
        var f1 := After(f, append);
        AfterThen(f, append, CopyPlan(f1, tab, i + 1, skip));
        RoundLeavesOut(f, q, tab[i], Read(f, tab[i]).data, v);
        CopyLeavesOut(f1, q, tab, i + 1, skip, v);
      }
    }
  }

  lemma CommitKeepsLookups(f: Flash, p: PageId, tab: Table, m: Contents, a: Halfword, v: Halfword)
    requires Legal(tab) && Transferring(f, p, tab, m)
    requires a != BLANK && f.At(1 - p)[3] == a
    requires CopyAndCommit(f, p, tab, a).status == Complete
    ensures var g := After(f, CopyAndCommit(f, p, tab, a));
            && ReadPage(g) == Some(1 - p)
            && Lookup(g.At(1 - p), v) == Lookup(After(f, CopyPlan(f, tab, 0, Written(a))).At(1 - p), v)
  {
    var copy, mark := CopyPlan(f, tab, 0, Written(a)), Just(Program(1 - p, 0, VALID_PAGE));
    var f1 := After(f, copy);
    var f2 := After(f1, ErasePlan(f1, p));
    TransferEnds(f, p, tab, m, a);
    AfterThen(f, copy, Then(ErasePlan(f1, p), mark));
    AfterThen(f1, ErasePlan(f1, p), mark);
    ErasePlanErases(f1, p);
    AfterJust(f2, Program(1 - p, 0, VALID_PAGE));
    StatusOnly(f2.At(1 - p), VALID_PAGE);
    HoldsPages(After(f2, mark), 1 - p, tab, m);
  }

  /** The transfer as its first three steps and the rest. */
  lemma TransferSplits(f: Flash, p: PageId, tab: Table, m: Contents, a: Halfword, d: Halfword)
    requires Legal(tab) && Holds(f, p, tab, m) && a != BLANK
    ensures var f1 := After(f, Just(Program(1 - p, 0, RECEIVE_DATA)));
            var f2 := After(f1, AppendPlan(f1, a, d));
            && Transferring(f1, p, tab, m) && NoVariables(f1.At(1 - p))
            && Transferring(f2, p, tab, m[a := d]) && f2.At(1 - p)[3] == a
            && TransferPlan(f, tab, a, d).status == CopyAndCommit(f2, p, tab, a).status
            && After(f, TransferPlan(f, tab, a, d)) == After(f2, CopyAndCommit(f2, p, tab, a))
  {
    var f1 := After(f, Just(Program(1 - p, 0, RECEIVE_DATA)));
    var f2 := After(f1, AppendPlan(f1, a, d));
    HoldsPages(f, p, tab, m);
    TransferStarts(f, p, tab, m);
    TransferWritten(f1, p, tab, m, a, d);
    TransferShape(f, p, tab, a, d);
    AfterThen(f, Just(Program(1 - p, 0, RECEIVE_DATA)), Then(AppendPlan(f1, a, d), CopyAndCommit(f2, p, tab, a)));
    AfterThen(f1, AppendPlan(f1, a, d), CopyAndCommit(f2, p, tab, a));
  }

  /** Neither the copy loop nor the commit puts an unregistered address on the new page. */
  lemma CommittedLookup(f: Flash, p: PageId, tab: Table, m: Contents, a: Halfword, v: Halfword)
    requires Legal(tab) && Transferring(f, p, tab, m)
    requires a != BLANK && f.At(1 - p)[3] == a && v != BLANK && v !in tab
    requires CopyAndCommit(f, p, tab, a).status == Complete
    ensures Read(After(f, CopyAndCommit(f, p, tab, a)), v) == ReadIn(f.At(1 - p), v)
  {
    TransferPages(f, p, tab, m);
    CopyLeavesOut(f, 1 - p, tab, 0, Written(a), v);
    CommitKeepsLookups(f, p, tab, m, a, v);
  }

  lemma WrittenLookup(f: Flash, p: PageId, tab: Table, m: Contents, a: Halfword, d: Halfword, v: Halfword)
    requires Legal(tab) && Transferring(f, p, tab, m) && NoVariables(f.At(1 - p))
    requires a != BLANK && v != BLANK
    ensures Lookup(After(f, AppendPlan(f, a, d)).At(1 - p), v) == if v == a then Some(d) else None
  {
    TransferPages(f, p, tab, m);
    CutAppendPlan(f, 1 - p, a, d, 2);
    CutWhole(f, AppendPlan(f, a, d));
    AppendingKeeps(f.At(1 - p), a, d, 2);
  }

  /** An address outside the table is on the new page only if it is the one that was written. */
  lemma TransferLookups(f: Flash, p: PageId, tab: Table, m: Contents, a: Halfword, d: Halfword, v: Halfword)
    requires Legal(tab) && Holds(f, p, tab, m) && a != BLANK
    requires TransferPlan(f, tab, a, d).status == Complete
    requires v != BLANK && v !in tab
    ensures Read(After(f, TransferPlan(f, tab, a, d)), v) == if v == a then Found(d) else NotFound
  {
    TransferSplits(f, p, tab, m, a, d);
    var f1 := After(f, Just(Program(1 - p, 0, RECEIVE_DATA)));
    WrittenLookup(f1, p, tab, m, a, d, v);
    CommittedLookup(After(f1, AppendPlan(f1, a, d)), p, tab, m[a := d], a, v);
  }

  lemma TransferCommits(f: Flash, p: PageId, tab: Table, m: Contents, a: Halfword, d: Halfword)
    requires Legal(tab) && Holds(f, p, tab, m) && a != BLANK
    requires TransferPlan(f, tab, a, d).status == Complete
    ensures Clean(After(f, TransferPlan(f, tab, a, d)), tab, m[a := d])
  {
    var plan := TransferPlan(f, tab, a, d);
    TransferKeeps(f, p, tab, m, a, d, |plan.ops|);
    CutWhole(f, plan);
  }

  /** What every address reads after a page transfer. */
  lemma TransferReads(f: Flash, p: PageId, tab: Table, m: Contents, a: Halfword, d: Halfword, v: Halfword)
    requires Legal(tab) && Holds(f, p, tab, m) && a != BLANK
    requires TransferPlan(f, tab, a, d).status == Complete && v != BLANK
    ensures Read(After(f, TransferPlan(f, tab, a, d)), v) ==
            if v == a then Found(d) else if v in tab then Read(f, v) else NotFound
  {
    if v in tab {
      TransferCommits(f, p, tab, m, a, d);
      assert Clean(f, tab, m);
      ReadsContents(f, tab, m, v);
      ReadsContents(After(f, TransferPlan(f, tab, a, d)), tab, m[a := d], v);
    } else {
      TransferLookups(f, p, tab, m, a, d, v);
    }
  }

  /** An address that is not being written keeps its value in a page transfer if and only if it is
      registered, or had none. */
  lemma TransferKeepsExactly(f: Flash, p: PageId, tab: Table, m: Contents, a: Halfword, d: Halfword, v: Halfword)
    requires Legal(tab) && Holds(f, p, tab, m) && a != BLANK
    requires TransferPlan(f, tab, a, d).status == Complete && v != BLANK && v != a
    ensures Read(After(f, TransferPlan(f, tab, a, d)), v) == Read(f, v) <==> v in tab || Read(f, v) == NotFound
  {
    TransferReads(f, p, tab, m, a, d, v);
  }

  // ----- One successful write -----

  /** The guard of EE_WriteVariable's call of EE_PageTransfer. */
  predicate Transfers(f: Flash, a: Halfword, d: Halfword) {
    Read(f, a) != Found(d) && AppendPlan(f, a, d).status == PageFull
  }

  /** The slots in use on the valid page. */
  function UsedOf(f: Flash): nat {
    match ReadPage(f)
    case None => 0
    case Some(p) => Used(f.At(p))
  }

  lemma WritesInPlace(f: Flash, p: PageId, tab: Table, m: Contents, a: Halfword, d: Halfword, v: Halfword)
    requires Legal(tab) && Holds(f, p, tab, m) && a != BLANK && v != BLANK
    requires Read(f, a) != Found(d) && Used(f.At(p)) < SLOTS
    ensures var g := After(f, AppendPlan(f, a, d));
            Read(g, v) == (if v == a then Found(d) else Read(f, v)) && UsedOf(g) == UsedOf(f) + 1
  {
    HoldsPages(f, p, tab, m);
    CutAppendPlan(f, p, a, d, 2);
    CutWhole(f, AppendPlan(f, a, d));
    AppendingKeeps(f.At(p), a, d, 2);
  }

  lemma TransfersWhenFull(f: Flash, p: PageId, tab: Table, m: Contents, a: Halfword, d: Halfword)
    requires Legal(tab) && Holds(f, p, tab, m)
    ensures UsedOf(f) == Used(f.At(p)) <= SLOTS
    ensures Transfers(f, a, d) <==> Read(f, a) != Found(d) && UsedOf(f) == SLOTS
  {
    HoldsPages(f, p, tab, m);
    FirstFreeFrom(f.At(p), 0);
  }

  /** What every address reads after a successful write, and the slots it uses. */
  lemma WriteReads(f: Flash, tab: Table, m: Contents, a: Halfword, d: Halfword, v: Halfword)
    requires Legal(tab) && Clean(f, tab, m) && a != BLANK && v != BLANK
    requires WritePlan(f, tab, a, d, false).status == Complete
    ensures var g := After(f, WritePlan(f, tab, a, d, false));
            && Read(g, v) == (if v == a then Found(d)
                              else if Transfers(f, a, d) && v !in tab then NotFound else Read(f, v))
            && (!Transfers(f, a, d) ==> UsedOf(g) == UsedOf(f) + if Read(f, a) == Found(d) then 0 else 1)
  {
    var p: PageId :| Holds(f, p, tab, m);
    WriteCases(f, p, tab, m, a, d, false);
    TransfersWhenFull(f, p, tab, m, a, d);
    if Read(f, a) == Found(d) {
      CutWhole(f, Plan([], Complete));
    } else if Used(f.At(p)) < SLOTS {
      WritesInPlace(f, p, tab, m, a, d, v);
    } else {
      TransferReads(f, p, tab, m, a, d, v);
    }
  }

  // ----- Lists of successful writes -----

  /** The arguments of EE_WriteVariable. */
  type Write = (Halfword, Halfword)

  /** The last value that a list of writes gave each address. */
  function LastWritten(m: Contents, writes: seq<Write>): Contents {
    if writes == [] then m
    else
      var n := |writes| - 1;
      LastWritten(m, writes[..n])[writes[n].0 := writes[n].1]
  }

  function WriteAll(f: Flash, tab: Table, writes: seq<Write>): Flash {
    if writes == [] then f
    else
      var n := |writes| - 1;
      var g := WriteAll(f, tab, writes[..n]);
      After(g, WritePlan(g, tab, writes[n].0, writes[n].1, false))
  }

  predicate Succeeds(f: Flash, tab: Table, w: Write) {
    w.0 != BLANK && WritePlan(f, tab, w.0, w.1, false).status == Complete
  }

  predicate AllSucceed(f: Flash, tab: Table, writes: seq<Write>) {
    writes == [] ||
    var n := |writes| - 1;
    AllSucceed(f, tab, writes[..n]) && Succeeds(WriteAll(f, tab, writes[..n]), tab, writes[n])
  }

  /** Successful writes alone: every registered address reads as the last value written to it,
      however many page transfers there were. */
  lemma LastValueIsRead(f: Flash, tab: Table, m: Contents, writes: seq<Write>, v: Halfword)
    requires Legal(tab) && Clean(f, tab, m) && AllSucceed(f, tab, writes) && v in tab
    ensures Read(WriteAll(f, tab, writes), v) ==
            if v in LastWritten(m, writes) then Found(LastWritten(m, writes)[v]) else NotFound
  {
    WriteAllKeeps(f, tab, m, writes);
    ReadsContents(WriteAll(f, tab, writes), tab, LastWritten(m, writes), v);
  }

  lemma {:induction false} WriteAllKeeps(f: Flash, tab: Table, m: Contents, writes: seq<Write>)
    requires Legal(tab) && Clean(f, tab, m) && AllSucceed(f, tab, writes)
    ensures Clean(WriteAll(f, tab, writes), tab, LastWritten(m, writes))
  {
    if writes != [] {
      var n := |writes| - 1;
      WriteAllKeeps(f, tab, m, writes[..n]);
      WriteCommits(WriteAll(f, tab, writes[..n]), tab, LastWritten(m, writes[..n]), writes[n].0, writes[n].1, false);
    }
  }

  lemma WriteAllSnoc(f: Flash, tab: Table, x: seq<Write>, w: Write)
    ensures var g := WriteAll(f, tab, x);
            WriteAll(f, tab, x + [w]) == After(g, WritePlan(g, tab, w.0, w.1, false))
    ensures AllSucceed(f, tab, x + [w]) <==> AllSucceed(f, tab, x) && Succeeds(WriteAll(f, tab, x), tab, w)
  {
    assert (x + [w])[..|x|] == x;
  }

  ghost predicate Appends(f: Flash, tab: Table, x: seq<Write>, y: seq<Write>) {
    && WriteAll(f, tab, x + y) == WriteAll(WriteAll(f, tab, x), tab, y)
    && (AllSucceed(f, tab, x + y) <==> AllSucceed(f, tab, x) && AllSucceed(WriteAll(f, tab, x), tab, y))
  }

  lemma SnocBehind(x: seq<Write>, y: seq<Write>, w: Write)
    ensures x + (y + [w]) == (x + y) + [w]
  {
  }

  /** One more write behind two lists. */
  lemma AppendsOne(f: Flash, tab: Table, x: seq<Write>, y: seq<Write>, w: Write)
    requires Appends(f, tab, x, y)
    ensures Appends(f, tab, x, y + [w])
  {
    SnocBehind(x, y, w);
    WriteAllSnoc(f, tab, x + y, w);
    WriteAllSnoc(WriteAll(f, tab, x), tab, y, w);
  }

  lemma Rejoined(y: seq<Write>, init: seq<Write>, last: Write)
    requires y != [] && init == y[..|y| - 1] && last == y[|y| - 1]
    ensures init + [last] == y
  {
  }

  lemma {:induction false} WriteAllAppend(f: Flash, tab: Table, x: seq<Write>, y: seq<Write>)
    ensures Appends(f, tab, x, y)
    decreases |y|
  {
    if y == [] {
      assert x + y == x;
    } else {
      var init, last := y[..|y| - 1], y[|y| - 1];
      WriteAllAppend(f, tab, x, init);
      AppendsOne(f, tab, x, init, last);
      Rejoined(y, init, last);
    }
  }

  /** A page transfer takes place at write lo of the list or later. */
  predicate TransferFrom(f: Flash, tab: Table, writes: seq<Write>, lo: nat) {
    lo < |writes| &&
    var n := |writes| - 1;
    Transfers(WriteAll(f, tab, writes[..n]), writes[n].0, writes[n].1) || TransferFrom(f, tab, writes[..n], lo)
  }

  /** No write from lo on is to that address. */
  predicate Untouched(writes: seq<Write>, lo: nat, v: Halfword) {
    forall j :: lo <= j < |writes| ==> writes[j].0 != v
  }

  /** What one more write does to what an address reads. */
  lemma OneMoreWrite(f: Flash, tab: Table, m: Contents, writes: seq<Write>, v: Halfword)
    requires Legal(tab) && Clean(f, tab, m) && AllSucceed(f, tab, writes) && writes != [] && v != BLANK
    ensures var n := |writes| - 1;
            var before := WriteAll(f, tab, writes[..n]);
            && AllSucceed(f, tab, writes[..n])
            && Read(WriteAll(f, tab, writes), v) ==
               (if v == writes[n].0 then Found(writes[n].1)
                else if Transfers(before, writes[n].0, writes[n].1) && v !in tab then NotFound else Read(before, v))
            && (!Transfers(before, writes[n].0, writes[n].1) ==>
                 UsedOf(WriteAll(f, tab, writes)) ==
                 UsedOf(before) + if Read(before, writes[n].0) == Found(writes[n].1) then 0 else 1)
  {
    var n := |writes| - 1;
    WriteAllKeeps(f, tab, m, writes[..n]);
    WriteReads(WriteAll(f, tab, writes[..n]), tab, LastWritten(m, writes[..n]), writes[n].0, writes[n].1, v);
  }

  /** The last write to an address is what it reads, unless it is unregistered and a page transfer
      came later. */
  lemma {:induction false} LastWriteIsRead(f: Flash, tab: Table, m: Contents, writes: seq<Write>,
                                           v: Halfword, i: nat)
    requires Legal(tab) && Clean(f, tab, m) && AllSucceed(f, tab, writes) && v != BLANK
    requires i < |writes| && writes[i].0 == v && Untouched(writes, i + 1, v)
    ensures Read(WriteAll(f, tab, writes), v) ==
            if v !in tab && TransferFrom(f, tab, writes, i + 1) then NotFound else Found(writes[i].1)
  {
    OneMoreWrite(f, tab, m, writes, v);
    if i < |writes| - 1 {
      LastWriteIsRead(f, tab, m, writes[..|writes| - 1], v, i);
    }
  }

  // ----- When a list of writes sets off a page transfer -----

  predicate Distinct(writes: seq<Write>) {
    forall i, j :: 0 <= i < j < |writes| ==> writes[i].0 != writes[j].0
  }

  /** The writes that the store does not hold already. */
  function Changes(f: Flash, writes: seq<Write>): (n: nat)
    ensures n <= |writes|
  {
    if writes == [] then 0
    else
      var n := |writes| - 1;
      Changes(f, writes[..n]) + if Read(f, writes[n].0) == Found(writes[n].1) then 0 else 1
  }

  /** Without a transfer, an address that is not written keeps its value. */
  lemma {:induction false} UntouchedReads(f: Flash, tab: Table, m: Contents, writes: seq<Write>, v: Halfword)
    requires Legal(tab) && Clean(f, tab, m) && AllSucceed(f, tab, writes) && v != BLANK
    requires Untouched(writes, 0, v) && !TransferFrom(f, tab, writes, 0)
    ensures Read(WriteAll(f, tab, writes), v) == Read(f, v)
  {
    if writes != [] {
      OneMoreWrite(f, tab, m, writes, v);
      UntouchedReads(f, tab, m, writes[..|writes| - 1], v);
    }
  }

  /** Writes to different addresses set off no page transfer exactly if those that change something
      fit the page. */
  lemma {:induction false} FitsExactly(f: Flash, tab: Table, m: Contents, writes: seq<Write>)
    requires Legal(tab) && Clean(f, tab, m) && AllSucceed(f, tab, writes) && Distinct(writes)
    ensures !TransferFrom(f, tab, writes, 0) <==> UsedOf(f) + Changes(f, writes) <= SLOTS
    ensures !TransferFrom(f, tab, writes, 0) ==> UsedOf(WriteAll(f, tab, writes)) == UsedOf(f) + Changes(f, writes)
  {
    if writes == [] {
      var p: PageId :| Holds(f, p, tab, m);
      TransfersWhenFull(f, p, tab, m, 0, 0);
    } else {
      var n := |writes| - 1;
      var init, w := writes[..n], writes[n];
      FitsExactly(f, tab, m, init);
      LastFits(f, tab, m, writes);
    }
  }

  lemma LastFits(f: Flash, tab: Table, m: Contents, writes: seq<Write>)
    requires Legal(tab) && Clean(f, tab, m) && AllSucceed(f, tab, writes) && Distinct(writes) && writes != []
    requires var init := writes[..|writes| - 1];
             && (!TransferFrom(f, tab, init, 0) <==> UsedOf(f) + Changes(f, init) <= SLOTS)
             && (!TransferFrom(f, tab, init, 0) ==> UsedOf(WriteAll(f, tab, init)) == UsedOf(f) + Changes(f, init))
    ensures !TransferFrom(f, tab, writes, 0) <==> UsedOf(f) + Changes(f, writes) <= SLOTS
    ensures !TransferFrom(f, tab, writes, 0) ==> UsedOf(WriteAll(f, tab, writes)) == UsedOf(f) + Changes(f, writes)
  {
    var n := |writes| - 1;
    var init, w := writes[..n], writes[n];
    if !TransferFrom(f, tab, init, 0) {
      var g, c := WriteAll(f, tab, init), LastWritten(m, init);
      LegalWrite(f, tab, writes);
      UntouchedReads(f, tab, m, init, w.0);
      WriteAllKeeps(f, tab, m, init);
      var p: PageId :| Holds(g, p, tab, c);
      TransfersWhenFull(g, p, tab, c, w.0, w.1);
      OneMoreWrite(f, tab, m, writes, w.0);
    }
  }

  lemma LegalWrite(f: Flash, tab: Table, writes: seq<Write>)
    requires AllSucceed(f, tab, writes) && writes != []
    ensures AllSucceed(f, tab, writes[..|writes| - 1]) && writes[|writes| - 1].0 != BLANK
  {
  }

  lemma TransferSnoc(f: Flash, tab: Table, x: seq<Write>, w: Write, lo: nat)
    ensures TransferFrom(f, tab, x + [w], lo) <==>
            lo <= |x| && (Transfers(WriteAll(f, tab, x), w.0, w.1) || TransferFrom(f, tab, x, lo))
  {
    assert (x + [w])[..|x|] == x;
  }

  ghost predicate Shifts(f: Flash, tab: Table, x: seq<Write>, y: seq<Write>) {
    TransferFrom(f, tab, x + y, |x|) <==> TransferFrom(WriteAll(f, tab, x), tab, y, 0)
  }

  lemma ShiftsNone(f: Flash, tab: Table, x: seq<Write>)
    ensures Shifts(f, tab, x, [])
  {
    assert x + [] == x;
  }

  lemma ShiftsOne(f: Flash, tab: Table, x: seq<Write>, y: seq<Write>, w: Write)
    requires Shifts(f, tab, x, y)
    ensures Shifts(f, tab, x, y + [w])
  {
    SnocBehind(x, y, w);
    WriteAllAppend(f, tab, x, y);
    TransferSnoc(f, tab, x + y, w, |x|);
    TransferSnoc(WriteAll(f, tab, x), tab, y, w, 0);
  }

  /** Transfers in the second part of a list. */
  lemma {:induction false} TransferShift(f: Flash, tab: Table, x: seq<Write>, y: seq<Write>)
    ensures Shifts(f, tab, x, y)
    decreases |y|
  {
    if y == [] {
      ShiftsNone(f, tab, x);
    } else {
      var init, last := y[..|y| - 1], y[|y| - 1];
      TransferShift(f, tab, x, init);
      ShiftsOne(f, tab, x, init, last);
      Rejoined(y, init, last);
    }
  }

  /** Writes to different addresses set off a page transfer after the first of them exactly if the
      others that change something do not fit the page as the first has left it. */
  lemma FitsAfterFirst(f: Flash, tab: Table, m: Contents, w: Write, rest: seq<Write>)
    requires Legal(tab) && Clean(f, tab, m) && AllSucceed(f, tab, [w] + rest) && Distinct([w] + rest)
    ensures var g := WriteAll(f, tab, [w]);
            TransferFrom(f, tab, [w] + rest, 1) <==> UsedOf(g) + Changes(g, rest) > SLOTS
  {
    WriteAllAppend(f, tab, [w], rest);
    TransferShift(f, tab, [w], rest);
    WriteAllKeeps(f, tab, m, [w]);
    DistinctRest(w, rest);
    FitsExactly(WriteAll(f, tab, [w]), tab, LastWritten(m, [w]), rest);
  }

  lemma DistinctRest(w: Write, rest: seq<Write>)
    requires Distinct([w] + rest)
    ensures Distinct(rest)
  {
    forall i, j | 0 <= i < j < |rest| ensures rest[i].0 != rest[j].0 {
      assert ([w] + rest)[i + 1] == rest[i] && ([w] + rest)[j + 1] == rest[j];
    }
  }

  // ----- A transfer can always be brought about -----

  /** From every clean store there are writes to one registered address after which any given
      unregistered address reads as never written. */
  lemma {:induction false} LossReachable(f: Flash, tab: Table, m: Contents, x: Halfword, v: Halfword)
    returns (writes: seq<Write>)
    requires Legal(tab) && Clean(f, tab, m) && |tab| + 1 <= SLOTS - 1
    requires x in tab && v !in tab && v != BLANK
    ensures AllSucceed(f, tab, writes) && forall w <- writes :: w.0 == x
    ensures Read(WriteAll(f, tab, writes), v) == NotFound
    decreases SLOTS - UsedOf(f)
  {
    var d: Halfword := if Read(f, x) == Found(0) then 1 else 0;
    var p: PageId :| Holds(f, p, tab, m);
    TransfersWhenFull(f, p, tab, m, x, d);
    WriteSucceeds(f, tab, m, x, d);
    WriteReads(f, tab, m, x, d, v);
    OneWrite(f, tab, x, d);
    if Transfers(f, x, d) {
      writes := [(x, d)];
    } else {
      var g := After(f, WritePlan(f, tab, x, d, false));
      WriteCommits(f, tab, m, x, d, false);
      var q: PageId :| Holds(g, q, tab, m[x := d]);
      TransfersWhenFull(g, q, tab, m[x := d], x, d);
      var rest := LossReachable(g, tab, m[x := d], x, v);
      writes := [(x, d)] + rest;
      WriteAllAppend(f, tab, [(x, d)], rest);
    }
  }

  lemma OneWrite(f: Flash, tab: Table, x: Halfword, d: Halfword)
    requires x != BLANK && WritePlan(f, tab, x, d, false).status == Complete
    ensures AllSucceed(f, tab, [(x, d)]) && WriteAll(f, tab, [(x, d)]) == After(f, WritePlan(f, tab, x, d, false))
  {
    assert [(x, d)][..0] == [];
    assert AllSucceed(f, tab, []) && WriteAll(f, tab, []) == f;
  }
}
