/** Lists of writes as the store loops of conf_general.c make them: until one fails, and with the
    supply cut at any step. */
module EepromLists {
  import opened MachineWords
  import opened FlashMemory
  import opened EepromPlan
  import opened EepromPages
  import opened EepromRecovery
  import opened EepromSafety
  import opened EepromWrites

  // ----- Plans one after the other -----

  /** Plans i to n - 1, each made for the flash that the ones before it have left, until one fails. */
  function Chain(f: Flash, step: (Flash, nat) -> Plan, n: nat, i: nat): Plan
    requires i <= n
    decreases n - i
  {
    if i == n then Plan([], Complete)
    else Then(step(f, i), Chain(After(f, step(f, i)), step, n, i + 1))
  }

  /** The flash after the first n plans, if they are completed. */
  function State(f: Flash, step: (Flash, nat) -> Plan, n: nat): Flash {
    if n == 0 then f else After(State(f, step, n - 1), step(State(f, step, n - 1), n - 1))
  }

  predicate AllComplete(f: Flash, step: (Flash, nat) -> Plan, n: nat) {
    forall j: nat :: j < n ==> step(State(f, step, j), j).status == Complete
  }

  lemma ChainUnrolls(g: Flash, step: (Flash, nat) -> Plan, n: nat, i: nat, k: nat)
    requires i < n && k <= |Chain(g, step, n, i).ops|
    ensures var first := step(g, i);
            var rest := Chain(After(g, first), step, n, i + 1);
            if k < |first.ops| || first.status != Complete then
              k <= |first.ops| && Cut(g, Chain(g, step, n, i), k) == Cut(g, first, k)
            else
              && k - |first.ops| <= |rest.ops|
              && Cut(g, Chain(g, step, n, i), k) == Cut(After(g, first), rest, k - |first.ops|)
  {
    CutThen(g, step(g, i), Chain(After(g, step(g, i)), step, n, i + 1), k);
  }

  lemma StateStep(f: Flash, step: (Flash, nat) -> Plan, i: nat, g: Flash)
    requires AllComplete(f, step, i) && g == State(f, step, i) && step(g, i).status == Complete
    ensures AllComplete(f, step, i + 1) && State(f, step, i + 1) == After(g, step(g, i))
  {
  }

  /** A cut chain is cut in the plan `at`, after k' steps of it, or at its end. */
  ghost predicate CutAt(f: Flash, step: (Flash, nat) -> Plan, n: nat, at: nat, k': nat, g: Flash) {
    && at <= n && AllComplete(f, step, at)
    && if at == n then g == State(f, step, n)
       else k' <= |step(State(f, step, at), at).ops| && g == Cut(State(f, step, at), step(State(f, step, at), at), k')
  }

  lemma CutHere(f: Flash, step: (Flash, nat) -> Plan, n: nat, i: nat, g: Flash, k: nat)
    requires i < n && AllComplete(f, step, i) && g == State(f, step, i) && k <= |step(g, i).ops|
    ensures CutAt(f, step, n, i, k, Cut(g, step(g, i), k))
  {
  }

  lemma CutNowhere(f: Flash, step: (Flash, nat) -> Plan, n: nat, k: nat, h: Flash)
    requires AllComplete(f, step, n) && k <= |Chain(State(f, step, n), step, n, n).ops|
    requires h == Cut(State(f, step, n), Chain(State(f, step, n), step, n, n), k)
    ensures CutAt(f, step, n, n, 0, h)
  {
    CutWhole(State(f, step, n), Plan([], Complete));
  }

  /** h is what the chain leaves from plan i on when it is cut after k steps. */
  lemma {:induction false} ChainCut(f: Flash, step: (Flash, nat) -> Plan, n: nat, i: nat, g: Flash, k: nat, h: Flash)
    returns (at: nat, k': nat)
    requires i <= n && AllComplete(f, step, i) && g == State(f, step, i)
    requires k <= |Chain(g, step, n, i).ops| && h == Cut(g, Chain(g, step, n, i), k)
    ensures CutAt(f, step, n, at, k', h)
    decreases n - i
  {
    if i == n {
      at, k' := n, 0;
      CutNowhere(f, step, n, k, h);
    } else {
      ChainUnrolls(g, step, n, i, k);
      if k < |step(g, i).ops| || step(g, i).status != Complete {
        at, k' := i, k;
        CutHere(f, step, n, i, g, k);
      } else {
        StateStep(f, step, i, g);
        at, k' := ChainCut(f, step, n, i + 1, After(g, step(g, i)), k - |step(g, i).ops|, h);
      }
    }
  }

  lemma {:induction false} ChainCompletes(f: Flash, step: (Flash, nat) -> Plan, n: nat, i: nat, g: Flash)
    requires i <= n && AllComplete(f, step, i) && g == State(f, step, i)
    requires Chain(g, step, n, i).status == Complete
    ensures AllComplete(f, step, n) && After(g, Chain(g, step, n, i)) == State(f, step, n)
    decreases n - i
  {
    if i == n {
      CutWhole(g, Plan([], Complete));
    } else {
      var h := After(g, step(g, i));
      AfterThen(g, step(g, i), Chain(h, step, n, i + 1));
      StateStep(f, step, i, g);
      ChainCompletes(f, step, n, i + 1, h);
    }
  }

  // ----- Lists of writes -----

  /** Write j of a list; lowVoltage(j) is the supply monitor's flag then. */
  function WriteStep(tab: Table, writes: seq<Write>, lowVoltage: nat -> bool): (Flash, nat) -> Plan {
    (g: Flash, j: nat) =>
      if j < |writes| then WritePlan(g, tab, writes[j].0, writes[j].1, lowVoltage(j)) else Plan([], Complete)
  }

  function WritesPlan(f: Flash, tab: Table, writes: seq<Write>, lowVoltage: nat -> bool): Plan {
    Chain(f, WriteStep(tab, writes, lowVoltage), |writes|, 0)
  }

  predicate LegalWrites(writes: seq<Write>) {
    forall j :: 0 <= j < |writes| ==> writes[j].0 != BLANK
  }

  lemma LowVoltageSucceeds(f: Flash, tab: Table, a: Halfword, d: Halfword, lowVoltage: bool)
    requires WritePlan(f, tab, a, d, lowVoltage).status == Complete
    ensures WritePlan(f, tab, a, d, lowVoltage) == WritePlan(f, tab, a, d, false)
  {
  }

  /** A list of writes has succeeded and has left the flash g. */
  ghost predicate Written(f: Flash, tab: Table, writes: seq<Write>, g: Flash) {
    AllSucceed(f, tab, writes) && g == WriteAll(f, tab, writes)
  }

  /** A write that has succeeded did so whatever the supply monitor said. */
  lemma WrittenOneMore(f: Flash, tab: Table, writes: seq<Write>, g: Flash,
                       w: Write, lowVoltage: bool)
    requires Written(f, tab, writes, g) && w.0 != BLANK && WritePlan(g, tab, w.0, w.1, lowVoltage).status == Complete
    ensures Written(f, tab, writes + [w], After(g, WritePlan(g, tab, w.0, w.1, lowVoltage)))
  {
    LowVoltageSucceeds(g, tab, w.0, w.1, lowVoltage);
    WriteAllSnoc(f, tab, writes, w);
  }

  lemma StepWritten(f: Flash, tab: Table, writes: seq<Write>, lowVoltage: nat -> bool, i: nat, g: Flash)
    requires i < |writes| && writes[i].0 != BLANK && Written(f, tab, writes[..i], g)
    requires WriteStep(tab, writes, lowVoltage)(g, i).status == Complete
    ensures Written(f, tab, writes[..i + 1], After(g, WriteStep(tab, writes, lowVoltage)(g, i)))
  {
    WrittenOneMore(f, tab, writes[..i], g, writes[i], lowVoltage(i));
    assert writes[..i + 1] == writes[..i] + [writes[i]];
  }

  lemma {:induction false} StateWritten(f: Flash, tab: Table, writes: seq<Write>,
                                        lowVoltage: nat -> bool, n: nat)
    requires n <= |writes| && LegalWrites(writes) && AllComplete(f, WriteStep(tab, writes, lowVoltage), n)
    ensures Written(f, tab, writes[..n], State(f, WriteStep(tab, writes, lowVoltage), n))
  {
    if n > 0 {
      var step := WriteStep(tab, writes, lowVoltage);
      StateWritten(f, tab, writes, lowVoltage, n - 1);
      StepWritten(f, tab, writes, lowVoltage, n - 1, State(f, step, n - 1));
    }
  }

  lemma NoneComplete(f: Flash, step: (Flash, nat) -> Plan)
    ensures AllComplete(f, step, 0) && State(f, step, 0) == f
  {
  }

  /** A list of writes that all succeed. */
  lemma StoreCommits(f: Flash, tab: Table, writes: seq<Write>, lowVoltage: nat -> bool)
    requires LegalWrites(writes) && WritesPlan(f, tab, writes, lowVoltage).status == Complete
    ensures AllSucceed(f, tab, writes) && After(f, WritesPlan(f, tab, writes, lowVoltage)) == WriteAll(f, tab, writes)
  {
    var step := WriteStep(tab, writes, lowVoltage);
    NoneComplete(f, step);
    ChainCompletes(f, step, |writes|, 0, f);
    StateWritten(f, tab, writes, lowVoltage, |writes|);
    assert writes[..|writes|] == writes;
  }

  /** What a cut write leaves: the contents, and most of the receiving page. */
  ghost predicate Left(f: Flash, tab: Table, m: Contents) {
    Preserves(f, tab, m) && Spent(f, 2 + |tab|)
  }

  lemma LeftByOne(f: Flash, tab: Table, m: Contents, a: Halfword, d: Halfword, lowVoltage: bool, k: nat)
    returns (took: bool)
    requires Legal(tab) && Clean(f, tab, m) && a != BLANK && k <= |WritePlan(f, tab, a, d, lowVoltage).ops|
    ensures Left(Cut(f, WritePlan(f, tab, a, d, lowVoltage), k), tab, if took then m[a := d] else m)
  {
    var p: PageId :| Holds(f, p, tab, m);
    took := WriteKeeps(f, p, tab, m, a, d, lowVoltage, k);
  }

  lemma LeftByNothing(f: Flash, tab: Table, m: Contents)
    requires Clean(f, tab, m)
    ensures Left(f, tab, m)
  {
    var p: PageId :| Holds(f, p, tab, m);
    ErasedSpends(f, 1 - p, 2 + |tab|);
  }

  lemma LeftRecovers(f: Flash, tab: Table, m: Contents)
    requires Legal(tab) && Left(f, tab, m) && 2 * |tab| + 1 <= SLOTS - 1
    ensures RecoversTo(f, tab, m)
  {
    InitRecovers(f, tab, m, 2 + |tab|);
  }

  lemma OneMoreWritten(m: Contents, writes: seq<Write>, n: nat)
    requires n < |writes|
    ensures LastWritten(m, writes[..n + 1]) == LastWritten(m, writes[..n])[writes[n].0 := writes[n].1]
  {
    assert writes[..n + 1][..n] == writes[..n];
  }

  /** A list that is cut leaves a first part of its values stored and nothing else changed: that is
      what the next EE_Init brings back. */
  lemma StoreCut(f: Flash, tab: Table, m: Contents, writes: seq<Write>, lowVoltage: nat -> bool, k: nat)
    returns (stored: nat)
    requires LegalWrites(writes) && Legal(tab) && Clean(f, tab, m) && 2 * |tab| + 1 <= SLOTS - 1
    requires k <= |WritesPlan(f, tab, writes, lowVoltage).ops|
    ensures stored <= |writes|
    ensures RecoversTo(Cut(f, WritesPlan(f, tab, writes, lowVoltage), k), tab, LastWritten(m, writes[..stored]))
  {
    var step := WriteStep(tab, writes, lowVoltage);
    NoneComplete(f, step);
    var at, k' := ChainCut(f, step, |writes|, 0, f, k, Cut(f, Chain(f, step, |writes|, 0), k));
    StateWritten(f, tab, writes, lowVoltage, at);
    WriteAllKeeps(f, tab, m, writes[..at]);
    var g, c := WriteAll(f, tab, writes[..at]), LastWritten(m, writes[..at]);
    stored := at;
    if at == |writes| {
      LeftByNothing(g, tab, c);
      LeftRecovers(g, tab, c);
    } else {
      var a, d := writes[at].0, writes[at].1;
      var took := LeftByOne(g, tab, c, a, d, lowVoltage(at), k');
      LeftRecovers(Cut(g, WritePlan(g, tab, a, d, lowVoltage(at)), k'), tab, if took then c[a := d] else c);
      stored := if took then at + 1 else at;
      OneMoreWritten(m, writes, at);
    }
  }

  // ----- Consecutive halfwords -----

  /** The writes that store consecutive halfwords from base on. */
  function Consecutive(base: nat, ws: seq<Halfword>): (writes: seq<Write>)
    requires base + |ws| <= BLANK
    ensures |writes| == |ws|
  {
    seq(|ws|, i requires 0 <= i < |ws| => (base + i, ws[i]))
  }

  predicate ReadsAll(f: Flash, base: nat, ws: seq<Halfword>)
    requires base + |ws| <= BLANK
  {
    forall a: Halfword :: base <= a < base + |ws| ==> Read(f, a) == Found(ws[a - base])
  }

  /** Later writes are to other addresses. */
  predicate Elsewhere(later: seq<Write>, base: nat, n: nat) {
    forall j :: 0 <= j < |later| ==> !(base <= later[j].0 < base + n)
  }

  /** One halfword, after everything that was written since. */
  lemma HalfwordSince(f: Flash, tab: Table, m: Contents, base: nat, ws: seq<Halfword>,
                      later: seq<Write>, a: Halfword)
    requires base + |ws| <= BLANK && base <= a < base + |ws| && Elsewhere(later, base, |ws|)
    requires Legal(tab) && Clean(f, tab, m) && AllSucceed(f, tab, Consecutive(base, ws) + later)
    ensures var writes := Consecutive(base, ws) + later;
            Read(WriteAll(f, tab, writes), a) ==
            if a !in tab && TransferFrom(f, tab, writes, a - base + 1) then NotFound else Found(ws[a - base])
  {
    LastInList(base, ws, later, a);
    LastWriteIsRead(f, tab, m, Consecutive(base, ws) + later, a, a - base);
  }

  lemma LastInList(base: nat, ws: seq<Halfword>, later: seq<Write>, a: Halfword)
    requires base + |ws| <= BLANK && base <= a < base + |ws| && Elsewhere(later, base, |ws|)
    ensures var writes := Consecutive(base, ws) + later;
            writes[a - base] == (a, ws[a - base]) && Untouched(writes, a - base + 1, a)
  {
    var writes := Consecutive(base, ws) + later;
    forall j | a - base + 1 <= j < |writes| ensures writes[j].0 != a {
      if j >= |ws| {
        assert writes[j] == later[j - |ws|];
      }
    }
  }

  lemma {:induction false} TransferFromLess(f: Flash, tab: Table, writes: seq<Write>, lo: nat, hi: nat)
    requires lo <= hi && TransferFrom(f, tab, writes, hi)
    ensures TransferFrom(f, tab, writes, lo)
    decreases |writes|
  {
    var n := |writes| - 1;
    if !Transfers(WriteAll(f, tab, writes[..n]), writes[n].0, writes[n].1) {
      TransferFromLess(f, tab, writes[..n], lo, hi);
    }
  }

  /** Registered halfwords are read back whatever was written elsewhere since. */
  lemma RegisteredSurvive(f: Flash, tab: Table, m: Contents, base: nat, ws: seq<Halfword>, later: seq<Write>)
    requires base + |ws| <= BLANK && Elsewhere(later, base, |ws|)
    requires forall a: Halfword :: base <= a < base + |ws| ==> a in tab
    requires Legal(tab) && Clean(f, tab, m) && AllSucceed(f, tab, Consecutive(base, ws) + later)
    ensures ReadsAll(WriteAll(f, tab, Consecutive(base, ws) + later), base, ws)
  {
    forall a: Halfword | base <= a < base + |ws|
      ensures Read(WriteAll(f, tab, Consecutive(base, ws) + later), a) == Found(ws[a - base])
    {
      HalfwordSince(f, tab, m, base, ws, later, a);
    }
  }

  /** Unregistered ones are read back exactly if no page transfer took place after the first of them
      was written; otherwise that first one is missing. */
  lemma UnregisteredSurvive(f: Flash, tab: Table, m: Contents, base: nat, ws: seq<Halfword>, later: seq<Write>)
    requires base + |ws| <= BLANK && ws != [] && Elsewhere(later, base, |ws|)
    requires forall a: Halfword :: base <= a < base + |ws| ==> a !in tab
    requires Legal(tab) && Clean(f, tab, m) && AllSucceed(f, tab, Consecutive(base, ws) + later)
    ensures var g := WriteAll(f, tab, Consecutive(base, ws) + later);
            if TransferFrom(f, tab, Consecutive(base, ws) + later, 1)
            then !ReadsAll(g, base, ws) && Read(g, base) == NotFound
            else ReadsAll(g, base, ws)
  {
    if TransferFrom(f, tab, Consecutive(base, ws) + later, 1) {
      HalfwordSince(f, tab, m, base, ws, later, base);
    } else {
      forall a: Halfword | base <= a < base + |ws|
        ensures Read(WriteAll(f, tab, Consecutive(base, ws) + later), a) == Found(ws[a - base])
      {
        UnregisteredHalfword(f, tab, m, base, ws, later, a);
      }
    }
  }

  lemma UnregisteredHalfword(f: Flash, tab: Table, m: Contents, base: nat, ws: seq<Halfword>,
                             later: seq<Write>, a: Halfword)
    requires base + |ws| <= BLANK && base <= a < base + |ws| && Elsewhere(later, base, |ws|)
    requires Legal(tab) && Clean(f, tab, m) && AllSucceed(f, tab, Consecutive(base, ws) + later)
    requires !TransferFrom(f, tab, Consecutive(base, ws) + later, 1)
    ensures Read(WriteAll(f, tab, Consecutive(base, ws) + later), a) == Found(ws[a - base])
  {
    var writes := Consecutive(base, ws) + later;
    HalfwordSince(f, tab, m, base, ws, later, a);
    NoTransferLater(f, tab, writes, 1, a - base + 1);
  }

  lemma NoTransferLater(f: Flash, tab: Table, writes: seq<Write>, lo: nat, hi: nat)
    requires lo <= hi && !TransferFrom(f, tab, writes, lo)
    ensures !TransferFrom(f, tab, writes, hi)
  {
    if TransferFrom(f, tab, writes, hi) {
      TransferFromLess(f, tab, writes, lo, hi);
    }
  }
}
