/** Whole runs of the EEPROM emulation: writes and boots, each cut by a power failure at any step. */
module EepromRuns {
  import opened MachineWords
  import opened FlashMemory
  import opened EepromPlan
  import opened EepromPages
  import opened EepromRecovery
  import opened EepromSafety

  datatype Event =
    | Write(a: Halfword, d: Halfword, lowVoltage: bool, power: nat)
    | Boot(power: nat)

  /** Between events the firmware either serves writes or is down until EE_Init completes; `cuts`
      counts the boots since it last ran, none of which completed. */
  datatype Machine = Machine(flash: Flash, running: bool, cuts: nat)

  function PlanOf(s: Machine, tab: Table, e: Event): Plan {
    match e
    case Write(a, d, lowVoltage, _) => WritePlan(s.flash, tab, a, d, lowVoltage)
    case Boot(_) => InitPlan(s.flash, tab)
  }

  /** The event's last step was done and its function returned FLASH_COMPLETE. */
  predicate Succeeds(s: Machine, tab: Table, e: Event) {
    |PlanOf(s, tab, e).ops| <= e.power && PlanOf(s, tab, e).status == Complete
  }

  /** A write refused before it touched the flash leaves the firmware running. */
  function Next(s: Machine, tab: Table, e: Event): Machine {
    var plan := PlanOf(s, tab, e);
    var running := Succeeds(s, tab, e) || (e.Write? && plan.ops == []);
    Machine(Powered(s.flash, plan, e.power), running, if running || e.Write? then 0 else s.cuts + 1)
  }

  predicate Allowed(s: Machine, tab: Table, e: Event) {
    match e
    case Write(a, _, _, _) => s.running && a != BLANK
    case Boot(power) => !BothValidCut(s.flash, tab, power)
  }

  function Run(s: Machine, tab: Table, events: seq<Event>): Machine
    decreases |events|
  {
    if events == [] then s else Run(Next(s, tab, events[0]), tab, events[1..])
  }

  predicate AllowedRun(s: Machine, tab: Table, events: seq<Event>)
    decreases |events|
  {
    events == [] || (Allowed(s, tab, events[0]) && AllowedRun(Next(s, tab, events[0]), tab, events[1..]))
  }

  /** The slots of a receiving page that a cut write and those boots can have spent. */
  function Spending(cuts: nat, tab: Table): nat {
    2 + (cuts + 1) * |tab|
  }

  ghost predicate Consistent(s: Machine, tab: Table, m: Contents) {
    if s.running then Clean(s.flash, tab, m)
    else Preserves(s.flash, tab, m) && Spent(s.flash, Spending(s.cuts, tab))
  }

  /** What the store is good for. A running machine reads exactly the contents. If it is down, the
      next EE_Init that is not cut brings them back if and only if the receiving page has room for
      the copies still to be made; and it has, unless too many boots in a row have failed. */
  ghost predicate Delivers(s: Machine, tab: Table, m: Contents) {
    if s.running then Clean(s.flash, tab, m)
    else
      && (RecoversTo(s.flash, tab, m) <==> HasRoom(s.flash, tab))
      && (Spending(s.cuts, tab) + |tab| <= SLOTS ==> RecoversTo(s.flash, tab, m))
  }

  lemma ConsistentDelivers(s: Machine, tab: Table, m: Contents)
    requires Legal(tab) && Consistent(s, tab, m)
    ensures Delivers(s, tab, m)
  {
    if !s.running {
      var n := Spending(s.cuts, tab);
      InitCompletesExactly(s.flash, tab, m);
      if n + |tab| <= SLOTS {
        SpentHasRoom(s.flash, tab, n);
      }
    }
  }

  /** The contents after those writes of a run that took effect. */
  function Replay(m: Contents, events: seq<Event>, took: seq<bool>): Contents
    requires |took| == |events|
    decreases |events|
  {
    if events == [] then m
    else
      var m' := if events[0].Write? && took[0] then m[events[0].a := events[0].d] else m;
      Replay(m', events[1..], took[1..])
  }

  /** Every write that reported success is among those that took effect. */
  predicate KeepsPromises(s: Machine, tab: Table, events: seq<Event>, took: seq<bool>)
    requires |took| == |events|
    decreases |events|
  {
    events == [] ||
    ((events[0].Write? && Succeeds(s, tab, events[0]) ==> took[0]) &&
     KeepsPromises(Next(s, tab, events[0]), tab, events[1..], took[1..]))
  }

  lemma WriteConsistent(s: Machine, tab: Table, m: Contents, e: Event) returns (took: bool)
    requires Legal(tab) && Consistent(s, tab, m) && Allowed(s, tab, e) && e.Write?
    ensures Consistent(Next(s, tab, e), tab, if took then m[e.a := e.d] else m)
    ensures Succeeds(s, tab, e) ==> took
  {
    var plan := PlanOf(s, tab, e);
    var p: PageId :| Holds(s.flash, p, tab, m);
    took := WriteKeeps(s.flash, p, tab, m, e.a, e.d, e.lowVoltage,
                       if e.power < |plan.ops| then e.power else |plan.ops|);
  }

  lemma BootConsistent(s: Machine, tab: Table, m: Contents, e: Event)
    requires Legal(tab) && Consistent(s, tab, m) && Allowed(s, tab, e) && e.Boot?
    ensures Consistent(Next(s, tab, e), tab, m)
  {
    if s.running {
      var p: PageId :| Holds(s.flash, p, tab, m);
      InitOfClean(s.flash, p, tab, m);
      CutWhole(s.flash, InitPlan(s.flash, tab));
    } else {
      RestartKeeps(s.flash, tab, m, e.power, Spending(s.cuts, tab));
      OneMore(s.cuts + 1, |tab|);
    }
  }

  lemma {:induction false} RunConsistent(s: Machine, tab: Table, m: Contents, events: seq<Event>)
    returns (took: seq<bool>)
    requires Legal(tab) && Consistent(s, tab, m) && AllowedRun(s, tab, events)
    ensures |took| == |events| && KeepsPromises(s, tab, events, took)
    ensures Consistent(Run(s, tab, events), tab, Replay(m, events, took))
    decreases |events|
  {
    if events == [] {
      took := [];
    } else {
      var e := events[0];
      var first := false;
      if e.Write? {
        first := WriteConsistent(s, tab, m, e);
      } else {
        BootConsistent(s, tab, m, e);
      }
      var m' := if e.Write? && first then m[e.a := e.d] else m;
      var rest := RunConsistent(Next(s, tab, e), tab, m', events[1..]);
      took := [first] + rest;
      assert took[1..] == rest;
    }
  }

  /** The main theorem. In every run of writes and boots, each cut by a power failure at any
      step but the one unsafe step of EE_Init, there is a choice of writes that took effect,
      every successful one among them, such that the store delivers exactly their result. */
  lemma RunsAreAtomic(s: Machine, tab: Table, m: Contents, events: seq<Event>)
    returns (took: seq<bool>)
    requires Legal(tab) && Consistent(s, tab, m) && AllowedRun(s, tab, events)
    ensures |took| == |events| && KeepsPromises(s, tab, events, took)
    ensures Delivers(Run(s, tab, events), tab, Replay(m, events, took))
  {
    took := RunConsistent(s, tab, m, events);
    ConsistentDelivers(Run(s, tab, events), tab, Replay(m, events, took));
  }
}
