/** The users of the EEPROM emulation in conf_general.c: the table of registered addresses, and
    configurations and 32-bit variables stored halfword by halfword. */
module ConfGeneral {
  import opened MachineWords
  import opened FlashMemory
  import opened EepromPlan
  import opened EepromRecovery
  import opened EepromStore
  import opened EepromWrites
  import opened EepromLists

  const EEPROM_BASE_MCCONF: nat := 1000
  const EEPROM_BASE_APPCONF: nat := 2000
  const EEPROM_BASE_HW: nat := 3000
  const EEPROM_BASE_CUSTOM: nat := 4000
  const EEPROM_BASE_MCCONF_2: nat := 5000
  const EEPROM_VARS_HW: nat := 64
  const EEPROM_VARS_CUSTOM: nat := 64

  // ----- VirtAddVarTab -----

  /** NB_OF_VAR, for the sizes in bytes of the two configuration structures. */
  function NbOfVar(mcSize: nat, appSize: nat): nat {
    (2 * mcSize + appSize + 1) / 2 + EEPROM_VARS_HW * 2 + EEPROM_VARS_CUSTOM * 2
  }

  /** Entry k of VirtAddVarTab: the four namespaces one after the other, then zeros. The second
      motor's namespace is not there. */
  function Entry(mcSize: nat, appSize: nat, k: nat): Halfword
    requires mcSize / 2 <= 1000 && appSize / 2 <= 1000
  {
    var app := mcSize / 2;
    var hw := app + appSize / 2;
    var custom := hw + EEPROM_VARS_HW * 2;
    var end := custom + EEPROM_VARS_CUSTOM * 2;
    if k < app then EEPROM_BASE_MCCONF + k
    else if k < hw then EEPROM_BASE_APPCONF + (k - app)
    else if k < custom then EEPROM_BASE_HW + (k - hw)
    else if k < end then EEPROM_BASE_CUSTOM + (k - custom)
    else 0
  }

  function Registered(mcSize: nat, appSize: nat): (tab: Table)
    requires mcSize / 2 <= 1000 && appSize / 2 <= 1000
    ensures |tab| == NbOfVar(mcSize, appSize)
  {
    seq(NbOfVar(mcSize, appSize), k requires 0 <= k => Entry(mcSize, appSize, k))
  }

  /** One of the four loops of conf_general_init. */
  method FillRange(virtAddVarTab: array<Halfword>, start: nat, base: nat, n: nat) returns (ind: nat)
    requires start + n <= virtAddVarTab.Length && base + n <= BLANK
    modifies virtAddVarTab
    ensures ind == start + n
    ensures forall k :: 0 <= k < virtAddVarTab.Length ==>
              virtAddVarTab[k] == if start <= k < start + n then base + (k - start) else old(virtAddVarTab[k])
  {
    ind := start;
    var i := 0;
    while i < n
      invariant 0 <= i <= n && ind == start + i
      invariant forall k :: 0 <= k < virtAddVarTab.Length ==>
                  virtAddVarTab[k] == if start <= k < ind then base + (k - start) else old(virtAddVarTab[k])
    {
      virtAddVarTab[ind] := base + i;
      ind := ind + 1;
      i := i + 1;
    }
  }

  /** conf_general_init, up to the call of EE_Init. */
  method FillVirtAddVarTab(virtAddVarTab: array<Halfword>, mcSize: nat, appSize: nat)
    requires mcSize / 2 <= 1000 && appSize / 2 <= 1000
    requires virtAddVarTab.Length == NbOfVar(mcSize, appSize)
    modifies virtAddVarTab
    ensures virtAddVarTab[..] == Registered(mcSize, appSize)
  {
    forall k | 0 <= k < virtAddVarTab.Length {
      virtAddVarTab[k] := 0;
    }
    var ind := FillRange(virtAddVarTab, 0, EEPROM_BASE_MCCONF, mcSize / 2);
    ind := FillRange(virtAddVarTab, ind, EEPROM_BASE_APPCONF, appSize / 2);
    ind := FillRange(virtAddVarTab, ind, EEPROM_BASE_HW, EEPROM_VARS_HW * 2);
    ind := FillRange(virtAddVarTab, ind, EEPROM_BASE_CUSTOM, EEPROM_VARS_CUSTOM * 2);
  }

  predicate InRange(a: Halfword, base: nat, n: nat) {
    base <= a < base + n
  }

  predicate InNamespace(mcSize: nat, appSize: nat, a: Halfword) {
    || InRange(a, EEPROM_BASE_MCCONF, mcSize / 2)
    || InRange(a, EEPROM_BASE_APPCONF, appSize / 2)
    || InRange(a, EEPROM_BASE_HW, EEPROM_VARS_HW * 2)
    || InRange(a, EEPROM_BASE_CUSTOM, EEPROM_VARS_CUSTOM * 2)
  }

  /** Where an address of a namespace is in the table. */
  function IndexOf(mcSize: nat, appSize: nat, a: Halfword): (k: nat)
    requires InNamespace(mcSize, appSize, a) && mcSize / 2 <= 1000 && appSize / 2 <= 1000
    ensures k < NbOfVar(mcSize, appSize) && Entry(mcSize, appSize, k) == a
  {
    var app := mcSize / 2;
    var hw := app + appSize / 2;
    if a < EEPROM_BASE_APPCONF then a - EEPROM_BASE_MCCONF
    else if a < EEPROM_BASE_HW then app + (a - EEPROM_BASE_APPCONF)
    else if a < EEPROM_BASE_CUSTOM then hw + (a - EEPROM_BASE_HW)
    else hw + EEPROM_VARS_HW * 2 + (a - EEPROM_BASE_CUSTOM)
  }

  /** The first entry that the loops leave at zero, if there is one. */
  function UnusedEntry(mcSize: nat, appSize: nat): nat {
    mcSize / 2 + appSize / 2 + EEPROM_VARS_HW * 2 + EEPROM_VARS_CUSTOM * 2
  }

  lemma EntryIsNamespace(mcSize: nat, appSize: nat, k: nat)
    requires mcSize / 2 <= 1000 && appSize / 2 <= 1000
    ensures var a := Entry(mcSize, appSize, k);
            if k < UnusedEntry(mcSize, appSize) then InNamespace(mcSize, appSize, a) else a == 0
  {
  }

  lemma UnusedEntryExists(mcSize: nat, appSize: nat)
    ensures UnusedEntry(mcSize, appSize) < NbOfVar(mcSize, appSize) <==> mcSize > 0 || appSize % 2 == 1
  {
  }

  /** Exactly the addresses of the four namespaces are registered, and zero, because room was
      reserved for a second motor whose addresses were never filled in. */
  lemma RegisteredAddresses(mcSize: nat, appSize: nat, a: Halfword)
    requires mcSize / 2 <= 1000 && appSize / 2 <= 1000
    ensures Legal(Registered(mcSize, appSize))
    ensures a in Registered(mcSize, appSize) <==>
            InNamespace(mcSize, appSize, a) || (a == 0 && (mcSize > 0 || appSize % 2 == 1))
  {
    var tab := Registered(mcSize, appSize);
    forall k | 0 <= k < |tab|
      ensures tab[k] != BLANK
      ensures InNamespace(mcSize, appSize, tab[k]) || (tab[k] == 0 && UnusedEntry(mcSize, appSize) < |tab|)
    {
      EntryIsNamespace(mcSize, appSize, k);
    }
    UnusedEntryExists(mcSize, appSize);
    if InNamespace(mcSize, appSize, a) {
      assert tab[IndexOf(mcSize, appSize, a)] == a;
    } else if a == 0 && UnusedEntry(mcSize, appSize) < |tab| {
      EntryIsNamespace(mcSize, appSize, UnusedEntry(mcSize, appSize));
      assert tab[UnusedEntry(mcSize, appSize)] == a;
    }
  }

  /** The table in numbers: its length, and what is where. */
  lemma TableInNumbers(mcSize: nat, appSize: nat, k: nat)
    requires mcSize / 2 <= 1000 && appSize / 2 <= 1000
    ensures var tab, app, hw := Registered(mcSize, appSize), mcSize / 2, mcSize / 2 + appSize / 2;
            && |tab| == mcSize + (appSize + 1) / 2 + 256
            && (k < app ==> tab[k] == 1000 + k)
            && (app <= k < hw ==> tab[k] == 2000 + (k - app))
            && (hw <= k < hw + 128 ==> tab[k] == 3000 + (k - hw))
            && (hw + 128 <= k < hw + 256 ==> tab[k] == 4000 + (k - hw - 128))
            && (hw + 256 <= k < |tab| ==> tab[k] == 0)
  {
  }

  // ----- Configurations -----

  function Pack(high: Byte, low: Byte): Halfword {
    high * 0x100 + low
  }

  function Halfwords(conf: seq<Byte>): (ws: seq<Halfword>)
    ensures |ws| == |conf| / 2
  {
    seq(|conf| / 2, i requires 0 <= i < |conf| / 2 => Pack(conf[2 * i], conf[2 * i + 1]))
  }

  /** What the plans of a chain from i on still do completes what they do in all. */
  ghost predicate GoesOn(f0: Flash, n0: nat, step: (Flash, nat) -> Plan, len: nat, f: Flash, n: nat, i: nat)
    requires i <= len
  {
    forall g: Flash, n': nat, status: Status :: Ran(f, n, Chain(f, step, len, i), g, n', status) ==>
      Ran(f0, n0, Chain(f0, step, len, 0), g, n', status)
  }

  lemma DidOne(f0: Flash, n0: nat, step: (Flash, nat) -> Plan, len: nat, f: Flash, n: nat, i: nat,
               g: Flash, n': nat, status: Status)
    requires i < len && GoesOn(f0, n0, step, len, f, n, i) && Ran(f, n, step(f, i), g, n', status)
    ensures status != Complete ==> Ran(f0, n0, Chain(f0, step, len, 0), g, n', status)
    ensures status == Complete ==> GoesOn(f0, n0, step, len, g, n', i + 1)
  {
    var rest := Chain(After(f, step(f, i)), step, len, i + 1);
    if status != Complete {
      RanThen(f, n, step(f, i), g, n', status, rest, g, n', status);
    } else {
      RanAfter(f, n, step(f, i), g, n', status);
      forall h, n'', s | Ran(g, n', Chain(g, step, len, i + 1), h, n'', s)
        ensures Ran(f0, n0, Chain(f0, step, len, 0), h, n'', s)
      {
        RanThen(f, n, step(f, i), g, n', status, rest, h, n'', s);
        assert Ran(f, n, Chain(f, step, len, i), h, n'', s);
      }
    }
  }

  lemma DidAll(f0: Flash, n0: nat, step: (Flash, nat) -> Plan, len: nat, f: Flash, n: nat)
    requires GoesOn(f0, n0, step, len, f, n, len)
    ensures Ran(f0, n0, Chain(f0, step, len, 0), f, n, Complete)
  {
    RanNothing(f, n, Complete);
    assert Ran(f, n, Chain(f, step, len, len), f, n, Complete);
  }

  lemma DidNothing(f: Flash, n: nat, step: (Flash, nat) -> Plan, len: nat)
    ensures GoesOn(f, n, step, len, f, n, 0)
  {
  }

  /** A list of writes was made as far as the power went. */
  ghost predicate ListRan(f: Flash, n: nat, tab: Table, writes: seq<Write>, lowVoltage: nat -> bool,
                          g: Flash, n': nat, status: Status)
  {
    Ran(f, n, WritesPlan(f, tab, writes, lowVoltage), g, n', status)
  }

  /** And consecutive halfwords were. */
  ghost predicate StoreRan(f: Flash, n: nat, tab: Table, base: nat, ws: seq<Halfword>, lowVoltage: nat -> bool,
                           g: Flash, n': nat, status: Status)
  {
    base + |ws| <= BLANK && ListRan(f, n, tab, Consecutive(base, ws), lowVoltage, g, n', status)
  }

  /** One call of EE_WriteVariable in a list of them. */
  method StoreOne(e: Eeprom, a: Halfword, data: Halfword, lowVoltage: nat -> bool, i: nat,
                  ghost writes: seq<Write>, ghost f0: Flash, ghost n0: nat)
    returns (status: Status)
    requires e.Valid() && i < |writes| && writes[i] == (a, data)
    requires GoesOn(f0, n0, WriteStep(e.tab, writes, lowVoltage), |writes|, e.View(), e.power, i)
    modifies e`power, e`dataVar, e.page0, e.page1
    ensures status != Complete ==> ListRan(f0, n0, e.tab, writes, lowVoltage, e.View(), e.power, status)
    ensures status == Complete ==>
              GoesOn(f0, n0, WriteStep(e.tab, writes, lowVoltage), |writes|, e.View(), e.power, i + 1)
  {
    ghost var f, n := e.View(), e.power;
    status := e.WriteVariable(a, data, lowVoltage(i));
    DidOne(f0, n0, WriteStep(e.tab, writes, lowVoltage), |writes|, f, n, i, e.View(), e.power, status);
  }

  /** The store loop of conf_general_store_app_configuration and conf_general_store_mc_configuration,
      from any flash. */
  method StoreConfiguration(e: Eeprom, base: nat, conf: seq<Byte>, lowVoltage: nat -> bool)
    returns (isOk: bool, ghost status: Status)
    requires e.Valid() && base + |conf| / 2 <= BLANK
    modifies e`power, e`dataVar, e.page0, e.page1
    ensures StoreRan(old(e.View()), old(e.power), e.tab, base, Halfwords(conf), lowVoltage, e.View(), e.power, status)
    ensures isOk <==> status == Complete
  {
    ghost var writes := Consecutive(base, Halfwords(conf));
    ghost var f0, n0 := e.View(), e.power;
    ghost var step := WriteStep(e.tab, writes, lowVoltage);
    DidNothing(f0, n0, step, |writes|);
    var i := 0;
    while i < |conf| / 2
      invariant 0 <= i <= |conf| / 2
      invariant GoesOn(f0, n0, step, |writes|, e.View(), e.power, i)
    {
      var written := StoreOne(e, base + i, Pack(conf[2 * i], conf[2 * i + 1]), lowVoltage, i, writes, f0, n0);
      if written != Complete {
        return false, written;
      }
      i := i + 1;
    }
    DidAll(f0, n0, step, |writes|, e.View(), e.power);
    return true, Complete;
  }

  /** Where the two halfwords of a variable are. */
  function VarAddress(base: nat, address: nat): nat {
    base + 2 * address
  }

  function VarHalfwords(v: Word): (ws: seq<Halfword>)
    ensures |ws| == 2
  {
    [v / 0x1_0000, v % 0x1_0000]
  }

  /** store_eeprom_var: the high halfword first. */
  method StoreVar(e: Eeprom, v: Word, address: nat, base: nat, lowVoltage: nat -> bool)
    returns (isOk: bool, ghost status: Status)
    requires e.Valid() && base + 2 * address + 2 <= BLANK
    modifies e`power, e`dataVar, e.page0, e.page1
    ensures StoreRan(old(e.View()), old(e.power), e.tab, VarAddress(base, address), VarHalfwords(v), lowVoltage,
                     e.View(), e.power, status)
    ensures isOk <==> status == Complete
  {
    ghost var writes := Consecutive(VarAddress(base, address), VarHalfwords(v));
    ghost var f0, n0 := e.View(), e.power;
    ghost var step := WriteStep(e.tab, writes, lowVoltage);
    DidNothing(f0, n0, step, |writes|);
    var written := StoreOne(e, base + address * 2, v / 0x1_0000, lowVoltage, 0, writes, f0, n0);
    isOk := written == Complete;
    if isOk {
      written := StoreOne(e, base + address * 2 + 1, v % 0x1_0000, lowVoltage, 1, writes, f0, n0);
      isOk := written == Complete;
      if isOk {
        DidAll(f0, n0, step, |writes|, e.View(), e.power);
      }
    }
    status := written;
  }

  // ----- Reading -----

  predicate AllFound(f: Flash, base: nat, n: nat)
    requires base + n <= BLANK
  {
    forall a: Halfword :: base <= a < base + n ==> Read(f, a).Found?
  }

  /** The bytes of a structure after it has been read: those stored if every halfword is found, and
      the default values if one is missing. */
  predicate ConfigurationRead(f: Flash, base: nat, conf: seq<Byte>, defaults: seq<Byte>)
    requires base + |conf| / 2 <= BLANK
  {
    if AllFound(f, base, |conf| / 2)
    then forall i :: 0 <= i < |conf| / 2 ==> Read(f, base + i) == Found(Pack(conf[2 * i], conf[2 * i + 1]))
    else conf == defaults
  }

  /** The loop of conf_general_read_app_configuration and conf_general_read_mc_configuration, from any
      flash. The last byte of a structure of odd size is left alone. */
  method ReadConfiguration(e: Eeprom, base: nat, conf: array<Byte>, defaults: seq<Byte>)
    requires e.Valid() && conf as object != e.page0 && conf as object != e.page1
    requires base + conf.Length / 2 <= BLANK && |defaults| == conf.Length
    modifies conf
    ensures ConfigurationRead(e.View(), base, conf[..], defaults)
    ensures AllFound(e.View(), base, conf.Length / 2) && conf.Length % 2 == 1 ==>
              conf[conf.Length - 1] == old(conf[conf.Length - 1])
  {
    var isOk := true;
    ghost var f := e.View();
    var i := 0;
    while i < conf.Length / 2
      invariant 0 <= i <= conf.Length / 2
      invariant forall a: Halfword :: base <= a < base + i ==> Read(f, a).Found?
      invariant forall k :: 0 <= k < i ==> Read(f, base + k) == Found(Pack(conf[2 * k], conf[2 * k + 1]))
      invariant forall k :: 2 * i <= k < conf.Length ==> conf[k] == old(conf[k])
      invariant e.View() == f
    {
      var read := e.ReadVariable(base + i);
      if !read.Found? {
        assert !AllFound(f, base, conf.Length / 2);
        isOk := false;
        break;
      }
      conf[2 * i] := read.data / 0x100;
      conf[2 * i + 1] := read.data % 0x100;
      assert Pack(conf[2 * i], conf[2 * i + 1]) == read.data;
      i := i + 1;
    }
    if !isOk {
      forall k | 0 <= k < conf.Length {
        conf[k] := defaults[k];
      }
      assert conf[..] == defaults;
    }
  }

  function VarRead(f: Flash, a: nat): Option<Word>
    requires a + 2 <= BLANK
  {
    var high, low := Read(f, a), Read(f, a + 1);
    if high.Found? && low.Found? then Some(high.data * 0x1_0000 + low.data) else None
  }

  /** read_eeprom_var, from any flash. */
  method ReadVar(e: Eeprom, address: nat, base: nat) returns (v: Option<Word>)
    requires e.Valid() && base + 2 * address + 2 <= BLANK
    ensures v == VarRead(e.View(), VarAddress(base, address))
  {
    v := None;
    var var0 := e.ReadVariable(base + 2 * address);
    if var0.Found? {
      var var1 := e.ReadVariable(base + 2 * address + 1);
      if var1.Found? {
        v := Some(var0.data * 0x1_0000 + var1.data);
      }
    }
  }
}
