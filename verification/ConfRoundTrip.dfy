/** What the configuration functions of conf_general.c promise: what was stored is read back, after
    any later stores to other namespaces and the page transfers they set off; and what becomes of the
    second motor's configuration, whose addresses were never registered. */
module ConfRoundTrip {
  import opened MachineWords
  import opened FlashMemory
  import opened EepromPlan
  import opened EepromRecovery
  import opened EepromStore
  import opened EepromWrites
  import opened EepromLists
  import opened ConfGeneral

  // ----- The calls -----

  /** conf_general_store_mc_configuration, conf_general_store_app_configuration,
      conf_general_store_eeprom_var_hw and conf_general_store_eeprom_var_custom. */
  datatype Call =
    | Motor(second: bool, conf: seq<Byte>)
    | App(conf: seq<Byte>)
    | Hardware(address: nat, v: Word)
    | Custom(address: nat, v: Word)

  /** Structures have the sizes that the table was made for; variables have addresses 0 to 63. */
  predicate Fits(c: Call, mcSize: nat, appSize: nat) {
    match c
    case Motor(_, conf) => |conf| == mcSize
    case App(conf) => |conf| == appSize
    case Hardware(address, _) => address < EEPROM_VARS_HW
    case Custom(address, _) => address < EEPROM_VARS_CUSTOM
  }

  predicate Sizes(mcSize: nat, appSize: nat) {
    mcSize / 2 <= 1000 && appSize / 2 <= 1000
  }

  function Base(c: Call): nat {
    match c
    case Motor(second, _) => if second then EEPROM_BASE_MCCONF_2 else EEPROM_BASE_MCCONF
    case App(_) => EEPROM_BASE_APPCONF
    case Hardware(address, _) => VarAddress(EEPROM_BASE_HW, address)
    case Custom(address, _) => VarAddress(EEPROM_BASE_CUSTOM, address)
  }

  function Payload(c: Call): seq<Halfword> {
    match c
    case Motor(_, conf) => Halfwords(conf)
    case App(conf) => Halfwords(conf)
    case Hardware(_, v) => VarHalfwords(v)
    case Custom(_, v) => VarHalfwords(v)
  }

  function WritesOf(c: Call): seq<Write>
    requires Base(c) + |Payload(c)| <= BLANK
  {
    Consecutive(Base(c), Payload(c))
  }

  lemma FitsBelow(c: Call, mcSize: nat, appSize: nat)
    requires Sizes(mcSize, appSize) && Fits(c, mcSize, appSize)
    ensures Base(c) + |Payload(c)| <= EEPROM_BASE_MCCONF_2 + 1000 < BLANK
    ensures LegalWrites(WritesOf(c))
  {
  }

  /** Two calls store the same thing. */
  predicate SameTarget(c: Call, d: Call) {
    match c
    case Motor(second, _) => d.Motor? && d.second == second
    case App(_) => d.App?
    case Hardware(address, _) => d.Hardware? && d.address == address
    case Custom(address, _) => d.Custom? && d.address == address
  }

  /** The base addresses keep the namespaces apart. */
  lemma NamespacesDisjoint(c: Call, d: Call, mcSize: nat, appSize: nat)
    requires Sizes(mcSize, appSize) && Fits(c, mcSize, appSize) && Fits(d, mcSize, appSize) && !SameTarget(c, d)
    ensures Base(c) + |Payload(c)| <= Base(d) || Base(d) + |Payload(d)| <= Base(c)
  {
  }

  function IsSecond(c: Call): bool {
    c.Motor? && c.second
  }

  /** Everything but the second motor's configuration is registered. */
  lemma NamespaceRegistered(c: Call, mcSize: nat, appSize: nat, a: Halfword)
    requires Sizes(mcSize, appSize) && Fits(c, mcSize, appSize)
    requires Base(c) <= a < Base(c) + |Payload(c)|
    ensures a in Registered(mcSize, appSize) <==> !IsSecond(c)
  {
    RegisteredAddresses(mcSize, appSize, a);
  }

  method StoreStructure(e: Eeprom, c: Call, mcSize: nat, appSize: nat, lowVoltage: nat -> bool)
    returns (isOk: bool, ghost status: Status)
    requires e.Valid() && Sizes(mcSize, appSize) && Fits(c, mcSize, appSize) && (c.Motor? || c.App?)
    modifies e`power, e`dataVar, e.page0, e.page1
    ensures StoreRan(old(e.View()), old(e.power), e.tab, Base(c), Payload(c), lowVoltage, e.View(), e.power, status)
    ensures isOk <==> status == Complete
  {
    isOk, status := StoreConfiguration(e, Base(c), c.conf, lowVoltage);
  }

  method StoreVariable(e: Eeprom, c: Call, mcSize: nat, appSize: nat, lowVoltage: nat -> bool)
    returns (isOk: bool, ghost status: Status)
    requires e.Valid() && Fits(c, mcSize, appSize) && (c.Hardware? || c.Custom?)
    modifies e`power, e`dataVar, e.page0, e.page1
    ensures StoreRan(old(e.View()), old(e.power), e.tab, Base(c), Payload(c), lowVoltage, e.View(), e.power, status)
    ensures isOk <==> status == Complete
  {
    if c.Hardware? {
      isOk, status := StoreVar(e, c.v, c.address, EEPROM_BASE_HW, lowVoltage);
    } else {
      isOk, status := StoreVar(e, c.v, c.address, EEPROM_BASE_CUSTOM, lowVoltage);
    }
  }

  /** Any of the four calls. */
  method StoreCall(e: Eeprom, c: Call, mcSize: nat, appSize: nat, lowVoltage: nat -> bool)
    returns (isOk: bool, ghost status: Status)
    requires e.Valid() && Sizes(mcSize, appSize) && Fits(c, mcSize, appSize)
    modifies e`power, e`dataVar, e.page0, e.page1
    ensures StoreRan(old(e.View()), old(e.power), e.tab, Base(c), Payload(c), lowVoltage, e.View(), e.power, status)
    ensures isOk <==> status == Complete
  {
    if c.Motor? || c.App? {
      isOk, status := StoreStructure(e, c, mcSize, appSize, lowVoltage);
    } else {
      isOk, status := StoreVariable(e, c, mcSize, appSize, lowVoltage);
    }
  }

  /** A store that succeeded. */
  lemma StoreSucceeded(f: Flash, n: nat, tab: Table, c: Call, lowVoltage: nat -> bool, g: Flash, n': nat)
    requires StoreRan(f, n, tab, Base(c), Payload(c), lowVoltage, g, n', Complete)
    ensures AllSucceed(f, tab, WritesOf(c)) && g == WriteAll(f, tab, WritesOf(c))
  {
    var plan := WritesPlan(f, tab, WritesOf(c), lowVoltage);
    RanAfter(f, n, plan, g, n', Complete);
    StoreCommits(f, tab, WritesOf(c), lowVoltage);
  }

  /** A store that failed, with the supply or for another reason: a first part of its halfwords and
      nothing else is what the next EE_Init brings back. */
  lemma StoreFailed(f: Flash, n: nat, tab: Table, m: Contents, c: Call, lowVoltage: nat -> bool,
                    g: Flash, n': nat, status: Status)
    returns (stored: nat)
    requires StoreRan(f, n, tab, Base(c), Payload(c), lowVoltage, g, n', status)
    requires Legal(tab) && Clean(f, tab, m) && 2 * |tab| + 1 <= SLOTS - 1
    ensures stored <= |Payload(c)| && RecoversTo(g, tab, LastWritten(m, WritesOf(c)[..stored]))
  {
    var plan := WritesPlan(f, tab, WritesOf(c), lowVoltage);
    stored := StoreCut(f, tab, m, WritesOf(c), lowVoltage, if n < |plan.ops| then n else |plan.ops|);
  }

  // ----- Lists of calls -----

  predicate AllFit(calls: seq<Call>, mcSize: nat, appSize: nat) {
    forall j :: 0 <= j < |calls| ==> Fits(calls[j], mcSize, appSize)
  }

  function WritesOfAll(calls: seq<Call>, mcSize: nat, appSize: nat): seq<Write>
    requires Sizes(mcSize, appSize) && AllFit(calls, mcSize, appSize)
  {
    if calls == [] then []
    else
      var n := |calls| - 1;
      FitsBelow(calls[n], mcSize, appSize);
      WritesOfAll(calls[..n], mcSize, appSize) + WritesOf(calls[n])
  }

  predicate NoneSame(c: Call, calls: seq<Call>) {
    forall j :: 0 <= j < |calls| ==> !SameTarget(c, calls[j])
  }

  /** Calls for other things leave the addresses of c alone. */
  lemma {:induction false} CallsElsewhere(c: Call, calls: seq<Call>, mcSize: nat, appSize: nat)
    requires Sizes(mcSize, appSize) && Fits(c, mcSize, appSize) && AllFit(calls, mcSize, appSize)
    requires NoneSame(c, calls)
    ensures Elsewhere(WritesOfAll(calls, mcSize, appSize), Base(c), |Payload(c)|)
  {
    if calls != [] {
      var n := |calls| - 1;
      CallsElsewhere(c, calls[..n], mcSize, appSize);
      FitsBelow(calls[n], mcSize, appSize);
      NamespacesDisjoint(c, calls[n], mcSize, appSize);
    }
  }

  /** c is stored, then the other calls. */
  function WritesSince(c: Call, later: seq<Call>, mcSize: nat, appSize: nat): (writes: seq<Write>)
    requires Sizes(mcSize, appSize) && Fits(c, mcSize, appSize) && AllFit(later, mcSize, appSize)
  {
    FitsBelow(c, mcSize, appSize);
    WritesOf(c) + WritesOfAll(later, mcSize, appSize)
  }

  /** From a clean store, c was stored successfully and then the other calls, which store other things. */
  ghost predicate StoredSince(f: Flash, m: Contents, c: Call, later: seq<Call>, mcSize: nat, appSize: nat, g: Flash) {
    && Sizes(mcSize, appSize) && Fits(c, mcSize, appSize) && AllFit(later, mcSize, appSize)
    && NoneSame(c, later) && Clean(f, Registered(mcSize, appSize), m)
    && AllSucceed(f, Registered(mcSize, appSize), WritesSince(c, later, mcSize, appSize))
    && g == WriteAll(f, Registered(mcSize, appSize), WritesSince(c, later, mcSize, appSize))
  }

  /** A stored second configuration is lost at the first page transfer after the write of its first
      halfword. */
  predicate Lost(f: Flash, c: Call, later: seq<Call>, mcSize: nat, appSize: nat)
    requires Sizes(mcSize, appSize) && Fits(c, mcSize, appSize) && AllFit(later, mcSize, appSize)
  {
    && IsSecond(c) && Payload(c) != []
    && TransferFrom(f, Registered(mcSize, appSize), WritesSince(c, later, mcSize, appSize), 1)
  }

  lemma CallAddresses(c: Call, mcSize: nat, appSize: nat)
    requires Sizes(mcSize, appSize) && Fits(c, mcSize, appSize)
    ensures Legal(Registered(mcSize, appSize)) && Base(c) + |Payload(c)| <= BLANK
    ensures forall a: Halfword :: Base(c) <= a < Base(c) + |Payload(c)| ==>
              (a in Registered(mcSize, appSize) <==> !IsSecond(c))
  {
    FitsBelow(c, mcSize, appSize);
    RegisteredAddresses(mcSize, appSize, 0);
    forall a: Halfword | Base(c) <= a < Base(c) + |Payload(c)|
      ensures a in Registered(mcSize, appSize) <==> !IsSecond(c)
    {
      NamespaceRegistered(c, mcSize, appSize, a);
    }
  }

  /** What was stored is read back, whatever else was stored since, exactly if it is not a second
      motor's configuration that was lost; and if it was, its first halfword is missing. */
  lemma StoredIsRead(f: Flash, m: Contents, c: Call, later: seq<Call>, mcSize: nat, appSize: nat, g: Flash)
    requires StoredSince(f, m, c, later, mcSize, appSize, g)
    ensures Base(c) + |Payload(c)| <= BLANK
    ensures ReadsAll(g, Base(c), Payload(c)) <==> !Lost(f, c, later, mcSize, appSize)
    ensures Lost(f, c, later, mcSize, appSize) ==> Read(g, Base(c)) == NotFound
  {
    var tab := Registered(mcSize, appSize);
    CallAddresses(c, mcSize, appSize);
    CallsElsewhere(c, later, mcSize, appSize);
    if !IsSecond(c) {
      RegisteredSurvive(f, tab, m, Base(c), Payload(c), WritesOfAll(later, mcSize, appSize));
    } else if Payload(c) != [] {
      UnregisteredSurvive(f, tab, m, Base(c), Payload(c), WritesOfAll(later, mcSize, appSize));
    }
  }

  // ----- The same in numbers -----

  predicate Cell(g: Flash, a: nat, v: nat) {
    a < 0xFFFF && v < 0x1_0000 && Read(g, a) == Found(v)
  }

  /** Bytes from that address on, two to a cell, the first one in the upper half. */
  ghost predicate BytesFrom(g: Flash, base: nat, conf: seq<Byte>) {
    forall k: nat :: 2 * k + 1 < |conf| ==> Cell(g, base + k, conf[2 * k] as nat * 256 + conf[2 * k + 1])
  }

  lemma ReadsOne(g: Flash, base: nat, data: seq<Halfword>, k: nat)
    requires base + |data| <= BLANK && k < |data| && ReadsAll(g, base, data)
    ensures Read(g, base + k) == Found(data[k])
  {
    var a: Halfword := base + k;
    assert Read(g, a) == Found(data[a - base]);
  }

  lemma HalfwordsFrom(g: Flash, base: nat, conf: seq<Byte>)
    requires base + |conf| / 2 <= BLANK
    ensures ReadsAll(g, base, Halfwords(conf)) <==> BytesFrom(g, base, conf)
  {
    if ReadsAll(g, base, Halfwords(conf)) {
      forall k: nat | 2 * k + 1 < |conf| ensures Cell(g, base + k, conf[2 * k] as nat * 256 + conf[2 * k + 1]) {
        ReadsOne(g, base, Halfwords(conf), k);
      }
    }
    if BytesFrom(g, base, conf) {
      forall a: Halfword | base <= a < base + |conf| / 2 ensures Read(g, a) == Found(Halfwords(conf)[a - base]) {
        var k := a - base;
        assert Cell(g, base + k, conf[2 * k] as nat * 256 + conf[2 * k + 1]);
      }
    }
  }

  /** The motors' structures are stored from 1000 and 5000 on, and the application's from 2000. */
  lemma StructureIsThere(g: Flash, c: Call, mcSize: nat, appSize: nat)
    requires Sizes(mcSize, appSize) && Fits(c, mcSize, appSize) && (c.Motor? || c.App?)
    ensures Base(c) + |Payload(c)| <= BLANK
    ensures ReadsAll(g, Base(c), Payload(c)) <==>
            BytesFrom(g, if c.App? then 2000 else if c.second then 5000 else 1000, c.conf)
  {
    FitsBelow(c, mcSize, appSize);
    HalfwordsFrom(g, Base(c), c.conf);
  }

  /** A variable is two cells, its upper half first, from 3000 or 4000 on. */
  predicate VariableCells(g: Flash, c: Call)
    requires c.Hardware? || c.Custom?
  {
    var a := (if c.Hardware? then 3000 else 4000) + 2 * c.address;
    Cell(g, a, c.v / 65536) && Cell(g, a + 1, c.v % 65536)
  }

  lemma VariableIsThere(g: Flash, c: Call, mcSize: nat, appSize: nat)
    requires Sizes(mcSize, appSize) && Fits(c, mcSize, appSize) && (c.Hardware? || c.Custom?)
    ensures Base(c) + |Payload(c)| <= BLANK
    ensures ReadsAll(g, Base(c), Payload(c)) <==> VariableCells(g, c)
  {
    FitsBelow(c, mcSize, appSize);
    if ReadsAll(g, Base(c), Payload(c)) {
      ReadsOne(g, Base(c), Payload(c), 0);
      ReadsOne(g, Base(c), Payload(c), 1);
    }
  }

  /** A variable is read if and only if both cells are there, and is what they say. */
  lemma VariableIsRead(g: Flash, a: nat, v: Word)
    requires a + 2 <= BLANK
    ensures VarRead(g, a) == Some(v) <==> Cell(g, a, v / 65536) && Cell(g, a + 1, v % 65536)
    ensures VarRead(g, a) == None <==> !Read(g, a).Found? || !Read(g, a + 1).Found?
  {
    if VarRead(g, a) == Some(v) {
      var high: nat, low: nat := Read(g, a).data, Read(g, a + 1).data;
      assert v == high * 65536 + low && v / 65536 == high && v % 65536 == low;
    }
  }

  // ----- The second motor -----

  /** A second motor's configuration can be read back directly after it was stored exactly if those
      of its halfwords after the first that the store does not hold yet fit the page as the first one
      has left it. */
  lemma SecondMotorExactly(f: Flash, m: Contents, c: Call, mcSize: nat, appSize: nat, g: Flash)
    requires StoredSince(f, m, c, [], mcSize, appSize, g) && IsSecond(c) && Payload(c) != []
    ensures Base(c) + |Payload(c)| <= BLANK
    ensures var w := WritesOf(c);
            var f1 := WriteAll(f, Registered(mcSize, appSize), [w[0]]);
            ReadsAll(g, Base(c), Payload(c)) <==> UsedOf(f1) + Changes(f1, w[1..]) <= SLOTS
  {
    StoredIsRead(f, m, c, [], mcSize, appSize, g);
    CallAddresses(c, mcSize, appSize);
    SecondMotorFits(f, m, c, mcSize, appSize);
  }

  lemma SecondMotorFits(f: Flash, m: Contents, c: Call, mcSize: nat, appSize: nat)
    requires Sizes(mcSize, appSize) && Fits(c, mcSize, appSize) && Payload(c) != []
    requires Clean(f, Registered(mcSize, appSize), m) && Base(c) + |Payload(c)| <= BLANK
    requires AllSucceed(f, Registered(mcSize, appSize), WritesSince(c, [], mcSize, appSize))
    ensures var w := WritesOf(c);
            var f1 := WriteAll(f, Registered(mcSize, appSize), [w[0]]);
            TransferFrom(f, Registered(mcSize, appSize), WritesSince(c, [], mcSize, appSize), 1) <==>
            UsedOf(f1) + Changes(f1, w[1..]) > SLOTS
  {
    var tab, w := Registered(mcSize, appSize), WritesOf(c);
    RegisteredAddresses(mcSize, appSize, 0);
    SinceAlone(c, mcSize, appSize);
    FitsAfterFirst(f, tab, m, w[0], w[1..]);
  }

  lemma SinceAlone(c: Call, mcSize: nat, appSize: nat)
    requires Sizes(mcSize, appSize) && Fits(c, mcSize, appSize) && Payload(c) != []
    ensures Base(c) + |Payload(c)| <= BLANK && |WritesOf(c)| > 0
    ensures WritesSince(c, [], mcSize, appSize) == [WritesOf(c)[0]] + WritesOf(c)[1..]
    ensures Distinct([WritesOf(c)[0]] + WritesOf(c)[1..])
  {
    FitsBelow(c, mcSize, appSize);
    ConsecutiveDistinct(Base(c), Payload(c));
    Unit(WritesOf(c));
  }

  lemma ConsecutiveDistinct(base: nat, data: seq<Halfword>)
    requires base + |data| <= BLANK
    ensures Distinct(Consecutive(base, data))
  {
  }

  lemma Unit<T>(w: seq<T>)
    ensures w + [] == w
    ensures w != [] ==> [w[0]] + w[1..] == w
  {
  }

  /** And from every clean store, stores to one custom variable are enough to lose it. */
  lemma SecondMotorLost(f: Flash, m: Contents, mcSize: nat, appSize: nat, a: Halfword)
    returns (writes: seq<Write>)
    requires Sizes(mcSize, appSize) && Clean(f, Registered(mcSize, appSize), m)
    requires EEPROM_BASE_MCCONF_2 <= a < EEPROM_BASE_MCCONF_2 + mcSize / 2
    ensures AllSucceed(f, Registered(mcSize, appSize), writes)
    ensures forall w <- writes :: w.0 == EEPROM_BASE_CUSTOM
    ensures Read(WriteAll(f, Registered(mcSize, appSize), writes), a) == NotFound
  {
    RegisteredAddresses(mcSize, appSize, a);
    RegisteredAddresses(mcSize, appSize, EEPROM_BASE_CUSTOM);
    writes := LossReachable(f, Registered(mcSize, appSize), m, EEPROM_BASE_CUSTOM, a);
  }

  // ----- From the bytes stored to the bytes read -----

  predicate SameBytes(read: seq<Byte>, conf: seq<Byte>) {
    |read| == |conf| && forall i :: 0 <= i < 2 * (|conf| / 2) ==> read[i] == conf[i]
  }

  lemma ReadBackBytes(g: Flash, base: nat, conf: seq<Byte>, read: seq<Byte>, defaults: seq<Byte>)
    requires |read| == |conf| && base + |conf| / 2 <= BLANK && ConfigurationRead(g, base, read, defaults)
    ensures ReadsAll(g, base, Halfwords(conf)) ==> SameBytes(read, conf)
    ensures |conf| >= 2 && Read(g, base) == NotFound ==> read == defaults
  {
    if ReadsAll(g, base, Halfwords(conf)) {
      forall i | 0 <= i < 2 * (|conf| / 2) ensures read[i] == conf[i] {
        HalfwordBytes(g, base, conf, read, defaults, i / 2);
      }
    }
  }

  lemma HalfwordBytes(g: Flash, base: nat, conf: seq<Byte>, read: seq<Byte>, defaults: seq<Byte>, k: nat)
    requires |read| == |conf| && base + |conf| / 2 <= BLANK && ConfigurationRead(g, base, read, defaults)
    requires ReadsAll(g, base, Halfwords(conf)) && k < |conf| / 2
    ensures read[2 * k] == conf[2 * k] && read[2 * k + 1] == conf[2 * k + 1]
  {
    var a: Halfword := base + k;
    assert Read(g, a) == Found(Halfwords(conf)[a - base]);
    assert Read(g, base + k) == Found(Pack(read[2 * k], read[2 * k + 1]));
  }

  lemma ReadBackVar(g: Flash, base: nat, v: Word)
    requires base + 2 <= BLANK && ReadsAll(g, base, VarHalfwords(v))
    ensures VarRead(g, base) == Some(v)
  {
    var a: Halfword, b: Halfword := base, base + 1;
    assert Read(g, a) == Found(VarHalfwords(v)[0]) && Read(g, b) == Found(VarHalfwords(v)[1]);
  }

  /** The round trip of a configuration: the same bytes, or the defaults if it was lost. */
  lemma ConfigurationRoundTrip(f: Flash, m: Contents, c: Call, later: seq<Call>, mcSize: nat, appSize: nat,
                               g: Flash, read: seq<Byte>, defaults: seq<Byte>)
    requires StoredSince(f, m, c, later, mcSize, appSize, g)
    requires (c.Motor? || c.App?) && |read| == |c.conf|
    ensures Base(c) + |c.conf| / 2 <= BLANK
    ensures ConfigurationRead(g, Base(c), read, defaults) ==>
              if Lost(f, c, later, mcSize, appSize) then read == defaults else SameBytes(read, c.conf)
  {
    StoredIsRead(f, m, c, later, mcSize, appSize, g);
    if ConfigurationRead(g, Base(c), read, defaults) {
      ReadBackBytes(g, Base(c), c.conf, read, defaults);
    }
  }

  /** The round trip of a 32-bit variable. */
  lemma VarRoundTrip(f: Flash, m: Contents, c: Call, later: seq<Call>, mcSize: nat, appSize: nat, g: Flash)
    requires StoredSince(f, m, c, later, mcSize, appSize, g) && (c.Hardware? || c.Custom?)
    ensures Base(c) + 2 <= BLANK && VarRead(g, Base(c)) == Some(c.v)
  {
    StoredIsRead(f, m, c, later, mcSize, appSize, g);
    ReadBackVar(g, Base(c), c.v);
  }

  lemma SinceNothing(f: Flash, m: Contents, c: Call, later: seq<Call>, mcSize: nat, appSize: nat, g: Flash)
    requires Sizes(mcSize, appSize) && Fits(c, mcSize, appSize) && Clean(f, Registered(mcSize, appSize), m)
    requires Base(c) + |Payload(c)| <= BLANK
    requires AllSucceed(f, Registered(mcSize, appSize), WritesOf(c))
    requires g == WriteAll(f, Registered(mcSize, appSize), WritesOf(c))
    ensures StoredSince(f, m, c, later[..0], mcSize, appSize, g)
  {
    assert later[..0] == [];
    assert WritesSince(c, [], mcSize, appSize) == WritesOf(c);
  }

  lemma WritesOfOneMore(later: seq<Call>, i: nat, mcSize: nat, appSize: nat)
    requires Sizes(mcSize, appSize) && AllFit(later, mcSize, appSize) && i < |later|
    ensures Base(later[i]) + |Payload(later[i])| <= BLANK
    ensures WritesOfAll(later[..i + 1], mcSize, appSize) ==
            WritesOfAll(later[..i], mcSize, appSize) + WritesOf(later[i])
  {
    FitsBelow(later[i], mcSize, appSize);
    assert later[..i + 1][..i] == later[..i] && later[..i + 1][i] == later[i];
  }

  lemma WritesOneMore(c: Call, later: seq<Call>, i: nat, mcSize: nat, appSize: nat)
    requires Sizes(mcSize, appSize) && Fits(c, mcSize, appSize) && AllFit(later, mcSize, appSize) && i < |later|
    ensures Base(later[i]) + |Payload(later[i])| <= BLANK
    ensures WritesSince(c, later[..i + 1], mcSize, appSize) ==
            WritesSince(c, later[..i], mcSize, appSize) + WritesOf(later[i])
  {
    FitsBelow(c, mcSize, appSize);
    WritesOfOneMore(later, i, mcSize, appSize);
    Associates(WritesOf(c), WritesOfAll(later[..i], mcSize, appSize), WritesOf(later[i]));
  }

  lemma Associates<T>(x: seq<T>, y: seq<T>, z: seq<T>)
    ensures x + (y + z) == (x + y) + z
  {
  }

  lemma SinceOneMore(f: Flash, m: Contents, c: Call, later: seq<Call>, i: nat, mcSize: nat, appSize: nat,
                     g: Flash, h: Flash)
    requires i < |later| && StoredSince(f, m, c, later[..i], mcSize, appSize, g)
    requires AllFit(later, mcSize, appSize) && NoneSame(c, later)
    requires Base(later[i]) + |Payload(later[i])| <= BLANK
    requires AllSucceed(g, Registered(mcSize, appSize), WritesOf(later[i]))
    requires h == WriteAll(g, Registered(mcSize, appSize), WritesOf(later[i]))
    ensures StoredSince(f, m, c, later[..i + 1], mcSize, appSize, h)
  {
    WritesOneMore(c, later, i, mcSize, appSize);
    WriteAllAppend(f, Registered(mcSize, appSize), WritesSince(c, later[..i], mcSize, appSize), WritesOf(later[i]));
  }

  // ----- The same as a run of the code -----

  /** The call numbered i, counting c as the first, fails on what the calls before it have left. */
  ghost predicate FailedAt(i: nat, f: Flash, m: Contents, c: Call, later: seq<Call>, mcSize: nat, appSize: nat,
                           lowVoltage: nat -> bool, h: Flash, n: nat, g: Flash, n': nat, status: Status)
    requires Sizes(mcSize, appSize)
  {
    && i <= |later| && status != Complete
    && (if i == 0 then h == f else StoredSince(f, m, c, later[..i - 1], mcSize, appSize, h))
    && var x := if i == 0 then c else later[i - 1];
       StoreRan(h, n, Registered(mcSize, appSize), Base(x), Payload(x), lowVoltage, g, n', status)
  }

  /** c is stored, then the other calls, one after the other until one fails. */
  method StoreAll(e: Eeprom, c: Call, later: seq<Call>, mcSize: nat, appSize: nat, lowVoltage: nat -> bool,
                  ghost m: Contents)
    returns (isOk: bool, ghost at: nat, ghost h: Flash, ghost n: nat, ghost status: Status)
    requires Sizes(mcSize, appSize) && Fits(c, mcSize, appSize) && AllFit(later, mcSize, appSize) && NoneSame(c, later)
    requires e.Valid() && e.tab == Registered(mcSize, appSize) && Clean(e.View(), e.tab, m)
    modifies e`power, e`dataVar, e.page0, e.page1
    ensures isOk ==> StoredSince(old(e.View()), m, c, later, mcSize, appSize, e.View())
    ensures !isOk ==> FailedAt(at, old(e.View()), m, c, later, mcSize, appSize, lowVoltage, h, n,
                               e.View(), e.power, status)
  {
    ghost var f := e.View();
    at, h, n := 0, f, e.power;
    isOk, status := StoreCall(e, c, mcSize, appSize, lowVoltage);
    if !isOk {
      return;
    }
    StoreSucceeded(f, n, e.tab, c, lowVoltage, e.View(), e.power);
    SinceNothing(f, m, c, later, mcSize, appSize, e.View());
    var i := 0;
    while i < |later|
      invariant 0 <= i <= |later|
      invariant StoredSince(f, m, c, later[..i], mcSize, appSize, e.View())
    {
      at, h, n := i + 1, e.View(), e.power;
      isOk, status := StoreCall(e, later[i], mcSize, appSize, lowVoltage);
      if !isOk {
        return;
      }
      StoreSucceeded(h, n, e.tab, later[i], lowVoltage, e.View(), e.power);
      SinceOneMore(f, m, c, later, i, mcSize, appSize, h, e.View());
      i := i + 1;
    }
    assert later[..i] == later;
    isOk := true;
  }

  /** And then c is read. */
  method StoreThenRead(e: Eeprom, c: Call, later: seq<Call>, mcSize: nat, appSize: nat, conf: array<Byte>,
                       defaults: seq<Byte>, lowVoltage: nat -> bool, ghost m: Contents)
    returns (isOk: bool, ghost at: nat, ghost h: Flash, ghost n: nat, ghost status: Status)
    requires Sizes(mcSize, appSize) && Fits(c, mcSize, appSize) && AllFit(later, mcSize, appSize) && NoneSame(c, later)
    requires e.Valid() && e.tab == Registered(mcSize, appSize) && Clean(e.View(), e.tab, m)
    requires (c.Motor? || c.App?) && conf.Length == |c.conf| == |defaults|
    requires conf as object != e.page0 && conf as object != e.page1
    modifies e`power, e`dataVar, e.page0, e.page1, conf
    ensures isOk ==> if Lost(old(e.View()), c, later, mcSize, appSize) then conf[..] == defaults
                     else SameBytes(conf[..], c.conf)
    ensures !isOk ==> FailedAt(at, old(e.View()), m, c, later, mcSize, appSize, lowVoltage, h, n,
                               e.View(), e.power, status)
  {
    ghost var f := e.View();
    isOk, at, h, n, status := StoreAll(e, c, later, mcSize, appSize, lowVoltage, m);
    if isOk {
      FitsBelow(c, mcSize, appSize);
      ReadConfiguration(e, Base(c), conf, defaults);
      ConfigurationRoundTrip(f, m, c, later, mcSize, appSize, e.View(), conf[..], defaults);
    }
  }
}
