/** Port numbers and address rules of the register demux (`gen_reg_out`), and the way of an address
    through both maps. */
module RegMap {
  import opened Config
  import opened Crossbar

  const AM_BROM: nat := 0x0200_0000
  const AM_REGS: nat := 0x0300_0000
  const AM_LLC: nat := 0x0300_1000
  const AM_SLINK: nat := 0x0300_6000
  const AM_BUS_ERR: nat := 0x0300_8000
  const AM_CLIC: nat := 0x0800_0000

  datatype RegDev =
    | Clint | Plic | Regs | Bootrom | Llc | Uart | I2c | SpiHost | Gpio | SlinkCfg | Vga | IrqRouter | AxiRt
    | Clic(core: nat) | BusErr(unit: nat)

  /** All devices there can be, in the order of the rules: 31 CLICs and 33 bus error units come last. */
  const DEVICES: nat := 77

  function Nth(k: nat): RegDev {
    if k == 0 then Clint else if k == 1 then Plic else if k == 2 then Regs else if k == 3 then Bootrom
    else if k == 4 then Llc else if k == 5 then Uart else if k == 6 then I2c else if k == 7 then SpiHost
    else if k == 8 then Gpio else if k == 9 then SlinkCfg else if k == 10 then Vga else if k == 11 then IrqRouter
    else if k == 12 then AxiRt else if k < 44 then Clic(k - 13) else BusErr(k - 44)
  }

  function Place(d: RegDev): nat {
    match d
    case Clint => 0 case Plic => 1 case Regs => 2 case Bootrom => 3 case Llc => 4 case Uart => 5 case I2c => 6
    case SpiHost => 7 case Gpio => 8 case SlinkCfg => 9 case Vga => 10 case IrqRouter => 11 case AxiRt => 12
    case Clic(j) => 13 + j
    case BusErr(j) => 44 + j
  }

  predicate Present(cfg: Cfg, d: RegDev) {
    match d
    case Clint => true case Plic => true case Regs => true case Bootrom => cfg.bootrom case Llc => cfg.llcNotBypass
    case Uart => cfg.uart case I2c => cfg.i2c case SpiHost => cfg.spiHost case Gpio => cfg.gpio
    case SlinkCfg => cfg.serialLink case Vga => cfg.vga case IrqRouter => cfg.irqRouter case AxiRt => cfg.axiRt
    case Clic(j) => cfg.clic && j < cfg.numCores
    case BusErr(j) => cfg.busErr && j < 2 + cfg.numCores
  }

  /** The documented window of a device. */
  function Window(d: RegDev): (nat, nat) {
    match d
    case Clint => (0x0204_0000, 0x0208_0000)
    case Plic => (0x0400_0000, 0x0800_0000)
    case Regs => (AM_REGS, AM_REGS + 0x1000)
    case Bootrom => (AM_BROM, AM_BROM + 0x40000)
    case Llc => (AM_LLC, AM_LLC + 0x1000)
    case Uart => (0x0300_2000, 0x0300_3000)
    case I2c => (0x0300_3000, 0x0300_4000)
    case SpiHost => (0x0300_4000, 0x0300_5000)
    case Gpio => (0x0300_5000, 0x0300_6000)
    case SlinkCfg => (AM_SLINK, AM_SLINK + 0x1000)
    case Vga => (0x0300_7000, 0x0300_8000)
    case IrqRouter => (0x0208_0000, 0x020c_0000)
    case AxiRt => (0x020c_0000, 0x0210_0000)
    case Clic(j) => (AM_CLIC + j * 0x40000, AM_CLIC + (j + 1) * 0x40000)
    case BusErr(j) => (AM_BUS_ERR + j * 0x40, AM_BUS_ERR + (j + 1) * 0x40)
  }

  /** `reg_out_t` has 32 port fields for bus error units. */
  predicate HasField(d: RegDev) {
    d.BusErr? ==> d.unit < 32
  }

  // ----- The enabled devices

  /** The enabled ones among the first `k` devices. */
  function Devs(cfg: Cfg, k: nat): (s: seq<RegDev>)
    ensures |s| <= k
  {
    if k == 0 then [] else Devs(cfg, k - 1) + (if Present(cfg, Nth(k - 1)) then [Nth(k - 1)] else [])
  }

  /** Port 0 is the error subordinate; the enabled devices follow in order. */
  function PortOf(cfg: Cfg, d: RegDev): nat {
    |Devs(cfg, Place(d))| + 1
  }

  function RuleFor(cfg: Cfg, d: RegDev, port: nat): Rule {
    Rule(Cut(port), Window(d).0, Window(d).1)
  }

  function DevRules(cfg: Cfg, k: nat): (s: seq<Rule>)
    ensures |s| == |Devs(cfg, k)|
  {
    seq(|Devs(cfg, k)|, q requires 0 <= q < |Devs(cfg, k)| => RuleFor(cfg, Devs(cfg, k)[q], q + 1))
  }

  function RegExternal(cfg: Cfg, extBase: nat, n: nat): (s: seq<Rule>)
    requires n <= |cfg.regExt|
    ensures |s| == n
  {
    seq(n, k requires 0 <= k < n => Rule(Cut(extBase + cfg.regExt[k].idx), cfg.regExt[k].start, cfg.regExt[k].pte))
  }

  function RegExtBase(cfg: Cfg): nat {
    |Devs(cfg, DEVICES)| + 1
  }

  function RegRules(cfg: Cfg): seq<Rule> {
    DevRules(cfg, DEVICES) + RegExternal(cfg, Cut(RegExtBase(cfg)), |cfg.regExt|)
  }

  /** What the demux decodes: `gen_reg_map` takes as many entries of the map as the 6-bit rule count
      says (hw/cheshire_soc.sv:295-303). */
  function Decoded(cfg: Cfg): seq<Rule> {
    Pad(RegRules(cfg))[..Cut(|RegRules(cfg)|)]
  }

  /** All ports, the rule count and the indices of external regions fit. */
  predicate RegFits(cfg: Cfg) {
    && RegExtBase(cfg) + cfg.regExtNumSlv < TWO_6 && |RegRules(cfg)| < TWO_6
    && forall k :: 0 <= k < |cfg.regExt| ==> cfg.regExt[k].idx < cfg.regExtNumSlv
  }

  // ----- The generator

  /** `reg_out_t`; `ports` holds the port fields, where a device that is not in it reads as 0. */
  datatype RegOut = RegOut(ports: map<RegDev, nat>, extBase: nat, numOut: nat, numRules: nat, ruleMap: seq<Rule>)

  /** The state of the generator after the first `k` devices: last port, last rule index, fields, map. */
  ghost predicate Built(cfg: Cfg, k: nat, i: nat, r: int, ports: map<RegDev, nat>, rules: seq<Rule>) {
    && i == r + 1 == |Devs(cfg, k)| && rules == DevRules(cfg, k)
    && (forall d :: d in ports <==> Place(d) < k && Present(cfg, d) && HasField(d))
    && (forall d :: d in ports ==> ports[d] == Cut(PortOf(cfg, d)))
  }

  lemma PlaceNth(k: nat)
    ensures Place(Nth(k)) == k
  {}

  lemma NthPlace(d: RegDev)
    requires d.Clic? ==> d.core < 31
    ensures Nth(Place(d)) == d
  {}

  lemma Absent(cfg: Cfg, k: nat, d: RegDev)
    requires cfg.numCores < 32 && Place(d) == k && Present(cfg, d)
    ensures d == Nth(k)
  {
    NthPlace(d);
  }

  /** A write to a field that does not exist has no effect. */
  function SetField(ports: map<RegDev, nat>, d: RegDev, port: nat): map<RegDev, nat> {
    if HasField(d) then ports[d := port] else ports
  }

  /** One device: either it is there and gets the next port and rule, or nothing changes. */
  lemma Next(cfg: Cfg, k: nat, i: nat, r: int, ports: map<RegDev, nat>, rules: seq<Rule>)
    requires cfg.numCores < 32 && Built(cfg, k, i, r, ports, rules)
    ensures if Present(cfg, Nth(k))
            then Built(cfg, k + 1, i + 1, r + 1, SetField(ports, Nth(k), Cut(i + 1)),
                       rules + [RuleFor(cfg, Nth(k), i + 1)])
            else Built(cfg, k + 1, i, r, ports, rules)
  {
    hide Cut, Nth, Present, Place, Window;
    PlaceNth(k);
    forall d | Place(d) == k && Present(cfg, d) ensures d == Nth(k) {
      Absent(cfg, k, d);
    }
    if Present(cfg, Nth(k)) {
      assert Devs(cfg, k + 1) == Devs(cfg, k) + [Nth(k)];
      assert DevRules(cfg, k + 1) == DevRules(cfg, k) + [RuleFor(cfg, Nth(k), i + 1)];
    } else {
      assert Devs(cfg, k + 1) == Devs(cfg, k);
    }
  }

  /** A conditional line of `gen_reg_out`: the next port and the next rule for device `k`. */
  method Attach(cfg: Cfg, ghost k: nat, m: RuleMap, i0: nat, r0: nat, ports0: map<RegDev, nat>,
                enabled: bool, d: RegDev, start: nat, pte: nat)
    returns (i: nat, r: nat, ports: map<RegDev, nat>)
    requires cfg.numCores < 32 && m.Valid() && Built(cfg, k, i0, r0, ports0, m.rules) && r0 + 1 == |m.rules|
    requires Place(d) == k && (d.Clic? ==> d.core < 31) && enabled == Present(cfg, d) && (start, pte) == Window(d)
    modifies m, m.entries
    ensures m.Valid() && Built(cfg, k + 1, i, r, ports, m.rules) && r + 1 == |m.rules|
  {
    hide Built, RuleMap.Valid, Cut, Nth, Present, Window, SetField;
    i, r, ports := i0, r0, ports0;
    NthPlace(d);
    Next(cfg, k, i, r, ports, m.rules);
    if enabled {
      i := i + 1;
      ports := SetField(ports, d, Cut(i));
      r := r + 1;
      m.Put(r, Rule(Cut(i), start, pte));
    }
  }

  /** The part of `gen_reg_out` for single devices. */
  method GenSingle(cfg: Cfg, m: RuleMap) returns (i: nat, r: nat, ports: map<RegDev, nat>)
    requires cfg.numCores < 32 && m.Valid() && m.rules == []
    modifies m, m.entries
    ensures m.Valid() && Built(cfg, 13, i, r, ports, m.rules) && r + 1 == |m.rules|
  {
    hide Built, RuleMap.Valid, Cut, Nth;
    i, r := 3, 2;
    ports := map[Clint := 1, Plic := 2, Regs := 3];
    m.Put(0, Rule(1, 0x0204_0000, 0x0208_0000));
    m.Put(1, Rule(2, 0x0400_0000, 0x0800_0000));
    m.Put(2, Rule(3, AM_REGS, AM_REGS + 0x1000));
    FirstThree(cfg, ports, m.rules);
    i, r, ports := GenEarlier(cfg, m, i, r, ports);
    i, r, ports := GenLater(cfg, m, i, r, ports);
  }

  method GenEarlier(cfg: Cfg, m: RuleMap, i0: nat, r0: nat, ports0: map<RegDev, nat>)
    returns (i: nat, r: nat, ports: map<RegDev, nat>)
    requires cfg.numCores < 32 && m.Valid() && Built(cfg, 3, i0, r0, ports0, m.rules) && r0 + 1 == |m.rules|
    modifies m, m.entries
    ensures m.Valid() && Built(cfg, 8, i, r, ports, m.rules) && r + 1 == |m.rules|
  {
    hide Built, RuleMap.Valid, Cut, Nth;
    i, r, ports := i0, r0, ports0;
    i, r, ports := Attach(cfg, 3, m, i, r, ports, cfg.bootrom, Bootrom, AM_BROM, AM_BROM + 0x40000);
    i, r, ports := Attach(cfg, 4, m, i, r, ports, cfg.llcNotBypass, Llc, AM_LLC, AM_LLC + 0x1000);
    i, r, ports := Attach(cfg, 5, m, i, r, ports, cfg.uart, Uart, 0x0300_2000, 0x0300_3000);
    i, r, ports := Attach(cfg, 6, m, i, r, ports, cfg.i2c, I2c, 0x0300_3000, 0x0300_4000);
    i, r, ports := Attach(cfg, 7, m, i, r, ports, cfg.spiHost, SpiHost, 0x0300_4000, 0x0300_5000);
  }

  method GenLater(cfg: Cfg, m: RuleMap, i0: nat, r0: nat, ports0: map<RegDev, nat>)
    returns (i: nat, r: nat, ports: map<RegDev, nat>)
    requires cfg.numCores < 32 && m.Valid() && Built(cfg, 8, i0, r0, ports0, m.rules) && r0 + 1 == |m.rules|
    modifies m, m.entries
    ensures m.Valid() && Built(cfg, 13, i, r, ports, m.rules) && r + 1 == |m.rules|
  {
    hide Built, RuleMap.Valid, Cut, Nth;
    i, r, ports := i0, r0, ports0;
    i, r, ports := Attach(cfg, 8, m, i, r, ports, cfg.gpio, Gpio, 0x0300_5000, 0x0300_6000);
    i, r, ports := Attach(cfg, 9, m, i, r, ports, cfg.serialLink, SlinkCfg, AM_SLINK, AM_SLINK + 0x1000);
    i, r, ports := Attach(cfg, 10, m, i, r, ports, cfg.vga, Vga, 0x0300_7000, 0x0300_8000);
    i, r, ports := Attach(cfg, 11, m, i, r, ports, cfg.irqRouter, IrqRouter, 0x0208_0000, 0x020c_0000);
    i, r, ports := Attach(cfg, 12, m, i, r, ports, cfg.axiRt, AxiRt, 0x020c_0000, 0x0210_0000);
  }

  lemma FirstThree(cfg: Cfg, ports: map<RegDev, nat>, rules: seq<Rule>)
    requires ports == map[Clint := 1, Plic := 2, Regs := 3] && cfg.numCores < 32
    requires rules == [RuleFor(cfg, Clint, 1), RuleFor(cfg, Plic, 2), RuleFor(cfg, Regs, 3)]
    ensures Built(cfg, 3, 3, 2, ports, rules)
  {
    assert Built(cfg, 0, 0, -1, map[], []);
    hide Built, Window, RuleFor;
    var p1: map<RegDev, nat> := map[Clint := 1];
    Next(cfg, 0, 0, -1, map[], []);
    assert Built(cfg, 1, 1, 0, p1, [RuleFor(cfg, Clint, 1)]);
    Next(cfg, 1, 1, 0, p1, [RuleFor(cfg, Clint, 1)]);
    assert p1[Plic := 2] == map[Clint := 1, Plic := 2];
    Next(cfg, 2, 2, 1, p1[Plic := 2], [RuleFor(cfg, Clint, 1), RuleFor(cfg, Plic, 2)]);
    assert p1[Plic := 2][Regs := 3] == ports;
  }

  lemma {:induction false} SkipAll(cfg: Cfg, k: nat, n: nat, i: nat, r: int, ports: map<RegDev, nat>, rules: seq<Rule>)
    requires cfg.numCores < 32 && Built(cfg, k, i, r, ports, rules)
    requires forall q :: k <= q < k + n ==> !Present(cfg, Nth(q))
    ensures Built(cfg, k + n, i, r, ports, rules)
    decreases n
  {
    hide Built, Present, Nth;
    if n > 0 {
      Next(cfg, k, i, r, ports, rules);
      SkipAll(cfg, k + 1, n - 1, i, r, ports, rules);
    }
  }

  /** The per-core loops. */
  method GenPerCore(cfg: Cfg, m: RuleMap, i0: nat, r0: nat, ports0: map<RegDev, nat>)
    returns (i: nat, r: nat, ports: map<RegDev, nat>)
    requires cfg.numCores < 32 && m.Valid() && Built(cfg, 13, i0, r0, ports0, m.rules) && r0 + 1 == |m.rules|
    modifies m, m.entries
    ensures m.Valid() && Built(cfg, DEVICES, i, r, ports, m.rules) && r + 1 == |m.rules|
  {
    hide Built, RuleMap.Valid, Cut;
    i, r, ports := i0, r0, ports0;
    if cfg.clic {
      for j := 0 to cfg.numCores
        invariant m.Valid() && Built(cfg, 13 + j, i, r, ports, m.rules) && r + 1 == |m.rules|
      {
        i, r, ports := Attach(cfg, 13 + j, m, i, r, ports, true, Clic(j),
                              AM_CLIC + j * 0x40000, AM_CLIC + (j + 1) * 0x40000);
      }
    }
    ghost var n := if cfg.clic then cfg.numCores else 0;
    SkipAll(cfg, 13 + n, 31 - n, i, r, ports, m.rules);
    if cfg.busErr {
      for j := 0 to 2 + cfg.numCores
        invariant m.Valid() && Built(cfg, 44 + j, i, r, ports, m.rules) && r + 1 == |m.rules|
      {
        i, r, ports := Attach(cfg, 44 + j, m, i, r, ports, true, BusErr(j),
                              AM_BUS_ERR + j * 0x40, AM_BUS_ERR + (j + 1) * 0x40);
      }
    }
    n := if cfg.busErr then 2 + cfg.numCores else 0;
    SkipAll(cfg, 44 + n, 33 - n, i, r, ports, m.rules);
  }

  /** Every enabled device gets the next port and the rule just before it, whatever is left of both
      in their 6-bit fields; external rules follow. */
  method GenRegOut(cfg: Cfg) returns (ret: RegOut)
    requires Legal(cfg)
    ensures forall d :: d in ret.ports <==> Place(d) < DEVICES && Present(cfg, d) && HasField(d)
    ensures forall d :: d in ret.ports ==> ret.ports[d] == Cut(PortOf(cfg, d))
    ensures ret.extBase == Cut(RegExtBase(cfg)) && ret.numOut == Cut(RegExtBase(cfg) + cfg.regExtNumSlv)
    ensures ret.numRules == Cut(|RegRules(cfg)|) && ret.ruleMap == Pad(RegRules(cfg))
    ensures ret.ruleMap[..ret.numRules] == Decoded(cfg)
    ensures RegFits(cfg) ==>
              && ret.ruleMap[..ret.numRules] == RegRules(cfg) && ret.extBase == RegExtBase(cfg)
              && ret.numOut == RegExtBase(cfg) + cfg.regExtNumSlv
              && forall d :: d in ret.ports ==> ret.ports[d] == PortOf(cfg, d) < ret.extBase
    ensures RegExtBase(cfg) <= TWO_6 ==> forall r :: 0 <= r < RegExtBase(cfg) - 1 ==> ret.ruleMap[r].idx == r + 1
  {
    hide Cut, Legal, Pad;
    Counts(cfg);
    var m := new RuleMap();
    var i, r, ports := GenSingle(cfg, m);
    i, r, ports := GenPerCore(cfg, m, i, r, ports);
    i, r := i + 1, r + 1;
    var extBase := Cut(i);
    ret := RegOut(ports, extBase, Cut(i + cfg.regExtNumSlv), Cut(r + |cfg.regExt|), []);
    for k := 0 to |cfg.regExt|
      invariant m.Valid() && fresh(m) && fresh(m.entries) && r == |m.rules|
      invariant m.rules == DevRules(cfg, DEVICES) + RegExternal(cfg, extBase, k)
    {
      m.Put(r, Rule(Cut(extBase + cfg.regExt[k].idx), cfg.regExt[k].start, cfg.regExt[k].pte));
      r := r + 1;
      ExternalStep(cfg, extBase, k);
    }
    ret := ret.(ruleMap := m.entries[..]);
    RulesNamePorts(cfg);
    if RegFits(cfg) {
      DecodedWhole(cfg);
      forall d | d in ret.ports ensures PortOf(cfg, d) < RegExtBase(cfg) {
        PortsBelowExternal(cfg, d);
      }
    }
  }

  /** A rule count that fits decodes to all rules. */
  lemma DecodedWhole(cfg: Cfg)
    requires |RegRules(cfg)| < TWO_6
    ensures Decoded(cfg) == RegRules(cfg)
  {
    hide RegRules;
  }

  lemma RulesNamePorts(cfg: Cfg)
    ensures RegExtBase(cfg) <= TWO_6 ==> forall r :: 0 <= r < RegExtBase(cfg) - 1 ==> Pad(RegRules(cfg))[r].idx == r + 1
  {}

  lemma ExternalStep(cfg: Cfg, extBase: nat, k: nat)
    requires k < |cfg.regExt|
    ensures RegExternal(cfg, extBase, k + 1) == RegExternal(cfg, extBase, k)
              + [Rule(Cut(extBase + cfg.regExt[k].idx), cfg.regExt[k].start, cfg.regExt[k].pte)]
  {}

  // ----- Ports

  /** The rule just before an enabled device's port number is its own. */
  lemma DeviceRule(cfg: Cfg, d: RegDev)
    requires cfg.numCores < 32 && Present(cfg, d)
    ensures Place(d) < DEVICES && PortOf(cfg, d) <= |Devs(cfg, DEVICES)|
    ensures Devs(cfg, DEVICES)[PortOf(cfg, d) - 1] == d
  {
    NthPlace(d);
    var k := Place(d);
    assert Devs(cfg, k + 1) == Devs(cfg, k) + [d];
    DevsGrow(cfg, k + 1, DEVICES);
  }

  lemma {:induction false} DevsGrow(cfg: Cfg, k: nat, n: nat)
    requires k <= n
    ensures Devs(cfg, k) <= Devs(cfg, n)
    decreases n
  {
    if k < n {
      DevsGrow(cfg, k, n - 1);
    }
  }

  /** No enabled device is given the error port, and no two the same, exactly if the internal
      devices are at most 63. */
  lemma PortsDistinctExactly(cfg: Cfg)
    requires cfg.numCores < 32
    ensures (forall d :: Present(cfg, d) ==> Cut(PortOf(cfg, d)) != 0) <==> RegExtBase(cfg) <= TWO_6
    ensures RegExtBase(cfg) <= TWO_6 ==>
              forall d, e :: Present(cfg, d) && Present(cfg, e) && Cut(PortOf(cfg, d)) == Cut(PortOf(cfg, e)) ==> d == e
  {
    hide Present, Place;
    forall d | Present(cfg, d)
      ensures PortOf(cfg, d) <= |Devs(cfg, DEVICES)| && Devs(cfg, DEVICES)[PortOf(cfg, d) - 1] == d
    {
      DeviceRule(cfg, d);
    }
    if RegExtBase(cfg) > TWO_6 {
      var d := Devs(cfg, DEVICES)[TWO_6 - 1];
      DevsPresent(cfg, DEVICES, TWO_6 - 1);
      assert PortOf(cfg, d) == TWO_6;
      assert Cut(PortOf(cfg, d)) == 0;
    }
  }

  /** With CLICs and bus error units the external base, and with it the port count, no longer fits
      from 29 cores on; from 30 on, neither do the ports of the devices themselves. */
  lemma ManyCores(cfg: Cfg)
    requires cfg.numCores < 32 && cfg.clic && cfg.busErr
    ensures RegExtBase(cfg) >= 6 + 2 * cfg.numCores
    ensures cfg.numCores >= 29 ==> RegExtBase(cfg) >= TWO_6
    ensures cfg.numCores >= 30 ==> RegExtBase(cfg) > TWO_6
  {
    hide Present, Nth;
    AllPresent(cfg, 0, 3);
    DevsGrow(cfg, 3, 13);
    AllPresent(cfg, 13, cfg.numCores);
    DevsGrow(cfg, 13 + cfg.numCores, 44);
    AllPresent(cfg, 44, 2 + cfg.numCores);
    DevsGrow(cfg, 46 + cfg.numCores, DEVICES);
  }

  /** All single devices are there. */
  predicate AllSingle(cfg: Cfg) {
    && cfg.bootrom && cfg.llcNotBypass && cfg.uart && cfg.i2c && cfg.spiHost && cfg.gpio && cfg.serialLink && cfg.vga
    && cfg.irqRouter && cfg.axiRt
  }

  lemma FullCount(cfg: Cfg)
    requires cfg.numCores < 32 && AllSingle(cfg) && cfg.clic && cfg.busErr
    ensures RegExtBase(cfg) == 16 + 2 * cfg.numCores
  {
    hide Present, Nth, AllSingle;
    AllPresent(cfg, 0, 13);
    AllPresent(cfg, 13, cfg.numCores);
    NonePresent(cfg, 13 + cfg.numCores, 31 - cfg.numCores);
    AllPresent(cfg, 44, 2 + cfg.numCores);
    NonePresent(cfg, 46 + cfg.numCores, 31 - cfg.numCores);
  }

  /** Every enabled device has a port field, except the last bus error unit of 31 cores. */
  lemma FieldsExactly(cfg: Cfg)
    requires cfg.numCores < 32
    ensures (forall d :: Present(cfg, d) ==> HasField(d)) <==> !(cfg.busErr && cfg.numCores == 31)
  {
    if cfg.busErr && cfg.numCores == 31 {
      assert Present(cfg, BusErr(32)) && !HasField(BusErr(32));
    }
  }

  /** At most ten optional single devices, and the per-core ones. */
  lemma FewPorts(cfg: Cfg)
    requires cfg.numCores < 32
    ensures RegExtBase(cfg) <= 14 + (if cfg.clic then cfg.numCores else 0)
                               + (if cfg.busErr then 2 + cfg.numCores else 0)
  {
    var m, n := if cfg.clic then cfg.numCores else 0, if cfg.busErr then 2 + cfg.numCores else 0;
    hide Present, Nth;
    AtMost(cfg, 13, m);
    NonePresent(cfg, 13 + m, 31 - m);
    AtMost(cfg, 44, n);
    NonePresent(cfg, 44 + n, 33 - n);
  }

  lemma {:induction false} AtMost(cfg: Cfg, k: nat, n: nat)
    ensures |Devs(cfg, k + n)| <= |Devs(cfg, k)| + n
  {
    hide Present, Nth;
    if n > 0 {
      AtMost(cfg, k, n - 1);
    }
  }

  lemma {:induction false} NonePresent(cfg: Cfg, k: nat, n: nat)
    requires cfg.numCores < 32
    requires (13 + (if cfg.clic then cfg.numCores else 0) <= k && k + n <= 44)
             || (44 + (if cfg.busErr then 2 + cfg.numCores else 0) <= k && k + n <= DEVICES)
    ensures |Devs(cfg, k + n)| == |Devs(cfg, k)|
    decreases n
  {
    if n > 0 {
      NonePresent(cfg, k, n - 1);
    }
  }

  lemma {:induction false} AllPresent(cfg: Cfg, k: nat, n: nat)
    requires n == 0 || (k == 0 && n <= 3) || (k == 0 && n <= 13 && AllSingle(cfg))
             || (k == 13 && cfg.clic && n <= cfg.numCores < 32) || (k == 44 && cfg.busErr && n <= 2 + cfg.numCores)
    ensures |Devs(cfg, k + n)| == |Devs(cfg, k)| + n
    decreases n
  {
    if n > 0 {
      AllPresent(cfg, k, n - 1);
    }
  }

  /** The enabled devices are listed in the order of their places. */
  lemma {:induction false} DevsPresent(cfg: Cfg, k: nat, q: nat)
    requires q < |Devs(cfg, k)| && k <= DEVICES
    ensures var d := Devs(cfg, k)[q];
            Present(cfg, d) && Place(d) < k && |Devs(cfg, Place(d))| == q && Nth(Place(d)) == d
    decreases k
  {
    hide Present, Nth, Place;
    PlaceNth(k - 1);
    if q < |Devs(cfg, k - 1)| {
      DevsPresent(cfg, k - 1, q);
    }
  }

  // ----- The register rules do not overlap

  lemma WindowsApart(d: RegDev, e: RegDev, p: nat, q: nat)
    requires d != e && (d.Clic? ==> d.core < 31) && (e.Clic? ==> e.core < 31)
    requires (d.BusErr? ==> d.unit < 33) && (e.BusErr? ==> e.unit < 33)
    ensures Apart(Rule(p, Window(d).0, Window(d).1), Rule(q, Window(e).0, Window(e).1))
  {}

  lemma RegisterDisjoint(cfg: Cfg)
    requires WellFormed(cfg)
    ensures Disjoint(RegRules(cfg))
  {
    var s := DevRules(cfg, DEVICES);
    var t := RegExternal(cfg, Cut(RegExtBase(cfg)), |cfg.regExt|);
    DevicesApart(cfg);
    ExternalApart(cfg);
    hide Disjoint, DevRules, RegExternal, Cut, Legal, LlcSize;
    DisjointBelow(s, t, AM_SPM);
  }

  lemma DevicesApart(cfg: Cfg)
    requires cfg.numCores < 32
    ensures Disjoint(DevRules(cfg, DEVICES))
    ensures forall p :: 0 <= p < |DevRules(cfg, DEVICES)| ==> DevRules(cfg, DEVICES)[p].pte <= AM_SPM
  {
    var s, ds := DevRules(cfg, DEVICES), Devs(cfg, DEVICES);
    hide Present, Place, Nth, Window, Devs, Apart;
    forall p, q | 0 <= p < |s| && 0 <= q < |s| && p != q ensures Apart(s[p], s[q]) {
      DevsPresent(cfg, DEVICES, p);
      DevsPresent(cfg, DEVICES, q);
      InRange(cfg, ds[p]);
      InRange(cfg, ds[q]);
      WindowsApart(ds[p], ds[q], Cut(p + 1), Cut(q + 1));
    }
    forall p | 0 <= p < |s| ensures s[p].pte <= AM_SPM {
      DevsPresent(cfg, DEVICES, p);
      InRange(cfg, ds[p]);
      WindowsBelow(ds[p]);
    }
  }

  lemma WindowsBelow(d: RegDev)
    requires (d.Clic? ==> d.core < 31) && (d.BusErr? ==> d.unit < 33)
    ensures Window(d).0 < Window(d).1 <= AM_SPM
  {}

  lemma InRange(cfg: Cfg, d: RegDev)
    requires cfg.numCores < 32 && Present(cfg, d)
    ensures (d.Clic? ==> d.core < 31) && (d.BusErr? ==> d.unit < 33)
  {}

  lemma ExternalApart(cfg: Cfg)
    requires WellFormed(cfg)
    ensures var t := RegExternal(cfg, Cut(RegExtBase(cfg)), |cfg.regExt|);
            Disjoint(t) && forall q :: 0 <= q < |t| ==> AM_SPM <= t[q].start
  {
    hide Cut, Legal, LlcSize, Opt;
    var t := RegExternal(cfg, Cut(RegExtBase(cfg)), |cfg.regExt|);
    var n := |Opt(cfg, LlcOut) + Opt(cfg, Crossbar.Slink) + cfg.axiExt|;
    forall q | 0 <= q < |t| ensures t[q].start == Params(cfg)[n + q].start && t[q].pte == Params(cfg)[n + q].pte {
      assert Params(cfg)[n + q] == cfg.regExt[q];
    }
    forall p, q | 0 <= p < q < |t| ensures Apart(t[p], t[q]) {
      assert Apart(Params(cfg)[n + p], Params(cfg)[n + q]);
    }
  }

  // ----- The way of an address through both maps

  predicate Within(w: (nat, nat), a: nat) {
    w.0 <= a < w.1
  }

  /** An address in the window of an enabled device reaches its port through the map that is decoded,
      below the port count; the crossbar leads there exactly if the device is no CLIC. */
  lemma DeviceReached(cfg: Cfg, d: RegDev, a: nat)
    requires WellFormed(cfg) && RegFits(cfg) && Present(cfg, d) && Within(Window(d), a)
    ensures Routed(Decoded(cfg), a, PortOf(cfg, d)) && 0 < PortOf(cfg, d) < RegExtBase(cfg)
    ensures !d.Clic? <==> Routed(AxiRules(cfg), a, AxiPort(cfg, RegDemux))
  {
    Counts(cfg);
    InRange(cfg, d);
    WindowRouted(cfg, d, a);
    DecodedWhole(cfg);
    PortsBelowExternal(cfg, d);
    hide WellFormed, RegFits, RegRules, Decoded, PortOf, RegExtBase, Routed;
    DemuxWindow(cfg, a);
  }

  lemma WindowRouted(cfg: Cfg, d: RegDev, a: nat)
    requires WellFormed(cfg) && RegExtBase(cfg) <= TWO_6 && Present(cfg, d) && Within(Window(d), a)
    ensures Routed(RegRules(cfg), a, PortOf(cfg, d))
  {
    Counts(cfg);
    DeviceRule(cfg, d);
    RegisterDisjoint(cfg);
    hide Disjoint, Devs, Legal, LlcSize, Params;
    var p := PortOf(cfg, d);
    assert RegRules(cfg)[p - 1] == DevRules(cfg, DEVICES)[p - 1] == RuleFor(cfg, d, p);
    RoutedByRule(RegRules(cfg), p - 1, a);
  }

  /** The base addresses that programs are linked with lead to the devices of those names. */
  lemma LinkedAddresses(cfg: Cfg)
    requires WellFormed(cfg) && RegFits(cfg)
    ensures Routed(Decoded(cfg), 0x0204_0000, PortOf(cfg, Clint))
    ensures Routed(Decoded(cfg), 0x0400_0000, PortOf(cfg, Plic))
    ensures Routed(Decoded(cfg), 0x0300_0000, PortOf(cfg, Regs))
    ensures cfg.bootrom ==> Routed(Decoded(cfg), 0x0200_0000, PortOf(cfg, Bootrom))
    ensures cfg.llcNotBypass ==> Routed(Decoded(cfg), 0x0300_1000, PortOf(cfg, Llc))
    ensures cfg.uart ==> Routed(Decoded(cfg), 0x0300_2000, PortOf(cfg, Uart))
    ensures cfg.i2c ==> Routed(Decoded(cfg), 0x0300_3000, PortOf(cfg, I2c))
    ensures cfg.spiHost ==> Routed(Decoded(cfg), 0x0300_4000, PortOf(cfg, SpiHost))
    ensures cfg.gpio ==> Routed(Decoded(cfg), 0x0300_5000, PortOf(cfg, Gpio))
    ensures cfg.serialLink ==> Routed(Decoded(cfg), 0x0300_6000, PortOf(cfg, SlinkCfg))
    ensures cfg.vga ==> Routed(Decoded(cfg), 0x0300_7000, PortOf(cfg, Vga))
    ensures cfg.axiRt ==> Routed(Decoded(cfg), 0x020C_0000, PortOf(cfg, AxiRt))
                          && Routed(Decoded(cfg), 0x020C_1FFC, PortOf(cfg, AxiRt))
  {
    hide WellFormed, RegFits, Decoded, Routed, PortOf, Within, Window, AxiRules, RegExtBase;
    forall d, a: nat | Present(cfg, d) && Within(Window(d), a) ensures Routed(Decoded(cfg), a, PortOf(cfg, d)) {
      DeviceReached(cfg, d, a);
    }
    LinkedWindows();
  }

  lemma LinkedWindows()
    ensures Within(Window(Clint), 0x0204_0000) && Within(Window(Plic), 0x0400_0000) && Within(Window(Regs), 0x0300_0000)
    ensures Within(Window(Bootrom), 0x0200_0000) && Within(Window(Llc), 0x0300_1000)
    ensures Within(Window(Uart), 0x0300_2000) && Within(Window(I2c), 0x0300_3000)
    ensures Within(Window(SpiHost), 0x0300_4000)
    ensures Within(Window(Gpio), 0x0300_5000) && Within(Window(SlinkCfg), 0x0300_6000)
    ensures Within(Window(Vga), 0x0300_7000)
    ensures Within(Window(AxiRt), 0x020C_0000) && Within(Window(AxiRt), 0x020C_1FFC)
  {}

  /** All devices are reached in their windows exactly if the rules, external ones included, are fewer
      than the map has entries. */
  lemma DevicesReachedExactly(cfg: Cfg)
    requires WellFormed(cfg)
    ensures (forall d, a: nat :: Present(cfg, d) && Within(Window(d), a) ==> Routed(Decoded(cfg), a, PortOf(cfg, d)))
            <==> |RegRules(cfg)| < TWO_6
  {
    hide WellFormed, RegRules, Decoded, Routed, PortOf, Present, Window, Within;
    if |RegRules(cfg)| < TWO_6 {
      forall d, a: nat | Present(cfg, d) && Within(Window(d), a) ensures Routed(Decoded(cfg), a, PortOf(cfg, d)) {
        RulesAreDevices(cfg);
        WindowRouted(cfg, d, a);
        DecodedWhole(cfg);
      }
    } else {
      var d, a := LostDevice(cfg);
    }
  }

  lemma RulesAreDevices(cfg: Cfg)
    ensures |RegRules(cfg)| == RegExtBase(cfg) - 1 + |cfg.regExt|
  {}

  /** With more rules the count wraps around, and the device at the place it then names is lost. */
  lemma LostDevice(cfg: Cfg) returns (d: RegDev, a: nat)
    requires WellFormed(cfg) && TWO_6 <= |RegRules(cfg)|
    ensures Present(cfg, d) && Within(Window(d), a) && !Routed(Decoded(cfg), a, PortOf(cfg, d))
    ensures forall r :: r in Decoded(cfg) ==> !Covers(r, a)
  {
    Counts(cfg);
    RulesAreDevices(cfg);
    RegisterDisjoint(cfg);
    var q := |RegRules(cfg)| - TWO_6;
    assert q < |Devs(cfg, DEVICES)| <= DEVICES;
    DevsPresent(cfg, DEVICES, q);
    d := Devs(cfg, DEVICES)[q];
    a := Window(d).0;
    InRange(cfg, d);
    WindowsBelow(d);
    assert RegRules(cfg)[q] == RuleFor(cfg, d, q + 1);
    hide WellFormed, RegRules, Devs, Present, Window;
    assert Decoded(cfg) == RegRules(cfg)[..q];
    forall r | r in Decoded(cfg) ensures !Covers(r, a) {
      var p :| 0 <= p < q && RegRules(cfg)[p] == r;
      assert Apart(r, RegRules(cfg)[q]);
    }
  }

  /** 17 cores with everything enabled and fifteen external regions on one port: all ports fit. */
  const FULL_CFG: Cfg := DEFAULT_CFG.(numCores := 17, clic := true, irqRouter := true, axiRt := true, regExtNumSlv := 1,
    regExt := seq(15, k requires 0 <= k < 15 => Rule(0, 0x2000_0000 + 0x1000 * k, 0x2000_1000 + 0x1000 * k)))

  /** And yet the demux of this configuration decodes no rule at all. */
  lemma FullMapDecodesNothing()
    ensures WellFormed(FULL_CFG) && RegExtBase(FULL_CFG) + FULL_CFG.regExtNumSlv == 51
    ensures |RegRules(FULL_CFG)| == TWO_6 && Decoded(FULL_CFG) == []
  {
    FullCount(FULL_CFG);
    RulesAreDevices(FULL_CFG);
    FullRegions();
    hide Devs, Params, LlcSize, Disjoint, RegExtBase, RegRules;
  }

  lemma FullRegions()
    ensures LlcSize(FULL_CFG) == 0x20000 && Disjoint(Params(FULL_CFG))
    ensures forall k :: 0 <= k < |Params(FULL_CFG)| ==> Reserved(FULL_CFG) <= Params(FULL_CFG)[k].start
  {
    assert Params(FULL_CFG) == [Rule(2, 0x8000_0000, 0x1_0000_0000), Rule(4, 0x1_0000_0000, 0x2_0000_0000)]
                               + FULL_CFG.regExt;
  }

  lemma DemuxWindow(cfg: Cfg, a: nat)
    requires WellFormed(cfg) && 0x0200_0000 <= a < AM_SPM
    ensures a < 0x0800_0000 <==> Routed(AxiRules(cfg), a, AxiPort(cfg, RegDemux))
  {
    hide AxiRules, WellFormed;
    if a < 0x0800_0000 {
      AxiDeviceReached(cfg, RegDemux, a);
    } else {
      GapUnrouted(cfg, a);
    }
  }

  /** An address in an external register region goes through both maps to exactly its port, which lies
      above all internal ones and below the port count. */
  lemma ExternalRegReached(cfg: Cfg, k: nat, a: nat)
    requires WellFormed(cfg) && RegFits(cfg) && k < |cfg.regExt| && Covers(cfg.regExt[k], a)
    ensures Routed(AxiRules(cfg), a, AxiPort(cfg, RegDemux))
    ensures Routed(Decoded(cfg), a, RegExtBase(cfg) + cfg.regExt[k].idx)
    ensures RegExtBase(cfg) <= RegExtBase(cfg) + cfg.regExt[k].idx < RegExtBase(cfg) + cfg.regExtNumSlv
  {
    ForwardReached(cfg, k, a);
    RegisterDisjoint(cfg);
    DecodedWhole(cfg);
    hide Disjoint, WellFormed, DevRules, Devs, AxiRules, RegExtBase, RegRules, Routed, Decoded;
    ExternalAt(cfg, k);
    RoutedByRule(RegRules(cfg), |DevRules(cfg, DEVICES)| + k, a);
  }

  lemma ExternalAt(cfg: Cfg, k: nat)
    requires RegFits(cfg) && k < |cfg.regExt|
    ensures |DevRules(cfg, DEVICES)| + k < |RegRules(cfg)|
    ensures RegRules(cfg)[|DevRules(cfg, DEVICES)| + k]
         == Rule(RegExtBase(cfg) + cfg.regExt[k].idx, cfg.regExt[k].start, cfg.regExt[k].pte)
  {
    hide DevRules, RegExtBase;
    assert RegRules(cfg)[|DevRules(cfg, DEVICES)| + k] == RegExternal(cfg, Cut(RegExtBase(cfg)), |cfg.regExt|)[k];
  }

  /** Internal devices keep away from the external ports. */
  lemma PortsBelowExternal(cfg: Cfg, d: RegDev)
    requires cfg.numCores < 32 && Present(cfg, d)
    ensures 0 < PortOf(cfg, d) < RegExtBase(cfg)
  {
    DeviceRule(cfg, d);
  }

  /** The default configuration meets all assumptions on configurations. */
  lemma DefaultIsWellFormed()
    ensures WellFormed(DEFAULT_CFG) && RegFits(DEFAULT_CFG)
  {
    FewPorts(DEFAULT_CFG);
    RulesAreDevices(DEFAULT_CFG);
    DefaultRegions();
    hide RegRules, Devs, Params, LlcSize, Disjoint, RegExtBase;
  }

  lemma DefaultRegions()
    ensures LlcSize(DEFAULT_CFG) == 0x20000 && Disjoint(Params(DEFAULT_CFG))
    ensures forall k :: 0 <= k < |Params(DEFAULT_CFG)| ==> Reserved(DEFAULT_CFG) <= Params(DEFAULT_CFG)[k].start
  {
    assert Params(DEFAULT_CFG) == [Rule(2, 0x8000_0000, 0x1_0000_0000), Rule(4, 0x1_0000_0000, 0x2_0000_0000)];
  }
}
