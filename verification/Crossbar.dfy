/** Port numbers and address rules of the AXI crossbar: `gen_axi_in` and `gen_axi_out`. */
module Crossbar {
  import opened Config

  const AM_DBG: nat := 0
  const AM_SPM: nat := 0x1000_0000
  const SPM_SPAN: nat := 0x0400_0000

  // ----- Managers

  datatype AxiIn = AxiIn(cores: seq<nat>, dbg: nat, dma: nat, slink: nat, vga: nat, extBase: nat, numIn: nat)

  /** The ports of all enabled managers. */
  function InPorts(cfg: Cfg, a: AxiIn): seq<nat>
    requires cfg.numCores <= |a.cores|
  {
    a.cores[..cfg.numCores] + [a.dbg] + (if cfg.dma then [a.dma] else []) + (if cfg.serialLink then [a.slink] else [])
    + (if cfg.vga then [a.vga] else [])
  }

  /** Whatever the configuration, ports are dense, distinct, and fit the 6-bit fields. */
  method GenAxiIn(cfg: Cfg) returns (ret: AxiIn)
    requires Legal(cfg)
    ensures |ret.cores| == 32 && (forall j :: cfg.numCores <= j < 32 ==> ret.cores[j] == 0)
    ensures InPorts(cfg, ret) == Iota(ret.extBase) && ret.numIn == ret.extBase + cfg.axiExtNumMst < TWO_6
    ensures (cfg.dma || ret.dma == 0) && (cfg.serialLink || ret.slink == 0) && (cfg.vga || ret.vga == 0)
  {
    hide Iota, Legal, Cut;
    Counts(cfg);
    var cores := CorePorts(cfg.numCores);
    var i := cfg.numCores;
    var dbg, dma, slink, vga := Cut(i), 0, 0, 0;
    IotaStep(i);
    ghost var p := cores[..i] + [dbg];
    if cfg.dma {
      i := i + 1;
      dma := Cut(i);
      IotaStep(i);
    }
    p := p + (if cfg.dma then [dma] else []);
    assert p == Iota(i + 1);
    if cfg.serialLink {
      i := i + 1;
      slink := Cut(i);
      IotaStep(i);
    }
    p := p + (if cfg.serialLink then [slink] else []);
    assert p == Iota(i + 1);
    if cfg.vga {
      i := i + 1;
      vga := Cut(i);
      IotaStep(i);
    }
    p := p + (if cfg.vga then [vga] else []);
    assert p == Iota(i + 1);
    i := i + 1;
    ret := AxiIn(cores, dbg, dma, slink, vga, Cut(i), Cut(i + cfg.axiExtNumMst));
  }

  /** The first loop of `gen_axi_in`. */
  method CorePorts(n: nat) returns (c: seq<nat>)
    requires n < 32
    ensures |c| == 32 && c[..n] == Iota(n) && forall j :: n <= j < 32 ==> c[j] == 0
  {
    hide Iota, Cut;
    var cores := new nat[32](_ => 0);
    var i := 0;
    IotaZero();
    for j := 0 to n
      invariant i == j && cores[..j] == Iota(j) && forall k :: j <= k < 32 ==> cores[k] == 0
    {
      IotaStep(i);
      cores[i] := Cut(i);
      i := i + 1;
      assert cores[..i] == cores[..j] + [j];
    }
    c := cores[..];
    assert c[..n] == cores[..n];
  }

  lemma IotaZero()
    ensures Iota(0) == []
  {}

  // ----- Subordinates

  datatype AxiOut = AxiOut(dbg: nat, regDemux: nat, llc: nat, spm: nat, dma: nat, slink: nat, extBase: nat,
                           numOut: nat, numRules: nat, ruleMap: seq<Rule>)

  datatype AxiDev = Dbg | RegDemux | LlcOut | SpmCached | SpmUncached | DmaCfg | Slink

  function One(b: bool): nat {
    if b then 1 else 0
  }

  function AxiPort(cfg: Cfg, d: AxiDev): nat {
    match d
    case Dbg => 0
    case RegDemux => 1
    case LlcOut => 2
    case SpmCached => 1 + One(cfg.llcOutConnect)
    case SpmUncached => 1 + One(cfg.llcOutConnect)
    case DmaCfg => 2 + One(cfg.llcOutConnect)
    case Slink => 2 + One(cfg.llcOutConnect) + One(cfg.dma)
  }

  function AxiExtBase(cfg: Cfg): nat {
    2 + One(cfg.llcOutConnect) + One(cfg.dma) + One(cfg.serialLink)
  }

  /** The documented window of a device, and its port. */
  function AxiRule(cfg: Cfg, d: AxiDev): Rule {
    var p := AxiPort(cfg, d);
    match d
    case Dbg => Rule(p, AM_DBG, AM_DBG + 0x40000)
    case RegDemux => Rule(p, 0x0200_0000, 0x0800_0000)
    case LlcOut => Rule(p, cfg.llcOutStart, cfg.llcOutEnd)
    case SpmCached => Rule(p, AM_SPM, AM_SPM + LlcSize(cfg))
    case SpmUncached => Rule(p, AM_SPM + SPM_SPAN, AM_SPM + SPM_SPAN + LlcSize(cfg))
    case DmaCfg => Rule(p, 0x0100_0000, 0x0100_1000)
    case Slink => Rule(p, cfg.slinkStart, cfg.slinkEnd)
  }

  predicate AxiPresent(cfg: Cfg, d: AxiDev) {
    match d
    case Dbg => true
    case RegDemux => true
    case LlcOut => cfg.llcOutConnect
    case SpmCached => cfg.llcNotBypass
    case SpmUncached => cfg.llcNotBypass
    case DmaCfg => cfg.dma
    case Slink => cfg.serialLink
  }

  function Opt(cfg: Cfg, d: AxiDev): seq<Rule> {
    if AxiPresent(cfg, d) then [AxiRule(cfg, d)] else []
  }

  function AxiInternal(cfg: Cfg): seq<Rule> {
    Opt(cfg, Dbg) + Opt(cfg, RegDemux) + Opt(cfg, LlcOut) + Opt(cfg, SpmCached) + Opt(cfg, SpmUncached)
    + Opt(cfg, DmaCfg) + Opt(cfg, Slink)
  }

  function AxiExternal(cfg: Cfg, n: nat): (s: seq<Rule>)
    requires n <= |cfg.axiExt|
    ensures |s| == n
  {
    seq(n, k requires 0 <= k < n =>
      Rule(Cut(AxiExtBase(cfg) + cfg.axiExt[k].idx), cfg.axiExt[k].start, cfg.axiExt[k].pte))
  }

  /** External register regions reach the register demux. */
  function RegForwards(cfg: Cfg, n: nat): (s: seq<Rule>)
    requires n <= |cfg.regExt|
    ensures |s| == n
  {
    seq(n, k requires 0 <= k < n => Rule(1, cfg.regExt[k].start, cfg.regExt[k].pte))
  }

  function AxiRules(cfg: Cfg): seq<Rule> {
    AxiInternal(cfg) + AxiExternal(cfg, |cfg.axiExt|) + RegForwards(cfg, |cfg.regExt|)
  }

  /** The ports of all enabled subordinates that have their own. */
  function OutPorts(cfg: Cfg, a: AxiOut): seq<nat> {
    [a.dbg, a.regDemux] + (if cfg.llcOutConnect then [a.llc] else []) + (if cfg.dma then [a.dma] else [])
    + (if cfg.serialLink then [a.slink] else [])
  }

  method GenAxiOut(cfg: Cfg) returns (ret: AxiOut)
    requires Legal(cfg)
    ensures OutPorts(cfg, ret) == Iota(ret.extBase) && ret.numOut == ret.extBase + cfg.axiExtNumSlv < TWO_6
    ensures ret.numRules == |AxiRules(cfg)| < TWO_6 && ret.ruleMap == Pad(AxiRules(cfg))
    ensures ret.ruleMap[..ret.numRules] == AxiRules(cfg) && ret.extBase == AxiExtBase(cfg)
    ensures ret.spm == if cfg.llcNotBypass then AxiPort(cfg, SpmCached) else 0
    ensures cfg.llcNotBypass && cfg.llcOutConnect ==> ret.spm == ret.llc
    ensures (cfg.llcOutConnect || ret.llc == 0) && (cfg.dma || ret.dma == 0) && (cfg.serialLink || ret.slink == 0)
  {
    hide Pad, LlcSize, AxiRule, Legal, Cut, AxiExternal, RegForwards;
    Counts(cfg);
    var m := new RuleMap();
    var i, r;
    i, r, ret := GenInternal(cfg, m);
    i, r := i + 1, r + 1;
    ret := ret.(extBase := Cut(i), numOut := Cut(i + cfg.axiExtNumSlv),
                numRules := Cut(r + |cfg.axiExt| + |cfg.regExt|));
    AppendExternal(cfg, m, r, ret.extBase);
    ret := ret.(ruleMap := m.entries[..]);
    PadFront(AxiRules(cfg));
  }

  /** The two loops at the end of `gen_axi_out`. */
  method AppendExternal(cfg: Cfg, m: RuleMap, r0: nat, extBase: nat)
    requires m.Valid() && r0 == |m.rules| && m.rules == AxiInternal(cfg) && extBase == AxiExtBase(cfg)
    modifies m, m.entries
    ensures m.Valid() && m.rules == AxiRules(cfg)
  {
    hide AxiInternal, RuleMap.Valid, Cut, AxiExtBase;
    var r := r0;
    for k := 0 to |cfg.axiExt|
      invariant m.Valid() && m.rules == AxiInternal(cfg) + AxiExternal(cfg, k) && r == |m.rules|
    {
      m.Put(r, Rule(Cut(extBase + cfg.axiExt[k].idx), cfg.axiExt[k].start, cfg.axiExt[k].pte));
      ExternalStep(cfg, k);
      r := r + 1;
    }
    for j := 0 to |cfg.regExt|
      invariant m.Valid() && r == |m.rules|
      invariant m.rules == AxiInternal(cfg) + AxiExternal(cfg, |cfg.axiExt|) + RegForwards(cfg, j)
    {
      m.Put(r, Rule(1, cfg.regExt[j].start, cfg.regExt[j].pte));
      assert RegForwards(cfg, j + 1) == RegForwards(cfg, j) + [Rule(1, cfg.regExt[j].start, cfg.regExt[j].pte)];
      r := r + 1;
    }
  }

  lemma ExternalStep(cfg: Cfg, k: nat)
    requires k < |cfg.axiExt|
    ensures AxiExternal(cfg, k + 1) == AxiExternal(cfg, k)
              + [Rule(Cut(AxiExtBase(cfg) + cfg.axiExt[k].idx), cfg.axiExt[k].start, cfg.axiExt[k].pte)]
  {}

  /** The internal part of `gen_axi_out`: last port, last rule index, and the fields so far. */
  method GenInternal(cfg: Cfg, m: RuleMap) returns (i: nat, r: nat, ret: AxiOut)
    requires m.Valid() && m.rules == []
    modifies m, m.entries
    ensures m.Valid() && m.rules == AxiInternal(cfg) && r + 1 == |m.rules| <= 7 && i + 1 == AxiExtBase(cfg)
    ensures ret == AxiOut(0, 1, if cfg.llcOutConnect then AxiPort(cfg, LlcOut) else 0,
                          if cfg.llcNotBypass then AxiPort(cfg, SpmCached) else 0,
                          if cfg.dma then AxiPort(cfg, DmaCfg) else 0,
                          if cfg.serialLink then AxiPort(cfg, Slink) else 0, 0, 0, 0, [])
  {
    hide Pad, LlcSize, Opt, RuleMap.Valid;
    var sizeSpm := LlcSize(cfg);
    ret := AxiOut(0, 1, 0, 0, 0, 0, 0, 0, 0, []);
    i, r := 1, 1;
    ghost var s := Opt(cfg, Dbg) + Opt(cfg, RegDemux);
    Options(cfg, Dbg);
    Options(cfg, RegDemux);
    m.Put(0, Rule(0, AM_DBG, AM_DBG + 0x40000));
    m.Put(1, Rule(1, 0x0200_0000, 0x0800_0000));
    assert m.rules == s;
    Options(cfg, LlcOut);
    s := s + Opt(cfg, LlcOut);
    if cfg.llcOutConnect {
      i, r := i + 1, r + 1;
      ret := ret.(llc := i);
      m.Put(r, Rule(i, cfg.llcOutStart, cfg.llcOutEnd));
    }
    assert m.rules == s && i == 1 + One(cfg.llcOutConnect);
    Options(cfg, SpmCached);
    Options(cfg, SpmUncached);
    s := s + Opt(cfg, SpmCached) + Opt(cfg, SpmUncached);
    if cfg.llcNotBypass {
      ret := ret.(spm := i);
      r := r + 1;
      m.Put(r, Rule(i, AM_SPM, AM_SPM + sizeSpm));
      r := r + 1;
      m.Put(r, Rule(i, AM_SPM + 0x0400_0000, AM_SPM + 0x0400_0000 + sizeSpm));
    }
    assert m.rules == s;
    Options(cfg, DmaCfg);
    s := s + Opt(cfg, DmaCfg);
    if cfg.dma {
      i, r := i + 1, r + 1;
      ret := ret.(dma := i);
      m.Put(r, Rule(i, 0x0100_0000, 0x0100_1000));
    }
    assert m.rules == s && i == 1 + One(cfg.llcOutConnect) + One(cfg.dma);
    Options(cfg, Slink);
    s := s + Opt(cfg, Slink);
    if cfg.serialLink {
      i, r := i + 1, r + 1;
      ret := ret.(slink := i);
      m.Put(r, Rule(i, cfg.slinkStart, cfg.slinkEnd));
    }
    assert m.rules == s == AxiInternal(cfg);
  }

  lemma Options(cfg: Cfg, d: AxiDev)
    ensures Opt(cfg, d) == if AxiPresent(cfg, d) then [AxiRule(cfg, d)] else []
  {}

  // ----- The crossbar rules do not overlap

  /** Where external regions may start: above the reserved space, or from the scratchpad region up
      if without an LLC external ports are to back it. */
  function Reserved(cfg: Cfg): nat {
    if cfg.llcNotBypass then 0x2000_0000 else AM_SPM
  }

  /** All regions that are parameters. */
  function Params(cfg: Cfg): seq<Rule> {
    Opt(cfg, LlcOut) + Opt(cfg, Slink) + cfg.axiExt + cfg.regExt
  }

  predicate WellFormed(cfg: Cfg) {
    && Legal(cfg)
    && (cfg.llcNotBypass ==> cfg.llcOutConnect && LlcSize(cfg) <= SPM_SPAN)
    && Disjoint(Params(cfg))
    && (forall k :: 0 <= k < |Params(cfg)| ==> Reserved(cfg) <= Params(cfg)[k].start)
  }

  /** The parameters seen through the port numbers that the generator gives them. */
  lemma ParamsApart(cfg: Cfg)
    requires WellFormed(cfg)
    ensures Disjoint(Opt(cfg, LlcOut) + Opt(cfg, Slink) + AxiExternal(cfg, |cfg.axiExt|)
                     + RegForwards(cfg, |cfg.regExt|))
    ensures var s := Opt(cfg, LlcOut) + Opt(cfg, Slink) + AxiExternal(cfg, |cfg.axiExt|)
                     + RegForwards(cfg, |cfg.regExt|);
            forall k :: 0 <= k < |s| ==> Reserved(cfg) <= s[k].start
  {
    hide Cut, Legal, Reserved;
    var s := Opt(cfg, LlcOut) + Opt(cfg, Slink) + AxiExternal(cfg, |cfg.axiExt|) + RegForwards(cfg, |cfg.regExt|);
    var t := Params(cfg);
    assert |s| == |t|;
    assert forall k :: 0 <= k < |s| ==> s[k].start == t[k].start && s[k].pte == t[k].pte;
    forall p, q | 0 <= p < q < |s| ensures Apart(s[p], s[q]) {
      assert Apart(t[p], t[q]);
    }
  }

  /** The windows that are not parameters lie below the external regions, apart from each other. */
  lemma FixedApart(cfg: Cfg)
    requires cfg.llcNotBypass ==> LlcSize(cfg) <= SPM_SPAN
    ensures var f := Opt(cfg, Dbg) + Opt(cfg, RegDemux) + Opt(cfg, SpmCached) + Opt(cfg, SpmUncached)
                     + Opt(cfg, DmaCfg);
            Disjoint(f) && forall k :: 0 <= k < |f| ==> f[k].pte <= Reserved(cfg)
  {
    hide LlcSize;
  }

  lemma CrossbarDisjoint(cfg: Cfg)
    requires WellFormed(cfg)
    ensures Disjoint(AxiRules(cfg))
  {
    hide LlcSize, Cut, Legal, Reserved, Disjoint, Opt, Apart, AxiExternal, RegForwards;
    var f := Opt(cfg, Dbg) + Opt(cfg, RegDemux) + Opt(cfg, SpmCached) + Opt(cfg, SpmUncached) + Opt(cfg, DmaCfg);
    var s := Opt(cfg, LlcOut) + Opt(cfg, Slink) + AxiExternal(cfg, |cfg.axiExt|) + RegForwards(cfg, |cfg.regExt|);
    FixedApart(cfg);
    ParamsApart(cfg);
    DisjointBelow(f, s, Reserved(cfg));
    var f0, f1 := Opt(cfg, Dbg) + Opt(cfg, RegDemux), Opt(cfg, SpmCached) + Opt(cfg, SpmUncached) + Opt(cfg, DmaCfg);
    var rest := Opt(cfg, Slink) + AxiExternal(cfg, |cfg.axiExt|) + RegForwards(cfg, |cfg.regExt|);
    assert f + s == f0 + f1 + Opt(cfg, LlcOut) + rest;
    DisjointSwap(f0, f1, Opt(cfg, LlcOut), rest);
    assert AxiRules(cfg) == f0 + Opt(cfg, LlcOut) + f1 + rest;
  }

  /** Between the register space and the scratchpad the crossbar leads nowhere. */
  lemma GapUnrouted(cfg: Cfg, a: nat)
    requires WellFormed(cfg) && 0x0800_0000 <= a < AM_SPM
    ensures forall r :: r in AxiRules(cfg) ==> !Covers(r, a)
  {
    ParamsApart(cfg);
    hide LlcSize, Cut, Legal, Disjoint, AxiExternal, RegForwards;
    var s := Opt(cfg, LlcOut) + Opt(cfg, Slink) + AxiExternal(cfg, |cfg.axiExt|) + RegForwards(cfg, |cfg.regExt|);
    forall r | r in AxiRules(cfg) ensures !Covers(r, a) {
      if r in s {
        var k :| 0 <= k < |s| && s[k] == r;
      }
    }
  }

  /** An address in the window of an enabled device reaches it through the crossbar. */
  lemma AxiDeviceReached(cfg: Cfg, d: AxiDev, a: nat)
    requires WellFormed(cfg) && AxiPresent(cfg, d) && Covers(AxiRule(cfg, d), a)
    ensures Routed(AxiRules(cfg), a, AxiPort(cfg, d))
  {
    CrossbarDisjoint(cfg);
    hide LlcSize, Cut, Legal, Disjoint, AxiExternal, RegForwards;
    assert AxiRule(cfg, d) in Opt(cfg, d);
    assert AxiRule(cfg, d) in AxiInternal(cfg);
    assert AxiRule(cfg, d) in AxiRules(cfg);
    var q :| 0 <= q < |AxiRules(cfg)| && AxiRules(cfg)[q] == AxiRule(cfg, d);
    RoutedByRule(AxiRules(cfg), q, a);
  }

  /** The base addresses that programs are linked with: all register devices lie behind the demux, and DMA,
      scratchpad and DRAM are where they are expected. */
  lemma LinkedAddresses(cfg: Cfg)
    requires WellFormed(cfg)
    ensures forall a: nat :: 0x0200_0000 <= a < 0x0800_0000 ==> Routed(AxiRules(cfg), a, AxiPort(cfg, RegDemux))
    ensures cfg.dma ==> Routed(AxiRules(cfg), 0x0100_0000, AxiPort(cfg, DmaCfg))
    ensures cfg.llcNotBypass ==>
              && (forall a: nat :: 0x1000_0000 <= a < 0x1000_0000 + LlcSize(cfg) ==>
                    Routed(AxiRules(cfg), a, AxiPort(cfg, SpmCached)))
              && (forall a: nat :: 0x1400_0000 <= a < 0x1400_0000 + LlcSize(cfg) ==>
                    Routed(AxiRules(cfg), a, AxiPort(cfg, SpmUncached)))
    ensures cfg.llcOutConnect && cfg.llcOutStart <= 0x8000_0000 < cfg.llcOutEnd ==>
              Routed(AxiRules(cfg), 0x8000_0000, AxiPort(cfg, LlcOut))
    ensures forall a: nat :: a < 0x4_0000 ==> Routed(AxiRules(cfg), a, AxiPort(cfg, Dbg))
  {
    hide WellFormed, AxiRules, Routed, LlcSize, AxiPort;
    forall d, a: nat | AxiPresent(cfg, d) && Covers(AxiRule(cfg, d), a)
      ensures Routed(AxiRules(cfg), a, AxiPort(cfg, d))
    {
      AxiDeviceReached(cfg, d, a);
    }
    forall a: nat | 0x0200_0000 <= a < 0x0800_0000 ensures Covers(AxiRule(cfg, RegDemux), a) {}
    assert Covers(AxiRule(cfg, DmaCfg), 0x0100_0000);
    assert cfg.llcOutStart <= 0x8000_0000 < cfg.llcOutEnd ==> Covers(AxiRule(cfg, LlcOut), 0x8000_0000);
    forall a: nat | a < 0x4_0000 ensures Covers(AxiRule(cfg, Dbg), a) {}
    forall a: nat | 0x1000_0000 <= a < 0x1000_0000 + LlcSize(cfg) ensures Covers(AxiRule(cfg, SpmCached), a) {}
    forall a: nat | 0x1400_0000 <= a < 0x1400_0000 + LlcSize(cfg) ensures Covers(AxiRule(cfg, SpmUncached), a) {}
  }

  /** An address in an external AXI region reaches its port; with an index that fits, this is the port
      of that index counted from the first external one. */
  lemma ExternalReached(cfg: Cfg, k: nat, a: nat)
    requires WellFormed(cfg) && k < |cfg.axiExt| && Covers(cfg.axiExt[k], a)
    ensures Routed(AxiRules(cfg), a, Cut(AxiExtBase(cfg) + cfg.axiExt[k].idx))
    ensures cfg.axiExt[k].idx < cfg.axiExtNumSlv ==>
              && Routed(AxiRules(cfg), a, AxiExtBase(cfg) + cfg.axiExt[k].idx)
              && AxiExtBase(cfg) + cfg.axiExt[k].idx < AxiExtBase(cfg) + cfg.axiExtNumSlv < TWO_6
  {
    CrossbarDisjoint(cfg);
    Counts(cfg);
    assert AxiExtBase(cfg) <= 5;
    hide Cut, WellFormed, Disjoint, AxiRules, AxiInternal, AxiExtBase, Routed;
    ExternalAt(cfg, k);
    RoutedByRule(AxiRules(cfg), |AxiInternal(cfg)| + k, a);
  }

  lemma ExternalAt(cfg: Cfg, k: nat)
    requires k < |cfg.axiExt|
    ensures |AxiInternal(cfg)| + k < |AxiRules(cfg)|
    ensures AxiRules(cfg)[|AxiInternal(cfg)| + k]
         == Rule(Cut(AxiExtBase(cfg) + cfg.axiExt[k].idx), cfg.axiExt[k].start, cfg.axiExt[k].pte)
  {
    hide Cut, AxiInternal, AxiExtBase, RegForwards;
    assert AxiRules(cfg)[|AxiInternal(cfg)| + k] == AxiExternal(cfg, |cfg.axiExt|)[k];
  }

  /** An address in an external register region reaches the register demux. */
  lemma ForwardReached(cfg: Cfg, k: nat, a: nat)
    requires WellFormed(cfg) && k < |cfg.regExt| && Covers(cfg.regExt[k], a)
    ensures Routed(AxiRules(cfg), a, AxiPort(cfg, RegDemux))
  {
    CrossbarDisjoint(cfg);
    hide Cut, WellFormed, Disjoint, AxiInternal, AxiExternal, AxiExtBase;
    var q := |AxiInternal(cfg)| + |cfg.axiExt| + k;
    assert AxiRules(cfg)[q] == RegForwards(cfg, |cfg.regExt|)[k];
    RoutedByRule(AxiRules(cfg), q, a);
  }
}
