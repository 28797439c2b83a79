/** The memory attributes of the CVA6 cores (`gen_cva6_cfg`). A region of the core covers the
    addresses from its base up to base plus length, in 64-bit arithmetic. */
module Cva6Regions {
  import opened Common
  import opened Config
  import opened Crossbar
  import opened RegMap

  datatype Region = Region(base: nat, length: nat)

  predicate In(a: nat, r: Region) {
    r.base <= a < U64(r.base + r.length)
  }

  predicate InAny(a: nat, rs: seq<Region>) {
    exists r :: r in rs && In(a, r)
  }

  datatype Cva6Cfg = Cva6Cfg(nonIdempotent: seq<Region>, execute: seq<Region>, cached: seq<Region>)

  const EXT_START: nat := 0x2000_0000
  const EXT_END: nat := 0x8000_0000
  const EXT_SIZE: nat := 0x6000_0000

  function Cie(cfg: Cfg): Region {
    Region(if cfg.cieOnTop then U64(0x8000_0000 - cfg.cieLength) else 0x2000_0000, cfg.cieLength)
  }

  function NoCie(cfg: Cfg): Region {
    Region(if cfg.cieOnTop then 0x2000_0000 else U64(0x2000_0000 + cfg.cieLength), U64(0x6000_0000 - cfg.cieLength))
  }

  function LlcOutRegion(cfg: Cfg): Region {
    Region(cfg.llcOutStart, U64(cfg.llcOutEnd - cfg.llcOutStart))
  }

  function GenCva6Cfg(cfg: Cfg): Cva6Cfg {
    Cva6Cfg(
      [Region(0, 0x1000_0000), NoCie(cfg)],
      [Region(AM_DBG, 0x40000), Region(0x0200_0000, 0x40000), Region(AM_SPM, 2 * LlcSize(cfg)),
       LlcOutRegion(cfg), Cie(cfg)],
      [Region(AM_SPM, LlcSize(cfg)), LlcOutRegion(cfg), Cie(cfg)])
  }

  /** Each external on-chip address is in exactly one of the two regions, and no other address in either. */
  predicate PartitionAt(cfg: Cfg, a: nat) {
    if EXT_START <= a < EXT_END then In(a, Cie(cfg)) != In(a, NoCie(cfg)) else !In(a, Cie(cfg)) && !In(a, NoCie(cfg))
  }

  /** The two regions divide the external on-chip range, on top or at the bottom, exactly if the CIE
      region is not longer than the range. */
  lemma CiePartition(cfg: Cfg)
    requires cfg.cieLength < TWO_64
    ensures (forall a: nat :: a < TWO_64 ==> PartitionAt(cfg, a)) <==> cfg.cieLength <= EXT_SIZE
  {
    if cfg.cieLength > EXT_SIZE {
      var a := if cfg.cieOnTop && cfg.cieLength <= EXT_END then EXT_START - 1
               else if !cfg.cieOnTop && EXT_START + cfg.cieLength >= TWO_64 then EXT_START - 1
               else EXT_END;
      assert !PartitionAt(cfg, a);
    }
  }

  lemma InOne(a: nat, r: Region)
    ensures InAny(a, [r]) <==> In(a, r)
  {
    assert r in [r];
  }

  lemma InMore(a: nat, r: Region, rs: seq<Region>)
    ensures InAny(a, [r] + rs) <==> In(a, r) || InAny(a, rs)
  {
    if q :| q in rs && In(a, q) { assert q in [r] + rs; }
    assert r in [r] + rs;
  }

  lemma InTwo(a: nat, r: Region, s: Region)
    ensures InAny(a, [r, s]) <==> In(a, r) || In(a, s)
  {
    InOne(a, s);
    InMore(a, r, [s]);
    assert [r, s] == [r] + [s];
  }

  lemma InThree(a: nat, r: Region, s: Region, t: Region)
    ensures InAny(a, [r, s, t]) <==> In(a, r) || In(a, s) || In(a, t)
  {
    InTwo(a, s, t);
    InMore(a, r, [s, t]);
    assert [r, s, t] == [r] + [s, t];
  }

  /** The part of the external on-chip range that the cores take to be memory, at its top or its bottom. */
  predicate Coherent(cfg: Cfg, a: nat) {
    if cfg.cieOnTop then 0x8000_0000 <= a + cfg.cieLength && a < 0x8000_0000
    else 0x2000_0000 <= a < 0x2000_0000 + cfg.cieLength
  }

  /** Everything below the scratchpad is non-idempotent for every configuration, and so is every register
      device, enabled or not. */
  lemma PeripheralsNonIdempotent(cfg: Cfg)
    ensures forall a: nat :: a < 0x1000_0000 ==> InAny(a, GenCva6Cfg(cfg).nonIdempotent)
    ensures forall d: RegDev, a: nat ::
              (d.Clic? ==> d.core < 31) && (d.BusErr? ==> d.unit < 33) && Within(Window(d), a) ==>
                InAny(a, GenCva6Cfg(cfg).nonIdempotent)
  {
    forall a: nat | a < 0x1000_0000 ensures InAny(a, GenCva6Cfg(cfg).nonIdempotent) {
      InTwo(a, Region(0, 0x1000_0000), NoCie(cfg));
    }
    forall d: RegDev, a: nat | (d.Clic? ==> d.core < 31) && (d.BusErr? ==> d.unit < 33) && Within(Window(d), a)
      ensures a < 0x1000_0000
    {
      WindowsBelow(d);
    }
  }

  /** What is non-idempotent: the peripherals, and what of the external range is no memory. */
  lemma NonIdempotentExactly(cfg: Cfg, a: nat)
    requires cfg.cieLength <= EXT_SIZE
    ensures InAny(a, GenCva6Cfg(cfg).nonIdempotent)
            <==> a < 0x1000_0000 || (0x2000_0000 <= a < 0x8000_0000 && !Coherent(cfg, a))
  {
    InTwo(a, Region(0, 0x1000_0000), NoCie(cfg));
  }

  lemma CieExactly(cfg: Cfg, a: nat)
    requires cfg.cieLength <= EXT_SIZE
    ensures In(a, Cie(cfg)) <==> Coherent(cfg, a)
  {}

  lemma LlcOutExactly(cfg: Cfg, a: nat)
    requires Legal(cfg)
    ensures In(a, LlcOutRegion(cfg)) <==> cfg.llcOutStart <= a < cfg.llcOutEnd
  {}

  lemma SpmEnd(cfg: Cfg)
    ensures U64(AM_SPM + 2 * LlcSize(cfg)) == AM_SPM + 2 * LlcSize(cfg)
    ensures U64(AM_SPM + LlcSize(cfg)) == AM_SPM + LlcSize(cfg)
  {
    hide LlcSize, U64;
  }

  /** What is cached: the cached scratchpad, what lies behind the LLC, and the external memory. */
  lemma CachedExactly(cfg: Cfg, a: nat)
    requires Legal(cfg)
    ensures 0x1000_0000 <= a < 0x1000_0000 + LlcSize(cfg) || cfg.llcOutStart <= a < cfg.llcOutEnd ==>
              InAny(a, GenCva6Cfg(cfg).cached)
    ensures cfg.cieLength <= EXT_SIZE ==>
              (InAny(a, GenCva6Cfg(cfg).cached)
               <==> || 0x1000_0000 <= a < 0x1000_0000 + LlcSize(cfg)
                    || cfg.llcOutStart <= a < cfg.llcOutEnd
                    || Coherent(cfg, a))
  {
    if cfg.cieLength <= EXT_SIZE { CieExactly(cfg, a); }
    SpmEnd(cfg);
    LlcOutExactly(cfg, a);
    hide Legal, LlcSize, Cie, LlcOutRegion, Coherent, U64;
    InThree(a, Region(AM_SPM, LlcSize(cfg)), LlcOutRegion(cfg), Cie(cfg));
  }

  /** What is executable: the debug module, the boot ROM, both views of the scratchpad if they lie side by
      side, what lies behind the LLC, and the external memory. */
  lemma ExecutableExactly(cfg: Cfg, a: nat)
    requires Legal(cfg)
    ensures a < 0x4_0000 || 0x0200_0000 <= a < 0x0204_0000 || 0x1000_0000 <= a < 0x1000_0000 + 2 * LlcSize(cfg)
            || cfg.llcOutStart <= a < cfg.llcOutEnd ==>
              InAny(a, GenCva6Cfg(cfg).execute)
    ensures cfg.cieLength <= EXT_SIZE ==>
              (InAny(a, GenCva6Cfg(cfg).execute)
               <==> || a < 0x4_0000
                    || 0x0200_0000 <= a < 0x0204_0000
                    || 0x1000_0000 <= a < 0x1000_0000 + 2 * LlcSize(cfg)
                    || cfg.llcOutStart <= a < cfg.llcOutEnd
                    || Coherent(cfg, a))
  {
    if cfg.cieLength <= EXT_SIZE { CieExactly(cfg, a); }
    SpmEnd(cfg);
    LlcOutExactly(cfg, a);
    hide Legal, LlcSize, Cie, LlcOutRegion, Coherent, U64;
    var spm, llc, cie := Region(AM_SPM, 2 * LlcSize(cfg)), LlcOutRegion(cfg), Cie(cfg);
    var dbg, rom := Region(AM_DBG, 0x40000), Region(0x0200_0000, 0x40000);
    InThree(a, spm, llc, cie);
    InMore(a, rom, [spm, llc, cie]);
    InMore(a, dbg, [rom] + [spm, llc, cie]);
    assert GenCva6Cfg(cfg).execute == [dbg] + ([rom] + [spm, llc, cie]);
  }

  /** The uncached view of the scratchpad, at 0x14000000, can be executed exactly if the scratchpad is of the
      largest size: the region for both views takes them to be side by side. */
  lemma UncachedExecutable(cfg: Cfg)
    requires Legal(cfg) && cfg.cieLength <= EXT_SIZE && EXT_END <= cfg.llcOutStart
    requires 0 < LlcSize(cfg) <= 0x0400_0000
    ensures (forall a: nat :: 0x1400_0000 <= a < 0x1400_0000 + LlcSize(cfg) ==> InAny(a, GenCva6Cfg(cfg).execute))
            <==> LlcSize(cfg) == 0x0400_0000
  {
    hide Legal, LlcSize, GenCva6Cfg, InAny;
    forall a: nat
      ensures 0x1000_0000 <= a < 0x1000_0000 + 2 * LlcSize(cfg) ==> InAny(a, GenCva6Cfg(cfg).execute)
    {
      ExecutableExactly(cfg, a);
    }
    ExecutableExactly(cfg, 0x1400_0000 + LlcSize(cfg) - 1);
  }

  /** In the external range the cores cache exactly what is idempotent, with the LLC-out region above it
      and a scratchpad that ends below it. */
  lemma ExternalCachedOrNot(cfg: Cfg, a: nat)
    requires Legal(cfg) && cfg.cieLength <= EXT_SIZE && LlcSize(cfg) <= 0x1000_0000 && EXT_END <= cfg.llcOutStart
    requires 0x2000_0000 <= a < 0x8000_0000
    ensures InAny(a, GenCva6Cfg(cfg).nonIdempotent) <==> !InAny(a, GenCva6Cfg(cfg).cached)
  {
    hide Legal, LlcSize, GenCva6Cfg, InAny, Coherent;
    NonIdempotentExactly(cfg, a);
    CachedExactly(cfg, a);
  }

  /** Cached addresses are executable, whatever the configuration. */
  lemma CachedExecutable(cfg: Cfg, a: nat)
    requires InAny(a, GenCva6Cfg(cfg).cached)
    ensures InAny(a, GenCva6Cfg(cfg).execute)
  {
    hide LlcSize, U64;
    var r :| r in GenCva6Cfg(cfg).cached && In(a, r);
    var e := GenCva6Cfg(cfg).execute;
    if r == Region(AM_SPM, LlcSize(cfg)) {
      assert e[2] in e && In(a, e[2]);
    } else {
      assert r in e;
    }
  }

  /** No cached address is non-idempotent, with the LLC-out region above the external range and a
      scratchpad that ends below it. */
  lemma CachedIdempotent(cfg: Cfg, a: nat)
    requires Legal(cfg) && cfg.cieLength <= EXT_SIZE && LlcSize(cfg) <= AM_SPM && EXT_END <= cfg.llcOutStart
    ensures !(InAny(a, GenCva6Cfg(cfg).cached) && InAny(a, GenCva6Cfg(cfg).nonIdempotent))
  {
    hide LlcSize, U64;
    var c := GenCva6Cfg(cfg);
    forall r, s | r in c.cached && In(a, r) && s in c.nonIdempotent ensures !In(a, s) {
    }
  }
}
