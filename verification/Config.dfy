/** The part of `cheshire_cfg_t` (hw/cheshire_pkg.sv) that decides ports, rules and regions. */
module Config {
  import opened Common

  const TWO_6: nat := 64

  /** `arul_t`: addresses from `start` up to but not including `pte` go to port `idx`. */
  datatype Rule = Rule(idx: nat, start: nat, pte: nat)

  datatype Cfg = Cfg(
    numCores: nat,
    // External AXI ports and rules, external register ports and rules
    axiExtNumMst: nat, axiExtNumSlv: nat, axiExt: seq<Rule>,
    regExtNumSlv: nat, regExt: seq<Rule>,
    // Features
    bootrom: bool, uart: bool, i2c: bool, spiHost: bool, gpio: bool, dma: bool, serialLink: bool, vga: bool,
    axiRt: bool, clic: bool, irqRouter: bool, busErr: bool,
    // LLC
    llcNotBypass: bool, llcSetAssoc: nat, llcNumLines: nat, llcNumBlocks: nat, axiDataWidth: nat,
    llcOutConnect: bool, llcOutStart: nat, llcOutEnd: nat,
    // Serial link
    slinkStart: nat, slinkEnd: nat,
    // CVA6
    cieLength: nat, cieOnTop: bool)

  /** The field widths. */
  predicate Legal(cfg: Cfg) {
    && cfg.numCores < 32 && cfg.axiExtNumMst < 16 && cfg.axiExtNumSlv < 16 && cfg.regExtNumSlv < 16
    && |cfg.axiExt| < 16 && |cfg.regExt| < 16
    && (forall k :: 0 <= k < |cfg.axiExt| ==> InWidth(cfg.axiExt[k]))
    && (forall k :: 0 <= k < |cfg.regExt| ==> InWidth(cfg.regExt[k]))
    && cfg.llcSetAssoc < 0x1_0000 && cfg.llcNumLines < 0x1_0000 && cfg.llcNumBlocks < 0x1_0000
    && cfg.axiDataWidth < 0x400
    && cfg.llcOutStart < TWO_64 && cfg.llcOutEnd < TWO_64 && cfg.slinkStart < TWO_64 && cfg.slinkEnd < TWO_64
    && cfg.cieLength < TWO_64
  }

  /** `DefaultCfg`, as far as it is modelled. */
  const DEFAULT_CFG: Cfg := Cfg(
    numCores := 1,
    axiExtNumMst := 0, axiExtNumSlv := 0, axiExt := [], regExtNumSlv := 0, regExt := [],
    bootrom := true, uart := true, i2c := true, spiHost := true, gpio := true,
    dma := true, serialLink := true, vga := true,
    axiRt := false, clic := false, irqRouter := false, busErr := true,
    llcNotBypass := true, llcSetAssoc := 8, llcNumLines := 256, llcNumBlocks := 8, axiDataWidth := 64,
    llcOutConnect := true, llcOutStart := 0x8000_0000, llcOutEnd := 0x1_0000_0000,
    slinkStart := 0x1_0000_0000, slinkEnd := 0x2_0000_0000,
    cieLength := 0x2000_0000, cieOnTop := false)

  lemma Counts(cfg: Cfg)
    requires Legal(cfg)
    ensures cfg.numCores < 32 && cfg.axiExtNumMst < 16 && cfg.axiExtNumSlv < 16 && cfg.regExtNumSlv < 16
    ensures |cfg.axiExt| < 16 && |cfg.regExt| < 16
  {}

  /** A number cut to an `aw_bt` field. */
  function Cut(n: nat): (r: nat)
    ensures r < TWO_6 && (n < TWO_6 ==> r == n)
  {
    n % 64
  }

  predicate InWidth(r: Rule) {
    r.idx < 256 && r.start < TWO_64 && r.pte < TWO_64
  }

  /** `get_llc_size`, in 32-bit arithmetic. */
  function LlcSize(cfg: Cfg): (n: nat)
    ensures n < 0x2000_0000
  {
    cfg.llcSetAssoc * cfg.llcNumLines * cfg.llcNumBlocks * cfg.axiDataWidth % 0x1_0000_0000 / 8
  }

  /** All bits of the LLC in bytes, while they are fewer than 2^32. */
  lemma LlcCapacity(cfg: Cfg)
    requires cfg.axiDataWidth * cfg.llcNumBlocks * cfg.llcNumLines * cfg.llcSetAssoc < 0x1_0000_0000
    ensures 8 * LlcSize(cfg) <= cfg.axiDataWidth * cfg.llcNumBlocks * cfg.llcNumLines * cfg.llcSetAssoc
            < 8 * LlcSize(cfg) + 8
  {
    hide LlcSize;
    var w, b, l, a := cfg.axiDataWidth, cfg.llcNumBlocks, cfg.llcNumLines, cfg.llcSetAssoc;
    Reorder(w, b, l, a);
    LlcBits(cfg);
    var bits := a * l * b * w;
    assert bits % 0x1_0000_0000 == bits;
  }

  lemma LlcBits(cfg: Cfg)
    ensures LlcSize(cfg) == cfg.llcSetAssoc * cfg.llcNumLines * cfg.llcNumBlocks * cfg.axiDataWidth % 0x1_0000_0000 / 8
  {}

  lemma Reorder(w: nat, b: nat, l: nat, a: nat)
    ensures w * b * l * a == a * l * b * w
  {
    assert w * b == b * w;
    assert w * b * l == l * (b * w);
    assert w * b * l * a == a * (l * (b * w));
    assert a * l * b == a * (l * b);
    assert l * b * w == l * (b * w);
    assert a * l * b * w == a * (l * b * w);
  }

  /** An LLC of 512 MiB, 16 ways of 0x8000 lines of 128 blocks, counts as empty. */
  lemma LlcWraps()
    ensures var cfg := DEFAULT_CFG.(llcSetAssoc := 16, llcNumLines := 0x8000, llcNumBlocks := 128);
            Legal(cfg) && LlcSize(cfg) == 0
  {}

  // ----- Address rules

  predicate Covers(r: Rule, a: nat) {
    r.start <= a < r.pte
  }

  /** No address is covered by both. */
  predicate Apart(r: Rule, s: Rule) {
    r.pte <= s.start || s.pte <= r.start || r.pte <= r.start || s.pte <= s.start
  }

  predicate Disjoint(rules: seq<Rule>) {
    forall p, q :: 0 <= p < q < |rules| ==> Apart(rules[p], rules[q])
  }

  /** Whatever the decoder does about overlaps, `a` goes to port `p`. */
  predicate Routed(rules: seq<Rule>, a: nat, p: nat) {
    && (exists r :: r in rules && Covers(r, a))
    && forall r :: r in rules && Covers(r, a) ==> r.idx == p
  }

  lemma ApartCorrect(r: Rule, s: Rule)
    ensures Apart(r, s) <==> forall a: nat :: !(Covers(r, a) && Covers(s, a))
  {
    var a := if r.start <= s.start then s.start else r.start;
    if !Apart(r, s) {
      assert Covers(r, a) && Covers(s, a);
    }
  }

  lemma RoutedByRule(rules: seq<Rule>, q: nat, a: nat)
    requires Disjoint(rules) && q < |rules| && Covers(rules[q], a)
    ensures Routed(rules, a, rules[q].idx)
  {
    forall r | r in rules && Covers(r, a) ensures r.idx == rules[q].idx {
      var p :| 0 <= p < |rules| && rules[p] == r;
    }
  }

  lemma DisjointBelow(a: seq<Rule>, b: seq<Rule>, bound: nat)
    requires Disjoint(a) && Disjoint(b)
    requires (forall p :: 0 <= p < |a| ==> a[p].pte <= bound) && (forall q :: 0 <= q < |b| ==> bound <= b[q].start)
    ensures Disjoint(a + b)
  {}

  lemma DisjointSwap(a: seq<Rule>, b: seq<Rule>, c: seq<Rule>, d: seq<Rule>)
    requires Disjoint(a + b + c + d)
    ensures Disjoint(a + c + b + d)
  {
    hide Apart;
    var s, t := a + b + c + d, a + c + b + d;
    forall p, q | 0 <= p < q < |t| ensures Apart(t[p], t[q]) {
      var p', q' := Moved(p, |a|, |b|, |c|), Moved(q, |a|, |b|, |c|);
      assert t[p] == s[p'] && t[q] == s[q'];
      ApartSymmetric(s[p'], s[q']);
    }
  }

  /** Where the element at `p` was before two neighbouring parts of lengths `b` and `c` were swapped. */
  function Moved(p: nat, a: nat, b: nat, c: nat): nat {
    if p < a then p else if p < a + c then p + b else if p < a + c + b then p - c else p
  }

  lemma ApartSymmetric(r: Rule, s: Rule)
    ensures Apart(r, s) == Apart(s, r)
  {}

  // ----- The fixed-size map of a crossbar

  const NO_RULE: Rule := Rule(0, 0, 0)

  /** `map` with `rules` written from index 0; writes beyond its 64 entries have no effect. */
  function Pad(rules: seq<Rule>): (m: seq<Rule>)
    ensures |m| == TWO_6
  {
    seq(TWO_6, q requires 0 <= q < TWO_6 => if q < |rules| then rules[q] else NO_RULE)
  }

  lemma PadStep(rules: seq<Rule>, r: Rule)
    ensures Pad(rules + [r]) == if |rules| < TWO_6 then Pad(rules)[|rules| := r] else Pad(rules)
  {}

  lemma PadFront(rules: seq<Rule>)
    requires |rules| <= TWO_6
    ensures Pad(rules)[..|rules|] == rules
  {}

  /** 0, 1, ..., n - 1. */
  function Iota(n: nat): seq<nat> {
    seq(n, i requires 0 <= i < n => i)
  }

  lemma IotaStep(n: nat)
    ensures Iota(n + 1) == Iota(n) + [n]
  {}

  /** The `map` field while a generator fills it. */
  class RuleMap {
    const entries: array<Rule>
    ghost var rules: seq<Rule>

    ghost predicate Valid()
      reads this, entries
    {
      entries.Length == TWO_6 && entries[..] == Pad(rules)
    }

    constructor ()
      ensures Valid() && rules == [] && fresh(entries)
    {
      entries := new Rule[TWO_6](_ => NO_RULE);
      rules := [];
    }

    /** `map[r] = rule`, always at the next index. */
    method Put(r: nat, rule: Rule)
      requires Valid() && r == |rules|
      modifies this, entries
      ensures Valid() && rules == old(rules) + [rule]
    {
      PadStep(rules, rule);
      if r < TWO_6 { entries[r] := rule; }
      rules := rules + [rule];
    }
  }
}
