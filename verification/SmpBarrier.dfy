/** The multi-hart wake-up barrier of `smp_pause`/`smp_resume` (sw/include/smp.h) as the boot ROM
    uses it in `boot_next_stage` (hw/bootrom/cheshire_bootrom.S): one memory access a step, any
    interleaving, spurious returns from `wfi`. Device accesses and `fence` are sequentially
    consistent, and `mip.MSIP` follows the hart's own `msip` word without delay. */
module SmpBarrier {

  /** Where a hart stands; the arguments are the registers that are live there. */
  datatype Pc =
    | StoreLow(a0: nat)      // about to store the address's low half to SCRATCH[4]
    | StoreHigh(a0: nat)     // about to store the shifted address to SCRATCH[5]
    | Set(k: nat)             // label 1: about to set word k
    | Sleep                   // label 2: in wfi
    | Poll                    // about to read mip
    | Clear                   // about to clear its own word
    | Scan(k: nat)            // label 3: about to read word k
    | LoadHigh
    | LoadLow(t1: nat)
    | Jumped(target: nat, hartid: nat)

  datatype System = System(msip: seq<nat>, scratch: seq<nat>, pcs: seq<Pc>)

  /** One turn of a hart; `spurious` lets `wfi` return without a pending interrupt. */
  datatype Move = Move(hart: nat, spurious: bool)

  predicate Shape(s: System) {
    && 0 < |s.msip| == |s.pcs|
    && |s.scratch| == 16
    && forall h :: 0 <= h < |s.pcs| ==>
                     && (s.pcs[h].Set? ==> s.pcs[h].k < |s.msip|)
                     && (s.pcs[h].Scan? ==> s.pcs[h].k < |s.msip|)
  }

  predicate Schedule(sched: seq<Move>, n: nat) {
    forall i :: 0 <= i < |sched| ==> sched[i].hart < n
  }

  /** All harts but `boot` sleep in smp_resume; `boot` enters boot_next_stage with `address`. */
  function Init(n: nat, boot: nat, address: nat, scratch: seq<nat>): (s: System)
    requires boot < n && |scratch| == 16
    ensures Shape(s)
  {
    System(seq(n, _ => 0), scratch, seq(n, h => if h == boot then StoreLow(address) else Sleep))
  }

  /** What a 32-bit store keeps of a register. */
  function Low(a: nat): nat {
    a % 0x1_0000_0000
  }

  /** A register shifted right by 32. */
  function High(a: nat): nat {
    a / 0x1_0000_0000
  }

  predicate Pending(s: System, h: nat)
    requires h < |s.msip|
  {
    s.msip[h] % 2 == 1
  }

  function Step(s: System, m: Move): (s': System)
    requires Shape(s) && m.hart < |s.pcs|
    ensures Shape(s') && |s'.msip| == |s.msip|
  {
    var h, n := m.hart, |s.msip|;
    match s.pcs[h]
    case StoreLow(a0) => s.(scratch := s.scratch[4 := Low(a0)], pcs := s.pcs[h := StoreHigh(High(a0))])
    case StoreHigh(a0) => s.(scratch := s.scratch[5 := Low(a0)], pcs := s.pcs[h := Set(0)])
    case Set(k) => s.(msip := s.msip[k := 1], pcs := s.pcs[h := if k + 1 < n then Set(k + 1) else Sleep])
    case Sleep => if Pending(s, h) || m.spurious then s.(pcs := s.pcs[h := Poll]) else s
    case Poll => s.(pcs := s.pcs[h := if Pending(s, h) then Clear else Sleep])
    case Clear => s.(msip := s.msip[h := 0], pcs := s.pcs[h := Scan(0)])
    case Scan(k) =>
      if s.msip[k] != 0 then s
      else s.(pcs := s.pcs[h := if k + 1 < n then Scan(k + 1) else LoadHigh])
    case LoadHigh => s.(pcs := s.pcs[h := LoadLow(s.scratch[5] * 0x1_0000_0000)])
    case LoadLow(t1) => s.(pcs := s.pcs[h := Jumped(s.scratch[4] + t1, h)])
    case Jumped(_, _) => s
  }

  function Run(s: System, sched: seq<Move>): (s': System)
    requires Shape(s) && Schedule(sched, |s.pcs|)
    ensures Shape(s') && |s'.msip| == |s.msip|
    decreases |sched|
  {
    if sched == [] then s else Run(Step(s, sched[0]), sched[1..])
  }

  // ----- What the barrier is for

  /** The hart was woken and has cleared its own word. */
  predicate Cleared(pc: Pc) {
    pc.Scan? || pc.LoadHigh? || pc.LoadLow? || pc.Jumped?
  }

  /** The hart has left the barrier. */
  predicate Left(pc: Pc) {
    pc.LoadHigh? || pc.LoadLow? || pc.Jumped?
  }

  /** No hart has left unless every hart has cleared its word, and then all words are zero. */
  predicate Safe(s: System)
    requires Shape(s)
  {
    forall h :: 0 <= h < |s.pcs| && Left(s.pcs[h]) ==>
                  forall j :: 0 <= j < |s.pcs| ==> Cleared(s.pcs[j]) && s.msip[j] == 0
  }

  /** Every hart that jumped went to `address` with its own id in a0. */
  predicate JumpsTo(s: System, address: nat) {
    forall h :: 0 <= h < |s.pcs| && s.pcs[h].Jumped? ==> s.pcs[h] == Jumped(address, h)
  }

  predicate Done(s: System) {
    forall h :: 0 <= h < |s.pcs| ==> s.pcs[h].Jumped?
  }

  // ----- Safety when hart 0 publishes

  /** How many words hart 0 has set so far. */
  function Published(s: System): nat
    requires Shape(s)
  {
    match s.pcs[0]
    case StoreLow(_) => 0
    case StoreHigh(_) => 0
    case Set(k) => k
    case _ => |s.msip|
  }

  /** The first `k` harts have cleared their words. */
  predicate FirstCleared(s: System, k: nat)
    requires k <= |s.pcs|
  {
    forall j :: 0 <= j < k ==> Cleared(s.pcs[j])
  }

  ghost predicate HartInv(s: System, h: nat, address: nat)
    requires Shape(s) && h < |s.pcs|
  {
    var n, pc := |s.msip|, s.pcs[h];
    && (h != 0 ==> !pc.StoreLow? && !pc.StoreHigh? && !pc.Set?)
    && s.msip[h] == (if h < Published(s) && !Cleared(pc) then 1 else 0)
    && (pc.Clear? || Cleared(pc) ==> h < Published(s))
    && (pc.Scan? && pc.k > 0 ==> Published(s) == n && FirstCleared(s, pc.k))
    && (Left(pc) ==> Published(s) == n && FirstCleared(s, n))
    && (pc.LoadLow? ==> pc.t1 == High(address) * 0x1_0000_0000)
    && (pc.Jumped? ==> pc == Jumped(address, h))
  }

  ghost predicate Inv(s: System, address: nat) {
    && Shape(s)
    && address < 0x1_0000_0000_0000_0000
    && (match s.pcs[0]
        case StoreLow(a0) => a0 == address
        case StoreHigh(a0) => a0 == High(address) && s.scratch[4] == Low(address)
        case _ => s.scratch[4] == Low(address) && s.scratch[5] == High(address))
    && forall h :: 0 <= h < |s.pcs| ==> HartInv(s, h, address)
  }

  /** No step takes back a word set or a word cleared. */
  lemma StepIsMonotone(s: System, m: Move, address: nat, k: nat)
    requires Inv(s, address) && m.hart < |s.pcs| && k <= |s.pcs|
    ensures Published(s) <= Published(Step(s, m))
    ensures FirstCleared(s, k) ==> FirstCleared(Step(s, m), k)
  {
    assert HartInv(s, m.hart, address);
  }

  lemma OtherHartKeepsInv(s: System, m: Move, h: nat, address: nat)
    requires Inv(s, address) && m.hart < |s.pcs| && h < |s.pcs| && h != m.hart
    ensures HartInv(Step(s, m), h, address)
  {
    assert HartInv(s, h, address) && HartInv(s, m.hart, address);
    StepIsMonotone(s, m, address, |s.pcs|);
    if s.pcs[h].Scan? {
      StepIsMonotone(s, m, address, s.pcs[h].k);
    }
  }

  lemma MovingHartKeepsInv(s: System, m: Move, address: nat)
    requires Inv(s, address) && m.hart < |s.pcs|
    ensures HartInv(Step(s, m), m.hart, address)
  {
    var h, n := m.hart, |s.msip|;
    assert HartInv(s, h, address) && HartInv(s, 0, address);
    StepIsMonotone(s, m, address, n);
    if s.pcs[h].Scan? {
      var k := s.pcs[h].k;
      assert HartInv(s, k, address);
      StepIsMonotone(s, m, address, k);
    }
  }

  lemma StepKeepsInv(s: System, m: Move, address: nat)
    requires Inv(s, address) && m.hart < |s.pcs|
    ensures Inv(Step(s, m), address)
  {
    var s' := Step(s, m);
    assert HartInv(s, m.hart, address);
    forall h | 0 <= h < |s'.pcs| ensures HartInv(s', h, address) {
      if h == m.hart {
        MovingHartKeepsInv(s, m, address);
      } else {
        OtherHartKeepsInv(s, m, h, address);
      }
    }
  }

  lemma {:induction false} RunKeepsInv(s: System, sched: seq<Move>, address: nat)
    requires Inv(s, address) && Schedule(sched, |s.pcs|)
    ensures Inv(Run(s, sched), address)
    decreases |sched|
  {
    if sched != [] {
      StepKeepsInv(s, sched[0], address);
      RunKeepsInv(Step(s, sched[0]), sched[1..], address);
    }
  }

  lemma InitInv(n: nat, address: nat, scratch: seq<nat>)
    requires 0 < n && |scratch| == 16 && address < 0x1_0000_0000_0000_0000
    ensures Inv(Init(n, 0, address, scratch), address)
  {}

  lemma InvIsSafe(s: System, address: nat)
    requires Inv(s, address)
    ensures Safe(s) && JumpsTo(s, address)
  {
    forall h | 0 <= h < |s.pcs| && Left(s.pcs[h])
      ensures s.pcs[h].Jumped? ==> s.pcs[h] == Jumped(address, h)
      ensures forall j :: 0 <= j < |s.pcs| ==> Cleared(s.pcs[j]) && s.msip[j] == 0
    {
      assert HartInv(s, h, address);
      forall j | 0 <= j < |s.pcs| ensures Cleared(s.pcs[j]) && s.msip[j] == 0 {
        assert HartInv(s, j, address);
      }
    }
  }

  /** Any number of harts, any schedule: nobody leaves early and every jump is right. */
  lemma BarrierSafe(n: nat, address: nat, scratch: seq<nat>, sched: seq<Move>)
    requires 0 < n && |scratch| == 16 && address < 0x1_0000_0000_0000_0000 && Schedule(sched, n)
    ensures var s := Run(Init(n, 0, address, scratch), sched); Safe(s) && JumpsTo(s, address)
  {
    var s := Run(Init(n, 0, address, scratch), sched);
    InitInv(n, address, scratch);
    RunKeepsInv(Init(n, 0, address, scratch), sched, address);
    InvIsSafe(s, address);
  }

  // ----- Why NONSMP_HART has to be 0

  predicate SafeSchedule(n: nat, boot: nat, address: nat, scratch: seq<nat>, sched: seq<Move>)
    requires boot < n && |scratch| == 16
  {
    Schedule(sched, n) ==> Safe(Run(Init(n, boot, address, scratch), sched))
  }

  lemma {:induction false} RunSplit(s: System, a: seq<Move>, b: seq<Move>)
    requires Shape(s) && Schedule(a, |s.pcs|) && Schedule(b, |s.pcs|)
    ensures Schedule(a + b, |s.pcs|) && Run(s, a + b) == Run(Run(s, a), b)
    decreases |a|
  {
    if a == [] {
      assert a + b == b;
    } else {
      assert (a + b)[1..] == a[1..] + b;
      RunSplit(Step(s, a[0]), a[1..], b);
    }
  }

  /** With every word zero, hart `h` scans to the end on its own. */
  lemma {:induction false} ScanAlone(s: System, h: nat) returns (sched: seq<Move>)
    requires Shape(s) && h < |s.pcs| && s.pcs[h].Scan?
    requires forall j :: 0 <= j < |s.msip| ==> s.msip[j] == 0
    ensures Schedule(sched, |s.pcs|)
    ensures Run(s, sched) == s.(pcs := s.pcs[h := LoadHigh])
    decreases |s.msip| - s.pcs[h].k
  {
    var m := Move(h, false);
    var s' := Step(s, m);
    if s.pcs[h].k + 1 == |s.msip| {
      sched := [m];
      assert Run(s', []) == s';
    } else {
      var rest := ScanAlone(s', h);
      sched := [m] + rest;
      assert sched[1..] == rest;
      assert s'.pcs[h := LoadHigh] == s.pcs[h := LoadHigh];
    }
  }

  /** Three turns of one hart, without spurious wake-ups. */
  function Thrice(h: nat): seq<Move> {
    [Move(h, false), Move(h, false), Move(h, false)]
  }

  lemma RunThrice(s: System, h: nat)
    requires Shape(s) && h < |s.pcs|
    ensures var m := Move(h, false); Run(s, Thrice(h)) == Step(Step(Step(s, m), m), m)
  {
    hide Step;
    var m := Move(h, false);
    assert Thrice(h)[1..] == [m, m] && [m, m][1..] == [m] && [m][1..] == [];
    assert Run(s, Thrice(h)) == Run(Step(s, m), [m, m]) == Run(Step(Step(s, m), m), [m]);
  }

  /** Publishing hart `boot` starts, sets word 0, and hart 0 wakes and clears it again. */
  lemma FirstWordOnly(n: nat, boot: nat, address: nat, scratch: seq<nat>) returns (s: System)
    requires 0 < boot < n && |scratch| == 16
    ensures Schedule(Thrice(boot) + Thrice(0), n)
    ensures s == Run(Init(n, boot, address, scratch), Thrice(boot) + Thrice(0))
    ensures s.pcs[boot] == Set(1) && s.pcs[0] == Scan(0) && forall j :: 0 <= j < n ==> s.msip[j] == 0
  {
    var s0 := Init(n, boot, address, scratch);
    RunThrice(s0, boot);
    var s3 := Run(s0, Thrice(boot));
    assert s3.pcs[boot] == Set(1) && s3.pcs[0] == Sleep && s3.msip[0] == 1;
    RunThrice(s3, 0);
    RunSplit(s0, Thrice(boot), Thrice(0));
    s := Run(s3, Thrice(0));
  }

  /** If another hart publishes, hart 0 can leave while that hart has set only the first word. */
  lemma EarlyLeaver(n: nat, boot: nat, address: nat, scratch: seq<nat>) returns (sched: seq<Move>)
    requires 0 < boot < n && |scratch| == 16
    ensures !SafeSchedule(n, boot, address, scratch, sched)
  {
    var s := FirstWordOnly(n, boot, address, scratch);
    var rest := ScanAlone(s, 0);
    sched := Thrice(boot) + Thrice(0) + rest;
    RunSplit(Init(n, boot, address, scratch), Thrice(boot) + Thrice(0), rest);
    var s' := Run(s, rest);
    assert Left(s'.pcs[0]) && !Cleared(s'.pcs[boot]);
  }

  /** The barrier works for every schedule exactly when hart 0 is the one that publishes. */
  lemma SafeExactlyForHartZero(n: nat, boot: nat, address: nat, scratch: seq<nat>)
    requires boot < n && |scratch| == 16 && address < 0x1_0000_0000_0000_0000
    ensures (forall sched :: SafeSchedule(n, boot, address, scratch, sched)) <==> boot == 0
  {
    if boot == 0 {
      forall sched ensures SafeSchedule(n, boot, address, scratch, sched) {
        if Schedule(sched, n) {
          BarrierSafe(n, address, scratch, sched);
        }
      }
    } else {
      var sched := EarlyLeaver(n, boot, address, scratch);
    }
  }

  // ----- Progress

  /** The step of `h` is not a turn of one of the two spin loops. */
  predicate Productive(s: System, h: nat)
    requires Shape(s) && h < |s.pcs|
  {
    match s.pcs[h]
    case Sleep => Pending(s, h)
    case Poll => Pending(s, h)
    case Scan(k) => s.msip[k] == 0
    case Jumped(_, _) => false
    case _ => true
  }

  /** How far hart `h` is from its jump. */
  function Rank(s: System, h: nat): nat
    requires Shape(s) && h < |s.pcs|
  {
    var n := |s.msip|;
    match s.pcs[h]
    case StoreLow(_) => 2 * n + 7
    case StoreHigh(_) => 2 * n + 6
    case Set(k) => 2 * n + 5 - k
    case Sleep => n + 5
    case Poll => if Pending(s, h) then n + 4 else n + 5
    case Clear => n + 3
    case Scan(k) => n + 2 - k
    case LoadHigh => 2
    case LoadLow(_) => 1
    case Jumped(_, _) => 0
  }

  /** The summed ranks of the first `k` harts. */
  function Measure(s: System, k: nat): nat
    requires Shape(s) && k <= |s.pcs|
  {
    if k == 0 then 0 else Measure(s, k - 1) + Rank(s, k - 1)
  }

  lemma {:induction false} MeasureMonotone(s: System, s': System, k: nat)
    requires Shape(s) && Shape(s') && k <= |s.pcs| == |s'.pcs|
    requires forall h :: 0 <= h < |s.pcs| ==> Rank(s', h) <= Rank(s, h)
    ensures Measure(s', k) <= Measure(s, k)
    ensures (exists h :: 0 <= h < k && Rank(s', h) < Rank(s, h)) ==> Measure(s', k) < Measure(s, k)
  {
    if k > 0 {
      MeasureMonotone(s, s', k - 1);
    }
  }

  lemma StepRank(s: System, m: Move, h: nat, address: nat)
    requires Inv(s, address) && m.hart < |s.pcs| && h < |s.pcs|
    ensures Rank(Step(s, m), h) <= Rank(s, h)
    ensures h == m.hart && Productive(s, h) ==> Rank(Step(s, m), h) < Rank(s, h)
  {
    assert HartInv(s, m.hart, address) && HartInv(s, h, address);
  }

  /** No step of any hart raises the measure, and every productive one lowers it. */
  lemma StepMeasure(s: System, m: Move, address: nat)
    requires Inv(s, address) && m.hart < |s.pcs|
    ensures Measure(Step(s, m), |s.pcs|) <= Measure(s, |s.pcs|)
    ensures Productive(s, m.hart) ==> Measure(Step(s, m), |s.pcs|) < Measure(s, |s.pcs|)
  {
    forall h | 0 <= h < |s.pcs| ensures Rank(Step(s, m), h) <= Rank(s, h) {
      StepRank(s, m, h, address);
    }
    StepRank(s, m, m.hart, address);
    MeasureMonotone(s, Step(s, m), |s.pcs|);
  }

  /** While a hart is still inside, some hart can do more than spin. */
  lemma NoDeadlock(s: System, address: nat) returns (h: nat)
    requires Inv(s, address) && !Done(s)
    ensures h < |s.pcs| && Productive(s, h)
  {
    h :| 0 <= h < |s.pcs| && !s.pcs[h].Jumped?;
    assert HartInv(s, 0, address) && HartInv(s, h, address);
    if s.pcs[0].StoreLow? || s.pcs[0].StoreHigh? || s.pcs[0].Set? {
      h := 0;
    } else if !Productive(s, h) && s.pcs[h].Scan? {
      // the word it waits for belongs to a hart that has been woken and not cleared it yet
      h := s.pcs[h].k;
      assert HartInv(s, h, address);
    }
  }

  predicate HasTurn(round: seq<Move>, h: nat) {
    exists i :: 0 <= i < |round| && round[i].hart == h
  }

  /** A round gives every hart at least one turn, in any order. */
  predicate Covers(round: seq<Move>, n: nat) {
    Schedule(round, n) && forall h :: 0 <= h < n ==> HasTurn(round, h)
  }

  lemma {:induction false} RunMeasure(s: System, sched: seq<Move>, address: nat)
    requires Inv(s, address) && Schedule(sched, |s.pcs|)
    ensures Measure(Run(s, sched), |s.pcs|) <= Measure(s, |s.pcs|)
    decreases |sched|
  {
    if sched != [] {
      StepMeasure(s, sched[0], address);
      StepKeepsInv(s, sched[0], address);
      RunMeasure(Step(s, sched[0]), sched[1..], address);
    }
  }

  /** A hart that can make progress keeps that chance until somebody makes some. */
  lemma {:induction false} TurnMakesProgress(s: System, sched: seq<Move>, h: nat, address: nat)
    requires Inv(s, address) && Schedule(sched, |s.pcs|) && h < |s.pcs| && Productive(s, h)
    requires HasTurn(sched, h)
    ensures Measure(Run(s, sched), |s.pcs|) < Measure(s, |s.pcs|)
    decreases |sched|
  {
    var m, rest := sched[0], sched[1..];
    var s' := Step(s, m);
    StepMeasure(s, m, address);
    StepKeepsInv(s, m, address);
    RunMeasure(s', rest, address);
    if !Productive(s, m.hart) {
      assert s'.msip == s.msip && s'.pcs[h] == s.pcs[h];
      var i :| 0 <= i < |sched| && sched[i].hart == h;
      assert rest[i - 1] == sched[i];
      TurnMakesProgress(s', rest, h, address);
    }
  }

  function Flatten(rounds: seq<seq<Move>>): seq<Move> {
    if rounds == [] then [] else rounds[0] + Flatten(rounds[1..])
  }

  lemma {:induction false} RoundsFinish(s: System, rounds: seq<seq<Move>>, address: nat)
    requires Inv(s, address) && forall r :: 0 <= r < |rounds| ==> Covers(rounds[r], |s.pcs|)
    requires Measure(s, |s.pcs|) <= |rounds|
    ensures Schedule(Flatten(rounds), |s.pcs|) && Done(Run(s, Flatten(rounds)))
    decreases |rounds|
  {
    if rounds == [] {
      if !Done(s) {
        var h := NoDeadlock(s, address);
        StepMeasure(s, Move(h, false), address);
      }
    } else {
      var s' := Run(s, rounds[0]);
      RunKeepsInv(s, rounds[0], address);
      if Done(s) {
        DoneStays(s, rounds[0]);
        MeasureDone(s, |s.pcs|);
      } else {
        var h := NoDeadlock(s, address);
        assert Covers(rounds[0], |s.pcs|);
        TurnMakesProgress(s, rounds[0], h, address);
      }
      RoundsFinish(s', rounds[1..], address);
      RunSplit(s, rounds[0], Flatten(rounds[1..]));
    }
  }

  lemma {:induction false} DoneStays(s: System, sched: seq<Move>)
    requires Shape(s) && Done(s) && Schedule(sched, |s.pcs|)
    ensures Run(s, sched) == s
    decreases |sched|
  {
    if sched != [] {
      DoneStays(Step(s, sched[0]), sched[1..]);
    }
  }

  lemma {:induction false} MeasureDone(s: System, k: nat)
    requires Shape(s) && Done(s) && k <= |s.pcs|
    ensures Measure(s, k) == 0
  {
    if k > 0 {
      MeasureDone(s, k - 1);
    }
  }

  lemma {:induction false} InitMeasure(n: nat, address: nat, scratch: seq<nat>, k: nat)
    requires 0 < k <= n && |scratch| == 16
    ensures Measure(Init(n, 0, address, scratch), k) == (2 * n + 7) + (k - 1) * (n + 5)
  {
    var s := Init(n, 0, address, scratch);
    if k == 1 {
      assert Measure(s, 0) == 0;
    } else {
      InitMeasure(n, address, scratch, k - 1);
    }
  }

  /** Whatever the order of turns, after n*n + 6*n + 2 rounds all have jumped to
      `address`, every word is zero again, and the other scratch words are as before. */
  lemma FairRunFinishes(n: nat, address: nat, scratch: seq<nat>, rounds: seq<seq<Move>>)
    requires 0 < n && |scratch| == 16 && address < 0x1_0000_0000_0000_0000
    requires forall r :: 0 <= r < |rounds| ==> Covers(rounds[r], n)
    requires (2 * n + 7) + (n - 1) * (n + 5) <= |rounds|
    ensures Schedule(Flatten(rounds), n)
    ensures var s := Run(Init(n, 0, address, scratch), Flatten(rounds));
            && (forall h :: 0 <= h < n ==> s.pcs[h] == Jumped(address, h) && s.msip[h] == 0)
            && s.scratch == scratch[4 := Low(address)][5 := High(address)]
  {
    var s0 := Init(n, 0, address, scratch);
    InitInv(n, address, scratch);
    InitMeasure(n, address, scratch, n);
    RoundsFinish(s0, rounds, address);
    BarrierSafe(n, address, scratch, Flatten(rounds));
    RunKeepsInv(s0, Flatten(rounds), address);
    OtherScratchUnchanged(s0, Flatten(rounds));
    var s := Run(s0, Flatten(rounds));
    assert s.pcs[0].Jumped?;
    assert s.scratch == scratch[4 := Low(address)][5 := High(address)];
  }

  lemma {:induction false} OtherScratchUnchanged(s: System, sched: seq<Move>)
    requires Shape(s) && Schedule(sched, |s.pcs|)
    ensures forall i :: 0 <= i < 16 && i != 4 && i != 5 ==> Run(s, sched).scratch[i] == s.scratch[i]
    decreases |sched|
  {
    if sched != [] {
      OtherScratchUnchanged(Step(s, sched[0]), sched[1..]);
    }
  }

  // ----- The shared words and the harts' registers, updated in place

  class Soc {
    const n: nat
    const msip: array<nat>
    const scratch: array<nat>
    const pcs: array<Pc>

    ghost predicate Valid()
      reads this, msip, scratch, pcs
    {
      && n == msip.Length == pcs.Length && scratch.Length == 16 && msip != scratch
      && Shape(State())
    }

    ghost function State(): System
      reads this, msip, scratch, pcs
    {
      System(msip[..], scratch[..], pcs[..])
    }

    /** Reset: the harts other than hart 0 fall into the wfi loop, hart 0 reaches boot_next_stage. */
    constructor (n: nat, address: nat, words: seq<nat>)
      requires 0 < n && |words| == 16
      ensures Valid() && this.n == n && fresh(msip) && fresh(scratch) && fresh(pcs)
      ensures State() == Init(n, 0, address, words)
    {
      this.n := n;
      msip := new nat[n](_ => 0);
      scratch := new nat[16](i requires 0 <= i < 16 => words[i]);
      pcs := new Pc[n](h => if h == 0 then StoreLow(address) else Sleep);
      new;
      assert scratch[..] == words;
      assert State() == Init(n, 0, address, words);
    }

    /** One hart executes up to its next memory access. */
    method Turn(h: nat, spurious: bool)
      requires Valid() && h < n
      modifies msip, scratch, pcs
      ensures Valid() && State() == Step(old(State()), Move(h, spurious))
    {
      match pcs[h]
      case StoreLow(a0) => scratch[4] := Low(a0); pcs[h] := StoreHigh(High(a0));
      case StoreHigh(a0) => scratch[5] := Low(a0); pcs[h] := Set(0);
      case Set(k) => msip[k] := 1; pcs[h] := if k + 1 < n then Set(k + 1) else Sleep;
      case Sleep => if msip[h] % 2 == 1 || spurious { pcs[h] := Poll; }
      case Poll => pcs[h] := if msip[h] % 2 == 1 then Clear else Sleep;
      case Clear => msip[h] := 0; pcs[h] := Scan(0);
      case Scan(k) => if msip[k] == 0 { pcs[h] := if k + 1 < n then Scan(k + 1) else LoadHigh; }
      case LoadHigh => pcs[h] := LoadLow(scratch[5] * 0x1_0000_0000);
      case LoadLow(t1) => pcs[h] := Jumped(scratch[4] + t1, h);
      case Jumped(_, _) =>
    }

    method Turns(sched: seq<Move>)
      requires Valid() && Schedule(sched, n)
      modifies msip, scratch, pcs
      ensures Valid() && State() == Run(old(State()), sched)
    {
      for i := 0 to |sched|
        invariant Valid() && Run(State(), sched[i..]) == Run(old(State()), sched)
      {
        assert sched[i..][1..] == sched[i + 1..];
        Turn(sched[i].hart, sched[i].spurious);
      }
    }
  }
}
