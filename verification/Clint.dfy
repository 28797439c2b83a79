/** Timer code of sw/lib/dif/clint.c: the 64-bit counter read in two halves, spinning, and the
    measurement of the core frequency. Time is counted in core cycles; when the accesses happen is
    arbitrary. The high half is read first, as the compiled boot ROM does
    (hw/bootrom/cheshire_bootrom.sv:148-149). */
module Clint {
  import opened Common

  function High(m: nat): nat {
    m / TWO_32 % TWO_32
  }

  function Low(m: nat): nat {
    m % TWO_32
  }

  /** A read whose high half sees counter value `m1` and whose low half sees `m2`. */
  function Joined(m1: nat, m2: nat): nat {
    High(m1) * TWO_32 + Low(m2)
  }

  /** High half first: never ahead of the counter, and behind by exactly the 2^32 blocks that were
      entered between the two reads. */
  lemma JoinedBehind(m1: nat, m2: nat)
    requires m1 <= m2
    ensures Joined(m1, m2) <= m2
    ensures m2 < TWO_64 ==> m2 - Joined(m1, m2) == TWO_32 * (m2 / TWO_32 - m1 / TWO_32)
  {
    var h1, h2 := m1 / TWO_32, m2 / TWO_32;
    assert h1 <= h2;
    assert h1 % TWO_32 <= h1;
    assert m2 == h2 * TWO_32 + Low(m2);
  }

  /** A read with the low half first, at `m1`, would be ahead of the counter exactly if the low half
      has rolled over past it since. */
  lemma LowFirstRunsAhead(m1: nat, m2: nat)
    requires m1 <= m2 < TWO_64
    ensures Joined(m2, m1) > m2 <==> Low(m1) > Low(m2)
  {
    assert m2 / TWO_32 % TWO_32 == m2 / TWO_32;
    assert m2 == m2 / TWO_32 * TWO_32 + Low(m2);
  }

  // ----- Runs: `m` is the counter at each core cycle, `delay` when accesses follow each other

  ghost predicate Monotone(m: nat -> nat) {
    forall s: nat, t: nat :: s <= t ==> m(s) <= m(t)
  }

  /** The access after the one at cycle `t`. */
  function Later(delay: nat -> nat, t: nat): (u: nat)
    ensures t < u
  {
    t + 1 + delay(t)
  }

  /** What a read of both halves returns if the access before it was at `t`. */
  function Value(m: nat -> nat, delay: nat -> nat, t: nat): nat {
    Joined(m(Later(delay, t)), m(Later(delay, Later(delay, t))))
  }

  /** The cycle of the last access of `k` reads in a row. */
  function After(delay: nat -> nat, t: nat, k: nat): (u: nat)
    ensures t <= u
  {
    if k == 0 then t else Later(delay, Later(delay, After(delay, t, k - 1)))
  }

  /** Of the reads in a row after `t`, the one with index `j` is the first to reach the target. */
  ghost predicate EndsAt(m: nat -> nat, delay: nat -> nat, t: nat, target: nat, j: nat) {
    && target <= Value(m, delay, After(delay, t, j))
    && forall i :: 0 <= i < j ==> Value(m, delay, After(delay, t, i)) < target
  }

  /** A wait for `ticks` that starts after `t` spins until its read with index `j`. */
  ghost predicate WaitEndsAt(m: nat -> nat, delay: nat -> nat, t: nat, ticks: nat, j: nat) {
    EndsAt(m, delay, After(delay, t, 1), U64(Value(m, delay, t) + ticks), j)
  }

  /** From its first read to its last, the counter has advanced by as much as was asked for. */
  predicate FullWait(m: nat -> nat, delay: nat -> nat, t: nat, ticks: nat, j: nat) {
    m(After(delay, t, 1)) + ticks <= m(After(delay, After(delay, t, 1), j + 1))
  }

  /** The first read of a wait is stale: the high half moved on before the low half was read. */
  predicate Stale(m: nat -> nat, delay: nat -> nat, t: nat) {
    m(Later(delay, t)) / TWO_32 != m(After(delay, t, 1)) / TWO_32
  }

  lemma ValueBehind(m: nat -> nat, delay: nat -> nat, t: nat)
    requires Monotone(m)
    ensures m(t) <= m(Later(delay, t)) <= m(After(delay, t, 1)) && After(delay, t, 1) == Later(delay, Later(delay, t))
    ensures Value(m, delay, t) <= m(After(delay, t, 1)) && Value(m, delay, t) < TWO_64
    ensures m(After(delay, t, 1)) < TWO_64 ==>
              m(After(delay, t, 1)) - Value(m, delay, t)
              == TWO_32 * (m(After(delay, t, 1)) / TWO_32 - m(Later(delay, t)) / TWO_32)
  {
    assert After(delay, t, 0) == t;
    JoinedBehind(m(Later(delay, t)), m(After(delay, t, 1)));
  }

  lemma {:induction false} AfterBoth(delay: nat -> nat, t: nat, k: nat)
    ensures After(delay, t, k + 1) == After(delay, After(delay, t, 1), k)
  {
    if k > 0 {
      AfterBoth(delay, t, k - 1);
    }
  }

  lemma {:induction false} AfterGrows(delay: nat -> nat, t: nat, j: nat, k: nat)
    requires j <= k
    ensures After(delay, t, j) <= After(delay, t, k)
    decreases k
  {
    if j < k {
      AfterGrows(delay, t, j, k - 1);
    }
  }

  /** If some read reaches the target, there is a first one. */
  lemma {:induction false} FirstReach(m: nat -> nat, delay: nat -> nat, t: nat, target: nat, k: nat) returns (j: nat)
    requires target <= Value(m, delay, After(delay, t, k))
    ensures j <= k && EndsAt(m, delay, t, target, j)
    decreases k
  {
    hide Value, After;
    if i :| 0 <= i < k && target <= Value(m, delay, After(delay, t, i)) {
      j := FirstReach(m, delay, t, target, i);
    } else {
      j := k;
    }
  }

  /** How long a wait is: as long as asked for, less 2^32 for each block that was entered within its
      first read. */
  lemma WaitAtLeast(m: nat -> nat, delay: nat -> nat, t: nat, ticks: nat, j: nat)
    requires Monotone(m) && WaitEndsAt(m, delay, t, ticks, j) && Value(m, delay, t) + ticks < TWO_64
    ensures Value(m, delay, t) + ticks <= m(After(delay, After(delay, t, 1), j + 1))
    ensures m(After(delay, t, 1)) < TWO_64 && !Stale(m, delay, t) ==> FullWait(m, delay, t, ticks, j)
  {
    hide Value;
    ValueBehind(m, delay, t);
    var s := After(delay, t, 1);
    ValueBehind(m, delay, After(delay, s, j));
    assert After(delay, After(delay, s, j), 1) == After(delay, s, j + 1);
  }

  /** A stale start and no more ticks than it lags behind: the first read of the loop already ends
      it, unless that read is stale as well, and then the wait is full only if that much time has
      passed within a single read. */
  lemma StaleWait(m: nat -> nat, delay: nat -> nat, t: nat, ticks: nat)
    requires Monotone(m) && Value(m, delay, t) + ticks <= m(After(delay, t, 1)) < TWO_64
    requires m(After(delay, t, 1)) <= Value(m, delay, After(delay, t, 1))
    ensures WaitEndsAt(m, delay, t, ticks, 0)
    ensures FullWait(m, delay, t, ticks, 0) <==> m(After(delay, t, 1)) + ticks <= m(After(delay, t, 2))
  {
    AfterBoth(delay, t, 1);
    assert After(delay, After(delay, t, 1), 0) == After(delay, t, 1);
    hide Value, After;
    ValueBehind(m, delay, t);
  }

  /** Full if the start value plus the ticks fits 64 bits; otherwise not, while the counter itself does. */
  ghost predicate FullIfFits(m: nat -> nat, delay: nat -> nat, t: nat, ticks: nat, j: nat) {
    if Value(m, delay, t) + ticks < TWO_64 then FullWait(m, delay, t, ticks, j)
    else m(After(delay, After(delay, t, 1), j + 1)) < TWO_64 ==> !FullWait(m, delay, t, ticks, j)
  }

  /** An overflowing wait ends early, stale or not. */
  lemma NeverFull(m: nat -> nat, delay: nat -> nat, t: nat, ticks: nat, j: nat)
    requires Monotone(m) && TWO_64 <= Value(m, delay, t) + ticks
    ensures m(After(delay, After(delay, t, 1), j + 1)) < TWO_64 ==> !FullWait(m, delay, t, ticks, j)
  {
    ValueBehind(m, delay, t);
  }

  /** The waits from `t` for all numbers of ticks are full as far as these fit exactly if the first
      read is not stale, provided that the loop sees the counter as it is at least once. */
  lemma FullWaitExactly(m: nat -> nat, delay: nat -> nat, t: nat, k: nat)
    requires Monotone(m) && m(After(delay, t, 1)) < TWO_64
    requires Value(m, delay, After(delay, After(delay, t, 1), k)) == m(After(delay, After(delay, t, 1), k + 1))
    ensures (forall ticks: nat, j: nat :: WaitEndsAt(m, delay, t, ticks, j) ==> FullIfFits(m, delay, t, ticks, j))
            <==> !Stale(m, delay, t)
  {
    hide Value, FullWait, After;
    if Stale(m, delay, t) {
      var ticks, j := ShortWait(m, delay, t, k);
    } else {
      forall ticks: nat, j: nat | WaitEndsAt(m, delay, t, ticks, j) ensures FullIfFits(m, delay, t, ticks, j) {
        WaitFits(m, delay, t, ticks, j);
      }
    }
  }

  lemma WaitFits(m: nat -> nat, delay: nat -> nat, t: nat, ticks: nat, j: nat)
    requires Monotone(m) && m(After(delay, t, 1)) < TWO_64 && !Stale(m, delay, t) && WaitEndsAt(m, delay, t, ticks, j)
    ensures FullIfFits(m, delay, t, ticks, j)
  {
    hide Value, FullWait, WaitEndsAt, Stale, Monotone, After;
    if Value(m, delay, t) + ticks < TWO_64 {
      WaitAtLeast(m, delay, t, ticks, j);
    } else {
      NeverFull(m, delay, t, ticks, j);
    }
  }

  /** A number of ticks for which the wait after a stale read is too short. */
  lemma ShortWait(m: nat -> nat, delay: nat -> nat, t: nat, k: nat) returns (ticks: nat, j: nat)
    requires Monotone(m) && m(After(delay, t, 1)) < TWO_64 && Stale(m, delay, t)
    requires Value(m, delay, After(delay, After(delay, t, 1), k)) == m(After(delay, After(delay, t, 1), k + 1))
    ensures WaitEndsAt(m, delay, t, ticks, j) && Value(m, delay, t) + ticks < TWO_64 && !FullWait(m, delay, t, ticks, j)
  {
    hide Value, After;
    var s := After(delay, t, 1);
    var v := Value(m, delay, After(delay, s, k));
    ValueBehind(m, delay, t);
    ValueBehind(m, delay, After(delay, s, k));
    assert s <= After(delay, s, k + 1);
    ticks := v - Value(m, delay, t);
    j := FirstReach(m, delay, s, v, k);
    AfterGrows(delay, s, j + 1, k + 1);
  }

  /** What a caller can check beforehand: with `c` on the counter and at most `g` ticks to one read,
      waits are full as far as the ticks fit, on every timer, exactly if the low half is further than
      `g` from its rollover. */
  lemma SafeStart(c: nat, g: nat, t: nat)
    requires c + TWO_32 < TWO_64
    ensures (forall m: nat -> nat, delay: nat -> nat, ticks: nat, j: nat ::
               Monotone(m) && m(t) == c && m(After(delay, t, 1)) <= c + g && WaitEndsAt(m, delay, t, ticks, j) ==>
                 FullIfFits(m, delay, t, ticks, j))
            <==> Low(c) + g < TWO_32
  {
    hide Value, FullWait, WaitEndsAt, After;
    if Low(c) + g < TWO_32 {
      forall m: nat -> nat, delay: nat -> nat, ticks: nat, j: nat |
        Monotone(m) && m(t) == c && m(After(delay, t, 1)) <= c + g && WaitEndsAt(m, delay, t, ticks, j)
        ensures FullIfFits(m, delay, t, ticks, j)
      {
        ValueBehind(m, delay, t);
        SameBlock(c, m(Later(delay, t)), m(After(delay, t, 1)), g);
        WaitFits(m, delay, t, ticks, j);
      }
    } else {
      var m, delay, ticks, j := Rollover(c, t);
    }
  }

  lemma SameBlock(c: nat, m1: nat, m2: nat, g: nat)
    requires c <= m1 <= m2 <= c + g && Low(c) + g < TWO_32
    ensures m1 / TWO_32 == m2 / TWO_32
  {
    var q := c / TWO_32;
    assert c == q * TWO_32 + Low(c);
  }

  /** A timer whose counter stands at `c` and enters the next block between the two halves. */
  lemma Rollover(c: nat, t: nat) returns (m: nat -> nat, delay: nat -> nat, ticks: nat, j: nat)
    requires c + TWO_32 < TWO_64
    ensures Monotone(m) && m(t) == c && m(After(delay, t, 1)) == c + (TWO_32 - Low(c))
    ensures WaitEndsAt(m, delay, t, ticks, j) && Value(m, delay, t) + ticks < TWO_64 && !FullWait(m, delay, t, ticks, j)
  {
    var next := c + (TWO_32 - Low(c));
    m := (x: nat) => if x <= t + 1 then c else next;
    delay := (x: nat) => 0;
    assert After(delay, t, 0) == t && After(delay, t, 1) == t + 2;
    assert After(delay, After(delay, t, 1), 0) == t + 2 && After(delay, After(delay, t, 1), 1) == t + 4;
    assert Stale(m, delay, t) by { NextBlock(c); }
    assert Value(m, delay, t + 2) == next by { JoinedBehind(next, next); }
    ticks, j := ShortWait(m, delay, t, 0);
  }

  lemma NextBlock(c: nat)
    ensures (c + (TWO_32 - Low(c))) / TWO_32 == c / TWO_32 + 1
  {}

  /** One such run: a counter that advances every cycle is asked for five ticks just before the low
      half rolls over, and the wait is over after two. */
  lemma ShortRun()
    ensures var m: nat -> nat := t => TWO_32 - 2 + t;
            var delay: nat -> nat := t => 0;
            Monotone(m) && WaitEndsAt(m, delay, 0, 5, 0) && !FullWait(m, delay, 0, 5, 0)
            && m(After(delay, After(delay, 0, 1), 1)) == TWO_32 + 2 < m(After(delay, 0, 1)) + 5
  {
    var m: nat -> nat := t => TWO_32 - 2 + t;
    var delay: nat -> nat := t => 0;
    assert After(delay, 0, 0) == 0 && After(delay, 0, 1) == 2;
    assert After(delay, 2, 0) == 2 && After(delay, 2, 1) == 4;
    assert After(delay, 0, 2) == 4;
    assert Value(m, delay, 0) == 0 && Value(m, delay, 2) == TWO_32 + 2;
    StaleWait(m, delay, 0, 5);
  }

  /** Once the counter is in a later 2^32 block than the target, a read is past the target. */
  lemma PastBlock(m1: nat, m2: nat, target: nat)
    requires (target / TWO_32 + 1) * TWO_32 <= m1 < TWO_64
    ensures target < Joined(m1, m2)
  {
    assert target < (target / TWO_32 + 1) * TWO_32;
    assert target / TWO_32 + 1 <= m1 / TWO_32;
  }

  /** The unsigned division of the RISC-V M extension. */
  function Divu(a: nat, b: nat): nat {
    if b == 0 then TWO_64 - 1 else a / b
  }

  function Abs(x: real): real {
    if x < 0.0 then -x else x
  }

  /** Two core cycle counts and two counter values. */
  datatype Samples = Samples(c0: nat, c1: nat, m0: nat, m1: nat) {
    function Cycles(): nat { if c0 <= c1 then c1 - c0 else 0 }
    function Ticks(): nat { if m0 <= m1 then m1 - m0 else 0 }
  }

  class Timer {
    const mtime: nat -> nat  // the counter at each core cycle
    const delay: nat -> nat  // after an access at cycle t, the next one follows 1 + delay(t) cycles later
    var now: nat             // cycle of the latest access

    constructor (mtime: nat -> nat, delay: nat -> nat)
      requires Monotone(mtime)
      ensures Valid() && this.mtime == mtime && this.delay == delay && now == 0
    {
      this.mtime, this.delay, now := mtime, delay, 0;
    }

    ghost predicate Valid() {
      Monotone(mtime)
    }

    function Next(t: nat): (u: nat)
      ensures t < u
    {
      Later(delay, t)
    }

    /** Three accesses, one iteration of a sampling loop, take at most `d` cycles. */
    ghost predicate Paced(d: nat) {
      forall t: nat :: Next(Next(Next(t))) <= t + d
    }

    /** At cycle `h` the counter has left the block of `target`; soon after, it is still in range. */
    ghost predicate Horizon(target: nat, h: nat, d: nat) {
      (target / TWO_32 + 1) * TWO_32 <= mtime(h) && mtime(h + 2 * d) < TWO_64
    }

    /** The counter counts ticks of `period` core cycles, with some phase. */
    ghost predicate Ticks(period: real, phase: real) {
      forall t: nat :: mtime(t) as real * period <= t as real + phase < (mtime(t) + 1) as real * period
    }

    /** The high half stands still. */
    ghost predicate Quiet(from: nat, to: nat) {
      mtime(from) / TWO_32 == mtime(to) / TWO_32
    }

    /** Three accesses take at most `g` ticks. */
    ghost predicate Slack(g: nat) {
      forall t: nat :: mtime(Next(Next(Next(t)))) <= mtime(t) + g
    }

    /** The low half of the counter at `from` is further than `span` from its rollover. */
    ghost predicate Calm(from: nat, g: nat, span: nat) {
      Slack(g) && Low(mtime(from)) + span < TWO_32
    }

    lemma CalmIsQuiet(from: nat, g: nat, span: nat, to: nat)
      requires Valid() && Calm(from, g, span) && from <= to && mtime(to) <= mtime(from) + span
      ensures Quiet(from, to)
    {
      SameBlock(mtime(from), mtime(from), mtime(to), span);
    }

    /** An iteration that starts early enough within the span ends within it as well. */
    lemma CalmStep(from: nat, g: nat, span: nat, a: nat)
      requires Valid() && Calm(from, g, span) && from <= a && mtime(a) + g <= mtime(from) + span
      ensures mtime(a) <= mtime(Next(Next(a))) <= mtime(Next(Next(Next(a)))) <= mtime(a) + g
      ensures Quiet(from, Next(Next(Next(a))))
    {
      CalmIsQuiet(from, g, span, Next(Next(Next(a))));
    }

    lemma QuietPart(from: nat, a: nat, b: nat, to: nat)
      requires Valid() && from <= a <= b <= to && Quiet(from, to)
      ensures Quiet(a, b)
    {
      assert mtime(from) <= mtime(a) <= mtime(b) <= mtime(to);
    }

    /** Up to its horizon the counter keeps away from its last 2^32 block. */
    lemma HorizonFacts(target: nat, h: nat, d: nat)
      requires Valid() && Horizon(target, h, d)
      ensures target < mtime(h) <= mtime(h + 2 * d) < TWO_64
    {
      assert target < (target / TWO_32 + 1) * TWO_32;
    }

    lemma PastHorizon(target: nat, h: nat, d: nat, s: nat, t: nat)
      requires Valid() && Horizon(target, h, d) && h <= s <= t && s <= h + 2 * d
      ensures target < Joined(mtime(s), mtime(t))
    {
      assert mtime(h) <= mtime(s) <= mtime(h + 2 * d);
      PastBlock(mtime(s), mtime(t), target);
    }

    method GetMcycle() returns (v: nat)
      modifies this
      ensures now == Next(old(now)) && v == U64(now)
    {
      now := Next(now);
      v := U64(now);
    }

    method GetMtime() returns (v: nat)
      requires Valid()
      modifies this
      ensures now == Next(Next(old(now)))
      ensures v == Joined(mtime(Next(old(now))), mtime(now)) <= mtime(now)
      ensures v == Value(mtime, delay, old(now)) && now == After(delay, old(now), 1)
    {
      now := Next(now);
      var high := High(mtime(now));
      JoinedBehind(mtime(now), mtime(Next(now)));
      now := Next(now);
      v := high * TWO_32 + Low(mtime(now));
    }

    /** Ends with the first read that reaches the target, if any ever does (`k` is the index of one),
        and so never before the real counter has reached it. */
    method SpinUntil(target: nat, ghost k: nat) returns (ghost j: nat)
      requires Valid() && target <= Value(mtime, delay, After(delay, now, k))
      modifies this
      ensures j <= k && EndsAt(mtime, delay, old(now), target, j) && now == After(delay, old(now), j + 1)
      ensures target <= mtime(now)
    {
      hide Value, Joined;
      j := 0;
      assert After(delay, now, 0) == now;
      var v := GetMtime();
      while v < target
        invariant j <= k && now == After(delay, old(now), j + 1)
        invariant v == Value(mtime, delay, After(delay, old(now), j)) <= mtime(now)
        invariant forall i :: 0 <= i < j ==> Value(mtime, delay, After(delay, old(now), i)) < target
        decreases k - j
      {
        v := GetMtime();
        j := j + 1;
      }
    }

    /** Ends exactly where its target, the start value plus the ticks in 64 bits, is first read. */
    method SpinTicks(ticks: nat, ghost k: nat) returns (ghost j: nat)
      requires Valid() && ticks < TWO_64
      requires U64(Value(mtime, delay, now) + ticks) <= Value(mtime, delay, After(delay, After(delay, now, 1), k))
      modifies this
      ensures WaitEndsAt(mtime, delay, old(now), ticks, j)
      ensures now == After(delay, After(delay, old(now), 1), j + 1)
      ensures Value(mtime, delay, old(now)) + ticks < TWO_64 ==>
                && (old(mtime(After(delay, now, 1))) < TWO_64 && !Stale(mtime, delay, old(now)) ==>
                      FullWait(mtime, delay, old(now), ticks, j))
                && Value(mtime, delay, old(now)) + ticks <= mtime(now)
      ensures TWO_64 <= Value(mtime, delay, old(now)) + ticks && mtime(now) < TWO_64 ==>
                !FullWait(mtime, delay, old(now), ticks, j)
      ensures U64(Value(mtime, delay, old(now)) + ticks) <= old(mtime(After(delay, now, 1))) < TWO_64
              && mtime(After(delay, old(now), 1)) <= Value(mtime, delay, After(delay, old(now), 1)) ==>
                j == 0
    {
      hide Value, FullWait;
      ghost var start := now;
      var v := GetMtime();
      j := SpinUntil(U64(v + ticks), k);
      assert After(delay, After(delay, start, 1), 0) == After(delay, start, 1);
      hide After;
      if Value(mtime, delay, start) + ticks < TWO_64 {
        WaitAtLeast(mtime, delay, start, ticks, j);
      } else {
        NeverFull(mtime, delay, start, ticks, j);
      }
    }

    /** Before a horizon some read reaches the target, so the loop ends. */
    lemma {:induction false} SpinEnds(t: nat, target: nat, h: nat, d: nat) returns (k: nat)
      requires Valid() && Paced(d) && Horizon(target, h, d) && t <= h + d
      ensures target <= Value(mtime, delay, After(delay, t, k))
      decreases h + d - t
    {
      hide Horizon, Joined;
      assert Next(Next(Next(t))) <= t + d;
      if Next(t) >= h {
        k := 0;
        PastHorizon(target, h, d, Next(t), Next(Next(t)));
        assert After(delay, t, 0) == t;
      } else {
        assert Next(Next(Next(Next(t)))) <= Next(t) + d;
        var s := Next(Next(t));
        assert After(delay, t, 0) == t && After(delay, t, 1) == s;
        k := SpinEnds(s, target, h, d);
        AfterBoth(delay, t, k);
        k := k + 1;
      }
    }

    /** A read is exact if the high half stood still since `from`. */
    lemma ExactRead(from: nat, s: nat, t: nat)
      requires Valid() && from <= s <= t && mtime(t) < TWO_64
      ensures Quiet(from, t) ==> Joined(mtime(s), mtime(t)) == mtime(t)
    {
      JoinedBehind(mtime(s), mtime(t));
      if Quiet(from, t) { QuietPart(from, s, t, t); }
    }

    /** Two reads in a row are exact if the high half stood still since `from`. */
    lemma ExactReads(from: nat, s: nat, a: nat, t: nat, u: nat)
      requires Valid() && from <= s <= a <= t <= u && mtime(u) < TWO_64
      ensures mtime(a) <= mtime(u)
      ensures Quiet(from, u) ==> Joined(mtime(s), mtime(a)) == mtime(a) && Joined(mtime(t), mtime(u)) == mtime(u)
    {
      hide Joined;
      assert mtime(a) <= mtime(u);
      ExactRead(from, s, a);
      ExactRead(from, t, u);
      if Quiet(from, u) { QuietPart(from, from, a, u); }
    }

    /** `clint_get_core_freq`'s first loop: the last two samples, the latter at `now`, lie on either
        side of a tick, and so does the core cycle count taken at `c`. */
    method AwaitChange(previous: nat, ghost from: nat, ghost seen: nat, ghost first: nat, ghost d: nat, ghost h: nat,
                       ghost g: nat, ghost span: nat)
      returns (mcycle: nat, value: nat, ghost a: nat, ghost c: nat, ghost t: nat)
      requires Valid() && Paced(d) && Horizon(first, h, d)
      requires from <= seen < h && now == Next(seen) && previous == Joined(mtime(seen), mtime(now)) <= first
      modifies this
      ensures old(now) <= a < c < now <= a + d && now <= h + 2 * d && mcycle == U64(c)
      ensures a < t && now == Next(t)
      ensures value <= mtime(now) && (Quiet(from, now) ==> value == mtime(now) > mtime(a))
      ensures Calm(from, g, span) && mtime(old(now)) + g <= mtime(from) + span ==> mtime(now) <= mtime(old(now)) + g
    {
      hide Horizon, Joined, Quiet, Calm, U64;
      ghost var s := seen;
      assert Next(Next(Next(s))) <= s + d;
      ghost var calm := Calm(from, g, span) && mtime(now) + g <= mtime(from) + span;
      HorizonFacts(first, h, d);
      while true
        invariant old(now) <= now && seen <= s < h && now == Next(s) && now <= h + d
        invariant previous == Joined(mtime(s), mtime(now))
        invariant calm ==> mtime(now) == mtime(old(now))
        decreases h + d - now
      {
        a := now;
        assert Next(Next(Next(a))) <= a + d;
        mcycle := GetMcycle();
        c := now;
        t := Next(now);
        value := GetMtime();
        assert mtime(now) <= mtime(h + 2 * d);
        ExactReads(from, s, a, t, now);
        if calm { CalmStep(from, g, span, a); }
        if value != previous { return; }
        if t >= h {
          PastHorizon(first, h, d, t, now);
          assert false;
        }
        s := t;
        assert now <= s + d by { assert Next(Next(Next(s))) <= s + d; }
      }
    }

    /** The second loop: the sample before the last lies before the target tick, the last one not. */
    method AwaitTicks(start: nat, numTicks: nat, ghost from: nat, ghost seen: nat,
                      ghost target: nat, ghost d: nat, ghost h: nat,
                      ghost g: nat, ghost span: nat)
      returns (mcycle: nat, value: nat, ghost b: nat, ghost c: nat)
      requires Valid() && Paced(d) && Horizon(target, h, d)
      requires from <= seen < h && now == Next(seen) && start <= mtime(now) && mtime(now) + numTicks <= target
      modifies this
      ensures old(now) <= b < c < now <= b + d && mcycle == U64(c) && mtime(now) < TWO_64
      ensures Quiet(from, now) ==> value == mtime(now) >= start + numTicks
      ensures Quiet(from, now) && start + numTicks > old(mtime(now)) ==> mtime(b) < start + numTicks
      ensures Calm(from, g, span) && mtime(old(now)) + numTicks + g <= mtime(from) + span ==> Quiet(from, now)
    {
      hide Horizon, Joined, Quiet, Calm, U64;
      ghost var s := seen;
      assert Next(Next(Next(s))) <= s + d;
      HorizonFacts(target, h, d);
      assert U64(start + numTicks) == start + numTicks;
      ghost var calm := Calm(from, g, span) && mtime(now) + numTicks + g <= mtime(from) + span;
      while true
        invariant old(now) <= now && seen <= s < h && now == Next(s) && now <= h + d
        invariant now == old(now) || Joined(mtime(s), mtime(now)) < start + numTicks
        invariant calm ==> mtime(now) + g <= mtime(from) + span
        decreases h + d - now
      {
        b := now;
        assert Next(Next(Next(b))) <= b + d;
        mcycle := GetMcycle();
        c := now;
        ghost var t := Next(now);
        value := GetMtime();
        assert mtime(now) <= mtime(h + 2 * d);
        ExactReads(from, s, b, t, now);
        if calm { CalmStep(from, g, span, b); }
        if value >= U64(start + numTicks) { return; }
        if t >= h {
          PastHorizon(target, h, d, t, now);
          assert false;
        }
        s := t;
        assert now <= s + d by { assert Next(Next(Next(s))) <= s + d; }
      }
    }

    /** The cycle count taken between two samples on either side of a tick is less than `d` off the tick. */
    lemma NearTick(a: nat, c: nat, b: nat, d: nat, period: real, phase: real)
      requires Ticks(period, phase) && a < c < b <= a + d && mtime(a) < mtime(b)
      ensures NearEdge(c, mtime(b), d, period, phase)
    {
      PeriodPositive(period, phase);
      var edge := mtime(b) as real * period;
      assert edge <= b as real + phase;
      assert a as real + phase < edge by {
        assert a as real + phase < (mtime(a) + 1) as real * period;
        LaterTick(mtime(a), mtime(b), period, a as real + phase);
      }
      Near(a, c, b, d, phase, edge);
    }

    lemma PeriodPositive(period: real, phase: real)
      requires Ticks(period, phase)
      ensures period > 0.0
    {
      assert mtime(0) as real * period < (mtime(0) + 1) as real * period;
    }

    /** Samples at `a`, `mid` and `b`, `end` on either side of two ticks at least `numTicks` apart,
        with core cycle counts taken at `c0` and `c1` in between. */
    ghost predicate Bracketed(s: Samples, a: nat, mid: nat, b: nat, end: nat, numTicks: nat, d: nat) {
      && a < s.c0 < mid <= a + d && mid <= b < s.c1 < end <= b + d
      && mtime(a) < mtime(mid) && mtime(b) < mtime(mid) + numTicks <= mtime(end) < TWO_64
      && s.m0 == mtime(mid) && s.m1 == mtime(end)
    }

    /** Two exact samples in a row, each with a cycle count taken before it. */
    ghost predicate Sampled(s: Samples, from: nat, end: nat) {
      from < s.c0 < s.c1 < end && mtime(from) < s.m0 <= s.m1 == mtime(end) < TWO_64
    }

    /** The first sample, just after the counter has changed. */
    method SampleStart(ghost d: nat, ghost h: nat, ghost g: nat, ghost span: nat)
      returns (mcycle: nat, value: nat, ghost a: nat, ghost c: nat, ghost t: nat)
      requires Valid() && Paced(d) && Horizon(mtime(Next(Next(now))), h, d)
      modifies this
      ensures old(now) <= a < c < now <= a + d && mcycle == U64(c) && a < t && now == Next(t)
      ensures mtime(t) <= mtime(now) <= mtime(h + 2 * d) && value <= mtime(now)
      ensures Quiet(old(now), now) ==> value == mtime(now) > mtime(a)
      ensures Calm(old(now), g, span) && 2 * g <= span ==> mtime(now) <= mtime(old(now)) + 2 * g
    {
      hide Horizon, Joined, Quiet, Calm, Value, After, Valid, Paced, U64;
      ghost var from, seen := now, Next(now);
      if Calm(from, g, span) && 2 * g <= span { CalmStep(from, g, span, from); }
      var previous := GetMtime();
      HorizonFacts(mtime(now), h, d);
      Ascend(seen, now);
      Ordered(seen, h);
      mcycle, value, a, c, t := AwaitChange(previous, from, seen, mtime(now), d, h, g, span);
      Ascend(t, now);
      Ascend(now, h + 2 * d);
    }

    /** The sampling part of `clint_get_core_freq`. */
    method Sample(numTicks: nat, ghost d: nat, ghost h1: nat, ghost h2: nat, ghost g: nat)
      returns (startMcycle: nat, endMcycle: nat, startMtime: nat, endMtime: nat,
               ghost s: Samples, ghost a: nat, ghost mid: nat, ghost b: nat)
      requires Valid() && Paced(d)
      requires Horizon(mtime(Next(Next(now))), h1, d) && Horizon(mtime(h1 + 2 * d) + numTicks, h2, d)
      modifies this
      ensures startMcycle == U64(s.c0) && endMcycle == U64(s.c1) && startMtime == s.m0 && endMtime == s.m1
      ensures Quiet(old(now), now) ==> Sampled(s, old(now), now) && s.m1 >= s.m0 + numTicks
      ensures Quiet(old(now), now) && numTicks > 0 ==> Bracketed(s, a, mid, b, now, numTicks, d)
      ensures Calm(old(now), g, numTicks + 3 * g) ==> Quiet(old(now), now)
    {
      hide Horizon, Quiet, Calm, Valid, Paced, Sampled, Bracketed, U64;
      ghost var from, span := now, numTicks + 3 * g;
      ghost var t, c0, c1;
      startMcycle, startMtime, a, c0, t := SampleStart(d, h1, g, span);
      mid := now;
      ghost var target := mtime(h1 + 2 * d) + numTicks;
      HorizonFacts(target, h2, d);
      Ordered(t, h2);
      endMcycle, endMtime, b, c1 := AwaitTicks(startMtime, numTicks, from, t, target, d, h2, g, span);
      s := Samples(c0, c1, startMtime, endMtime);
      if Quiet(from, now) {
        QuietPart(from, from, mid, now);
        Assembled(s, from, a, mid, b, now, numTicks, d);
      }
    }

    lemma Assembled(s: Samples, from: nat, a: nat, mid: nat, b: nat, end: nat, numTicks: nat, d: nat)
      requires Valid() && from <= a < s.c0 < mid <= a + d && mid <= b < s.c1 < end <= b + d
      requires s.m0 == mtime(mid) > mtime(a) && s.m1 == mtime(end) < TWO_64 && s.m0 + numTicks <= s.m1
      requires numTicks > 0 ==> mtime(b) < s.m0 + numTicks
      ensures Sampled(s, from, end) && (numTicks > 0 ==> Bracketed(s, a, mid, b, end, numTicks, d))
    {
      Ascend(from, a);
    }

    lemma Ascend(s: nat, t: nat)
      requires Valid() && s <= t
      ensures mtime(s) <= mtime(t)
    {}

    /** A ticking counter reaches every value. */
    lemma Reaches(bound: nat, period: real, phase: real) returns (h: nat)
      requires Ticks(period, phase)
      ensures bound <= mtime(h)
    {
      PeriodPositive(period, phase);
      var x := bound as real * period - phase;
      h := if x <= 0.0 then 0 else x.Floor + 1;
      assert bound as real * period <= h as real + phase;
      assert h as real + phase < (mtime(h) + 1) as real * period;
      if mtime(h) < bound {
        Scale((mtime(h) + 1) as real, bound as real, period);
        assert false;
      }
    }

    /** In `c` cycles that last at most `q` ticks, it advances by at most `q`. */
    lemma Advances(t: nat, c: nat, q: nat, period: real, phase: real)
      requires Ticks(period, phase) && c as real <= q as real * period
      ensures mtime(t + c) <= mtime(t) + q
    {
      PeriodPositive(period, phase);
      var a, b := mtime(t), mtime(t + c);
      assert b as real * period <= (t + c) as real + phase;
      assert t as real + phase < (a + 1) as real * period;
      Join((a + 1) as real, q as real, period);
      if b > a + q {
        Scale((a + 1 + q) as real, b as real, period);
        assert false;
      }
    }

    lemma Ordered(s: nat, t: nat)
      requires Valid() && mtime(s) < mtime(t)
      ensures s < t
    {}

    lemma {:induction false} Crossing(bound: nat, start: nat, last: nat) returns (h: nat)
      requires start <= last && mtime(start) < bound <= mtime(last)
      ensures start < h <= last && mtime(h - 1) < bound <= mtime(h)
      decreases last - start
    {
      if bound <= mtime(start + 1) {
        h := start + 1;
      } else {
        h := Crossing(bound, start + 1, last);
      }
    }

    /** A ticking counter has a horizon for every target whose block ends at least `q` ticks before
        the counter wraps around, where `q` ticks are as long as two loop iterations and a cycle. */
    lemma HorizonExists(target: nat, start: nat, d: nat, q: nat, period: real, phase: real) returns (h: nat)
      requires Valid() && Ticks(period, phase) && (2 * d + 1) as real <= q as real * period
      requires (target / TWO_32 + 1) * TWO_32 + q < TWO_64 && mtime(start) + q < TWO_64
      ensures start <= h && Horizon(target, h, d)
      ensures mtime(h + 2 * d) <= mtime(start) + q || mtime(h + 2 * d) <= (target / TWO_32 + 1) * TWO_32 + q
    {
      var bound := (target / TWO_32 + 1) * TWO_32;
      if bound <= mtime(start) {
        h := start;
        Advances(start, 2 * d + 1, q, period, phase);
        assert mtime(start + 2 * d) <= mtime(start + (2 * d + 1));
      } else {
        var last := Reaches(bound, period, phase);
        Ordered(start, last);
        h := Crossing(bound, start, last);
        Advances(h - 1, 2 * d + 1, q, period, phase);
        assert h - 1 + (2 * d + 1) == h + 2 * d;
      }
    }

    /** Both loops of the measurement, from an access at `t` on, have their horizons, unless the counter
        is about to wrap around. */
    lemma MeasurementEnds(t: nat, numTicks: nat, d: nat, q: nat, period: real, phase: real) returns (h1: nat, h2: nat)
      requires Valid() && Ticks(period, phase) && (2 * d + 1) as real <= q as real * period
      requires mtime(Next(Next(t))) + numTicks + 2 * TWO_32 + 2 * q < TWO_64
      ensures Horizon(mtime(Next(Next(t))), h1, d) && Horizon(mtime(h1 + 2 * d) + numTicks, h2, d)
    {
      hide Horizon, Ticks;
      var first := mtime(Next(Next(t)));
      BlockEnd(first);
      h1 := HorizonExists(first, Next(Next(t)), d, q, period, phase);
      var target := mtime(h1 + 2 * d) + numTicks;
      BlockEnd(target);
      h2 := HorizonExists(target, Next(Next(t)), d, q, period, phase);
    }

    lemma BlockEnd(target: nat)
      ensures target < (target / TWO_32 + 1) * TWO_32 <= target + TWO_32
    {}

    /** So on a ticking counter `SpinUntil` ends. */
    lemma TickingSpinEnds(target: nat, t: nat, d: nat, q: nat, period: real, phase: real) returns (k: nat)
      requires Valid() && Paced(d) && Ticks(period, phase) && (2 * d + 1) as real <= q as real * period
      requires (target / TWO_32 + 1) * TWO_32 + q < TWO_64 && mtime(t) + q < TWO_64
      ensures target <= Value(mtime, delay, After(delay, t, k))
    {
      hide Horizon, Ticks, Paced, Value, After;
      var h := HorizonExists(target, t, d, q, period, phase);
      k := SpinEnds(t, target, h, d);
    }

    /** `clint_get_core_freq`; `s` holds what it sampled. The high half stands still if the low half is
        beforehand further from its rollover than the wanted ticks and three iterations. */
    method GetCoreFreq(refFreq: nat, refTimeInv: nat, ghost d: nat, ghost h1: nat,
                       ghost h2: nat, ghost g: nat, ghost period: real, ghost phase: real)
      returns (freq: nat, ghost s: Samples)
      requires Valid() && Paced(d) && 0 < refTimeInv
      requires Horizon(mtime(Next(Next(now))), h1, d) && Horizon(mtime(h1 + 2 * d) + refFreq / refTimeInv, h2, d)
      modifies this
      ensures Calm(old(now), g, refFreq / refTimeInv + 3 * g) ==> Quiet(old(now), now)
      ensures Quiet(old(now), now) ==> Sampled(s, old(now), now)
      ensures Quiet(old(now), now) ==>
                Reported(refFreq, refFreq / refTimeInv, freq, s.Cycles(), s.Ticks())
      ensures Quiet(old(now), now) && refFreq / refTimeInv > 0 && Ticks(period, phase) ==>
                Accurate(freq, s.Cycles(), s.Ticks(), refFreq, refFreq / refTimeInv, d, period)
    {
      hide Horizon, Valid, Paced, Quiet, Calm, Ticks, Measured, Accurate, Frequency, Bracketed;
      var numTicks := refFreq / refTimeInv;
      var startMcycle, endMcycle, startMtime, endMtime;
      ghost var from, a, mid, b := now, now, now, now;
      startMcycle, endMcycle, startMtime, endMtime, s, a, mid, b := Sample(numTicks, d, h1, h2, g);
      freq := Frequency(startMcycle, endMcycle, startMtime, endMtime, refFreq);
      if Quiet(from, now) {
        Computed(s, freq, refFreq, numTicks);
        if numTicks > 0 {
          Floor(refFreq, refTimeInv);
          Conclude(s, a, mid, b, now, freq, refFreq, numTicks, d, period, phase);
        }
      }
    }

    /** Both cycle counts are near a tick, so their difference is near a whole number of periods. */
    lemma Conclude(s: Samples, a: nat, mid: nat, b: nat, end: nat,
                   freq: nat, refFreq: nat, numTicks: nat, d: nat, period: real, phase: real)
      requires 0 < numTicks && 0 < refFreq && Bracketed(s, a, mid, b, end, numTicks, d)
      requires freq == Frequency(U64(s.c0), U64(s.c1), s.m0, s.m1, refFreq)
      ensures Measured(refFreq, numTicks, freq, s.Cycles(), s.Ticks())
      ensures Ticks(period, phase) ==> Accurate(freq, s.Cycles(), s.Ticks(), refFreq, numTicks, d, period)
    {
      hide Ticks, Measured, Accurate, NearEdge, Drift, Divu;
      Computed(s, freq, refFreq, numTicks);
      if Ticks(period, phase) {
        NearTick(a, s.c0, mid, d, period, phase);
        NearTick(b, s.c1, end, d, period, phase);
        Apart(s.c0, s.c1, s.m0, s.m1, period, phase, d);
        MeasuredAccurately(freq, s.Cycles(), s.Ticks(), refFreq, numTicks, d, period);
      }
    }
  }

  /** The two cycle counts are within 2 d cycles of as many periods as were counted; so is the
      result, per wanted tick, unless the product overflows. */
  predicate Accurate(freq: nat, cycles: nat, ticks: nat, refFreq: nat, numTicks: nat, d: nat, period: real)
    requires 0 < numTicks
  {
    && Drift(cycles, ticks, d, period)
    && (cycles * refFreq < TWO_64 ==>
          WithinError(freq as real, period * refFreq as real, 2.0 * d as real, refFreq as real, numTicks as real))
  }

  /** The last line of `clint_get_core_freq`, in 64-bit arithmetic. */
  function Frequency(startMcycle: nat, endMcycle: nat, startMtime: nat, endMtime: nat, refFreq: nat): nat {
    Divu((endMcycle - startMcycle) % TWO_64 * refFreq % TWO_64, (endMtime - startMtime) % TWO_64)
  }

  /** What is returned if possibly no tick was asked for, nor seen. */
  predicate Reported(refFreq: nat, numTicks: nat, freq: nat, cycles: nat, ticks: nat) {
    if ticks == 0 then numTicks == 0 && freq == TWO_64 - 1 else Measured(refFreq, numTicks, freq, cycles, ticks)
  }

  lemma Floor(a: nat, b: nat)
    requires 0 < b && 0 < a / b
    ensures 0 < a
  {}

  /** At least the wanted ticks have passed, and the result is the cycles times the reference frequency,
      in 64 bits, over the ticks, rounded down. */
  predicate Measured(refFreq: nat, numTicks: nat, freq: nat, cycles: nat, ticks: nat) {
    ticks >= numTicks && freq * ticks <= U64(cycles * refFreq) < (freq + 1) * ticks
  }

  /** What the last line makes of two samples. */
  lemma Computed(s: Samples, freq: nat, refFreq: nat, numTicks: nat)
    requires s.c0 <= s.c1 && s.m0 + numTicks <= s.m1 < TWO_64
    requires freq == Frequency(U64(s.c0), U64(s.c1), s.m0, s.m1, refFreq)
    ensures Reported(refFreq, numTicks, freq, s.Cycles(), s.Ticks())
  {
    hide Measured;
    Elapsed(s.c0, s.c1);
    Small(s.Ticks());
    if s.Ticks() > 0 {
      Quotient(refFreq, numTicks, freq, s.Cycles(), s.Ticks());
    }
  }

  lemma Quotient(refFreq: nat, numTicks: nat, freq: nat, cycles: nat, ticks: nat)
    requires 0 < ticks && numTicks <= ticks && freq == Divu(cycles % TWO_64 * refFreq % TWO_64, ticks)
    ensures Measured(refFreq, numTicks, freq, cycles, ticks)
  {
    WrappedProduct(cycles, refFreq);
    FloorDivision(U64(cycles * refFreq), ticks);
  }

  lemma WrappedProduct(c: nat, f: nat)
    ensures c % TWO_64 * f % TWO_64 == U64(c * f)
  {
    var q, r := c / TWO_64, c % TWO_64;
    assert c * f == q * f * TWO_64 + r * f;
    Shift(r * f, q * f);
  }

  lemma FloorDivision(a: nat, b: nat)
    requires 0 < b
    ensures a / b * b <= a < (a / b + 1) * b
  {}

  /** The cycle count `c` is less than `d` cycles away from the start of tick `k`. */
  predicate NearEdge(c: nat, k: nat, d: nat, p: real, phase: real) {
    Abs(c as real + phase - k as real * p) < d as real
  }

  /** The elapsed cycles are less than 2 d away from the elapsed ticks. */
  predicate Drift(cycles: nat, ticks: nat, d: nat, p: real) {
    Abs(cycles as real - ticks as real * p) < 2.0 * d as real
  }

  lemma Apart(c0: nat, c1: nat, m: nat, n: nat, p: real, phase: real, d: nat)
    requires c0 <= c1 && m <= n
    requires NearEdge(c0, m, d, p, phase) && NearEdge(c1, n, d, p, phase)
    ensures Drift(c1 - c0, n - m, d, p)
  {
    hide Abs;
    var u, v := c0 as real + phase - m as real * p, c1 as real + phase - n as real * p;
    Triangle(u, v, d as real);
    assert (c1 - c0) as real - (n - m) as real * p == v - u by {
      Sub(n as real, m as real, p);
    }
  }

  lemma Triangle(u: real, v: real, d: real)
    requires Abs(u) < d && Abs(v) < d
    ensures Abs(v - u) < 2.0 * d
  {}

  lemma LaterTick(m: nat, k: nat, p: real, x: real)
    requires m < k && 0.0 < p && x < (m + 1) as real * p
    ensures x < k as real * p
  {
    Scale((m + 1) as real, k as real, p);
  }

  lemma Near(a: nat, c: nat, b: nat, d: nat, phase: real, edge: real)
    requires a < c < b <= a + d && a as real + phase < edge <= b as real + phase
    ensures Abs(c as real + phase - edge) < d as real
  {}

  lemma Join(a: real, b: real, t: real)
    ensures (a + b) * t == a * t + b * t
  {}

  lemma Sub(a: real, b: real, t: real)
    ensures (a - b) * t == a * t - b * t
  {}

  /** `freq` is off by at most an error of `e` cycles spread over `n` ticks, and by its rounding. */
  predicate WithinError(freq: real, exact: real, e: real, refFreq: real, n: real)
    requires 0.0 < n
  {
    Abs(freq - exact) <= e * refFreq / n + 1.0
  }

  lemma Small(x: nat)
    requires x < TWO_64
    ensures x % TWO_64 == x
  {}

  /** The difference of two wrapped counts is the elapsed count, wrapped. */
  lemma Elapsed(c0: nat, c1: nat)
    requires c0 <= c1
    ensures (c1 % TWO_64 - c0 % TWO_64) % TWO_64 == (c1 - c0) % TWO_64
  {
    var q := c1 / TWO_64 - c0 / TWO_64;
    assert c1 - c0 == q * TWO_64 + (c1 % TWO_64 - c0 % TWO_64);
    Shift(c1 % TWO_64 - c0 % TWO_64, q);
  }

  lemma Shift(x: int, q: int)
    ensures (q * TWO_64 + x) % TWO_64 == x % TWO_64
  {}

  lemma Rounding(freq: nat, cycles: nat, ticks: nat, f: nat, n: nat, d: nat, p: real)
    requires 0 < n <= ticks && 0 < f && freq * ticks <= cycles * f < (freq + 1) * ticks
    requires Drift(cycles, ticks, d, p)
    ensures WithinError(freq as real, p * f as real, 2.0 * d as real, f as real, n as real)
  {
    hide Drift, WithinError;
    RealProducts(freq, ticks, cycles, f);
    RealProducts(cycles, f, freq + 1, ticks);
    RealRounding(freq, cycles, ticks, f, n, d, p);
  }

  lemma MeasuredAccurately(freq: nat, cycles: nat, ticks: nat, f: nat, n: nat, d: nat, p: real)
    requires 0 < n && 0 < f && Measured(f, n, freq, cycles, ticks)
    requires Drift(cycles, ticks, d, p)
    ensures Accurate(freq, cycles, ticks, f, n, d, p)
  {
    hide Drift, WithinError;
    if cycles * f < TWO_64 {
      Rounding(freq, cycles, ticks, f, n, d, p);
    }
  }

  lemma RealRounding(freq: nat, cycles: nat, ticks: nat, f: nat, n: nat, d: nat, p: real)
    requires 0 < n <= ticks && 0 < f
    requires freq as real * ticks as real <= cycles as real * f as real <= (freq + 1) as real * ticks as real
    requires Drift(cycles, ticks, d, p)
    ensures WithinError(freq as real, p * f as real, 2.0 * d as real, f as real, n as real)
  {
    hide WithinError;
    Quotients(freq as real, ticks as real, cycles as real, f as real, p, 2.0 * d as real, n as real);
  }

  lemma RealProducts(a: nat, b: nat, c: nat, d: nat)
    requires a * b <= c * d
    ensures a as real * b as real <= c as real * d as real
  {
    assert (a * b) as real == a as real * b as real;
    assert (c * d) as real == c as real * d as real;
  }

  /** An error of less than `e` cycles, divided by at least `n` ticks. */
  lemma Quotients(q: real, t: real, c: real, f: real, p: real, e: real, n: real)
    requires 1.0 <= n <= t && 0.0 < f && q * t <= c * f <= (q + 1.0) * t && -e < c - t * p < e
    ensures WithinError(q, p * f, e, f, n)
  {
    var x := e * f / n;
    Scale(0.0, e, f);
    Scale(n, t, x);
    Total(t, c, f, p, e, x);
    Above(q, t, x, p * f, c * f);
    Below(q, t, x, p * f, c * f);
  }

  lemma Above(q: real, t: real, x: real, y: real, total: real)
    requires 0.0 < t && q * t <= total && total - y * t <= x * t
    ensures q - y <= x
  {
    Rate(q, t, x, y);
  }

  lemma Below(q: real, t: real, x: real, y: real, total: real)
    requires 0.0 < t && total <= (q + 1.0) * t && 0.0 - x * t <= total - y * t
    ensures y - (q + 1.0) <= x
  {
    Rate(y, t, x, q + 1.0);
  }

  lemma Total(t: real, c: real, f: real, p: real, e: real, x: real)
    requires 0.0 < f && -e < c - t * p < e && e * f <= t * x
    ensures 0.0 - x * t <= c * f - p * f * t <= x * t
  {
    Scale(0.0 - e, c - t * p, f);
    Scale(c - t * p, e, f);
    Sub(c, t * p, f);
    Sub(0.0, e, f);
    Assoc(t, p, f);
  }

  lemma Scale(x: real, y: real, p: real)
    requires x <= y && 0.0 <= p
    ensures x * p <= y * p
  {}
  lemma Cancel(x: real, y: real, t: real)
    requires 0.0 < t && x * t <= y * t
    ensures x <= y
  {
    Sub(x, y, t);
    if x > y {
      Scale(0.0, x - y, t);
    }
  }
  lemma Rate(q: real, t: real, x: real, y: real)
    requires 0.0 < t && q * t - y * t <= x * t
    ensures q - y <= x
  {
    Distribute(q, t, x, y);
    Cancel(q - y, x, t);
  }

  lemma Distribute(q: real, t: real, x: real, y: real)
    requires q * t - y * t <= x * t
    ensures (q - y) * t <= x * t
  {}

  lemma Assoc(a: real, b: real, c: real)
    ensures a * b * c == b * (a * c) == a * (b * c)
  {}
}
