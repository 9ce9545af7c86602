/** Quota accounting: a persisted baseline of the host's byte counters and the boundary at which the next
    period starts. */
module Traffic {
  import opened Basics

  const DAY: int := 86_400 * SECOND
  const MAX_WALK: int := 100_000

  /** resetAt == None is Go's zero time: no baseline has been taken. */
  datatype TrafficState = TrafficState(baseUp: nat, baseDown: nat, resetAt: Option<int>)

  const NO_BASELINE := TrafficState(0, 0, None)

  /** The two cumulative counters of a heartbeat. */
  datatype Counters = Counters(up: nat, down: nat)

  datatype Meta = Meta(quota: nat, period: int)

  datatype Traffic = Traffic(quota: nat, unlimited: bool, periodDays: int, resetAt: Option<int>,
                             used: nat, usedUp: nat, usedDown: nat, remaining: int, pct: real)

  // ---------------------------------------------------------------------
  // The next boundary
  // ---------------------------------------------------------------------

  function PeriodLength(period: int): int {
    period * DAY
  }

  /** The first boundary prev + k periods, k >= 1, that lies after now. */
  function FirstAfter(prev: int, d: int, now: int): int
    requires d > 0
  {
    prev + (if now < prev then 1 else (now - prev) / d + 1) * d
  }

  function NextReset(prev: Option<int>, period: int, now: int): Option<int> {
    var d := PeriodLength(period);
    if period <= 0 then None
    else if prev.None? then Some(now + d)
    else if now - prev.value < MAX_WALK * d then Some(FirstAfter(prev.value, d, now))
    else Some(now + d)
  }

  lemma PeriodIsPositive(period: int)
    requires period > 0
    ensures PeriodLength(period) >= DAY > 0
  {
    MulMonotone(1, period, DAY);
  }

  /** FirstAfter is on prev's lattice and is the only lattice point in (now, now + d], if now >= prev. */
  lemma FirstAfterIsFirst(prev: int, d: int, now: int)
    requires d > 0
    ensures FirstAfter(prev, d, now) > now && FirstAfter(prev, d, now) > prev
    ensures now >= prev ==> FirstAfter(prev, d, now) - d <= now
    ensures (FirstAfter(prev, d, now) - prev) % d == 0
  {
    var k := if now < prev then 1 else (now - prev) / d + 1;
    assert FirstAfter(prev, d, now) - prev == k * d;
    MultipleModZero(k, d);
    if now >= prev {
      MulMonotone(1, k, d) by { DivMonotone(0, now - prev, d); }
    }
  }

  lemma MultipleModZero(k: int, d: int)
    requires d > 0
    ensures (k * d) % d == 0 && (k * d) / d == k
  {
    DivUnique(k * d, d, k);
  }

  lemma FirstAfterUnique(prev: int, d: int, now: int, k: int)
    requires d > 0 && k >= 1
    requires prev + k * d > now
    requires k == 1 || prev + (k - 1) * d <= now
    ensures FirstAfter(prev, d, now) == prev + k * d
  {
    if k > 1 { MulMonotone(1, k - 1, d); }
    if now >= prev {
      DivUnique(now - prev, d, k - 1);
    } else if k > 1 {
      assert false;
    }
  }

  /** advanceReset, with its bounded walk. */
  method AdvanceReset(prev: Option<int>, period: int, now: int) returns (r: Option<int>)
    ensures r == NextReset(prev, period, now)
  {
    if period <= 0 {
      return None;
    }
    var d := PeriodLength(period);
    PeriodIsPositive(period);
    if prev.None? {
      return Some(now + d);
    }
    var n := prev.value;
    for i := 0 to MAX_WALK
      invariant n == prev.value + i * d
      invariant i == 0 || n <= now
    {
      n := n + d;
      if n > now {
        MulMonotone(i + 1, MAX_WALK, d);
        FirstAfterUnique(prev.value, d, now, i + 1);
        return Some(n);
      }
    }
    r := Some(now + d);
  }

  /** Where the bounded walk gives up, the boundary stays on the lattice only if `now` happened to be on it. */
  lemma BoundaryDriftsIff(prev: int, period: int, now: int)
    requires period > 0
    ensures NextReset(Some(prev), period, now) == Some(FirstAfter(prev, PeriodLength(period), now))
            <==> now - prev < 100_000 * (period * 86_400 * SECOND) || (now - prev) % (period * 86_400 * SECOND) == 0
  {
    var d := PeriodLength(period);
    PeriodIsPositive(period);
    if now - prev >= MAX_WALK * d {
      var q := (now - prev) / d;
      MulMonotone(0, MAX_WALK, d);
      assert FirstAfter(prev, d, now) == prev + q * d + d by { assert (q + 1) * d == q * d + d; }
      assert now - prev == q * d + (now - prev) % d;
    }
  }

  // ---------------------------------------------------------------------
  // Rolling and re-anchoring the baseline
  // ---------------------------------------------------------------------

  predicate RollsOver(st: TrafficState, now: int) {
    st.resetAt.None? || now >= st.resetAt.value
  }

  function Rolled(st: TrafficState, hb: Counters, period: int, now: int): TrafficState {
    if RollsOver(st, now) then TrafficState(hb.up, hb.down, NextReset(st.resetAt, period, now)) else st
  }

  /** SetTrafficBaseline: `metrics` is the last heartbeat held in memory, if any. */
  function Reanchored(st: TrafficState, metrics: Option<Counters>, period: int, now: int): TrafficState {
    if period <= 0 then st
    else if metrics.None? then NO_BASELINE
    else TrafficState(metrics.value.up, metrics.value.down, NextReset(None, period, now))
  }

  // ---------------------------------------------------------------------
  // The quota view
  // ---------------------------------------------------------------------

  /** A counter below its baseline is a host that restarted counting. */
  function CounterDelta(cur: nat, base: nat): nat {
    if cur < base then cur else cur - base
  }

  function Used(st: TrafficState, hb: Counters): nat {
    CounterDelta(hb.up, st.baseUp) + CounterDelta(hb.down, st.baseDown)
  }

  function Percent(used: nat, quota: nat): real
    requires quota > 0
  {
    var p := used as real / quota as real * 100.0;
    if p > 100.0 then 100.0 else p
  }

  function ComputeTraffic(st: TrafficState, meta: Meta, hb: Option<Counters>): Traffic {
    var t := Traffic(meta.quota, true, meta.period, None, 0, 0, 0, -1, -1.0);
    if meta.period <= 0 then t
    else if st.resetAt.None? || hb.None? then
      t.(unlimited := false, pct := 0.0, remaining := if meta.quota > 0 then meta.quota else -1)
    else
      var used := Used(st, hb.value);
      var seen := t.(unlimited := false, resetAt := st.resetAt, used := used,
                     usedUp := CounterDelta(hb.value.up, st.baseUp),
                     usedDown := CounterDelta(hb.value.down, st.baseDown));
      if meta.quota > 0 then
        seen.(remaining := Max(meta.quota - used, 0), pct := Percent(used, meta.quota))
      else seen
  }

  /** The bytes a counter has moved since its baseline; one below its baseline has started again from zero. */
  predicate CountsFrom(used: nat, cur: nat, base: nat) {
    if cur >= base then used + base == cur else used == cur
  }

  /** What a status shows of a node's quota, in the numbers of its row and its last heartbeat. */
  predicate ShowsBill(t: Traffic, st: TrafficState, meta: Meta, hb: Option<Counters>) {
    && t.quota == meta.quota && t.periodDays == meta.period && t.used == t.usedUp + t.usedDown
    && (t.unlimited <==> meta.period <= 0)
    && (if meta.period > 0 && st.resetAt.Some? && hb.Some? then
          && t.resetAt == st.resetAt
          && CountsFrom(t.usedUp, hb.value.up, st.baseUp) && CountsFrom(t.usedDown, hb.value.down, st.baseDown)
          && (meta.quota == 0 ==> t.remaining == -1 && t.pct == -1.0)
          && (meta.quota > 0 && t.used <= meta.quota ==>
                t.used + t.remaining == meta.quota && t.pct * meta.quota as real == 100.0 * t.used as real)
          && (meta.quota > 0 && t.used > meta.quota ==> t.remaining == 0 && t.pct == 100.0)
        else
          && t.resetAt == None && t.used == 0
          && t.remaining == (if meta.period > 0 && meta.quota > 0 then meta.quota else -1)
          && t.pct == (if meta.period > 0 then 0.0 else -1.0))
  }

  lemma BillIsShown(st: TrafficState, meta: Meta, hb: Option<Counters>)
    ensures ShowsBill(ComputeTraffic(st, meta, hb), st, meta, hb)
  {
    if meta.quota > 0 && hb.Some? {
      PercentRange(Used(st, hb.value), meta.quota);
    }
  }

  lemma PercentMonotone(a: nat, b: nat, quota: nat)
    requires quota > 0 && a <= b
    ensures Percent(a, quota) <= Percent(b, quota)
  {
    RealDivMonotone(a as real, b as real, quota as real);
  }

  lemma RealDivMonotone(x: real, y: real, q: real)
    requires x <= y && q > 0.0
    ensures x / q <= y / q
  {
    var d := y / q - x / q;
    assert d * q == y - x;
    RealMulSign(d, q);
  }

  lemma PercentRange(used: nat, quota: nat)
    requires quota > 0
    ensures 0.0 <= Percent(used, quota) <= 100.0
    ensures Percent(used, quota) == 100.0 <==> used >= quota
    ensures used <= quota ==> Percent(used, quota) * quota as real == 100.0 * used as real
  {
    var q := quota as real;
    var p := used as real / q;
    assert p * 100.0 * q == 100.0 * (p * q);
    assert p * q == used as real;
    assert (p - 1.0) * q == used as real - q;
    RealMulSign(p, q);
    RealMulSign(p - 1.0, q);
  }

  /** What is shown is consistent: nothing is lost between used and remaining, and the bar is full exactly
      when nothing remains. */
  lemma QuotaIsConserved(st: TrafficState, meta: Meta, hb: Counters)
    requires meta.period > 0 && meta.quota > 0
    ensures var t := ComputeTraffic(st, meta, Some(hb));
            && 0 <= t.remaining <= meta.quota
            && t.used == t.usedUp + t.usedDown
            && (t.used <= meta.quota ==> t.used + t.remaining == meta.quota)
            && 0.0 <= t.pct <= 100.0
            && (t.pct == 100.0 <==> t.remaining == 0)
            && (t.used <= meta.quota ==> t.pct * meta.quota as real == 100.0 * t.used as real)
  {
    PercentRange(Used(st, hb), meta.quota);
  }
}
