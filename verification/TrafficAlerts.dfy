/** Accounting and alerting together: how often one accounting period of one node can raise node.traffic. */
module TrafficAlerts {
  import opened Basics
  import opened Traffic
  import opened Alerts
  import TrafficRuns

  function TrafficCount(events: seq<Event>, id: Id): nat {
    if events == [] then 0
    else
      var e := events[|events| - 1];
      TrafficCount(events[..|events| - 1], id) + (if e.NodeTraffic? && e.nodeId == id then 1 else 0)
  }

  lemma {:induction false} TrafficCountPlus(a: seq<Event>, b: seq<Event>, id: Id)
    ensures TrafficCount(a + b, id) == TrafficCount(a, id) + TrafficCount(b, id)
  {
    if b == [] {
      assert a + b == a;
    } else {
      TrafficCountPlus(a, b[..|b| - 1], id);
      assert (a + b)[..|a + b| - 1] == a + b[..|b| - 1];
    }
  }

  lemma VisitCount(a: State, n: Status, now: int, cooldown: int, thresh: real, id: Id)
    ensures TrafficCount(VisitSends(a, n, now, cooldown, thresh), id)
            == if n.id == id && Over(n, thresh) && id !in a.trafficAlerted then 1 else 0
  {
    var off := if Fires(a, n, now, cooldown) then [OfflineEvent(n, now)] else [];
    var over := if Over(n, thresh) && n.id !in a.trafficAlerted then [TrafficEvent(n)] else [];
    TrafficCountPlus(off, over, id);
    assert TrafficCount(off, id) == 0;
  }

  /** One node's part in a check of any list: nothing another node shows can raise or suppress its alert. */
  lemma {:induction false} CheckProjectsToNode(a: State, list: seq<Status>, n: Status, now: int, cooldown: int,
                                               thresh: real)
    requires Distinct(list)
    requires n in list || n.id !in Ids(list)
    ensures TrafficCount(VisitAllSends(a, list, now, cooldown, thresh), n.id)
            == if n in list && Over(n, thresh) && n.id !in a.trafficAlerted then 1 else 0
    ensures n.id in VisitAll(a, list, now, cooldown, thresh).trafficAlerted
            <==> if n in list then Over(n, thresh) else n.id in a.trafficAlerted
  {
    if list != [] {
      var init, last := list[..|list| - 1], list[|list| - 1];
      assert init + [last] == list;
      IdsPlus(init, last);
      assert last.id !in Ids(init);
      forall i | 0 <= i < |init| ensures init[i].id in Ids(init) {
      }
      assert n in list <==> n in init || n == last;
      assert n in init ==> n.id in Ids(init);
      CheckProjectsToNode(a, init, n, now, cooldown, thresh);
      VisitCount(VisitAll(a, init, now, cooldown, thresh), last, now, cooldown, thresh, n.id);
      TrafficCountPlus(VisitAllSends(a, init, now, cooldown, thresh),
                       VisitSends(VisitAll(a, init, now, cooldown, thresh), last, now, cooldown, thresh), n.id);
    }
  }

  // ---------------------------------------------------------------------
  // One node of TrafficRuns between checks
  // ---------------------------------------------------------------------

  datatype Sys = Sys(id: Id, node: TrafficRuns.Node, alerts: State)

  datatype Step =
    | Hub(e: TrafficRuns.Event)
    | Check(now: int, before: seq<Status>, name: string, online: bool, lastSeen: Option<int>, after: seq<Status>)

  function Shown(s: Sys, e: Step): Status
    requires e.Check?
  {
    Status(s.id, e.name, e.online, e.lastSeen, TrafficRuns.View(s.node))
  }

  function List(s: Sys, e: Step): seq<Status>
    requires e.Check?
  {
    e.before + [Shown(s, e)] + e.after
  }

  /** Status lists name each node once. */
  predicate CanStep(s: Sys, e: Step) {
    match e
    case Hub(h) => TrafficRuns.CanHappen(s.node, h)
    case Check(_, _, _, _, _, _) => Distinct(List(s, e))
  }

  function Apply(s: Sys, e: Step, cooldown: int, thresh: real): Sys
    requires CanStep(s, e)
  {
    match e
    case Hub(h) => s.(node := TrafficRuns.Apply(s.node, h))
    case Check(now, _, _, _, _, _) => s.(alerts := Alerts.Check(s.alerts, List(s, e), now, cooldown, thresh))
  }

  function Emits(s: Sys, e: Step, cooldown: int, thresh: real): nat {
    if e.Check? then TrafficCount(VisitAllSends(s.alerts, List(s, e), e.now, cooldown, thresh), s.id) else 0
  }

  /** Counters do not restart, heartbeats enter in reading order, neither quota nor period is edited, and the hub
      stays up. */
  predicate Calm(s: Sys, e: Step) {
    e.Hub? ==>
      match e.e
      case HostRestarts(up, down) => !up && !down
      case Locked(i, period) => period == s.node.meta.period && (s.node.newest.Some? ==> s.node.newest.value <= i)
      case EditMeta(_) => false
      case AnchorWrite(_, _) => false
      case HubRestart => false
      case _ => true
  }

  /** A roll that rolls over finds the state it loaded still stored. */
  predicate Fresh(s: Sys, e: Step) {
    e.Hub? && e.e.RollWrite? && RollsOver(e.e.load.loaded, e.e.now) ==> s.node.st == e.e.load.loaded
  }

  predicate Calmly(s: Sys, steps: seq<Step>, cooldown: int, thresh: real)
    decreases |steps|
  {
    steps == [] ||
    (CanStep(s, steps[0]) && Calm(s, steps[0])
     && Calmly(Apply(s, steps[0], cooldown, thresh), steps[1..], cooldown, thresh))
  }

  predicate Freshly(s: Sys, steps: seq<Step>, cooldown: int, thresh: real)
    requires Calmly(s, steps, cooldown, thresh)
    decreases |steps|
  {
    steps == [] ||
    (Fresh(s, steps[0]) && Freshly(Apply(s, steps[0], cooldown, thresh), steps[1..], cooldown, thresh))
  }

  /** The node.traffic events of this node sent while its period ends at r. */
  function EventsInPeriod(s: Sys, steps: seq<Step>, r: int, cooldown: int, thresh: real): nat
    requires Calmly(s, steps, cooldown, thresh)
    decreases |steps|
  {
    if steps == [] then 0
    else
      (if s.node.st.resetAt == Some(r) then Emits(s, steps[0], cooldown, thresh) else 0)
      + EventsInPeriod(Apply(s, steps[0], cooldown, thresh), steps[1..], r, cooldown, thresh)
  }

  /** What every run of TrafficRuns keeps, for a host whose counters have not restarted, one period and
      heartbeats in reading order. */
  ghost predicate Climbing(n: TrafficRuns.Node) {
    TrafficRuns.Inv(n) && TrafficRuns.OnePeriod(n) && Uninterrupted(n)
  }

  predicate Uninterrupted(n: TrafficRuns.Node) {
    && (n.metrics.Some? ==> n.metrics == n.newest)
    && (forall i :: 0 <= i < |n.taken| ==>
          n.taken[i].up.restarts == n.host.up.restarts && n.taken[i].down.restarts == n.host.down.restarts)
  }

  lemma UninterruptedStays(s: Sys, e: Step)
    requires Uninterrupted(s.node) && CanStep(s, e) && Calm(s, e) && e.Hub?
    ensures Uninterrupted(TrafficRuns.Apply(s.node, e.e))
  {
  }

  lemma ClimbingStays(s: Sys, e: Step)
    requires Climbing(s.node) && CanStep(s, e) && Calm(s, e) && e.Hub?
    ensures Climbing(TrafficRuns.Apply(s.node, e.e))
  {
    TrafficRuns.ApplyKeepsInv(s.node, e.e);
    TrafficRuns.OnePeriodStays(s.node, e.e);
    UninterruptedStays(s, e);
  }

  predicate NotBelow(a: Counters, b: Counters) {
    a.up >= b.up && a.down >= b.down
  }

  lemma ReadingsClimb(n: TrafficRuns.Node, i: nat, j: nat)
    requires Climbing(n) && i <= j < |n.taken|
    ensures NotBelow(TrafficRuns.CountersOf(n.taken[j]), TrafficRuns.CountersOf(n.taken[i]))
    ensures NotBelow(TrafficRuns.CountersOf(n.host), TrafficRuns.CountersOf(n.taken[j]))
  {
    assert TrafficRuns.ReadLater(n.taken[i], n.taken[j]);
    assert TrafficRuns.ReadLater(n.taken[j], n.host);
  }

  predicate OverNow(s: Sys, thresh: real) {
    var t := TrafficRuns.View(s.node);
    t.quota > 0 && !t.unlimited && t.pct >= thresh
  }

  /** While the baseline stands, usage only grows. */
  lemma UsageGrows(s: Sys, i: nat, period: int, thresh: real)
    requires Climbing(s.node) && CanStep(s, Hub(TrafficRuns.Locked(i, period)))
    requires Calm(s, Hub(TrafficRuns.Locked(i, period))) && s.node.metrics.Some?
    ensures var n := TrafficRuns.Apply(s.node, TrafficRuns.Locked(i, period));
            && TrafficRuns.View(s.node).used <= TrafficRuns.View(n).used
            && (OverNow(s, thresh) ==> OverNow(s.(node := n), thresh))
  {
    var n, m := s.node, s.node.metrics.value;
    ReadingsClimb(n, m, i);
    if n.st.resetAt.Some? {
      ReadingsClimb(n, n.baseline, m);
      if n.meta.quota > 0 {
        PercentMonotone(Used(n.st, TrafficRuns.CountersOf(n.taken[m])), Used(n.st, TrafficRuns.CountersOf(n.taken[i])),
                        n.meta.quota);
      }
    }
  }

  lemma CheckStep(s: Sys, e: Step, cooldown: int, thresh: real)
    requires e.Check? && CanStep(s, e)
    ensures Emits(s, e, cooldown, thresh) == if OverNow(s, thresh) && s.id !in s.alerts.trafficAlerted then 1 else 0
    ensures s.id in Apply(s, e, cooldown, thresh).alerts.trafficAlerted <==> OverNow(s, thresh)
  {
    var list, n := List(s, e), Shown(s, e);
    assert list[|e.before|] == n;
    CheckProjectsToNode(s.alerts, list, n, e.now, cooldown, thresh);
    assert n.id in Ids(list);
  }

  /** The node's one alert of the period that ends at r has gone out, and its usage still stands. */
  predicate Alerted(s: Sys, r: int, thresh: real) {
    s.node.st.resetAt == Some(r) && OverNow(s, thresh) && s.id in s.alerts.trafficAlerted
  }

  /** It stays silent until its period ends, or that is over. */
  predicate Quiet(s: Sys, r: int, thresh: real) {
    (s.node.st.resetAt.Some? && s.node.st.resetAt.value > r) || Alerted(s, r, thresh)
  }

  /** Neither accounting nor what a status shows changes. */
  lemma NothingToSee(s: Sys, e: Step)
    requires Climbing(s.node) && CanStep(s, e) && Calm(s, e) && e.Hub? && !e.e.Locked?
    requires e.e.RollWrite? ==> !RollsOver(e.e.load.loaded, e.e.now)
    ensures var n := TrafficRuns.Apply(s.node, e.e);
            n.st == s.node.st && TrafficRuns.View(n) == TrafficRuns.View(s.node)
  {
  }

  lemma QuietStays(s: Sys, e: Step, r: int, cooldown: int, thresh: real)
    requires thresh > 0.0
    requires Climbing(s.node) && CanStep(s, e) && Calm(s, e) && Fresh(s, e) && Quiet(s, r, thresh)
    ensures Quiet(Apply(s, e, cooldown, thresh), r, thresh)
    ensures s.node.st.resetAt == Some(r) ==> Emits(s, e, cooldown, thresh) == 0
  {
    match e
    case Check(_, _, _, _, _, _) => CheckStep(s, e, cooldown, thresh);
    case Hub(h) =>
      if h.Locked? {
        if Alerted(s, r, thresh) {
          UsageGrows(s, h.reading, h.period, thresh);
        }
      } else if h.RollWrite? && RollsOver(h.load.loaded, h.now) {
        TrafficRuns.NextResetIsAhead(h.load.loaded.resetAt, h.load.period, h.now);
      } else {
        NothingToSee(s, e);
      }
  }

  /** At most one node.traffic per accounting period, in every interleaving of traffic, heartbeats, rolls and
      checks whose rolls are fresh, whatever other nodes show. checkAlerts never passes a threshold of zero or
      less. */
  lemma {:induction false} AtMostOnePerPeriod(s: Sys, steps: seq<Step>, r: int, cooldown: int, thresh: real)
    requires thresh > 0.0 && Climbing(s.node)
    requires Calmly(s, steps, cooldown, thresh) && Freshly(s, steps, cooldown, thresh)
    ensures EventsInPeriod(s, steps, r, cooldown, thresh) <= 1
    ensures Quiet(s, r, thresh) ==> EventsInPeriod(s, steps, r, cooldown, thresh) == 0
    decreases |steps|
  {
    if steps != [] {
      var e := steps[0];
      var s' := Apply(s, e, cooldown, thresh);
      if e.Hub? {
        ClimbingStays(s, e);
      }
      AtMostOnePerPeriod(s', steps[1..], r, cooldown, thresh);
      if Quiet(s, r, thresh) {
        QuietStays(s, e, r, cooldown, thresh);
      } else if e.Check? {
        CheckStep(s, e, cooldown, thresh);
      }
    }
  }

  // ---------------------------------------------------------------------
  // A roll that writes over another's: exactly when it costs a second alert
  // ---------------------------------------------------------------------

  /** From here on k alerts of that period can still go out; if asked, with fresh rolls only. */
  ghost predicate CanSend(s: Sys, r: int, k: nat, onlyFresh: bool, cooldown: int, thresh: real) {
    exists steps ::
      && Calmly(s, steps, cooldown, thresh) && (onlyFresh ==> Freshly(s, steps, cooldown, thresh))
      && EventsInPeriod(s, steps, r, cooldown, thresh) >= k
  }

  lemma SendsAfter(s: Sys, e: Step, r: int, k: nat, onlyFresh: bool, cooldown: int, thresh: real)
    requires CanStep(s, e) && Calm(s, e) && (onlyFresh ==> Fresh(s, e))
    requires CanSend(Apply(s, e, cooldown, thresh), r, k, onlyFresh, cooldown, thresh)
    ensures CanSend(s, r, k + if s.node.st.resetAt == Some(r) then Emits(s, e, cooldown, thresh) else 0, onlyFresh,
                    cooldown, thresh)
  {
    var s' := Apply(s, e, cooldown, thresh);
    var steps :| Calmly(s', steps, cooldown, thresh) && (onlyFresh ==> Freshly(s', steps, cooldown, thresh))
                 && EventsInPeriod(s', steps, r, cooldown, thresh) >= k;
    var all := [e] + steps;
    assert all[1..] == steps;
    assert Calmly(s, all, cooldown, thresh);
    assert EventsInPeriod(s, all, r, cooldown, thresh)
        == (if s.node.st.resetAt == Some(r) then Emits(s, e, cooldown, thresh) else 0)
           + EventsInPeriod(s', steps, r, cooldown, thresh);
  }

  const ALONE := Check(0, [], "", true, None, [])

  lemma OverAlerts(s: Sys, r: int, cooldown: int, thresh: real)
    requires s.node.st.resetAt == Some(r) && OverNow(s, thresh) && s.id !in s.alerts.trafficAlerted
    ensures CanSend(s, r, 1, true, cooldown, thresh)
  {
    var s' := Apply(s, ALONE, cooldown, thresh);
    CheckStep(s, ALONE, cooldown, thresh);
    assert Calmly(s', [], cooldown, thresh) && Freshly(s', [], cooldown, thresh)
        && EventsInPeriod(s', [], r, cooldown, thresh) >= 0;
    SendsAfter(s, ALONE, r, 0, true, cooldown, thresh);
  }

  /** The host moves a whole quota and reports it. */
  lemma RefilledIsOver(s: Sys, s3: Sys, k: nat, thresh: real)
    requires thresh <= 100.0 && Climbing(s.node) && s.node.st.resetAt.Some? && s.node.meta.quota > 0
    requires k == |s.node.taken|
    requires s3.node.st == s.node.st && s3.node.meta == s.node.meta && s3.node.metrics == Some(k)
    requires var moved := TrafficRuns.Moved(s.node.host.up, s.node.meta.quota);
             s3.node.taken == s.node.taken + [TrafficRuns.Reading(moved, s.node.host.down)]
    ensures OverNow(s3, thresh)
  {
    var n := s.node;
    ReadingsClimb(n, n.baseline, n.baseline);
    assert Used(n.st, TrafficRuns.CountersOf(s3.node.taken[k])) >= n.meta.quota;
    PercentRange(Used(n.st, TrafficRuns.CountersOf(s3.node.taken[k])), n.meta.quota);
  }

  lemma RefilledAlerts(s: Sys, r: int, cooldown: int, thresh: real)
    requires thresh <= 100.0 && Climbing(s.node) && s.node.st.resetAt == Some(r) && s.node.meta.quota > 0
    requires s.id !in s.alerts.trafficAlerted
    ensures CanSend(s, r, 1, true, cooldown, thresh)
  {
    var k := |s.node.taken|;
    var moves, entry := TrafficRuns.HostMoves(s.node.meta.quota, 0), TrafficRuns.Locked(k, s.node.meta.period);
    var s1 := s.(node := TrafficRuns.Apply(s.node, moves));
    var s2 := s1.(node := TrafficRuns.Apply(s1.node, TrafficRuns.Read));
    var s3 := s2.(node := TrafficRuns.Apply(s2.node, entry));
    RefilledIsOver(s, s3, k, thresh);
    OverAlerts(s3, r, cooldown, thresh);
    SendsAfter(s2, Hub(entry), r, 1, true, cooldown, thresh);
    SendsAfter(s1, Hub(TrafficRuns.Read), r, 1, true, cooldown, thresh);
    SendsAfter(s, Hub(moves), r, 1, true, cooldown, thresh);
  }

  /** A check that finds the node below the threshold forgets its alert. */
  lemma ClearedAlerts(s: Sys, r: int, cooldown: int, thresh: real)
    requires thresh <= 100.0 && Climbing(s.node) && s.node.st.resetAt == Some(r) && s.node.meta.quota > 0
    requires !OverNow(s, thresh)
    ensures CanSend(s, r, 1, true, cooldown, thresh)
  {
    CheckStep(s, ALONE, cooldown, thresh);
    RefilledAlerts(Apply(s, ALONE, cooldown, thresh), r, cooldown, thresh);
    SendsAfter(s, ALONE, r, 1, true, cooldown, thresh);
  }

  /** A roll can reach r from the earlier boundary b. */
  predicate Ahead(b: int, r: int, d: int)
    requires d > 0
  {
    b < r && (TrafficRuns.SameLattice(r, b, d) || r - b >= (MAX_WALK + 1) * d)
  }

  lemma AheadIsReached(b: int, r: int, period: int)
    requires period > 0 && PeriodLength(period) > 0 && Ahead(b, r, PeriodLength(period))
    ensures r - PeriodLength(period) >= b && NextReset(Some(b), period, r - PeriodLength(period)) == Some(r)
  {
    var d := PeriodLength(period);
    var now, k := r - d, (r - b) / d;
    if TrafficRuns.SameLattice(r, b, d) {
      assert r - b == k * d;
      if k < 1 {
        MulMonotone(k, 0, d);
        assert false;
      }
      MulMonotone(0, k - 1, d);
      assert now - b == (k - 1) * d;
      MultipleModZero(k - 1, d);
    }
  }

  /** Nothing is used right after a roll on the heartbeat in memory. */
  lemma NothingUsed(s: Sys, load: TrafficRuns.LoadedJob, now: int, thresh: real)
    requires thresh > 0.0 && load.period > 0 && s.node.meta.quota > 0
    requires TrafficRuns.CanHappen(s.node, TrafficRuns.RollWrite(load, now)) && s.node.metrics == Some(load.reading)
    requires RollsOver(load.loaded, now)
    ensures !OverNow(s.(node := TrafficRuns.Apply(s.node, TrafficRuns.RollWrite(load, now))), thresh)
  {
    TrafficRuns.AnchoringIsFree(s.node, load, now);
  }

  lemma WrittenAlerts(s: Sys, load: TrafficRuns.LoadedJob, now: int, r: int, cooldown: int, thresh: real)
    requires 0.0 < thresh <= 100.0 && Climbing(s.node) && s.node.meta.quota > 0
    requires load in s.node.loads && s.node.metrics == Some(load.reading) && load.loaded == s.node.st
    requires RollsOver(s.node.st, now) && NextReset(s.node.st.resetAt, s.node.meta.period, now) == Some(r)
    ensures CanSend(s, r, 1, true, cooldown, thresh)
  {
    var e := TrafficRuns.RollWrite(load, now);
    ClimbingStays(s, Hub(e));
    NothingUsed(s, load, now, thresh);
    ClearedAlerts(s.(node := TrafficRuns.Apply(s.node, e)), r, cooldown, thresh);
    SendsAfter(s, Hub(e), r, 1, true, cooldown, thresh);
  }

  lemma RolledAlerts(s: Sys, job: TrafficRuns.RollJob, b: int, r: int, cooldown: int, thresh: real)
    requires 0.0 < thresh <= 100.0 && Climbing(s.node) && s.node.meta.quota > 0 && s.node.st.resetAt == Some(b)
    requires PeriodLength(s.node.meta.period) > 0 && Ahead(b, r, PeriodLength(s.node.meta.period))
    requires job in s.node.rolls && s.node.metrics == Some(job.reading)
    ensures CanSend(s, r, 1, true, cooldown, thresh)
  {
    var load, e := TrafficRuns.LoadedJob(job.reading, job.period, s.node.st), TrafficRuns.RollLoad(job);
    AheadIsReached(b, r, s.node.meta.period);
    ClimbingStays(s, Hub(e));
    var s1 := s.(node := TrafficRuns.Apply(s.node, e));
    assert load in s1.node.loads;
    WrittenAlerts(s1, load, r - PeriodLength(s.node.meta.period), r, cooldown, thresh);
    SendsAfter(s, Hub(e), r, 1, true, cooldown, thresh);
  }

  /** From a boundary set back below r, a heartbeat at r minus a period opens the period that ends at r again. */
  lemma ReopenedAlerts(s: Sys, b: int, r: int, cooldown: int, thresh: real)
    requires 0.0 < thresh <= 100.0 && Climbing(s.node) && s.node.meta.quota > 0 && s.node.st.resetAt == Some(b)
    requires PeriodLength(s.node.meta.period) > 0 && Ahead(b, r, PeriodLength(s.node.meta.period))
    ensures CanSend(s, r, 1, true, cooldown, thresh)
  {
    var k := |s.node.taken|;
    var entry := TrafficRuns.Locked(k, s.node.meta.period);
    var s1 := s.(node := TrafficRuns.Apply(s.node, TrafficRuns.Read));
    ClimbingStays(s, Hub(TrafficRuns.Read));
    var s2 := s1.(node := TrafficRuns.Apply(s1.node, entry));
    ClimbingStays(s1, Hub(entry));
    RolledAlerts(s2, TrafficRuns.RollJob(k, s.node.meta.period), b, r, cooldown, thresh);
    SendsAfter(s1, Hub(entry), r, 1, true, cooldown, thresh);
    SendsAfter(s, Hub(TrafficRuns.Read), r, 1, true, cooldown, thresh);
  }

  /** The boundary is past r or can never be r again. */
  predicate Missed(s: Sys, r: int, d: int)
    requires d > 0
  {
    s.node.st.resetAt.Some? && s.node.st.resetAt.value != r && !Ahead(s.node.st.resetAt.value, r, d)
  }

  lemma NextIsMissed(b: int, r: int, period: int, now: int)
    requires period > 0 && PeriodLength(period) > 0 && b != r && !Ahead(b, r, PeriodLength(period)) && now >= b
    ensures NextReset(Some(b), period, now).Some?
    ensures var next := NextReset(Some(b), period, now).value;
            next != r && !Ahead(next, r, PeriodLength(period))
  {
    var d, next := PeriodLength(period), NextReset(Some(b), period, now).value;
    FirstAfterIsFirst(b, d, now);
    if now - b < MAX_WALK * d && next <= r {
      TrafficRuns.SameIsOnLattice(r, d);
      if TrafficRuns.SameLattice(r, next, d) {
        TrafficRuns.LatticeChain(r, next, b, d);
      }
    }
  }

  lemma MissedStays(s: Sys, e: Step, r: int, d: int, cooldown: int, thresh: real)
    requires Climbing(s.node) && d == PeriodLength(s.node.meta.period) > 0 && Missed(s, r, d)
    requires CanStep(s, e) && Calm(s, e) && Fresh(s, e)
    ensures Missed(Apply(s, e, cooldown, thresh), r, d)
  {
    if e.Hub? && e.e.RollWrite? && RollsOver(e.e.load.loaded, e.e.now) {
      NextIsMissed(s.node.st.resetAt.value, r, s.node.meta.period, e.e.now);
    }
  }

  lemma {:induction false} MissedIsSilent(s: Sys, steps: seq<Step>, r: int, d: int, cooldown: int, thresh: real)
    requires Climbing(s.node) && d == PeriodLength(s.node.meta.period) > 0 && Missed(s, r, d)
    requires Calmly(s, steps, cooldown, thresh) && Freshly(s, steps, cooldown, thresh)
    ensures EventsInPeriod(s, steps, r, cooldown, thresh) == 0
    decreases |steps|
  {
    if steps != [] {
      if steps[0].Hub? {
        ClimbingStays(s, steps[0]);
        TrafficRuns.OnePeriodStays(s.node, steps[0].e);
      }
      MissedStays(s, steps[0], r, d, cooldown, thresh);
      MissedIsSilent(Apply(s, steps[0], cooldown, thresh), steps[1..], r, d, cooldown, thresh);
    }
  }

  lemma SilentAfter(s: Sys, r: int, d: int, cooldown: int, thresh: real)
    requires thresh > 0.0 && Climbing(s.node) && d == PeriodLength(s.node.meta.period) > 0
    requires Quiet(s, r, thresh) || Missed(s, r, d)
    ensures !CanSend(s, r, 1, true, cooldown, thresh)
  {
    forall steps | Calmly(s, steps, cooldown, thresh) && Freshly(s, steps, cooldown, thresh)
      ensures EventsInPeriod(s, steps, r, cooldown, thresh) == 0
    {
      if Quiet(s, r, thresh) {
        AtMostOnePerPeriod(s, steps, r, cooldown, thresh);
      } else {
        MissedIsSilent(s, steps, r, d, cooldown, thresh);
      }
    }
  }

  /** Nothing is ever over a threshold above 100 percent or without a quota. */
  lemma {:induction false} NeverOver(s: Sys, steps: seq<Step>, r: int, cooldown: int, thresh: real)
    requires s.node.meta.quota == 0 || thresh > 100.0
    requires Calmly(s, steps, cooldown, thresh)
    ensures EventsInPeriod(s, steps, r, cooldown, thresh) == 0
    decreases |steps|
  {
    if steps != [] {
      if steps[0].Check? {
        NotOver(s, thresh);
        CheckStep(s, steps[0], cooldown, thresh);
      }
      NeverOver(Apply(s, steps[0], cooldown, thresh), steps[1..], r, cooldown, thresh);
    }
  }

  lemma NotOver(s: Sys, thresh: real)
    requires s.node.meta.quota == 0 || thresh > 100.0
    ensures !OverNow(s, thresh)
  {
    if s.node.meta.quota > 0 && TrafficRuns.Seen(s.node).Some? {
      PercentRange(Used(s.node.st, TrafficRuns.Seen(s.node).value), s.node.meta.quota);
    }
  }

  /** With the boundary that ends the period just stored, an alert can go out unless it already has and the
      usage still stands. */
  predicate CanRefill(s: Sys, thresh: real) {
    s.id !in s.alerts.trafficAlerted || !OverNow(s, thresh)
  }

  lemma StoredBoundaryIff(s: Sys, next: int, r: int, d: int, cooldown: int, thresh: real)
    requires thresh > 0.0 && Climbing(s.node) && s.node.st.resetAt == Some(next)
    requires d == PeriodLength(s.node.meta.period) > 0
    ensures CanSend(s, r, 1, true, cooldown, thresh)
            <==> thresh <= 100.0 && s.node.meta.quota > 0 && ((next == r && CanRefill(s, thresh)) || Ahead(next, r, d))
  {
    if s.node.meta.quota == 0 || thresh > 100.0 {
      forall steps | Calmly(s, steps, cooldown, thresh) ensures EventsInPeriod(s, steps, r, cooldown, thresh) == 0 {
        NeverOver(s, steps, r, cooldown, thresh);
      }
    } else if next == r && s.id !in s.alerts.trafficAlerted {
      RefilledAlerts(s, r, cooldown, thresh);
    } else if next == r && !OverNow(s, thresh) {
      ClearedAlerts(s, r, cooldown, thresh);
    } else if Ahead(next, r, d) {
      ReopenedAlerts(s, next, r, cooldown, thresh);
    } else {
      SilentAfter(s, r, d, cooldown, thresh);
    }
  }

  /** Whatever a roll loaded, and in whatever state its write that rolls over comes - before the period that ends
      at r, during it or after it, with its alert sent or not: afterwards an alert of that period can go out, by
      fresh rolls, exactly when there is a quota and the threshold can be met, and the write either stores r while
      the alert is not remembered or the usage is below the threshold, or stores an earlier boundary from which
      rolls can reach r. */
  lemma AlertAfterWriteIff(s: Sys, load: TrafficRuns.LoadedJob, now: int, r: int, cooldown: int, thresh: real)
    requires thresh > 0.0 && Climbing(s.node)
    requires TrafficRuns.CanHappen(s.node, TrafficRuns.RollWrite(load, now)) && RollsOver(load.loaded, now)
    ensures PeriodLength(load.period) > 0 && NextReset(load.loaded.resetAt, load.period, now).Some?
    ensures var after := Apply(s, Hub(TrafficRuns.RollWrite(load, now)), cooldown, thresh);
            var next, d := NextReset(load.loaded.resetAt, load.period, now).value, PeriodLength(load.period);
            CanSend(after, r, 1, true, cooldown, thresh)
            <==> && thresh <= 100.0 && s.node.meta.quota > 0
                 && ((next == r && (s.id !in s.alerts.trafficAlerted || !OverNow(after, thresh)))
                     || (next < r && (TrafficRuns.SameLattice(r, next, d) || r - next >= (MAX_WALK + 1) * d)))
  {
    PeriodIsPositive(load.period);
    TrafficRuns.NextResetIsAhead(load.loaded.resetAt, load.period, now);
    var e := Hub(TrafficRuns.RollWrite(load, now));
    ClimbingStays(s, e);
    TrafficRuns.OnePeriodStays(s.node, e.e);
    StoredBoundaryIff(Apply(s, e, cooldown, thresh), NextReset(load.loaded.resetAt, load.period, now).value, r,
                      PeriodLength(load.period), cooldown, thresh);
  }

  /** The same while the alert stands: the boundary is r, its alert has gone out and is remembered. */
  lemma SecondAlertIff(s: Sys, load: TrafficRuns.LoadedJob, now: int, r: int, cooldown: int, thresh: real)
    requires thresh > 0.0 && Climbing(s.node) && Alerted(s, r, thresh)
    requires TrafficRuns.CanHappen(s.node, TrafficRuns.RollWrite(load, now)) && RollsOver(load.loaded, now)
    ensures PeriodLength(load.period) > 0 && NextReset(load.loaded.resetAt, load.period, now).Some?
    ensures var after := Apply(s, Hub(TrafficRuns.RollWrite(load, now)), cooldown, thresh);
            var next, d := NextReset(load.loaded.resetAt, load.period, now).value, PeriodLength(load.period);
            CanSend(after, r, 1, true, cooldown, thresh)
            <==> (next == r && !OverNow(after, thresh))
                 || (next < r && (TrafficRuns.SameLattice(r, next, d) || r - next >= (MAX_WALK + 1) * d))
  {
    AlertAfterWriteIff(s, load, now, r, cooldown, thresh);
    PercentRange(Used(s.node.st, TrafficRuns.Seen(s.node).value), s.node.meta.quota);
  }

  // ---------------------------------------------------------------------
  // The run with two alerts in one period
  // ---------------------------------------------------------------------

  const FIRST := TrafficState(0, 0, Some(0))
  const EARLY := TrafficRuns.LoadedJob(0, 1, FIRST)
  const LATE := TrafficRuns.LoadedJob(1, 1, FIRST)

  function At(up: nat): TrafficRuns.Reading {
    TrafficRuns.Reading(TrafficRuns.Meter(up, up, 0), TrafficRuns.Meter(0, 0, 0))
  }

  /** A node with a quota of ten bytes a day, its readings so far and the jobs under way. */
  function Metered(taken: seq<TrafficRuns.Reading>, last: nat, rolls: multiset<TrafficRuns.RollJob>,
                   loads: multiset<TrafficRuns.LoadedJob>, st: TrafficState, up: nat, baseline: nat): TrafficRuns.Node {
    TrafficRuns.Node(At(up), taken, Some(last), Some(last), rolls, loads, multiset{}, multiset{}, st, baseline,
                     Meta(10, 1))
  }

  function Bare(id: Id, n: TrafficRuns.Node): Sys {
    Sys(id, n, INITIAL)
  }

  lemma HubSends(s: Sys, e: TrafficRuns.Event, next: TrafficRuns.Node, r: int, k: nat, cooldown: int, thresh: real)
    requires CanStep(s, Hub(e)) && Calm(s, Hub(e)) && TrafficRuns.Apply(s.node, e) == next
    requires CanSend(s.(node := next), r, k, false, cooldown, thresh)
    ensures CanSend(s, r, k, false, cooldown, thresh)
  {
    SendsAfter(s, Hub(e), r, k, false, cooldown, thresh);
  }

  /** From this node on, with nothing alerted yet, two alerts of the period that ends at DAY can go out. */
  ghost predicate AlertsTwice(id: Id, n: TrafficRuns.Node, cooldown: int, thresh: real) {
    CanSend(Bare(id, n), DAY, 2, false, cooldown, thresh)
  }

  lemma HubAlertsTwice(id: Id, n: TrafficRuns.Node, e: TrafficRuns.Event, next: TrafficRuns.Node, cooldown: int,
                       thresh: real)
    requires CanStep(Bare(id, n), Hub(e)) && Calm(Bare(id, n), Hub(e)) && TrafficRuns.Apply(n, e) == next
    requires AlertsTwice(id, next, cooldown, thresh)
    ensures AlertsTwice(id, n, cooldown, thresh)
  {
    HubSends(Bare(id, n), e, next, DAY, 2, cooldown, thresh);
  }

  /** A period anchored at zero, to end at instant zero. */
  function Anchored(): TrafficRuns.Node {
    Metered([At(0)], 0, multiset{}, multiset{}, FIRST, 0, 0)
  }

  /** One more heartbeat has entered, and five bytes later another reading is taken. */
  function HalfEntered(): TrafficRuns.Node {
    Metered([At(0), At(5)], 0, multiset{TrafficRuns.RollJob(0, 1)}, multiset{}, FIRST, 5, 0)
  }

  function Entered(): TrafficRuns.Node {
    Metered([At(0), At(5)], 1, multiset{TrafficRuns.RollJob(0, 1), TrafficRuns.RollJob(1, 1)}, multiset{}, FIRST, 5, 0)
  }

  /** Both rolls have loaded the old state. */
  function Loaded(): TrafficRuns.Node {
    Metered([At(0), At(5)], 1, multiset{}, multiset{EARLY, LATE}, FIRST, 5, 0)
  }

  /** The same, nine bytes in and reported. */
  function BothLoaded(): TrafficRuns.Node {
    Metered([At(0), At(5), At(9)], 2, multiset{TrafficRuns.RollJob(2, 1)}, multiset{EARLY, LATE}, FIRST, 9, 0)
  }

  lemma FirstWritten()
    ensures var n := TrafficRuns.Apply(BothLoaded(), TrafficRuns.RollWrite(EARLY, 1));
            n == BothLoaded().(loads := multiset{LATE}, st := TrafficState(0, 0, Some(DAY)))
  {
    assert multiset{EARLY, LATE} - multiset{EARLY} == multiset{LATE};
    assert FirstAfter(0, DAY, 1) == DAY;
  }

  lemma BothLoadedClimbs()
    ensures Climbing(BothLoaded())
  {
    var n := BothLoaded();
    forall i, j | 0 <= i <= j < |n.taken| ensures TrafficRuns.ReadLater(n.taken[i], n.taken[j]) {
    }
  }

  lemma SecondWriteAlertsAgain(id: Id, cooldown: int, thresh: real)
    requires 40.0 < thresh <= 90.0
    ensures AlertsTwice(id, BothLoaded(), cooldown, thresh)
  {
    var s := Bare(id, BothLoaded());
    var w1 := TrafficRuns.RollWrite(EARLY, 1);
    BothLoadedClimbs();
    FirstWritten();
    ClimbingStays(s, Hub(w1));
    var s1 := s.(node := TrafficRuns.Apply(s.node, w1));
    assert Percent(9, 10) == 90.0;
    assert OverNow(s1, thresh);
    CheckStep(s1, ALONE, cooldown, thresh);
    var s2 := Apply(s1, ALONE, cooldown, thresh);
    AlertedAlertsAgain(s2, cooldown, thresh);
    SendsAfter(s1, ALONE, DAY, 1, false, cooldown, thresh);
    HubSends(s, w1, s1.node, DAY, 2, cooldown, thresh);
  }

  /** The early roll has written, and the alert of the period that ends at DAY has gone out. */
  ghost predicate OnceAlerted(s: Sys, thresh: real) {
    && s.node == BothLoaded().(loads := multiset{LATE}, st := TrafficState(0, 0, Some(DAY)))
    && Climbing(s.node) && Alerted(s, DAY, thresh)
  }

  lemma AlertedAlertsAgain(s: Sys, cooldown: int, thresh: real)
    requires 40.0 < thresh <= 90.0 && OnceAlerted(s, thresh)
    ensures CanSend(s, DAY, 1, false, cooldown, thresh)
  {
    var w := TrafficRuns.RollWrite(LATE, 2);
    assert FirstAfter(0, DAY, 2) == DAY;
    var after := Apply(s, Hub(w), cooldown, thresh);
    assert Percent(4, 10) == 40.0;
    SecondAlertIff(s, LATE, 2, DAY, cooldown, thresh);
    var steps :| Calmly(after, steps, cooldown, thresh) && EventsInPeriod(after, steps, DAY, cooldown, thresh) >= 1;
    assert CanSend(after, DAY, 1, false, cooldown, thresh);
    HubSends(s, w, after.node, DAY, 1, cooldown, thresh);
  }

  lemma SecondArrives(id: Id, cooldown: int, thresh: real)
    requires AlertsTwice(id, BothLoaded(), cooldown, thresh)
    ensures AlertsTwice(id, Loaded(), cooldown, thresh)
  {
    var more := [At(0), At(5)] + [At(9)];
    var n := Loaded();
    var n1, n2 := n.(host := At(9)), n.(host := At(9), taken := more);
    assert more == [At(0), At(5), At(9)];
    assert TrafficRuns.Apply(n2, TrafficRuns.Locked(2, 1)) == BothLoaded();
    HubAlertsTwice(id, n2, TrafficRuns.Locked(2, 1), BothLoaded(), cooldown, thresh);
    HubAlertsTwice(id, n1, TrafficRuns.Read, n2, cooldown, thresh);
    HubAlertsTwice(id, n, TrafficRuns.HostMoves(4, 0), n1, cooldown, thresh);
  }

  lemma BothLoad(id: Id, cooldown: int, thresh: real)
    requires AlertsTwice(id, Loaded(), cooldown, thresh)
    ensures AlertsTwice(id, Entered(), cooldown, thresh)
  {
    var a, b := TrafficRuns.RollJob(0, 1), TrafficRuns.RollJob(1, 1);
    var n := Entered();
    var n1 := n.(rolls := multiset{b}, loads := multiset{EARLY});
    var n2 := n.(rolls := multiset{}, loads := multiset{EARLY, LATE});
    assert multiset{a, b} - multiset{a} == multiset{b};
    assert TrafficRuns.Apply(n1, TrafficRuns.RollLoad(b)) == n2;
    HubAlertsTwice(id, n1, TrafficRuns.RollLoad(b), n2, cooldown, thresh);
    HubAlertsTwice(id, n, TrafficRuns.RollLoad(a), n1, cooldown, thresh);
  }

  lemma LateEnters(id: Id, cooldown: int, thresh: real)
    requires AlertsTwice(id, Entered(), cooldown, thresh)
    ensures AlertsTwice(id, HalfEntered(), cooldown, thresh)
  {
    var a, b := TrafficRuns.RollJob(0, 1), TrafficRuns.RollJob(1, 1);
    var n, end := HalfEntered(), Entered();
    assert multiset{a} + multiset{b} == multiset{a, b};
    assert TrafficRuns.Apply(n, TrafficRuns.Locked(1, 1)) == end;
    HubAlertsTwice(id, n, TrafficRuns.Locked(1, 1), end, cooldown, thresh);
  }

  lemma EarlyEnters(id: Id, cooldown: int, thresh: real)
    requires AlertsTwice(id, HalfEntered(), cooldown, thresh)
    ensures AlertsTwice(id, Anchored(), cooldown, thresh)
  {
    var jobs, more := multiset{TrafficRuns.RollJob(0, 1)}, [At(0)] + [At(5)];
    assert more == [At(0), At(5)];
    var n := Anchored();
    var n1 := Metered([At(0)], 0, jobs, multiset{}, FIRST, 0, 0);
    var n2, n3 := Metered([At(0)], 0, jobs, multiset{}, FIRST, 5, 0), HalfEntered();
    assert TrafficRuns.Apply(n, TrafficRuns.Locked(0, 1)) == n1;
    assert TrafficRuns.Apply(n1, TrafficRuns.HostMoves(5, 0)) == n2;
    assert TrafficRuns.Apply(n2, TrafficRuns.Read) == n3;
    HubAlertsTwice(id, n2, TrafficRuns.Read, n3, cooldown, thresh);
    HubAlertsTwice(id, n1, TrafficRuns.HostMoves(5, 0), n2, cooldown, thresh);
    HubAlertsTwice(id, n, TrafficRuns.Locked(0, 1), n1, cooldown, thresh);
  }

  lemma FirstAnchors(id: Id, cooldown: int, thresh: real)
    requires AlertsTwice(id, Anchored(), cooldown, thresh)
    ensures AlertsTwice(id, TrafficRuns.NewNode(At(0), Meta(10, 1)), cooldown, thresh)
  {
    var a, load := TrafficRuns.RollJob(0, 1), TrafficRuns.LoadedJob(0, 1, NO_BASELINE);
    var n := TrafficRuns.NewNode(At(0), Meta(10, 1));
    var n1 := n.(taken := [] + [At(0)]);
    assert [] + [At(0)] == [At(0)];
    var n2 := Metered([At(0)], 0, multiset{a}, multiset{}, NO_BASELINE, 0, 0);
    var n3 := Metered([At(0)], 0, multiset{}, multiset{load}, NO_BASELINE, 0, 0);
    var n4 := Anchored();
    assert multiset{a} - multiset{a} == multiset{} && multiset{load} - multiset{load} == multiset{};
    assert TrafficRuns.Apply(n3, TrafficRuns.RollWrite(load, -DAY)) == n4;
    HubAlertsTwice(id, n3, TrafficRuns.RollWrite(load, -DAY), n4, cooldown, thresh);
    HubAlertsTwice(id, n2, TrafficRuns.RollLoad(a), n3, cooldown, thresh);
    HubAlertsTwice(id, n1, TrafficRuns.Locked(0, 1), n2, cooldown, thresh);
    HubAlertsTwice(id, n, TrafficRuns.Read, n1, cooldown, thresh);
  }

  /** From a new node: two heartbeats roll the same period over, and between their writes nine of ten bytes raise
      the alert. The second write takes five of them off the bill, a check forgets the alert, and more traffic
      raises it again before the same boundary. */
  lemma RacingRollsAlertTwice(id: Id, cooldown: int, thresh: real)
    requires 40.0 < thresh <= 90.0
    ensures exists steps ::
              var s := Sys(id, TrafficRuns.NewNode(At(0), Meta(10, 1)), INITIAL);
              Calmly(s, steps, cooldown, thresh) && EventsInPeriod(s, steps, DAY, cooldown, thresh) >= 2
  {
    SecondWriteAlertsAgain(id, cooldown, thresh);
    SecondArrives(id, cooldown, thresh);
    BothLoad(id, cooldown, thresh);
    LateEnters(id, cooldown, thresh);
    EarlyEnters(id, cooldown, thresh);
    FirstAnchors(id, cooldown, thresh);
  }

  /** The heartbeat in memory rolls the period over to the one that ends at 2 * DAY. */
  function RolledOn(n: TrafficRuns.Node): TrafficRuns.Node {
    n.(rolls := multiset{}, loads := multiset{LATE}, st := TrafficState(9, 0, Some(2 * DAY)), baseline := 2)
  }

  /** That roll's load and write; the write is fresh. */
  lemma NextDayRolls(s: Sys, thresh: real)
    requires OnceAlerted(s, thresh)
    ensures var e1 := TrafficRuns.RollLoad(TrafficRuns.RollJob(2, 1));
            var e2 := TrafficRuns.RollWrite(TrafficRuns.LoadedJob(2, 1, s.node.st), DAY);
            TrafficRuns.Reaches(s.node, [e1] + [e2], RolledOn(s.node))
    ensures Climbing(RolledOn(s.node))
  {
    var job, load := TrafficRuns.RollJob(2, 1), TrafficRuns.LoadedJob(2, 1, s.node.st);
    var e1, e2 := TrafficRuns.RollLoad(job), TrafficRuns.RollWrite(load, DAY);
    var n1 := s.node.(rolls := multiset{}, loads := multiset{LATE, load});
    assert multiset{job} - multiset{job} == multiset{} && multiset{LATE} + multiset{load} == multiset{LATE, load};
    assert TrafficRuns.Apply(s.node, e1) == n1;
    assert multiset{LATE, load} - multiset{load} == multiset{LATE};
    assert FirstAfter(DAY, DAY, DAY) == 2 * DAY;
    assert TrafficRuns.Apply(n1, e2) == RolledOn(s.node);
    ClimbingStays(s, Hub(e1));
    ClimbingStays(s.(node := n1), Hub(e2));
    TrafficRuns.ReachesOne(s.node, e1);
    TrafficRuns.ReachesOne(n1, e2);
    TrafficRuns.ReachesThrough(s.node, [e1], n1, [e2], RolledOn(s.node));
  }

  /** The second failing run: the alert has gone out, a fresh roll has ended its period, and only then the late
      write comes. It sets the boundary back, and more traffic raises the same period's alert again. */
  lemma SetBackBoundaryAlertsAgain(s: Sys, cooldown: int, thresh: real)
    requires 40.0 < thresh <= 90.0 && OnceAlerted(s, thresh)
    ensures var e1 := TrafficRuns.RollLoad(TrafficRuns.RollJob(2, 1));
            var e2 := TrafficRuns.RollWrite(TrafficRuns.LoadedJob(2, 1, s.node.st), DAY);
            TrafficRuns.Reaches(s.node, [e1] + [e2], RolledOn(s.node))
    ensures var on := s.(node := RolledOn(s.node));
            && on.node.st.resetAt == Some(2 * DAY)
            && CanStep(on, Hub(TrafficRuns.RollWrite(LATE, 2)))
            && (var back := Apply(on, Hub(TrafficRuns.RollWrite(LATE, 2)), cooldown, thresh);
                back.node.st.resetAt == Some(DAY) && CanSend(back, DAY, 1, true, cooldown, thresh))
  {
    var on := s.(node := RolledOn(s.node));
    NextDayRolls(s, thresh);
    assert FirstAfter(0, DAY, 2) == DAY;
    assert Percent(4, 10) == 40.0;
    AlertAfterWriteIff(on, LATE, 2, DAY, cooldown, thresh);
  }
}
