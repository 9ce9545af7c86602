/** Traffic accounting over whole runs: host reboots, racing heartbeats, hub restarts, rollovers and admin edits
    in any order, measured against the bytes the host really moved. */
module TrafficRuns {
  import opened Basics
  import opened Traffic

  /** A host counter beside the truth: all bytes ever moved, and how often the counter fell back to zero. */
  datatype Meter = Meter(count: nat, moved: nat, restarts: nat)

  datatype Reading = Reading(up: Meter, down: Meter)

  /** A heartbeat past its locked section that still has to roll the accounting. */
  datatype RollJob = RollJob(reading: nat, period: int)

  /** The same after loadTraffic. */
  datatype LoadedJob = LoadedJob(reading: nat, period: int, loaded: TrafficState)

  /** A SetTrafficBaseline that has looked up the last heartbeat. */
  datatype AnchorJob = AnchorJob(reading: Option<nat>, period: int)

  /** `taken` lists the readings the agent ever took; the hub's memory, jobs and baseline name them by position.
      `newest` is the latest one any heartbeat has brought. `baseline` means nothing while st holds none. */
  datatype Node = Node(
    host: Reading, taken: seq<Reading>, newest: Option<nat>, metrics: Option<nat>,
    rolls: multiset<RollJob>, loads: multiset<LoadedJob>, edits: multiset<int>, anchors: multiset<AnchorJob>,
    st: TrafficState, baseline: nat, meta: Meta)

  datatype Event =
    | HostMoves(up: nat, down: nat)
    | HostRestarts(upToo: bool, downToo: bool)       // which of its counters restart at zero
    | Read                                           // the agent reads the counters for a heartbeat
    | Locked(reading: nat, period: int)              // SaveHeartbeat's critical section, with the period it looked up
    | RollLoad(roll: RollJob)                        // rollTraffic: loadTraffic
    | RollWrite(load: LoadedJob, now: int)           // rollTraffic: the decision and the UPDATE
    | EditMeta(meta: Meta)                           // UpdateNode's transaction
    | AnchorRead(newPeriod: int)                     // SetTrafficBaseline: the last heartbeat
    | AnchorWrite(anchor: AnchorJob, at: int)        // SetTrafficBaseline: the UPDATE
    | HubRestart

  function Moved(m: Meter, bytes: nat): Meter {
    m.(count := m.count + bytes, moved := m.moved + bytes)
  }

  function Restarted(m: Meter, really: bool): Meter {
    if really then m.(count := 0, restarts := m.restarts + 1) else m
  }

  function CountersOf(r: Reading): Counters {
    Counters(r.up.count, r.down.count)
  }

  function Seen(n: Node): Option<Counters> {
    if n.metrics.Some? && n.metrics.value < |n.taken| then Some(CountersOf(n.taken[n.metrics.value])) else None
  }

  predicate CanHappen(n: Node, e: Event) {
    match e
    case Locked(i, _) => i < |n.taken|
    case RollLoad(job) => job in n.rolls && job.reading < |n.taken|
    case RollWrite(load, _) => load in n.loads && load.reading < |n.taken|
    case AnchorRead(period) => period in n.edits
    case AnchorWrite(job, _) => job in n.anchors && (job.reading.Some? ==> job.reading.value < |n.taken|)
    case _ => true
  }

  function Apply(n: Node, e: Event): Node
    requires CanHappen(n, e)
  {
    match e
    case HostMoves(up, down) => n.(host := Reading(Moved(n.host.up, up), Moved(n.host.down, down)))
    case HostRestarts(up, down) => n.(host := Reading(Restarted(n.host.up, up), Restarted(n.host.down, down)))
    case Read => n.(taken := n.taken + [n.host])
    case Locked(i, period) =>
      n.(metrics := Some(i), newest := Some(if n.newest.Some? && n.newest.value > i then n.newest.value else i),
         rolls := if period > 0 then n.rolls + multiset{RollJob(i, period)} else n.rolls)
    case RollLoad(job) =>
      n.(rolls := n.rolls - multiset{job}, loads := n.loads + multiset{LoadedJob(job.reading, job.period, n.st)})
    case RollWrite(load, now) =>
      var n' := n.(loads := n.loads - multiset{load});
      if RollsOver(load.loaded, now) then
        n'.(st := Rolled(load.loaded, CountersOf(n.taken[load.reading]), load.period, now), baseline := load.reading)
      else n'
    case EditMeta(meta) =>
      n.(meta := meta, edits := if meta.period != n.meta.period && meta.period > 0 then n.edits + multiset{meta.period}
                                else n.edits)
    case AnchorRead(period) =>
      n.(edits := n.edits - multiset{period}, anchors := n.anchors + multiset{AnchorJob(n.metrics, period)})
    case AnchorWrite(job, at) =>
      var last := if job.reading.Some? then Some(CountersOf(n.taken[job.reading.value])) else None;
      n.(anchors := n.anchors - multiset{job}, st := Reanchored(n.st, last, job.period, at),
         baseline := if job.period > 0 && job.reading.Some? then job.reading.value else n.baseline)
    case HubRestart =>
      n.(metrics := None, rolls := multiset{}, loads := multiset{}, edits := multiset{}, anchors := multiset{})
  }

  predicate Possible(n: Node, events: seq<Event>)
    decreases |events|
  {
    events == [] || (CanHappen(n, events[0]) && Possible(Apply(n, events[0]), events[1..]))
  }

  function Run(n: Node, events: seq<Event>): Node
    requires Possible(n, events)
    decreases |events|
  {
    if events == [] then n else Run(Apply(n, events[0]), events[1..])
  }

  function View(n: Node): Traffic {
    ComputeTraffic(n.st, n.meta, Seen(n))
  }

  /** A node as CreateNode leaves it, on a host that has been up for any length of time. */
  function NewNode(host: Reading, meta: Meta): Node {
    Node(host, [], None, None, multiset{}, multiset{}, multiset{}, multiset{}, NO_BASELINE, 0, meta)
  }

  lemma {:induction false} RunPlus(n: Node, a: seq<Event>, b: seq<Event>)
    requires Possible(n, a + b)
    ensures Possible(n, a) && Possible(Run(n, a), b) && Run(n, a + b) == Run(Run(n, a), b)
    decreases |a|
  {
    if a == [] {
      assert a + b == b;
    } else {
      assert (a + b)[1..] == a[1..] + b;
      RunPlus(Apply(n, a[0]), a[1..], b);
    }
  }

  // ---------------------------------------------------------------------
  // Calls that run alone
  // ---------------------------------------------------------------------

  /** SaveHeartbeat of one reading. */
  function Saved(n: Node, i: nat, period: int, rollAt: int): Node
    requires i < |n.taken|
  {
    var n1 := Apply(n, Locked(i, period));
    if period > 0 then
      Apply(Apply(n1, RollLoad(RollJob(i, period))), RollWrite(LoadedJob(i, period, n.st), rollAt))
    else n1
  }

  /** UpdateNode with new metadata. */
  function Edited(n: Node, meta: Meta, at: int): Node
    requires n.metrics.Some? ==> n.metrics.value < |n.taken|
  {
    var n1 := Apply(n, EditMeta(meta));
    if meta.period != n.meta.period && meta.period > 0 then
      Apply(Apply(n1, AnchorRead(meta.period)), AnchorWrite(AnchorJob(n.metrics, meta.period), at))
    else n1
  }

  lemma SavedState(n: Node, i: nat, period: int, rollAt: int)
    requires i < |n.taken|
    ensures var end := Saved(n, i, period, rollAt);
            && end.meta == n.meta && end.taken == n.taken && end.metrics == Some(i)
            && end.st == if period > 0 then Rolled(n.st, CountersOf(n.taken[i]), period, rollAt) else n.st
  {
  }

  lemma EditedState(n: Node, meta: Meta, at: int)
    requires n.metrics.Some? ==> n.metrics.value < |n.taken|
    ensures var end := Edited(n, meta, at);
            && end.meta == meta && end.taken == n.taken && end.metrics == n.metrics
            && end.st == if meta.period != n.meta.period then Reanchored(n.st, Seen(n), meta.period, at) else n.st
  {
  }

  /** A period that starts at `at` from reading i: its boundary is that many whole days ahead, its baseline is the
      reading's totals, and a node that still has that reading in memory shows nothing used. */
  predicate StartsAt(n: Node, i: nat, period: int, at: int)
    requires i < |n.taken|
  {
    && n.st.resetAt == Some(at + period * 86_400 * SECOND)
    && n.st.baseUp == n.taken[i].up.count && n.st.baseDown == n.taken[i].down.count
    && (n.metrics == Some(i) && n.meta.period > 0 ==> View(n).used == 0 && View(n).resetAt == n.st.resetAt)
  }

  lemma StartedPeriod(n: Node, i: nat, period: int, at: int)
    requires i < |n.taken| && period > 0
    requires var hb := CountersOf(n.taken[i]);
             n.st == Reanchored(NO_BASELINE, Some(hb), period, at) || n.st == Rolled(NO_BASELINE, hb, period, at)
    ensures StartsAt(n, i, period, at)
  {
  }

  /** An edit that changes the period to a positive one starts a period at the edit, from the heartbeat in memory;
      if there is none it leaves no baseline, and the next heartbeat starts the period at its own roll. Any other
      edit leaves boundary and baseline alone. */
  lemma PeriodEditAnchors(n: Node, meta: Meta, at: int)
    requires n.metrics.Some? ==> n.metrics.value < |n.taken|
    ensures var end := Edited(n, meta, at);
            && end.taken == n.taken && end.metrics == n.metrics && end.meta == meta
            && (if meta.period == n.meta.period || meta.period <= 0 then end.st == n.st
                else if n.metrics.Some? then StartsAt(end, n.metrics.value, meta.period, at)
                else end.st.resetAt == None
                     && forall i: nat, rollAt :: i < |n.taken| ==>
                          StartsAt(Saved(end, i, meta.period, rollAt), i, meta.period, rollAt))
  {
    var end := Edited(n, meta, at);
    EditedState(n, meta, at);
    if meta.period != n.meta.period && meta.period > 0 {
      if n.metrics.Some? {
        StartedPeriod(end, n.metrics.value, meta.period, at);
      } else {
        forall i: nat, rollAt | i < |n.taken|
          ensures StartsAt(Saved(end, i, meta.period, rollAt), i, meta.period, rollAt)
        {
          SavedState(end, i, meta.period, rollAt);
          StartedPeriod(Saved(end, i, meta.period, rollAt), i, meta.period, rollAt);
        }
      }
    }
  }

  // ---------------------------------------------------------------------
  // What every run keeps
  // ---------------------------------------------------------------------

  /** b was read after a on the same counter. */
  predicate Later(a: Meter, b: Meter) {
    && a.moved <= b.moved && a.restarts <= b.restarts
    && (if a.restarts == b.restarts then b.count - a.count == b.moved - a.moved
        else b.count <= b.moved - a.moved)
  }

  predicate ReadLater(a: Reading, b: Reading) {
    Later(a.up, b.up) && Later(a.down, b.down)
  }

  /** A reading some heartbeat has brought, or an older one. */
  predicate Known(n: Node, i: nat) {
    n.newest.Some? && i <= n.newest.value < |n.taken|
  }

  ghost predicate ReadingsInOrder(n: Node) {
    && (forall i, j :: 0 <= i <= j < |n.taken| ==> ReadLater(n.taken[i], n.taken[j]))
    && (forall i :: 0 <= i < |n.taken| ==> ReadLater(n.taken[i], n.host))
  }

  predicate NewestTaken(n: Node) {
    n.newest.Some? ==> n.newest.value < |n.taken|
  }

  ghost predicate JobsKnown(n: Node) {
    && (forall job :: job in n.rolls ==> Known(n, job.reading))
    && (forall load :: load in n.loads ==> Known(n, load.reading))
    && (forall job :: job in n.anchors && job.reading.Some? ==> Known(n, job.reading.value))
  }

  predicate BaselineKnown(n: Node) {
    n.st.resetAt.Some? ==>
      && Known(n, n.baseline)
      && CountersOf(n.taken[n.baseline]) == Counters(n.st.baseUp, n.st.baseDown)
  }

  ghost predicate Inv(n: Node) {
    && NewestTaken(n) && ReadingsInOrder(n) && JobsKnown(n) && BaselineKnown(n)
    && (n.metrics.Some? ==> Known(n, n.metrics.value))
  }

  lemma MeterSteps(a: Meter, b: Meter, bytes: nat, really: bool)
    requires Later(a, b)
    ensures Later(a, Moved(b, bytes)) && Later(a, Restarted(b, really))
  {
  }

  lemma HostKeepsOrder(n: Node, e: Event)
    requires ReadingsInOrder(n) && (e.HostMoves? || e.HostRestarts? || e.Read?)
    ensures ReadingsInOrder(Apply(n, e))
  {
    var n' := Apply(n, e);
    forall i | 0 <= i < |n.taken| ensures ReadLater(n.taken[i], n'.host) {
      match e
      case HostMoves(up, down) =>
        MeterSteps(n.taken[i].up, n.host.up, up, false);
        MeterSteps(n.taken[i].down, n.host.down, down, false);
      case HostRestarts(up, down) =>
        MeterSteps(n.taken[i].up, n.host.up, 0, up);
        MeterSteps(n.taken[i].down, n.host.down, 0, down);
      case _ =>
    }
  }

  lemma KnownStaysKnown(n: Node, e: Event, i: nat)
    requires NewestTaken(n) && CanHappen(n, e) && Known(n, i)
    ensures Known(Apply(n, e), i)
  {
  }

  lemma ApplyKeepsRolls(n: Node, e: Event)
    requires NewestTaken(n) && JobsKnown(n) && CanHappen(n, e)
    ensures forall job :: job in Apply(n, e).rolls ==> Known(Apply(n, e), job.reading)
  {
    forall job | job in Apply(n, e).rolls ensures Known(Apply(n, e), job.reading) {
      if job in n.rolls {
        KnownStaysKnown(n, e, job.reading);
      } else {
        assert e.Locked? && job == RollJob(e.reading, e.period);
      }
    }
  }

  lemma ApplyKeepsLoads(n: Node, e: Event)
    requires NewestTaken(n) && JobsKnown(n) && CanHappen(n, e)
    ensures forall load :: load in Apply(n, e).loads ==> Known(Apply(n, e), load.reading)
  {
    forall load | load in Apply(n, e).loads ensures Known(Apply(n, e), load.reading) {
      if load in n.loads {
        KnownStaysKnown(n, e, load.reading);
      } else {
        assert e.RollLoad? && load.reading == e.roll.reading;
        KnownStaysKnown(n, e, load.reading);
      }
    }
  }

  lemma ApplyKeepsAnchors(n: Node, e: Event)
    requires NewestTaken(n) && JobsKnown(n) && CanHappen(n, e) && (n.metrics.Some? ==> Known(n, n.metrics.value))
    ensures forall job :: job in Apply(n, e).anchors && job.reading.Some? ==> Known(Apply(n, e), job.reading.value)
  {
    var n' := Apply(n, e);
    forall job | job in n'.anchors && job.reading.Some? ensures Known(n', job.reading.value) {
      if job !in n.anchors {
        assert e.AnchorRead? && job == AnchorJob(n.metrics, e.newPeriod);
      }
      assert Known(n, job.reading.value);
      KnownStaysKnown(n, e, job.reading.value);
    }
  }

  lemma ApplyKeepsMetrics(n: Node, e: Event)
    requires NewestTaken(n) && CanHappen(n, e) && (n.metrics.Some? ==> Known(n, n.metrics.value))
    ensures NewestTaken(Apply(n, e))
    ensures Apply(n, e).metrics.Some? ==> Known(Apply(n, e), Apply(n, e).metrics.value)
  {
  }

  lemma ApplyKeepsBaseline(n: Node, e: Event)
    requires NewestTaken(n) && JobsKnown(n) && BaselineKnown(n) && CanHappen(n, e)
    ensures BaselineKnown(Apply(n, e))
  {
    match e
    case RollWrite(load, _) => assert Known(n, load.reading);
    case AnchorWrite(job, _) => assert job.reading.Some? ==> Known(n, job.reading.value);
    case _ =>
  }

  lemma ApplyKeepsOrder(n: Node, e: Event)
    requires ReadingsInOrder(n) && CanHappen(n, e)
    ensures ReadingsInOrder(Apply(n, e))
  {
    if e.HostMoves? || e.HostRestarts? || e.Read? {
      HostKeepsOrder(n, e);
    } else {
      assert Apply(n, e).taken == n.taken && Apply(n, e).host == n.host;
    }
  }

  lemma ApplyKeepsJobs(n: Node, e: Event)
    requires NewestTaken(n) && JobsKnown(n) && CanHappen(n, e) && (n.metrics.Some? ==> Known(n, n.metrics.value))
    ensures JobsKnown(Apply(n, e))
  {
    ApplyKeepsRolls(n, e);
    ApplyKeepsLoads(n, e);
    ApplyKeepsAnchors(n, e);
  }

  lemma ApplyKeepsInv(n: Node, e: Event)
    requires Inv(n) && CanHappen(n, e)
    ensures Inv(Apply(n, e))
  {
    ApplyKeepsMetrics(n, e);
    ApplyKeepsBaseline(n, e);
    ApplyKeepsJobs(n, e);
    ApplyKeepsOrder(n, e);
  }

  lemma {:induction false} InvHolds(n: Node, events: seq<Event>)
    requires Inv(n) && Possible(n, events)
    ensures Inv(Run(n, events))
    decreases |events|
  {
    if events != [] {
      ApplyKeepsInv(n, events[0]);
      InvHolds(Apply(n, events[0]), events[1..]);
    }
  }

  // ---------------------------------------------------------------------
  // Never over-charged
  // ---------------------------------------------------------------------

  lemma DeltaIsHonest(base: Meter, cur: Meter)
    requires Later(base, cur)
    ensures CounterDelta(cur.count, base.count) <= cur.moved - base.moved
    ensures base.restarts == cur.restarts ==> CounterDelta(cur.count, base.count) == cur.moved - base.moved
  {
  }

  /** Charges exactly what moved between two readings, or less if a counter restarted in between. */
  predicate ChargesAtMost(t: Traffic, from: Reading, to: Reading) {
    && t.usedUp <= to.up.moved - from.up.moved
    && t.usedDown <= to.down.moved - from.down.moved
    && t.used == t.usedUp + t.usedDown
    && (from.up.restarts == to.up.restarts && from.down.restarts == to.down.restarts ==>
          t.used == (to.up.moved - from.up.moved) + (to.down.moved - from.down.moved))
  }

  predicate Charges(n: Node) {
    n.meta.period > 0 && n.st.resetAt.Some? && n.metrics.Some?
  }

  /** In any run at all, a bill is honest while the baseline's reading is not later than the one in memory, and
      nothing is charged without a baseline. */
  lemma HonestUnlessOvertaken(host: Reading, meta: Meta, events: seq<Event>)
    requires Possible(NewNode(host, meta), events)
    ensures var n := Run(NewNode(host, meta), events);
            if !Charges(n) then View(n).used == 0
            else
              && n.baseline < |n.taken| && n.metrics.value < |n.taken|
              && (n.baseline <= n.metrics.value ==>
                    ChargesAtMost(View(n), n.taken[n.baseline], n.taken[n.metrics.value]))
  {
    InvHolds(NewNode(host, meta), events);
    var n := Run(NewNode(host, meta), events);
    if Charges(n) && n.baseline <= n.metrics.value {
      var from, to := n.taken[n.baseline], n.taken[n.metrics.value];
      assert ReadLater(from, to);
      DeltaIsHonest(from.up, to.up);
      DeltaIsHonest(from.down, to.down);
    }
  }

  /** The bytes a counter moved from one reading to another, none when the other was read earlier. */
  function MovedSince(from: Meter, to: Meter): nat {
    if to.moved >= from.moved then to.moved - from.moved else 0
  }

  /** A counter that shows no movement when compared against an older or a newer reading alike. */
  predicate ShowsNothing(from: Meter, to: Meter) {
    to.count == from.count || to.count == 0
  }

  /** Exactly when: a run bills no more than moved since the baseline's reading if and only if that reading is not
      later than the one in memory, or neither counter shows anything. */
  lemma HonestIff(host: Reading, meta: Meta, events: seq<Event>)
    requires Possible(NewNode(host, meta), events)
    requires Charges(Run(NewNode(host, meta), events))
    ensures var n := Run(NewNode(host, meta), events);
            && n.baseline < |n.taken| && n.metrics.value < |n.taken|
            && (var from, to := n.taken[n.baseline], n.taken[n.metrics.value];
                View(n).used <= MovedSince(from.up, to.up) + MovedSince(from.down, to.down)
                <==> n.baseline <= n.metrics.value
                     || (ShowsNothing(from.up, to.up) && ShowsNothing(from.down, to.down)))
  {
    InvHolds(NewNode(host, meta), events);
    HonestUnlessOvertaken(host, meta, events);
    var n := Run(NewNode(host, meta), events);
    var from, to := n.taken[n.baseline], n.taken[n.metrics.value];
    if n.metrics.value < n.baseline {
      assert ReadLater(to, from);
    } else {
      assert ReadLater(from, to);
    }
  }

  /** Heartbeats enter their locked sections in the order their readings were taken. */
  predicate InReadingOrder(n: Node, events: seq<Event>)
    requires Possible(n, events)
    decreases |events|
  {
    events == [] ||
    ((events[0].Locked? && n.newest.Some? ==> n.newest.value <= events[0].reading)
     && InReadingOrder(Apply(n, events[0]), events[1..]))
  }

  lemma {:induction false} MemoryIsNewest(n: Node, events: seq<Event>)
    requires Possible(n, events) && InReadingOrder(n, events)
    requires n.metrics.Some? ==> n.metrics == n.newest
    ensures Run(n, events).metrics.Some? ==> Run(n, events).metrics == Run(n, events).newest
    decreases |events|
  {
    if events != [] {
      MemoryIsNewest(Apply(n, events[0]), events[1..]);
    }
  }

  /** Whatever else races - rolls, edits, reboots, hub restarts - while heartbeats are taken in the order they
      were read, the bill is at most what really moved between the heartbeat the baseline was taken from and the
      last heartbeat; it is exactly that when no counter restarted in between, and nothing is charged before a
      baseline exists. */
  lemma NeverOverCharged(host: Reading, meta: Meta, events: seq<Event>)
    requires Possible(NewNode(host, meta), events) && InReadingOrder(NewNode(host, meta), events)
    ensures var n := Run(NewNode(host, meta), events);
            if !Charges(n) then View(n).used == 0
            else
              && n.baseline <= n.metrics.value < |n.taken|
              && ChargesAtMost(View(n), n.taken[n.baseline], n.taken[n.metrics.value])
  {
    HonestUnlessOvertaken(host, meta, events);
    MemoryIsNewest(NewNode(host, meta), events);
    InvHolds(NewNode(host, meta), events);
  }

  /** Two first heartbeats, the newer one overtaking: its counters become the baseline, the older one stays in
      memory. */
  function Overtaken(meta: Meta, up: nat, down: nat, now: int): seq<Event> {
    var job := RollJob(1, meta.period);
    [Read, HostMoves(up, down), Read]
    + ([Locked(1, meta.period), Locked(0, meta.period)]
       + [RollLoad(job), RollWrite(LoadedJob(1, meta.period, NO_BASELINE), now)])
  }

  lemma OvertakenRoll(n: Node, job: RollJob, now: int)
    requires job.period > 0 && job in n.rolls && job.reading < |n.taken| && n.st == NO_BASELINE
    ensures var load := LoadedJob(job.reading, job.period, NO_BASELINE);
            var events := [RollLoad(job), RollWrite(load, now)];
            && Possible(n, events)
            && (var end := Run(n, events);
                end.taken == n.taken && end.metrics == n.metrics && end.baseline == job.reading && end.meta == n.meta
                && end.st == Rolled(NO_BASELINE, CountersOf(n.taken[job.reading]), job.period, now))
  {
    var load := LoadedJob(job.reading, job.period, NO_BASELINE);
    var n1 := Apply(n, RollLoad(job));
    assert load in n1.loads;
    RunStep(n1, [RollWrite(load, now)]);
    RunStep(n, [RollLoad(job), RollWrite(load, now)]);
  }

  lemma OvertakenReadings(n: Node, up: nat, down: nat)
    requires n.taken == []
    ensures var events := [Read, HostMoves(up, down), Read];
            var moved := Reading(Moved(n.host.up, up), Moved(n.host.down, down));
            && Possible(n, events)
            && Run(n, events) == n.(host := moved, taken := [n.host, moved])
  {
    var moved := Reading(Moved(n.host.up, up), Moved(n.host.down, down));
    var n1 := n.(taken := [n.host]);
    assert [] + [n.host] == [n.host];
    var n2 := n1.(host := moved);
    assert [n.host] + [moved] == [n.host, moved];
    RunStep(n2, [Read]);
    RunStep(n1, [HostMoves(up, down), Read]);
    RunStep(n, [Read, HostMoves(up, down), Read]);
  }

  lemma OvertakenEntries(n: Node, i: nat, j: nat, period: int)
    requires period > 0 && i < |n.taken| && j < |n.taken|
    ensures var events := [Locked(i, period), Locked(j, period)];
            && Possible(n, events)
            && (var end := Run(n, events);
                && end.taken == n.taken && end.metrics == Some(j) && end.meta == n.meta && end.st == n.st
                && end.rolls == n.rolls + multiset{RollJob(i, period)} + multiset{RollJob(j, period)}
                && end.loads == n.loads)
  {
    RunStep(Apply(n, Locked(i, period)), [Locked(j, period)]);
    RunStep(n, [Locked(i, period), Locked(j, period)]);
  }

  lemma OvertakenState(host: Reading, meta: Meta, up: nat, down: nat, now: int)
    requires meta.period > 0
    ensures Possible(NewNode(host, meta), Overtaken(meta, up, down, now))
    ensures var n := Run(NewNode(host, meta), Overtaken(meta, up, down, now));
            var moved := Reading(Moved(host.up, up), Moved(host.down, down));
            && n.taken == [host, moved] && n.metrics == Some(0) && n.baseline == 1 && n.meta == meta
            && n.st == Rolled(NO_BASELINE, CountersOf(moved), meta.period, now)
  {
    var n, job := NewNode(host, meta), RollJob(1, meta.period);
    var a := [Read, HostMoves(up, down), Read];
    var b := [Locked(1, meta.period), Locked(0, meta.period)];
    var c := [RollLoad(job), RollWrite(LoadedJob(1, meta.period, NO_BASELINE), now)];
    OvertakenReadings(n, up, down);
    var n1 := Run(n, a);
    OvertakenEntries(n1, 1, 0, meta.period);
    OvertakenRoll(Run(n1, b), job, now);
    RunJoins(n1, b, c);
    RunJoins(n, a, b + c);
  }

  /** Out of reading order the bound fails: each counter that moved between the two readings is billed for its
      whole lifetime, so the bill is zero, as it should be, only if every such counter had started at zero. */
  lemma OvertakingOvercharges(host: Reading, meta: Meta, up: nat, down: nat, now: int)
    requires meta.period > 0
    ensures Possible(NewNode(host, meta), Overtaken(meta, up, down, now))
    ensures var n := Run(NewNode(host, meta), Overtaken(meta, up, down, now));
            && View(n).used == (if up == 0 then 0 else host.up.count) + (if down == 0 then 0 else host.down.count)
            && n.metrics == Some(0) && n.baseline == 1
  {
    OvertakenState(host, meta, up, down, now);
    NextResetIsAhead(None, meta.period, now);
  }

  lemma {:induction false} RunJoins(n: Node, a: seq<Event>, b: seq<Event>)
    requires Possible(n, a) && Possible(Run(n, a), b)
    ensures Possible(n, a + b) && Run(n, a + b) == Run(Run(n, a), b)
    decreases |a|
  {
    if a == [] {
      assert a + b == b;
    } else {
      assert (a + b)[1..] == a[1..] + b;
      RunJoins(Apply(n, a[0]), a[1..], b);
    }
  }

  lemma RunStep(n: Node, events: seq<Event>)
    requires events != [] && CanHappen(n, events[0]) && Possible(Apply(n, events[0]), events[1..])
    ensures Possible(n, events) && Run(n, events) == Run(Apply(n, events[0]), events[1..])
  {
  }

  /** A roll that anchors a period on the heartbeat in memory bills nothing of what was moved before, and the
      boundary lies ahead. */
  lemma AnchoringIsFree(n: Node, load: LoadedJob, now: int)
    requires CanHappen(n, RollWrite(load, now)) && n.metrics == Some(load.reading)
    requires load.period > 0 && RollsOver(load.loaded, now)
    ensures var end := Apply(n, RollWrite(load, now));
            View(end).used == 0 && end.st.resetAt.Some? && end.st.resetAt.value > now
  {
    NextResetIsAhead(load.loaded.resetAt, load.period, now);
  }

  // ---------------------------------------------------------------------
  // Boundaries do not drift
  // ---------------------------------------------------------------------

  lemma NextResetIsAhead(prev: Option<int>, period: int, now: int)
    requires period > 0
    ensures NextReset(prev, period, now).Some? && NextReset(prev, period, now).value > now
  {
    PeriodIsPositive(period);
    if prev.Some? {
      FirstAfterIsFirst(prev.value, PeriodLength(period), now);
    }
  }

  predicate SameLattice(a: int, b: int, d: int)
    requires d > 0
  {
    (a - b) % d == 0
  }

  /** Where there was a boundary there still is one, on the same lattice. */
  predicate Follows(end: Option<int>, first: Option<int>, d: int)
    requires d > 0
  {
    first.Some? ==> end.Some? && SameLattice(end.value, first.value, d)
  }

  /** The quota may be edited and the hub and host may do anything, but the period stays. */
  predicate KeepsPeriod(period: int, e: Event) {
    match e
    case Locked(_, p) => p == period
    case EditMeta(meta) => meta.period == period
    case _ => true
  }

  predicate PeriodKept(period: int, events: seq<Event>) {
    forall i :: 0 <= i < |events| ==> KeepsPeriod(period, events[i])
  }

  /** Every heartbeat under way looked up the period in force, and no edit of it is pending. */
  ghost predicate OnePeriod(n: Node) {
    && n.meta.period > 0
    && n.edits == multiset{} && n.anchors == multiset{}
    && (forall job :: job in n.rolls ==> job.period == n.meta.period)
    && (forall load :: load in n.loads ==> load.period == n.meta.period)
  }

  lemma RollsStayInPeriod(n: Node, e: Event)
    requires OnePeriod(n) && CanHappen(n, e) && KeepsPeriod(n.meta.period, e)
    ensures forall job :: job in Apply(n, e).rolls ==> job.period == n.meta.period
  {
    forall job | job in Apply(n, e).rolls ensures job.period == n.meta.period {
      if job !in n.rolls {
        assert e.Locked? && job == RollJob(e.reading, e.period);
      }
    }
  }

  lemma LoadsStayInPeriod(n: Node, e: Event)
    requires OnePeriod(n) && CanHappen(n, e)
    ensures forall load :: load in Apply(n, e).loads ==> load.period == n.meta.period
  {
    forall load | load in Apply(n, e).loads ensures load.period == n.meta.period {
      if load !in n.loads {
        assert e.RollLoad? && load.period == e.roll.period;
      }
    }
  }

  lemma OnePeriodStays(n: Node, e: Event)
    requires OnePeriod(n) && CanHappen(n, e) && KeepsPeriod(n.meta.period, e)
    ensures OnePeriod(Apply(n, e)) && Apply(n, e).meta.period == n.meta.period
  {
    RollsStayInPeriod(n, e);
    LoadsStayInPeriod(n, e);
  }

  /** What a roll's UPDATE has to meet to keep the stored boundary's lattice: it walks from a boundary less than
      100000 periods old or one its clock is on the lattice of, and one that loaded no boundary writes where there is
      still none or at an instant of the stored one's lattice. */
  predicate KeepsLattice(n: Node, e: Event, d: int)
    requires d > 0
  {
    e.RollWrite? && RollsOver(e.load.loaded, e.now) && n.st.resetAt.Some? ==>
      match e.load.loaded.resetAt
      case None => (e.now - n.st.resetAt.value) % d == 0
      case Some(stale) => e.now - stale < MAX_WALK * d || (e.now - stale) % d == 0
  }

  predicate AllKeepLattice(n: Node, events: seq<Event>, d: int)
    requires Possible(n, events) && d > 0
    decreases |events|
  {
    events == [] || (KeepsLattice(n, events[0], d) && AllKeepLattice(Apply(n, events[0]), events[1..], d))
  }

  /** No event of the run takes the boundary off its lattice. */
  predicate StaysOnLattice(n: Node, events: seq<Event>, d: int)
    requires Possible(n, events) && d > 0
    decreases |events|
  {
    events == [] ||
    (Follows(Apply(n, events[0]).st.resetAt, n.st.resetAt, d) && StaysOnLattice(Apply(n, events[0]), events[1..], d))
  }

  /** Every boundary some roll has loaded lies on the stored one's lattice. */
  ghost predicate LoadsOnLattice(n: Node, d: int)
    requires d > 0
  {
    forall load :: load in n.loads ==> Follows(n.st.resetAt, load.loaded.resetAt, d)
  }

  lemma LatticeChain(a: int, b: int, c: int, d: int)
    requires d > 0 && SameLattice(a, b, d) && SameLattice(b, c, d)
    ensures SameLattice(a, c, d)
  {
    var p, q := (a - b) / d, (b - c) / d;
    assert a - c == (p + q) * d;
    MultipleModZero(p + q, d);
  }

  lemma LatticeFlip(a: int, b: int, d: int)
    requires d > 0 && SameLattice(a, b, d)
    ensures SameLattice(b, a, d)
  {
    var k := (a - b) / d;
    assert b - a == (-k) * d;
    MultipleModZero(-k, d);
  }

  lemma LatticeNext(a: int, b: int, d: int)
    requires d > 0
    ensures SameLattice(a + d, b, d) <==> SameLattice(a, b, d)
  {
    DivStep(a - b, d);
  }

  lemma SameIsOnLattice(a: int, d: int)
    requires d > 0
    ensures SameLattice(a, a, d)
  {
    MultipleModZero(0, d);
  }

  lemma FollowsChain(a: Option<int>, b: Option<int>, c: Option<int>, d: int)
    requires d > 0 && Follows(a, b, d) && Follows(b, c, d)
    ensures Follows(a, c, d)
  {
    if c.Some? {
      LatticeChain(a.value, b.value, c.value, d);
    }
  }

  /** One event, in whatever order clocks were read: the boundary stays on its lattice exactly when the event
      keeps it. */
  lemma EventKeepsLatticeIff(n: Node, e: Event)
    requires OnePeriod(n) && CanHappen(n, e)
    ensures PeriodLength(n.meta.period) > 0
    ensures var d := PeriodLength(n.meta.period);
            LoadsOnLattice(n, d) ==> (Follows(Apply(n, e).st.resetAt, n.st.resetAt, d) <==> KeepsLattice(n, e, d))
  {
    PeriodIsPositive(n.meta.period);
    var d := PeriodLength(n.meta.period);
    if LoadsOnLattice(n, d) && n.st.resetAt.Some? {
      var cur := n.st.resetAt.value;
      SameIsOnLattice(cur, d);
      if e.RollWrite? && RollsOver(e.load.loaded, e.now) {
        WriteKeepsLatticeIff(cur, e.load.loaded.resetAt, n.meta.period, e.now);
      }
    }
  }

  lemma WriteKeepsLatticeIff(cur: int, loaded: Option<int>, period: int, now: int)
    requires period > 0
    ensures PeriodLength(period) > 0
    ensures var d, next := PeriodLength(period), NextReset(loaded, period, now);
            Follows(Some(cur), loaded, d) ==>
              (Follows(next, Some(cur), d)
               <==> (if loaded.None? then SameLattice(now, cur, d)
                     else now - loaded.value < MAX_WALK * d || SameLattice(now, loaded.value, d)))
  {
    PeriodIsPositive(period);
    var d, next := PeriodLength(period), NextReset(loaded, period, now);
    LatticeNext(now, cur, d);
    if loaded.Some? && SameLattice(cur, loaded.value, d) {
      var stale := loaded.value;
      LatticeFlip(cur, stale, d);
      LatticeNext(now, stale, d);
      BoundaryDriftsIff(stale, period, now);
      if next == Some(FirstAfter(stale, d, now)) {
        FirstAfterIsFirst(stale, d, now);
        LatticeChain(next.value, stale, cur, d);
      } else if SameLattice(now + d, cur, d) {
        LatticeChain(now + d, cur, stale, d);
      }
    }
  }

  lemma LoadsFollow(n: Node, e: Event, d: int)
    requires d > 0 && LoadsOnLattice(n, d) && CanHappen(n, e)
    requires Follows(Apply(n, e).st.resetAt, n.st.resetAt, d)
    ensures LoadsOnLattice(Apply(n, e), d)
  {
    var n' := Apply(n, e);
    forall load | load in n'.loads ensures Follows(n'.st.resetAt, load.loaded.resetAt, d) {
      if load in n.loads {
        FollowsChain(n'.st.resetAt, n.st.resetAt, load.loaded.resetAt, d);
      } else {
        assert e.RollLoad? && load.loaded == n.st;
      }
    }
  }

  lemma {:induction false} LatticeIffFrom(n: Node, events: seq<Event>)
    requires OnePeriod(n) && Possible(n, events) && PeriodKept(n.meta.period, events)
    ensures PeriodLength(n.meta.period) > 0
    ensures var d := PeriodLength(n.meta.period);
            LoadsOnLattice(n, d) ==> (StaysOnLattice(n, events, d) <==> AllKeepLattice(n, events, d))
    decreases |events|
  {
    PeriodIsPositive(n.meta.period);
    var d := PeriodLength(n.meta.period);
    if events != [] && LoadsOnLattice(n, d) {
      var n' := Apply(n, events[0]);
      OnePeriodStays(n, events[0]);
      EventKeepsLatticeIff(n, events[0]);
      if KeepsLattice(n, events[0], d) {
        LoadsFollow(n, events[0], d);
        LatticeIffFrom(n', events[1..]);
      }
    }
  }

  /** From a new node, through host events, racing rolls whose clock readings take effect in any order, hub
      restarts and quota edits, while the period stays: no event takes the boundary off its lattice if and only
      if every roll's UPDATE keeps it. */
  lemma LatticeIff(host: Reading, meta: Meta, events: seq<Event>)
    requires meta.period > 0
    requires Possible(NewNode(host, meta), events) && PeriodKept(meta.period, events)
    ensures PeriodLength(meta.period) > 0
    ensures var n, d := NewNode(host, meta), PeriodLength(meta.period);
            StaysOnLattice(n, events, d) <==> AllKeepLattice(n, events, d)
  {
    LatticeIffFrom(NewNode(host, meta), events);
  }

  // ---------------------------------------------------------------------
  // Where on the lattice
  // ---------------------------------------------------------------------

  /** The clock reading of the last roll that moved the boundary. */
  function MovedAt(clock: int, events: seq<Event>): int
    decreases |events|
  {
    if events == [] then clock
    else
      var e := events[0];
      MovedAt(if e.RollWrite? && RollsOver(e.load.loaded, e.now) then e.now else clock, events[1..])
  }

  /** The clock reading of the last roll, whether it moved the boundary or not. */
  function ClockAfter(clock: int, events: seq<Event>): int
    decreases |events|
  {
    if events == [] then clock else ClockAfter(Tick(clock, events[0]), events[1..])
  }

  function Tick(clock: int, e: Event): int {
    if e.RollWrite? then e.now else clock
  }

  predicate InClockOrder(clock: int, events: seq<Event>)
    decreases |events|
  {
    events == [] || (clock <= Tick(clock, events[0]) && InClockOrder(Tick(clock, events[0]), events[1..]))
  }

  predicate WithinPeriod(boundary: Option<int>, clock: int, d: int) {
    boundary.Some? ==> clock < boundary.value <= clock + d
  }

  lemma NextIsWithinPeriod(prev: Option<int>, period: int, now: int)
    requires period > 0 && (prev.Some? ==> now >= prev.value)
    ensures NextReset(prev, period, now).Some?
    ensures WithinPeriod(NextReset(prev, period, now), now, PeriodLength(period))
  {
    PeriodIsPositive(period);
    if prev.Some? {
      FirstAfterIsFirst(prev.value, PeriodLength(period), now);
    }
  }

  /** On any clock at all, a boundary lies within a period after the reading of the roll that set it. */
  lemma {:induction false} BoundaryAfterItsRoll(n: Node, clock: int, events: seq<Event>)
    requires OnePeriod(n) && Possible(n, events) && PeriodKept(n.meta.period, events)
    requires WithinPeriod(n.st.resetAt, clock, PeriodLength(n.meta.period))
    ensures WithinPeriod(Run(n, events).st.resetAt, MovedAt(clock, events), PeriodLength(n.meta.period))
    decreases |events|
  {
    if events != [] {
      var e := events[0];
      OnePeriodStays(n, e);
      if e.RollWrite? && RollsOver(e.load.loaded, e.now) {
        NextIsWithinPeriod(e.load.loaded.resetAt, n.meta.period, e.now);
        BoundaryAfterItsRoll(Apply(n, e), e.now, events[1..]);
      } else {
        BoundaryAfterItsRoll(Apply(n, e), clock, events[1..]);
      }
    }
  }

  /** A boundary ahead of the clock by at most a period; loaded ones are no later points of its lattice. */
  ghost predicate Steady(n: Node, clock: int, d: int)
    requires d > 0
  {
    && WithinPeriod(n.st.resetAt, clock, d)
    && LoadsOnLattice(n, d)
    && (forall load :: load in n.loads && load.loaded.resetAt.Some? && n.st.resetAt.Some? ==>
          load.loaded.resetAt.value <= n.st.resetAt.value)
  }

  /** Two points of a lattice, the later one first after the later clock. */
  lemma LatticeOrder(a: int, b: int, d: int, clock: int, now: int)
    requires d > 0 && SameLattice(a, b, d) && clock <= now
    requires b <= clock + d && now < a
    ensures b <= a
  {
    if a < b {
      var k := (a - b) / d;
      assert a - b == k * d;
      MulMonotone(k, -1, d);
      assert false;
    }
  }

  lemma WriteIsSteady(n: Node, clock: int, e: Event, d: int)
    requires OnePeriod(n) && d == PeriodLength(n.meta.period) > 0 && Steady(n, clock, d)
    requires CanHappen(n, e) && e.RollWrite? && clock <= e.now && KeepsLattice(n, e, d)
    ensures Steady(Apply(n, e), e.now, d)
  {
    var n', load := Apply(n, e), e.load;
    EventKeepsLatticeIff(n, e);
    LoadsFollow(n, e, d);
    assert forall l :: l in n'.loads ==> l in n.loads;
    if RollsOver(load.loaded, e.now) {
      NextIsWithinPeriod(load.loaded.resetAt, n.meta.period, e.now);
      if n.st.resetAt.Some? {
        LatticeOrder(n'.st.resetAt.value, n.st.resetAt.value, d, clock, e.now);
      }
    } else {
      assert n.st.resetAt.Some? && load.loaded.resetAt.value <= n.st.resetAt.value;
    }
  }

  lemma EventIsSteady(n: Node, clock: int, e: Event, d: int)
    requires OnePeriod(n) && d == PeriodLength(n.meta.period) > 0 && Steady(n, clock, d)
    requires CanHappen(n, e) && clock <= Tick(clock, e) && KeepsLattice(n, e, d)
    ensures Steady(Apply(n, e), Tick(clock, e), d)
  {
    if e.RollWrite? {
      WriteIsSteady(n, clock, e, d);
    } else {
      var n' := Apply(n, e);
      EventKeepsLatticeIff(n, e);
      LoadsFollow(n, e, d);
      assert forall l :: l in n'.loads ==> l in n.loads || l.loaded == n.st;
    }
  }

  lemma {:induction false} RunIsSteady(n: Node, clock: int, events: seq<Event>, d: int)
    requires OnePeriod(n) && d == PeriodLength(n.meta.period) > 0 && Steady(n, clock, d)
    requires Possible(n, events) && PeriodKept(n.meta.period, events) && AllKeepLattice(n, events, d)
    requires InClockOrder(clock, events)
    ensures Steady(Run(n, events), ClockAfter(clock, events), d)
    decreases |events|
  {
    if events != [] {
      OnePeriodStays(n, events[0]);
      EventIsSteady(n, clock, events[0], d);
      RunIsSteady(Apply(n, events[0]), Tick(clock, events[0]), events[1..], d);
    }
  }

  lemma {:induction false} EndFollows(n: Node, events: seq<Event>, d: int)
    requires d > 0 && Possible(n, events) && StaysOnLattice(n, events, d)
    ensures Follows(Run(n, events).st.resetAt, n.st.resetAt, d)
    decreases |events|
  {
    if events == [] {
      if n.st.resetAt.Some? {
        SameIsOnLattice(n.st.resetAt.value, d);
      }
    } else {
      EndFollows(Apply(n, events[0]), events[1..], d);
      FollowsChain(Run(n, events).st.resetAt, Apply(n, events[0]).st.resetAt, n.st.resetAt, d);
    }
  }

  lemma {:induction false} LatticeSplits(n: Node, a: seq<Event>, b: seq<Event>, d: int)
    requires d > 0 && Possible(n, a + b) && StaysOnLattice(n, a + b, d)
    ensures Possible(n, a) && Possible(Run(n, a), b) && StaysOnLattice(Run(n, a), b, d)
    decreases |a|
  {
    RunPlus(n, a, b);
    if a == [] {
      assert a + b == b;
    } else {
      var all, n' := a + b, Apply(n, a[0]);
      assert all[1..] == a[1..] + b && all[0] == a[0];
      assert StaysOnLattice(n', all[1..], d);
      LatticeSplits(n', a[1..], b, d);
      assert Run(n, a) == Run(n', a[1..]);
    }
  }

  /** In such a run, once there is a boundary every later one lies on its lattice, within a period after the
      reading of the roll that set it; and if rolls read the clock in order it is the one point of the lattice
      within a period after the last roll's clock, whether or not that roll moved it. */
  lemma BoundariesNeverDrift(host: Reading, meta: Meta, clock: int, a: seq<Event>, b: seq<Event>)
    requires meta.period > 0
    requires Possible(NewNode(host, meta), a + b) && PeriodKept(meta.period, a + b)
    requires PeriodLength(meta.period) > 0 && AllKeepLattice(NewNode(host, meta), a + b, PeriodLength(meta.period))
    ensures Possible(NewNode(host, meta), a)
    ensures var first, end := Run(NewNode(host, meta), a).st.resetAt, Run(NewNode(host, meta), a + b).st.resetAt;
            var d := PeriodLength(meta.period);
            && Follows(end, first, d)
            && WithinPeriod(end, MovedAt(clock, a + b), d)
            && (InClockOrder(clock, a + b) ==> WithinPeriod(end, ClockAfter(clock, a + b), d))
  {
    var n, d := NewNode(host, meta), PeriodLength(meta.period);
    LatticeIff(host, meta, a + b);
    LatticeSplits(n, a, b, d);
    RunPlus(n, a, b);
    EndFollows(Run(n, a), b, d);
    BoundaryAfterItsRoll(n, clock, a + b);
    if InClockOrder(clock, a + b) {
      RunIsSteady(n, clock, a + b, d);
    }
  }

  /** Two first heartbeats that both load no baseline before either writes; one has written. */
  function FirstRollsRace(period: int, now: int): seq<Event> {
    var job := RollJob(0, period);
    ([Read] + ([Locked(0, period)] + [Locked(0, period)]))
    + (([RollLoad(job)] + [RollLoad(job)]) + [RollWrite(LoadedJob(0, period, NO_BASELINE), now)])
  }

  /** The run can happen and ends there. */
  predicate Reaches(n: Node, events: seq<Event>, end: Node) {
    Possible(n, events) && Run(n, events) == end
  }

  lemma ReachesOne(n: Node, e: Event)
    requires CanHappen(n, e)
    ensures Reaches(n, [e], Apply(n, e))
  {
    RunStep(n, [e]);
  }

  lemma ReachesThrough(n: Node, a: seq<Event>, mid: Node, b: seq<Event>, end: Node)
    requires Reaches(n, a, mid) && Reaches(mid, b, end)
    ensures Reaches(n, a + b, end)
  {
    RunJoins(n, a, b);
  }

  /** A new node with one reading in memory and these jobs under way. */
  function Racing(host: Reading, meta: Meta, rolls: multiset<RollJob>, loads: multiset<LoadedJob>): Node {
    Node(host, [host], Some(0), Some(0), rolls, loads, multiset{}, multiset{}, NO_BASELINE, 0, meta)
  }

  lemma RaceEntries(host: Reading, meta: Meta)
    requires meta.period > 0
    ensures var job := RollJob(0, meta.period);
            Reaches(NewNode(host, meta), [Read] + ([Locked(0, meta.period)] + [Locked(0, meta.period)]),
                    Racing(host, meta, multiset{job, job}, multiset{}))
  {
    var n, e, job := NewNode(host, meta), Locked(0, meta.period), RollJob(0, meta.period);
    var n1, n2 := n.(taken := [host]), Racing(host, meta, multiset{job}, multiset{});
    assert [] + [host] == [host];
    assert Apply(n1, e) == n2;
    assert Apply(n2, e) == Racing(host, meta, multiset{job, job}, multiset{});
    ReachesOne(n, Read);
    ReachesOne(n1, e);
    ReachesOne(n2, e);
    ReachesThrough(n1, [e], n2, [e], Apply(n2, e));
    ReachesThrough(n, [Read], n1, [e] + [e], Apply(n2, e));
  }

  lemma RaceLoads(host: Reading, meta: Meta)
    ensures var job, load := RollJob(0, meta.period), LoadedJob(0, meta.period, NO_BASELINE);
            Reaches(Racing(host, meta, multiset{job, job}, multiset{}), [RollLoad(job)] + [RollLoad(job)],
                    Racing(host, meta, multiset{}, multiset{load, load}))
  {
    var job, load := RollJob(0, meta.period), LoadedJob(0, meta.period, NO_BASELINE);
    var n := Racing(host, meta, multiset{job, job}, multiset{});
    var n1 := Racing(host, meta, multiset{job}, multiset{load});
    assert multiset{job, job} - multiset{job} == multiset{job};
    assert Apply(n, RollLoad(job)) == n1;
    assert Apply(n1, RollLoad(job)) == Racing(host, meta, multiset{}, multiset{load, load});
    ReachesOne(n, RollLoad(job));
    ReachesOne(n1, RollLoad(job));
    ReachesThrough(n, [RollLoad(job)], n1, [RollLoad(job)], Apply(n1, RollLoad(job)));
  }

  lemma RaceFirstWrite(host: Reading, meta: Meta, now: int)
    requires meta.period > 0
    ensures var load := LoadedJob(0, meta.period, NO_BASELINE);
            var n := Racing(host, meta, multiset{}, multiset{load, load});
            && CanHappen(n, RollWrite(load, now))
            && (var end := Apply(n, RollWrite(load, now));
                && end.loads == multiset{load} && end.taken == [host]
                && end.st.resetAt == Some(now + PeriodLength(meta.period)))
  {
  }

  lemma FirstRollsRaceState(host: Reading, meta: Meta, now: int) returns (end: Node)
    requires meta.period > 0
    ensures Reaches(NewNode(host, meta), FirstRollsRace(meta.period, now), end)
    ensures end.loads == multiset{LoadedJob(0, meta.period, NO_BASELINE)} && |end.taken| == 1
    ensures end.st.resetAt == Some(now + PeriodLength(meta.period))
  {
    var job, load := RollJob(0, meta.period), LoadedJob(0, meta.period, NO_BASELINE);
    var n3 := Racing(host, meta, multiset{}, multiset{load, load});
    var n2 := Racing(host, meta, multiset{job, job}, multiset{});
    RaceFirstWrite(host, meta, now);
    end := Apply(n3, RollWrite(load, now));
    RaceEntries(host, meta);
    RaceLoads(host, meta);
    ReachesOne(n3, RollWrite(load, now));
    ReachesThrough(n2, [RollLoad(job)] + [RollLoad(job)], n3, [RollWrite(load, now)], end);
    ReachesThrough(NewNode(host, meta), [Read] + ([Locked(0, meta.period)] + [Locked(0, meta.period)]), n2,
                   ([RollLoad(job)] + [RollLoad(job)]) + [RollWrite(load, now)], end);
  }

  /** The run that drifts: the second write replaces a boundary of now plus a period by one of later plus a
      period, on the same lattice exactly when the two readings are whole periods apart. */
  lemma RacingFirstRollsDriftIff(host: Reading, meta: Meta, now: int, later: int)
    requires meta.period > 0
    ensures PeriodLength(meta.period) > 0
    ensures var n, d, first := NewNode(host, meta), PeriodLength(meta.period), FirstRollsRace(meta.period, now);
            var both := first + [RollWrite(LoadedJob(0, meta.period, NO_BASELINE), later)];
            && Possible(n, first) && Run(n, first).st.resetAt == Some(now + d)
            && Possible(n, both) && Run(n, both).st.resetAt == Some(later + d)
            && (Follows(Run(n, both).st.resetAt, Run(n, first).st.resetAt, d) <==> (later - now) % d == 0)
  {
    PeriodIsPositive(meta.period);
    var n, first := NewNode(host, meta), FirstRollsRace(meta.period, now);
    var last := [RollWrite(LoadedJob(0, meta.period, NO_BASELINE), later)];
    var end := FirstRollsRaceState(host, meta, now);
    RunStep(end, last);
    RunJoins(n, first, last);
  }
}
