/** The hub's store: live maps beside the SQLite tables. Each method is tied, for every node, to a step of
    the machines whose runs are studied in SampleLog, Pruning, TrafficRuns and Detection. */
module Store {
  import opened Basics
  import opened Samples
  import opened History
  import opened SampleLog
  import Pruning
  import opened Traffic
  import TrafficRuns
  import Alerts
  import Detection

  datatype Options = Options(offlineAfter: int, historyCap: int, persistEvery: int, retention: int)

  /** NewStore: tunables that are not positive get their defaults. */
  function WithDefaults(o: Options): (cfg: Settings)
    ensures cfg.Valid()
  {
    Settings(if o.offlineAfter <= 0 then 30 * SECOND else o.offlineAfter,
             if o.historyCap <= 0 then 60 else o.historyCap,
             if o.persistEvery <= 0 then 15 * SECOND else o.persistEvery,
             if o.retention <= 0 then 7200 * SECOND else o.retention)
  }

  /** A row of the nodes table, without its token and the metadata the hub only displays. */
  datatype NodeRow = NodeRow(name: string, meta: Meta, traffic: TrafficState)

  function TableOf(samples: map<Id, map<int, Sample>>, id: Id): map<int, Sample> {
    if id in samples then samples[id] else map[]
  }

  function LookUp(m: map<Id, int>, id: Id): Option<int> {
    if id in m then Some(m[id]) else None
  }

  function CountersIn(hb: Heartbeat): Counters {
    Counters(hb.netTotalUp, hb.netTotalDown)
  }

  predicate Keyed(samples: map<Id, map<int, Sample>>) {
    forall id :: id in samples ==> forall t :: t in samples[id] ==> samples[id][t].t == t
  }

  /** Each node has its rows of the answer as history and the instant of its last one as lastPersist. */
  ghost predicate Hydrated(points: map<Id, seq<Sample>>, lastPersist: map<Id, int>, q: seq<(Id, Sample)>) {
    && (forall id :: PointsIn(points, id) == RowsFor(q, id))
    && (forall id :: LookUp(lastPersist, id) == LastTime(RowsFor(q, id)))
  }

  function LastTime(rows: seq<Sample>): Option<int> {
    if rows == [] then None else Some(rows[|rows| - 1].t)
  }

  lemma HydratedStep(points: map<Id, seq<Sample>>, lastPersist: map<Id, int>, q: seq<(Id, Sample)>, r: (Id, Sample))
    requires Hydrated(points, lastPersist, q)
    ensures Hydrated(points[r.0 := PointsIn(points, r.0) + [r.1]], lastPersist[r.0 := r.1.t], q + [r])
  {
    var (node, sm) := r;
    var p', l' := points[node := PointsIn(points, node) + [sm]], lastPersist[node := sm.t];
    forall id
      ensures PointsIn(p', id) == RowsFor(q + [r], id)
      ensures LookUp(l', id) == LastTime(RowsFor(q + [r], id))
    {
      RowsForPlus(q, r, id);
    }
  }

  /** What the windowed query returns: per node its newest historyCap rows, in time order. */
  ghost predicate AnswersTopRows(q: seq<(Id, Sample)>, samples: map<Id, map<int, Sample>>, cap: nat) {
    forall id :: RowsFor(q, id) == Rows(TopRows(cap, TableOf(samples, id)))
  }

  lemma NewestComesLast(table: map<int, Sample>, cap: nat)
    requires cap >= 1 && forall t :: t in table ==> table[t].t == t
    ensures var top := Rows(TopRows(cap, table));
            MaxKey(table.Keys) == LastTime(top)
  {
    AscendingMembers(table.Keys);
    TopRankedIsLastK(cap, table.Keys);
    assert TopRows(cap, table).Keys == TopRanked(cap, table.Keys);
  }

  lemma PushedEndsWith(cap: nat, h: seq<Sample>, hb: Heartbeat, t: int)
    requires cap >= 1
    ensures var h' := Pushed(cap, h, SampleFrom(hb, t)); h' != [] && Records(h'[|h'| - 1], hb, t)
  {
  }

  predicate Agrees(row: NodeRow, last: Option<Counters>, n: TrafficRuns.Node) {
    && row.traffic == n.st && row.meta == n.meta
    && (n.metrics.Some? ==> n.metrics.value < |n.taken|)
    && TrafficRuns.Seen(n) == last
  }

  lemma AgreesLocked(row: NodeRow, last: Option<Counters>, n: TrafficRuns.Node, i: nat, period: int)
    requires Agrees(row, last, n) && i < |n.taken|
    ensures Agrees(row, Some(TrafficRuns.CountersOf(n.taken[i])), TrafficRuns.Apply(n, TrafficRuns.Locked(i, period)))
  {
  }

  lemma AgreesSaved(row: NodeRow, last: Option<Counters>, n: TrafficRuns.Node, i: nat, period: int, at: int)
    requires Agrees(row, last, n) && i < |n.taken|
    ensures var hb := TrafficRuns.CountersOf(n.taken[i]);
            Agrees(row.(traffic := if period > 0 then Rolled(row.traffic, hb, period, at) else row.traffic),
                   Some(hb), TrafficRuns.Saved(n, i, period, at))
  {
    TrafficRuns.SavedState(n, i, period, at);
  }

  datatype NodeView = NodeView(status: Alerts.Status, history: array<Sample>)

  class Store {
    const cfg: Settings
    const history: HistoryTable

    var metrics: map<Id, Heartbeat>
    var seen: map<Id, int>
    var lastPersist: map<Id, int>

    // SQLite
    var nodes: map<Id, NodeRow>
    var samples: map<Id, map<int, Sample>>

    ghost predicate Valid()
      reads this, history, history.Repr
    {
      && cfg.Valid() && this !in history.Repr && history.Valid()
      && seen.Keys == metrics.Keys
    }

    /** A node's history. */
    ghost function Points(id: Id): seq<Sample>
      reads history
    {
      PointsIn(history.points, id)
    }

    /** One node's persistence machine, given the inserts other goroutines still owe it. */
    ghost function LogOf(id: Id, pending: set<Sample>): Log
      reads `lastPersist, `samples
    {
      Log(LookUp(lastPersist, id), TableOf(samples, id), pending)
    }

    function TrafficOf(id: Id): TrafficState
      reads `nodes
    {
      if id in nodes then nodes[id].traffic else NO_BASELINE
    }

    /** The last heartbeat in memory, if any. */
    function LastCounters(id: Id): Option<Counters>
      reads `metrics
    {
      if id in metrics then Some(CountersIn(metrics[id])) else None
    }

    /** The store's record of a node is what the accounting machine of TrafficRuns says it is. */
    ghost predicate Mirrors(id: Id, n: TrafficRuns.Node)
      reads `nodes, `metrics
    {
      id in nodes && Agrees(nodes[id], LastCounters(id), n)
    }

    /** NewStore on an existing database: `q` is the answer of hydrateHistory's query. */
    constructor (o: Options, nodes: map<Id, NodeRow>, samples: map<Id, map<int, Sample>>, q: seq<(Id, Sample)>)
      requires Keyed(samples) && AnswersTopRows(q, samples, WithDefaults(o).historyCap)
      ensures Valid() && fresh(history.Repr)
      ensures cfg == WithDefaults(o)
      ensures cfg.offlineAfter == (if o.offlineAfter > 0 then o.offlineAfter else 30_000_000_000)
      ensures cfg.historyCap == (if o.historyCap > 0 then o.historyCap else 60)
      ensures cfg.persistEvery == (if o.persistEvery > 0 then o.persistEvery else 15_000_000_000)
      ensures cfg.retention == (if o.retention > 0 then o.retention else 7_200_000_000_000)
      ensures metrics == map[] && seen == map[] && this.nodes == nodes && this.samples == samples
      ensures forall id, n: TrafficRuns.Node :: id in nodes && nodes[id].traffic == n.st && nodes[id].meta == n.meta ==>
                Mirrors(id, TrafficRuns.Apply(n, TrafficRuns.HubRestart))
      ensures forall id ::
                Points(id) == PushAll(WithDefaults(o).historyCap, [], Rows(TableOf(samples, id)))
      ensures forall id, last, pending ::
                LogOf(id, {}) == Apply(cfg, Log(last, TableOf(samples, id), pending), Restart)
    {
      cfg := WithDefaults(o);
      history := new HistoryTable();
      metrics, seen, lastPersist := map[], map[], map[];
      this.nodes, this.samples := nodes, samples;
      new;
      Hydrate(q);
      forall id
        ensures Points(id) == PushAll(cfg.historyCap, [], Rows(TableOf(samples, id)))
        ensures LookUp(lastPersist, id) == MaxKey(TableOf(samples, id).Keys)
      {
        HydrationIsReplay(cfg.historyCap, TableOf(samples, id));
        NewestComesLast(TableOf(samples, id), cfg.historyCap);
        assert RowsFor(q, id) == Rows(TopRows(cfg.historyCap, TableOf(samples, id)));
      }
    }

    /** hydrateHistory's loop over the answer. */
    method Hydrate(q: seq<(Id, Sample)>)
      requires Valid() && lastPersist == map[] && history.points == map[]
      modifies `lastPersist, history.Repr
      ensures Valid() && fresh(history.Repr - old(history.Repr))
      ensures Hydrated(history.points, lastPersist, q)
    {
      for i := 0 to |q|
        invariant Valid() && fresh(history.Repr - old(history.Repr))
        invariant Hydrated(history.points, lastPersist, q[..i])
      {
        assert q[..i + 1] == q[..i] + [q[i]];
        HydratedStep(history.points, lastPersist, q[..i], q[i]);
        history.Append(q[i].0, q[i].1);
        lastPersist := lastPersist[q[i].0 := q[i].1.t];
      }
      assert q[..|q|] == q;
    }

    // -------------------------------------------------------------------
    // Heartbeats
    // -------------------------------------------------------------------

    predicate DueToPersist(id: Id, t: int)
      reads `lastPersist
    {
      id !in lastPersist || (t > lastPersist[id] && (t - lastPersist[id]) * SECOND >= cfg.persistEvery)
    }

    /** The end of SaveHeartbeat's critical section: whether the sample is due, and claiming it if so. */
    method ClaimPersist(id: Id, sm: Sample, ghost pending: set<Sample>) returns (persist: bool)
      modifies `lastPersist
      ensures persist == Due(cfg, old(LookUp(lastPersist, id)), sm.t)
      ensures LogOf(id, if persist then pending + {sm} else pending) == Claim(cfg, old(LogOf(id, pending)), sm)
      ensures forall k, p :: k != id ==> LogOf(k, p) == old(LogOf(k, p))
    {
      persist := DueToPersist(id, sm.t);
      if persist {
        lastPersist := lastPersist[id := sm.t];
      }
    }

    /** SaveHeartbeat's critical section. */
    method SaveLocked(id: Id, hb: Heartbeat, now: int, ghost pending: set<Sample>) returns (persist: bool)
      requires Valid()
      modifies `metrics, `seen, `lastPersist, history.Repr
      ensures Valid() && fresh(history.Repr - old(history.Repr))
      ensures metrics == old(metrics)[id := hb] && seen == old(seen)[id := now]
      ensures persist == Due(cfg, old(LookUp(lastPersist, id)), Unix(now))
      ensures LogOf(id, if persist then pending + {SampleFrom(hb, Unix(now))} else pending)
              == Apply(cfg, old(LogOf(id, pending)), Locked(now, hb))
      ensures forall k, p :: k != id ==> LogOf(k, p) == old(LogOf(k, p))
      ensures history.points
              == old(history.points)[id := Pushed(cfg.historyCap, old(Points(id)), SampleFrom(hb, Unix(now)))]
      ensures forall n: TrafficRuns.Node, i: nat, period: int ::
                old(Mirrors(id, n)) && i < |n.taken| && TrafficRuns.CountersOf(n.taken[i]) == CountersIn(hb) ==>
                  Mirrors(id, TrafficRuns.Apply(n, TrafficRuns.Locked(i, period)))
    {
      var sm := SampleFrom(hb, Unix(now));
      metrics := metrics[id := hb];
      seen := seen[id := now];
      history.Push(cfg.historyCap, id, sm);
      persist := ClaimPersist(id, sm, pending);
      forall n: TrafficRuns.Node, i: nat, period: int |
        old(Mirrors(id, n)) && i < |n.taken| && TrafficRuns.CountersOf(n.taken[i]) == CountersIn(hb)
        ensures Mirrors(id, TrafficRuns.Apply(n, TrafficRuns.Locked(i, period)))
      {
        AgreesLocked(old(nodes)[id], old(LastCounters(id)), n, i, period);
      }
    }

    /** INSERT OR REPLACE, by the goroutine that claimed sm. */
    method InsertSample(id: Id, sm: Sample, ghost pending: set<Sample>)
      requires sm in pending
      modifies this`samples
      ensures LogOf(id, pending - {sm}) == Apply(cfg, old(LogOf(id, pending)), Insert(sm))
      ensures forall k, p :: k != id ==> LogOf(k, p) == old(LogOf(k, p))
    {
      samples := samples[id := TableOf(samples, id)[sm.t := sm]];
    }

    method PruneSamples(now: int)
      modifies this`samples
      ensures forall k, p :: LogOf(k, p) == Apply(cfg, old(LogOf(k, p)), Prune(now))
    {
      var cutoff := Cutoff(cfg, now);
      samples := map id | id in samples :: Pruned(samples[id], cutoff);
      assert Pruned(map[], cutoff) == map[];
    }

    /** What a due heartbeat does once the lock is released. */
    method Persist(id: Id, sm: Sample, pruneAt: int)
      modifies this`samples
      ensures LogOf(id, {}) == Apply(cfg, Apply(cfg, old(LogOf(id, {sm})), Insert(sm)), Prune(pruneAt))
    {
      InsertSample(id, sm, {sm});
      assert {sm} - {sm} == {};
      PruneSamples(pruneAt);
    }

    method RollTraffic(id: Id, hb: Heartbeat, period: int, now: int)
      requires period > 0
      modifies this`nodes
      ensures nodes == if id in old(nodes)
                       then old(nodes)[id := old(nodes)[id].(traffic :=
                              Rolled(old(TrafficOf(id)), CountersIn(hb), period, now))]
                       else old(nodes)
    {
      var st := TrafficOf(id);
      if st.resetAt.None? || now >= st.resetAt.value {
        var next := AdvanceReset(st.resetAt, period, now);
        if id in nodes {
          nodes := nodes[id := nodes[id].(traffic := TrafficState(hb.netTotalUp, hb.netTotalDown, next))];
        }
      } else if id in nodes {
        assert nodes[id] == nodes[id].(traffic := st);
        assert nodes == nodes[id := nodes[id]];
      }
    }

    /** The part of SaveHeartbeat that keeps samples. */
    method SaveSample(id: Id, hb: Heartbeat, now: int, pruneAt: int)
      requires Valid()
      modifies `metrics, `seen, `lastPersist, `samples, history.Repr
      ensures Valid() && fresh(history.Repr - old(history.Repr))
      ensures metrics == old(metrics)[id := hb] && seen == old(seen)[id := now]
      ensures history.points
              == old(history.points)[id := Pushed(cfg.historyCap, old(Points(id)), SampleFrom(hb, Unix(now)))]
      ensures LogOf(id, {}) == Perform(cfg, old(LogOf(id, {})), Save(now, hb, pruneAt))
    {
      var persist := SaveLocked(id, hb, now, {});
      if persist {
        Persist(id, SampleFrom(hb, Unix(now)), pruneAt);
      }
    }

    /** SaveHeartbeat run alone: the store reads the clock again to prune and to roll. */
    method SaveHeartbeat(id: Id, hb: Heartbeat, meta: Meta, now: int, pruneAt: int, rollAt: int)
      requires Valid()
      modifies this, history.Repr
      ensures Valid() && fresh(history.Repr - old(history.Repr))
      ensures metrics == old(metrics)[id := hb] && seen == old(seen)[id := now]
      ensures history.points
              == old(history.points)[id := Pushed(cfg.historyCap, old(Points(id)), SampleFrom(hb, Unix(now)))]
      ensures Points(id) != [] && Records(Points(id)[|Points(id)| - 1], hb, Unix(now))
      ensures LogOf(id, {}) == Perform(cfg, old(LogOf(id, {})), Save(now, hb, pruneAt))
      ensures StoredIfDue(cfg, old(LogOf(id, {})), LogOf(id, {}), now, hb, pruneAt)
      ensures nodes == if meta.period > 0 && id in old(nodes)
                       then old(nodes)[id := old(nodes)[id].(traffic :=
                              Rolled(old(TrafficOf(id)), CountersIn(hb), meta.period, rollAt))]
                       else old(nodes)
      ensures forall n: TrafficRuns.Node, i: nat ::
                old(Mirrors(id, n)) && i < |n.taken| && TrafficRuns.CountersOf(n.taken[i]) == CountersIn(hb) ==>
                  Mirrors(id, TrafficRuns.Saved(n, i, meta.period, rollAt))
    {
      SaveSample(id, hb, now, pruneAt);
      PushedEndsWith(cfg.historyCap, old(Points(id)), hb, Unix(now));
      SaveStoresIfDue(cfg, old(LogOf(id, {})), now, hb, pruneAt);
      if meta.period > 0 {
        RollTraffic(id, hb, meta.period, rollAt);
      }
      forall n: TrafficRuns.Node, i: nat |
        old(Mirrors(id, n)) && i < |n.taken| && TrafficRuns.CountersOf(n.taken[i]) == CountersIn(hb)
        ensures Mirrors(id, TrafficRuns.Saved(n, i, meta.period, rollAt))
      {
        AgreesSaved(old(nodes)[id], old(LastCounters(id)), n, i, meta.period, rollAt);
      }
    }

    // -------------------------------------------------------------------
    // Administration
    // -------------------------------------------------------------------

    /** DeleteNode's transaction. */
    method DeleteStored(id: Id) returns (found: bool)
      modifies `nodes, `samples
      ensures found == (id in old(nodes))
      ensures nodes == old(nodes) - {id}
      ensures forall p :: LogOf(id, p) == if found then Apply(cfg, old(LogOf(id, p)), DeleteRows) else old(LogOf(id, p))
      ensures forall k, p :: k != id ==> LogOf(k, p) == old(LogOf(k, p))
    {
      found := id in nodes;
      if found {
        nodes := nodes - {id};
        samples := samples - {id};
      } else {
        assert nodes - {id} == nodes;
      }
    }

    /** DeleteNode's clearing of live state. */
    method ForgetLive(id: Id)
      requires Valid()
      modifies `metrics, `seen, `lastPersist, history.Repr
      ensures Valid() && fresh(history.Repr - old(history.Repr))
      ensures metrics == old(metrics) - {id} && seen == old(seen) - {id} && history.points == old(history.points) - {id}
      ensures forall p :: LogOf(id, p) == Apply(cfg, old(LogOf(id, p)), ForgetNode)
      ensures forall k, p :: k != id ==> LogOf(k, p) == old(LogOf(k, p))
    {
      metrics := metrics - {id};
      seen := seen - {id};
      history.Remove(id);
      lastPersist := lastPersist - {id};
    }

    method DeleteNode(id: Id) returns (found: bool)
      requires Valid()
      modifies this, history.Repr
      ensures Valid() && fresh(history.Repr - old(history.Repr))
      ensures found == (id in old(nodes))
      ensures nodes == old(nodes) - {id}
      ensures !found ==> metrics == old(metrics) && seen == old(seen) && history.points == old(history.points)
      ensures found ==>
                && metrics == old(metrics) - {id} && seen == old(seen) - {id}
                && history.points == old(history.points) - {id}
      ensures forall p ::
                LogOf(id, p) == if found then Apply(cfg, Apply(cfg, old(LogOf(id, p)), DeleteRows), ForgetNode)
                                else old(LogOf(id, p))
      ensures forall k, p :: k != id ==> LogOf(k, p) == old(LogOf(k, p))
    {
      found := DeleteStored(id);
      if found {
        ForgetLive(id);
      }
    }

    /** A period of that many days starts now from the heartbeat in memory; without one there is no baseline. */
    predicate Anchored(st: TrafficState, id: Id, period: int, now: int)
      reads `metrics
    {
      if id in metrics
      then && st.resetAt == Some(now + period * 86_400 * SECOND)
           && st.baseUp == metrics[id].netTotalUp && st.baseDown == metrics[id].netTotalDown
      else st == TrafficState(0, 0, None)
    }

    /** The UPDATE of traffic_json touches no row when the node is gone. */
    method SetTrafficBaseline(id: Id, period: int, now: int)
      modifies `nodes
      ensures nodes == if id in old(nodes)
                       then old(nodes)[id := old(nodes)[id].(traffic := Reanchored(
                              old(TrafficOf(id)), LastCounters(id),
                              period, now))]
                       else old(nodes)
      ensures id !in old(nodes) || period <= 0 ==> nodes == old(nodes)
      ensures id in old(nodes) && period > 0 ==> Anchored(nodes[id].traffic, id, period, now)
    {
      if period <= 0 {
        assert id in nodes ==> nodes[id] == nodes[id].(traffic := TrafficOf(id));
        assert id in nodes ==> nodes == nodes[id := nodes[id]];
        return;
      }
      if id !in metrics {
        if id in nodes {
          nodes := nodes[id := nodes[id].(traffic := NO_BASELINE)];
        }
        return;
      }
      var hb := metrics[id];
      var next := AdvanceReset(None, period, now);
      if id in nodes {
        nodes := nodes[id := nodes[id].(traffic := TrafficState(hb.netTotalUp, hb.netTotalDown, next))];
      }
    }

    /** UpdateNode: a partial edit; a changed period re-anchors the accounting. */
    method UpdateNode(id: Id, name: Option<string>, meta: Option<Meta>, now: int) returns (found: bool)
      modifies this`nodes
      ensures found == (id in old(nodes))
      ensures !found ==> nodes == old(nodes)
      ensures found ==>
                var was := old(nodes)[id];
                var meta' := if meta.Some? then meta.value else was.meta;
                && id in nodes
                && nodes == old(nodes)[id := NodeRow(
                     if name.Some? && name.value != "" then name.value else was.name, meta', nodes[id].traffic)]
                && (if meta'.period != was.meta.period && meta'.period > 0
                    then Anchored(nodes[id].traffic, id, meta'.period, now)
                    else nodes[id].traffic == was.traffic)
      ensures forall n: TrafficRuns.Node :: old(Mirrors(id, n)) ==>
                Mirrors(id, TrafficRuns.Edited(n, if meta.Some? then meta.value else n.meta, now))
    {
      found := id in nodes;
      if !found {
        return;
      }
      var row := nodes[id];
      var periodChanged := meta.Some? && row.meta.period != meta.value.period;
      if name.Some? && name.value != "" {
        row := row.(name := name.value);
      }
      if meta.Some? {
        row := row.(meta := meta.value);
      }
      nodes := nodes[id := row];
      if periodChanged {
        SetTrafficBaseline(id, row.meta.period, now);
      }
      forall n: TrafficRuns.Node | old(Mirrors(id, n))
        ensures Mirrors(id, TrafficRuns.Edited(n, if meta.Some? then meta.value else n.meta, now))
      {
        TrafficRuns.EditedState(n, if meta.Some? then meta.value else n.meta, now);
      }
    }

    // -------------------------------------------------------------------
    // Reading
    // -------------------------------------------------------------------

    function ListHistory(id: Id, from: int, to: int): seq<Sample>
      reads this
    {
      Rows(Pruning.Window(TableOf(samples, id), from, to))
    }

    lemma HistoryIsExact(id: Id, from: Option<int>, to: Option<int>, now: int)
      requires Keyed(samples)
      ensures var rows := TableOf(samples, id);
              Pruning.Exact(cfg, rows, from, to, now, Pruning.Answer(cfg, rows, from, to, now))
    {
      Pruning.AnswerIsExact(cfg, TableOf(samples, id), from, to, now);
    }

    /** handleNodeHistory, without the parsing of its query parameters. */
    method NodeHistory(id: Id, from: Option<int>, to: Option<int>, now: int) returns (r: Option<seq<Sample>>)
      ensures r == if id in nodes then Some(Pruning.Answer(cfg, LogOf(id, {}).rows, from, to, now)) else None
      ensures id in nodes && Keyed(samples) ==> Pruning.Exact(cfg, TableOf(samples, id), from, to, now, r.value)
    {
      if Keyed(samples) {
        HistoryIsExact(id, from, to, now);
      }
      if id !in nodes {
        return None;
      }
      var ret := cfg.retention / SECOND;
      if ret < 1 {
        ret := Pruning.DEFAULT_RETENTION_SECONDS;
      }
      var lo, hi := Unix(now) - ret, Unix(now);
      if from.Some? {
        lo := from.value;
      }
      if to.Some? {
        hi := to.value;
      }
      var minT := Unix(now) - ret;
      if lo < minT {
        lo := minT;
      }
      r := Some(ListHistory(id, lo, hi));
    }

    /** The public view of one node. */
    function StatusOf(id: Id, now: int): Alerts.Status
      requires id in nodes
      reads this
    {
      var row := nodes[id];
      Alerts.Status(id, row.name, Detection.Online(LookUp(seen, id), now, cfg.offlineAfter), LookUp(seen, id),
                    ComputeTraffic(row.traffic, row.meta,
                                   if id in seen && id in metrics then Some(CountersIn(metrics[id])) else None))
    }

    /** A status in the numbers of the node's row and of its last heartbeat. */
    predicate ShowsNode(s: Alerts.Status, id: Id, now: int)
      requires id in nodes
      reads this
    {
      && s.id == id && s.name == nodes[id].name
      && (s.online <==> id in seen && now - seen[id] < cfg.offlineAfter)
      && (if id in seen then s.lastSeen == Some(seen[id]) else s.lastSeen == None)
      && ShowsBill(s.traffic, nodes[id].traffic, nodes[id].meta,
                   if id in metrics then Some(Counters(metrics[id].netTotalUp, metrics[id].netTotalDown)) else None)
    }

    lemma StatusShowsNode(id: Id, now: int)
      requires Valid() && id in nodes
      ensures ShowsNode(StatusOf(id, now), id, now)
    {
      BillIsShown(nodes[id].traffic, nodes[id].meta, LastCounters(id));
    }

    /** The bill of a status is the one the accounting machine shows. */
    lemma StatusIsView(id: Id, n: TrafficRuns.Node, now: int)
      requires Valid() && Mirrors(id, n)
      ensures StatusOf(id, now).traffic == TrafficRuns.View(n)
    {
    }

    /** What a status says is used was moved, in every run of the accounting machine the store can mirror. */
    lemma StatusNeverOverCharges(id: Id, now: int, host: TrafficRuns.Reading, meta: Meta,
                                 events: seq<TrafficRuns.Event>)
      requires Valid() && TrafficRuns.Possible(TrafficRuns.NewNode(host, meta), events)
      requires TrafficRuns.InReadingOrder(TrafficRuns.NewNode(host, meta), events)
      requires Mirrors(id, TrafficRuns.Run(TrafficRuns.NewNode(host, meta), events))
      ensures var n, t := TrafficRuns.Run(TrafficRuns.NewNode(host, meta), events), StatusOf(id, now).traffic;
              if id in metrics && nodes[id].meta.period > 0 && nodes[id].traffic.resetAt.Some? then
                && n.metrics.Some? && n.baseline <= n.metrics.value < |n.taken|
                && n.taken[n.metrics.value].up.count == metrics[id].netTotalUp
                && n.taken[n.metrics.value].down.count == metrics[id].netTotalDown
                && TrafficRuns.ChargesAtMost(t, n.taken[n.baseline], n.taken[n.metrics.value])
              else t.used == 0
    {
      TrafficRuns.NeverOverCharged(host, meta, events);
      StatusIsView(id, TrafficRuns.Run(TrafficRuns.NewNode(host, meta), events), now);
    }

    /** ListStatus: `order` is the ids as ORDER BY created_at, id returns them. History is handed out as copies. */
    method ListStatus(order: seq<Id>, now: int) returns (out: seq<NodeView>)
      requires Valid()
      requires forall i :: 0 <= i < |order| ==> order[i] in nodes
      requires forall i, j :: 0 <= i < j < |order| ==> order[i] != order[j]
      ensures |out| == |order|
      ensures forall i :: 0 <= i < |order| ==>
                && out[i].status == StatusOf(order[i], now)
                && fresh(out[i].history) && out[i].history[..] == Points(order[i])
      ensures forall i :: 0 <= i < |order| ==> ShowsNode(out[i].status, order[i], now)
      ensures forall i, n: TrafficRuns.Node :: 0 <= i < |order| && Mirrors(order[i], n) ==>
                out[i].status.traffic == TrafficRuns.View(n)
      ensures Alerts.Distinct(seq(|out|, i requires 0 <= i < |out| => out[i].status))
    {
      out := [];
      for i := 0 to |order|
        invariant |out| == i
        invariant forall j :: 0 <= j < i ==>
                    && out[j].status == StatusOf(order[j], now)
                    && fresh(out[j].history) && out[j].history[..] == Points(order[j])
      {
        var id := order[i];
        var row := nodes[id];
        var st := Alerts.Status(id, row.name, false, None, ComputeTraffic(row.traffic, row.meta, None));
        var copy := history.Snapshot(id);
        if id in seen {
          st := st.(lastSeen := Some(seen[id]), online := now - seen[id] < cfg.offlineAfter);
          if id in metrics {
            st := st.(traffic := ComputeTraffic(row.traffic, row.meta, Some(CountersIn(metrics[id]))));
          }
        }
        out := out + [NodeView(st, copy)];
      }
      forall i | 0 <= i < |order| ensures ShowsNode(out[i].status, order[i], now) {
        StatusShowsNode(order[i], now);
      }
      forall i, n: TrafficRuns.Node | 0 <= i < |order| && Mirrors(order[i], n)
        ensures out[i].status.traffic == TrafficRuns.View(n)
      {
        StatusIsView(order[i], n, now);
      }
    }

    /** What a status answer shows of the history is not disturbed by the heartbeats that follow it. */
    method ListThenSave(order: seq<Id>, listAt: int, id: Id, hb: Heartbeat, meta: Meta, now: int, pruneAt: int,
                        rollAt: int) returns (out: seq<NodeView>)
      requires Valid()
      requires forall i :: 0 <= i < |order| ==> order[i] in nodes
      requires forall i, j :: 0 <= i < j < |order| ==> order[i] != order[j]
      modifies this, history.Repr
      ensures Valid() && |out| == |order|
      ensures forall i :: 0 <= i < |order| ==> out[i].history[..] == old(Points(order[i]))
      ensures Points(id) == Pushed(cfg.historyCap, old(Points(id)), SampleFrom(hb, Unix(now)))
    {
      out := ListStatus(order, listAt);
      SaveHeartbeat(id, hb, meta, now, pruneAt, rollAt);
    }
  }
}
