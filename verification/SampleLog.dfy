/** The persisted samples of one node: when a heartbeat is due to be written, and what a crash, a prune
    or another goroutine may do between deciding that and writing it. */
module SampleLog {
  import opened Basics
  import opened Samples

  datatype Settings = Settings(offlineAfter: int, historyCap: int, persistEvery: int, retention: int) {
    predicate Valid() {
      offlineAfter > 0 && historyCap > 0 && persistEvery > 0 && retention > 0
    }
  }

  /** last: the in-memory lastPersist entry; rows: the samples table; pending: samples a SaveHeartbeat has
      claimed under the lock and will insert after releasing it. */
  datatype Log = Log(last: Option<int>, rows: map<int, Sample>, pending: set<Sample>)

  const EMPTY := Log(None, map[], {})

  /** The atomic sections of the store, in any interleaving. */
  datatype Step =
    | Locked(now: int, hb: Heartbeat)   // SaveHeartbeat's critical section
    | Insert(sm: Sample)                // insertSample, run by the goroutine that claimed sm
    | Prune(now: int)                   // PruneSamples
    | Restart                           // the hub dies and reopens: memory and pending inserts are gone
    | DeleteRows                        // DeleteNode's transaction
    | ForgetNode                        // DeleteNode's clearing of live state, after it

  function Due(cfg: Settings, last: Option<int>, t: int): bool {
    last.None? || (t > last.value && (t - last.value) * SECOND >= cfg.persistEvery)
  }

  function Cutoff(cfg: Settings, now: int): int {
    Unix(now - cfg.retention)
  }

  function Pruned(rows: map<int, Sample>, cutoff: int): map<int, Sample> {
    map t | t in rows && t >= cutoff :: rows[t]
  }

  function Claim(cfg: Settings, g: Log, sm: Sample): Log {
    if Due(cfg, g.last, sm.t) then g.(last := Some(sm.t), pending := g.pending + {sm}) else g
  }

  function Apply(cfg: Settings, g: Log, e: Step): Log {
    match e
    case Locked(now, hb) => Claim(cfg, g, SampleFrom(hb, Unix(now)))
    case Insert(sm) =>
      if sm in g.pending then g.(rows := g.rows[sm.t := sm], pending := g.pending - {sm}) else g
    case Prune(now) => g.(rows := Pruned(g.rows, Cutoff(cfg, now)))
    case Restart => Log(MaxKey(g.rows.Keys), g.rows, {})
    case DeleteRows => g.(rows := map[])
    case ForgetNode => g.(last := None)
  }

  function Run(cfg: Settings, g: Log, steps: seq<Step>): Log {
    if steps == [] then g else Apply(cfg, Run(cfg, g, steps[..|steps| - 1]), steps[|steps| - 1])
  }

  // ---------------------------------------------------------------------
  // Spacing
  // ---------------------------------------------------------------------

  /** Every instant the node has a row for, or is about to. */
  ghost function Times(g: Log): set<int> {
    g.rows.Keys + set sm | sm in g.pending :: sm.t
  }

  ghost predicate Spaced(cfg: Settings, s: set<int>) {
    forall x, y :: x in s && y in s && x < y ==> (y - x) * SECOND >= cfg.persistEvery
  }

  ghost predicate Inv(cfg: Settings, g: Log) {
    && (forall t :: t in g.rows ==> g.rows[t].t == t)
    && (forall sm :: sm in g.pending ==> sm.t !in g.rows)
    && (forall sm, sm' :: sm in g.pending && sm' in g.pending && sm.t == sm'.t ==> sm == sm')
    && Spaced(cfg, Times(g))
    && (forall t :: t in Times(g) ==> g.last.Some? && t <= g.last.value)
  }

  lemma DueIsApart(cfg: Settings, s: set<int>, last: Option<int>, t: int)
    requires Spaced(cfg, s) && forall x :: x in s ==> last.Some? && x <= last.value
    requires Due(cfg, last, t)
    ensures Spaced(cfg, s + {t})
  {
    forall x | x in s ensures x < t && (t - x) * SECOND >= cfg.persistEvery {
      MulMonotone(t - last.value, t - x, SECOND);
    }
  }

  lemma ClaimedTimes(cfg: Settings, g: Log, sm: Sample)
    requires Due(cfg, g.last, sm.t)
    ensures Times(Claim(cfg, g, sm)) == Times(g) + {sm.t}
  {
  }

  lemma ClaimKeepsSpacing(cfg: Settings, g: Log, sm: Sample)
    requires Inv(cfg, g)
    ensures Inv(cfg, Claim(cfg, g, sm))
  {
    if Due(cfg, g.last, sm.t) {
      DueIsApart(cfg, Times(g), g.last, sm.t);
      ClaimedTimes(cfg, g, sm);
      assert sm.t !in Times(g);
      assert forall p :: p in g.pending ==> p.t in Times(g);
    }
  }

  lemma InsertKeepsSpacing(cfg: Settings, g: Log, sm: Sample)
    requires Inv(cfg, g)
    ensures Inv(cfg, Apply(cfg, g, Insert(sm)))
  {
    var g' := Apply(cfg, g, Insert(sm));
    if sm in g.pending {
      forall t | t in Times(g') ensures t in Times(g) {
        if t !in g'.rows {
          var p :| p in g'.pending && p.t == t;
          assert p in g.pending;
        }
      }
    }
  }

  lemma ForgettingKeepsSpacing(cfg: Settings, g: Log, e: Step)
    requires Inv(cfg, g)
    requires e.Prune? || e.Restart? || e.DeleteRows? || (e.ForgetNode? && Times(g) == {})
    ensures Inv(cfg, Apply(cfg, g, e))
  {
    var g' := Apply(cfg, g, e);
    assert g'.pending <= g.pending && g'.rows.Keys <= g.rows.Keys;
    forall t | t in Times(g') ensures t in Times(g) {
      if t !in g'.rows {
        var p :| p in g'.pending && p.t == t;
        assert p in g.pending;
      }
    }
  }

  /** When live state is cleared, no row of the node has come back and none is on its way. */
  ghost predicate DeletesDoNotRace(cfg: Settings, g: Log, steps: seq<Step>) {
    forall i :: 0 <= i < |steps| && steps[i].ForgetNode? ==> Times(Run(cfg, g, steps[..i])) == {}
  }

  lemma RacesInPrefix(cfg: Settings, g: Log, steps: seq<Step>)
    requires DeletesDoNotRace(cfg, g, steps) && steps != []
    ensures DeletesDoNotRace(cfg, g, steps[..|steps| - 1])
    ensures steps[|steps| - 1].ForgetNode? ==> Times(Run(cfg, g, steps[..|steps| - 1])) == {}
  {
    var init := steps[..|steps| - 1];
    forall i | 0 <= i < |init| && init[i].ForgetNode?
      ensures Times(Run(cfg, g, init[..i])) == {}
    {
      assert init[..i] == steps[..i] && steps[i].ForgetNode?;
    }
  }

  lemma {:induction false} SpacingHolds(cfg: Settings, g: Log, steps: seq<Step>)
    requires Inv(cfg, g) && DeletesDoNotRace(cfg, g, steps)
    ensures Inv(cfg, Run(cfg, g, steps))
  {
    if steps != [] {
      var init, e := steps[..|steps| - 1], steps[|steps| - 1];
      RacesInPrefix(cfg, g, steps);
      SpacingHolds(cfg, g, init);
      match e
      case Locked(now, hb) => ClaimKeepsSpacing(cfg, Run(cfg, g, init), SampleFrom(hb, Unix(now)));
      case Insert(sm) => InsertKeepsSpacing(cfg, Run(cfg, g, init), sm);
      case _ => ForgettingKeepsSpacing(cfg, Run(cfg, g, init), e);
    }
  }

  lemma PendingKeepsDistance(cfg: Settings, g: Log, sm: Sample, t: int)
    requires Inv(cfg, g) && sm in g.pending && t in g.rows
    ensures t != sm.t && (if t < sm.t then sm.t - t else t - sm.t) * SECOND >= cfg.persistEvery
  {
    assert sm.t in Times(g) && t in Times(g);
  }

  lemma InsertAdds(cfg: Settings, g: Log, sm: Sample)
    requires Inv(cfg, g) && sm in g.pending
    ensures var g' := Apply(cfg, g, Insert(sm));
            && |g'.rows| == |g.rows| + 1
            && (forall t :: t in g.rows ==> t in g'.rows && g'.rows[t] == g.rows[t])
            && (forall t :: t in g.rows ==>
                  (if t < sm.t then sm.t - t else t - sm.t) * SECOND >= cfg.persistEvery)
  {
    forall t | t in g.rows
      ensures t != sm.t && (if t < sm.t then sm.t - t else t - sm.t) * SECOND >= cfg.persistEvery
    {
      PendingKeepsDistance(cfg, g, sm, t);
    }
    assert sm.t !in g.rows;
    assert g.rows[sm.t := sm].Keys == g.rows.Keys + {sm.t};
  }

  /** INSERT OR REPLACE never replaces: under any interleaving and any clock, each insert adds one row and
      keeps all the others. */
  lemma InsertNeverOverwrites(cfg: Settings, steps: seq<Step>, sm: Sample)
    requires DeletesDoNotRace(cfg, EMPTY, steps)
    requires sm in Run(cfg, EMPTY, steps).pending
    ensures var g := Run(cfg, EMPTY, steps);
            var g' := Apply(cfg, g, Insert(sm));
            && |g'.rows| == |g.rows| + 1
            && (forall t :: t in g.rows ==> t in g'.rows && g'.rows[t] == g.rows[t])
            && (forall t :: t in g.rows ==>
                  (if t < sm.t then sm.t - t else t - sm.t) * SECOND >= cfg.persistEvery)
  {
    SpacingHolds(cfg, EMPTY, steps);
    InsertAdds(cfg, Run(cfg, EMPTY, steps), sm);
  }

  // ---------------------------------------------------------------------
  // Deleting a node while its heartbeats are in flight
  // ---------------------------------------------------------------------

  predicate NoForgetting(steps: seq<Step>) {
    forall i :: 0 <= i < |steps| ==> !steps[i].ForgetNode?
  }

  /** What the spacing rule is for: samples keep their distance, and every claimed insert adds a row. */
  ghost predicate Sound(cfg: Settings, g: Log) {
    Spaced(cfg, Times(g)) && forall sm :: sm in g.pending ==> |Apply(cfg, g, Insert(sm)).rows| == |g.rows| + 1
  }

  /** It stays so whatever heartbeats, inserts, prunes and restarts follow. */
  ghost predicate SoundForever(cfg: Settings, g: Log) {
    forall steps :: NoForgetting(steps) ==> Sound(cfg, Run(cfg, g, steps))
  }

  lemma InvIsSoundForever(cfg: Settings, g: Log)
    requires Inv(cfg, g)
    ensures SoundForever(cfg, g)
  {
    forall steps | NoForgetting(steps) ensures Sound(cfg, Run(cfg, g, steps)) {
      SpacingHolds(cfg, g, steps);
      var end := Run(cfg, g, steps);
      forall sm | sm in end.pending ensures |Apply(cfg, end, Insert(sm)).rows| == |end.rows| + 1 {
        InsertAdds(cfg, end, sm);
      }
    }
  }

  lemma RunOne(cfg: Settings, g: Log, e: Step)
    ensures Run(cfg, g, [e]) == Apply(cfg, g, e)
  {
    assert Run(cfg, g, []) == g;
    assert [e][..0] == [];
  }

  lemma RunTwo(cfg: Settings, g: Log, d: Step, e: Step)
    ensures Run(cfg, g, [d, e]) == Apply(cfg, Apply(cfg, g, d), e)
  {
    RunOne(cfg, g, d);
    assert [d, e][..1] == [d];
  }

  lemma ReplacingAddsNothing(cfg: Settings, g: Log, sm: Sample)
    requires sm in g.pending && sm.t in g.rows
    ensures !Sound(cfg, g)
  {
    assert Apply(cfg, g, Insert(sm)).rows.Keys == g.rows.Keys;
    assert |g.rows[sm.t := sm].Keys| == |g.rows.Keys|;
  }

  /** A heartbeat of the same second whose sample differs. */
  function Unlike(sm: Sample): (hb: Heartbeat)
    ensures SampleFrom(hb, sm.t) != sm
  {
    Heartbeat(sm.cpu + 1.0, sm.mem, sm.up, sm.down, 0, 0, sm.latCT, sm.latCU, sm.latCM, sm.lossCT, sm.lossCU, sm.lossCM)
  }

  /** The run that loses a row: the node is forgotten under a pending insert, a second heartbeat of that second
      is claimed because lastPersist is gone, and its insert replaces the first one's row. */
  lemma ForgottenInsertIsReplaced(cfg: Settings, g: Log, sm: Sample, hb: Heartbeat)
    requires Inv(cfg, g) && sm in g.pending && SampleFrom(hb, sm.t) != sm
    ensures var before := Run(cfg, Apply(cfg, g, ForgetNode), [Locked(sm.t * SECOND, hb), Insert(sm)]);
            var other := SampleFrom(hb, sm.t);
            && sm.t in before.rows && before.rows[sm.t] == sm && other in before.pending
            && Apply(cfg, before, Insert(other)).rows == before.rows[sm.t := other]
  {
    DivUnique(sm.t * SECOND, SECOND, sm.t);
    RunTwo(cfg, Apply(cfg, g, ForgetNode), Locked(sm.t * SECOND, hb), Insert(sm));
  }

  /** The run that loses the distance, when samples are meant to be more than a second apart. */
  lemma ForgottenDistanceIsLost(cfg: Settings, g: Log, t: int, hb: Heartbeat)
    requires cfg.persistEvery > SECOND && t in Times(g)
    ensures !Spaced(cfg, Times(Run(cfg, Apply(cfg, g, ForgetNode), [Locked((t + 1) * SECOND, hb)])))
  {
    DivUnique((t + 1) * SECOND, SECOND, t + 1);
    var f, sm := Apply(cfg, g, ForgetNode), SampleFrom(hb, t + 1);
    RunOne(cfg, f, Locked((t + 1) * SECOND, hb));
    var after := Claim(cfg, f, sm);
    assert Times(f) == Times(g);
    assert sm in after.pending;
    assert sm.t in Times(after);
    if t in g.rows {
      assert t in Times(after);
    } else {
      var p :| p in g.pending && p.t == t;
      assert p in after.pending;
      assert t in Times(after);
    }
  }

  lemma ForgottenTimeBreaksSoundness(cfg: Settings, g: Log, t: int)
    requires Inv(cfg, g) && t in Times(g)
    ensures !SoundForever(cfg, Apply(cfg, g, ForgetNode))
  {
    var f := Apply(cfg, g, ForgetNode);
    if t in g.rows {
      var hb := Unlike(g.rows[t]);
      DivUnique(t * SECOND, SECOND, t);
      RunOne(cfg, f, Locked(t * SECOND, hb));
      ReplacingAddsNothing(cfg, Run(cfg, f, [Locked(t * SECOND, hb)]), SampleFrom(hb, t));
      assert NoForgetting([Locked(t * SECOND, hb)]);
    } else {
      var sm :| sm in g.pending && sm.t == t;
      var steps := [Locked(t * SECOND, Unlike(sm)), Insert(sm)];
      ForgottenInsertIsReplaced(cfg, g, sm, Unlike(sm));
      ReplacingAddsNothing(cfg, Run(cfg, f, steps), SampleFrom(Unlike(sm), t));
      assert NoForgetting(steps);
    }
  }

  /** Clearing a node's live state is safe for everything that may follow exactly when no row of it is stored
      and none is on its way. The token no longer resolves after the transaction, so the heartbeats that may
      follow, and that can lose a row, are ones that were let in before it. */
  lemma ForgettingIsSafeIff(cfg: Settings, g: Log)
    requires Inv(cfg, g)
    ensures SoundForever(cfg, Apply(cfg, g, ForgetNode)) <==> g.rows == map[] && g.pending == {}
  {
    if g.rows == map[] && g.pending == {} {
      assert Times(g) == {};
      ForgettingKeepsSpacing(cfg, g, ForgetNode);
      InvIsSoundForever(cfg, Apply(cfg, g, ForgetNode));
    } else if g.pending != {} {
      var sm := SomeMember(g.pending);
      assert sm.t in Times(g);
      ForgottenTimeBreaksSoundness(cfg, g, sm.t);
    } else {
      var t := SomeMember(g.rows.Keys);
      ForgottenTimeBreaksSoundness(cfg, g, t);
    }
  }

  // ---------------------------------------------------------------------
  // Storage
  // ---------------------------------------------------------------------

  /** Whole calls, one after the other; `pruneAt` is PruneSamples' own reading of the clock. */
  datatype Op =
    | Save(now: int, hb: Heartbeat, pruneAt: int)
    | Sweep(now: int)
    | Reopen

  function Perform(cfg: Settings, g: Log, op: Op): Log {
    match op
    case Save(now, hb, pruneAt) =>
      var sm := SampleFrom(hb, Unix(now));
      var g1 := Apply(cfg, g, Locked(now, hb));
      if Due(cfg, g.last, sm.t) then Apply(cfg, Apply(cfg, g1, Insert(sm)), Prune(pruneAt)) else g1
    case Sweep(now) => Apply(cfg, g, Prune(now))
    case Reopen => Apply(cfg, g, Restart)
  }

  /** A heartbeat run alone, in numbers: if none was persisted before it or the last one at least persistEvery
      earlier, its own point is stored, unless its own prune already finds it too old; else nothing changes. */
  ghost predicate StoredIfDue(cfg: Settings, was: Log, g: Log, now: int, hb: Heartbeat, pruneAt: int) {
    var t := now / SECOND;
    if was.last.None? || (t > was.last.value && (t - was.last.value) * SECOND >= cfg.persistEvery) then
      && g.last == Some(t)
      && (t >= (pruneAt - cfg.retention) / SECOND ==> t in g.rows && Records(g.rows[t], hb, t))
    else g == was
  }

  lemma SaveStoresIfDue(cfg: Settings, was: Log, now: int, hb: Heartbeat, pruneAt: int)
    ensures StoredIfDue(cfg, was, Perform(cfg, was, Save(now, hb, pruneAt)), now, hb, pruneAt)
  {
  }

  function PerformAll(cfg: Settings, g: Log, ops: seq<Op>): Log
    decreases |ops|
  {
    if ops == [] then g else PerformAll(cfg, Perform(cfg, g, ops[0]), ops[1..])
  }

  ghost predicate ClockMovesOn(clock: int, ops: seq<Op>)
    decreases |ops|
  {
    ops != [] ==>
      match ops[0]
      case Save(now, _, pruneAt) => clock <= now <= pruneAt && ClockMovesOn(pruneAt, ops[1..])
      case Sweep(now) => clock <= now && ClockMovesOn(now, ops[1..])
      case Reopen => ClockMovesOn(clock, ops[1..])
  }

  function RowBound(cfg: Settings): int
    requires cfg.Valid()
  {
    CeilSeconds(cfg.retention) / CeilSeconds(cfg.persistEvery) + 1
  }

  ghost predicate Bounded(cfg: Settings, g: Log, clock: int)
    requires cfg.Valid()
  {
    && Inv(cfg, g) && g.pending == {}
    && (forall t :: t in g.rows ==> t <= Unix(clock))
    && |g.rows| <= RowBound(cfg)
  }

  lemma PruningOnlyShrinks(rows: map<int, Sample>, cutoff: int)
    ensures |Pruned(rows, cutoff)| <= |rows|
  {
    var kept := Pruned(rows, cutoff).Keys;
    assert rows.Keys == kept + (rows.Keys - kept);
  }

  lemma PrunedFits(cfg: Settings, rows: map<int, Sample>, at: int, clock: int)
    requires cfg.Valid() && at <= clock && Spaced(cfg, rows.Keys)
    requires forall t :: t in rows ==> t <= Unix(clock)
    ensures |Pruned(rows, Cutoff(cfg, at))| <= (Unix(clock) - Cutoff(cfg, at)) / CeilSeconds(cfg.persistEvery) + 1
    ensures at == clock ==> |Pruned(rows, Cutoff(cfg, at))| <= RowBound(cfg)
  {
    var kept := Pruned(rows, Cutoff(cfg, at)).Keys;
    var lo, hi, gap := Cutoff(cfg, at), Unix(clock), CeilSeconds(cfg.persistEvery);
    DivMonotone(at - cfg.retention, clock, SECOND);
    forall x, y | x in kept && y in kept && x < y ensures y - x >= gap {
      assert (y - x) * SECOND >= cfg.persistEvery;
    }
    SpacedSetIsSmall(kept, lo, hi, gap);
    if at == clock {
      DivMonotone(hi - lo, CeilSeconds(cfg.retention), gap);
    }
  }

  /** No heartbeat of the run read the clock later than this. */
  predicate ReadBy(clock: int, steps: seq<Step>) {
    forall i :: 0 <= i < |steps| && steps[i].Locked? ==> steps[i].now <= clock
  }

  lemma {:induction false} NothingIsAhead(cfg: Settings, clock: int, steps: seq<Step>)
    requires ReadBy(clock, steps)
    ensures forall t :: t in Times(Run(cfg, EMPTY, steps)) ==> t <= Unix(clock)
  {
    if steps != [] {
      var init, e := steps[..|steps| - 1], steps[|steps| - 1];
      NothingIsAhead(cfg, clock, init);
      StepAddsOnlyNow(cfg, Run(cfg, EMPTY, init), e);
      if e.Locked? {
        DivMonotone(e.now, clock, SECOND);
      }
    }
  }

  /** The only instant a step can add is the present one. */
  lemma StepAddsOnlyNow(cfg: Settings, g: Log, e: Step)
    ensures forall t :: t in Times(Apply(cfg, g, e)) ==> t in Times(g) || (e.Locked? && t == Unix(e.now))
  {
    var g' := Apply(cfg, g, e);
    forall t | t in Times(g') ensures t in Times(g) || (e.Locked? && t == Unix(e.now)) {
      if t !in g'.rows {
        var p :| p in g'.pending && p.t == t;
        assert p in g.pending || (e.Locked? && p.t == Unix(e.now));
      } else if t !in g.rows {
        assert e.Insert? && e.sm in g.pending && t == e.sm.t;
      }
    }
  }

  /** In any interleaving, with readings of the clock taking effect in any order: the moment a prune that read
      `at` has run, the node holds no more rows than fit between its cutoff and the latest reading. */
  lemma PruneLeavesFewRows(cfg: Settings, steps: seq<Step>, at: int, clock: int)
    requires cfg.Valid() && ReadBy(clock, steps) && at <= clock
    requires DeletesDoNotRace(cfg, EMPTY, steps)
    ensures |Apply(cfg, Run(cfg, EMPTY, steps), Prune(at)).rows|
            <= (Unix(clock) - Cutoff(cfg, at)) / CeilSeconds(cfg.persistEvery) + 1
    ensures at == clock ==> |Apply(cfg, Run(cfg, EMPTY, steps), Prune(at)).rows| <= RowBound(cfg)
  {
    var g := Run(cfg, EMPTY, steps);
    SpacingHolds(cfg, EMPTY, steps);
    NothingIsAhead(cfg, clock, steps);
    assert g.rows.Keys <= Times(g);
    PrunedFits(cfg, g.rows, at, clock);
  }

  function After(op: Op, clock: int): int {
    match op
    case Save(_, _, pruneAt) => pruneAt
    case Sweep(now) => now
    case Reopen => clock
  }

  /** Between the insert and the prune of a due heartbeat. */
  lemma InsertedState(cfg: Settings, g: Log, sm: Sample)
    requires Inv(cfg, g) && g.pending == {} && Due(cfg, g.last, sm.t)
    ensures var g2 := Apply(cfg, Claim(cfg, g, sm), Insert(sm));
            && Inv(cfg, g2) && g2.pending == {} && Times(g2) == g2.rows.Keys
            && g2.rows == g.rows[sm.t := sm]
  {
    ClaimKeepsSpacing(cfg, g, sm);
    InsertKeepsSpacing(cfg, Claim(cfg, g, sm), sm);
  }

  /** A due heartbeat, inserted and pruned. */
  lemma DueSaveKeepsBound(cfg: Settings, g: Log, sm: Sample, pruneAt: int, clock: int)
    requires cfg.Valid() && Bounded(cfg, g, clock) && clock <= pruneAt && sm.t <= Unix(pruneAt)
    requires Due(cfg, g.last, sm.t)
    ensures Bounded(cfg, Apply(cfg, Apply(cfg, Claim(cfg, g, sm), Insert(sm)), Prune(pruneAt)), pruneAt)
  {
    var g2 := Apply(cfg, Claim(cfg, g, sm), Insert(sm));
    DivMonotone(clock, pruneAt, SECOND);
    InsertedState(cfg, g, sm);
    PrunedFits(cfg, g2.rows, pruneAt, pruneAt);
    ForgettingKeepsSpacing(cfg, g2, Prune(pruneAt));
  }

  lemma SaveKeepsBound(cfg: Settings, g: Log, now: int, hb: Heartbeat, pruneAt: int, clock: int)
    requires cfg.Valid() && Bounded(cfg, g, clock) && clock <= now <= pruneAt
    ensures Bounded(cfg, Perform(cfg, g, Save(now, hb, pruneAt)), pruneAt)
  {
    var sm := SampleFrom(hb, Unix(now));
    DivMonotone(clock, now, SECOND);
    DivMonotone(now, pruneAt, SECOND);
    if Due(cfg, g.last, sm.t) {
      DueSaveKeepsBound(cfg, g, sm, pruneAt, clock);
    }
  }

  lemma SweepKeepsBound(cfg: Settings, g: Log, now: int, clock: int)
    requires cfg.Valid() && Bounded(cfg, g, clock) && clock <= now
    ensures Bounded(cfg, Apply(cfg, g, Prune(now)), now)
  {
    DivMonotone(clock, now, SECOND);
    PruningOnlyShrinks(g.rows, Cutoff(cfg, now));
    ForgettingKeepsSpacing(cfg, g, Prune(now));
  }

  lemma PerformKeepsBound(cfg: Settings, g: Log, op: Op, clock: int)
    requires cfg.Valid() && Bounded(cfg, g, clock) && ClockMovesOn(clock, [op])
    ensures Bounded(cfg, Perform(cfg, g, op), After(op, clock))
  {
    match op
    case Save(now, hb, pruneAt) =>
      SaveKeepsBound(cfg, g, now, hb, pruneAt, clock);
    case Sweep(now) =>
      SweepKeepsBound(cfg, g, now, clock);
    case Reopen =>
      ForgettingKeepsSpacing(cfg, g, Restart);
  }

  lemma {:induction false} StorageStaysBounded(cfg: Settings, g: Log, clock: int, ops: seq<Op>)
    requires cfg.Valid() && Bounded(cfg, g, clock) && ClockMovesOn(clock, ops)
    ensures |PerformAll(cfg, g, ops).rows| <= RowBound(cfg)
    decreases |ops|
  {
    if ops != [] {
      var op := ops[0];
      PerformKeepsBound(cfg, g, op, clock);
      StorageStaysBounded(cfg, Perform(cfg, g, op), After(op, clock), ops[1..]);
    }
  }

  lemma CeilOfWholeSeconds(k: int)
    ensures CeilSeconds(k * SECOND) == k
  {
    DivUnique(k * SECOND + SECOND - 1, SECOND, k);
  }

  lemma EmptyIsBounded(cfg: Settings, clock: int)
    requires cfg.Valid()
    ensures Bounded(cfg, EMPTY, clock)
  {
    DivMonotone(0, CeilSeconds(cfg.retention), CeilSeconds(cfg.persistEvery));
  }

  /** With whole-second settings of R and P seconds a node never keeps more than R/P + 1 rows. */
  lemma StorageBound(cfg: Settings, r: int, p: int, clock: int, ops: seq<Op>)
    requires cfg.Valid() && cfg.retention == r * SECOND && cfg.persistEvery == p * SECOND
    requires ClockMovesOn(clock, ops)
    ensures p > 0 && |PerformAll(cfg, EMPTY, ops).rows| <= r / p + 1
  {
    if p <= 0 { MulMonotone(p, 0, SECOND); }
    EmptyIsBounded(cfg, clock);
    StorageStaysBounded(cfg, EMPTY, clock, ops);
    CeilOfWholeSeconds(r);
    CeilOfWholeSeconds(p);
  }
}
