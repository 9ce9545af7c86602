/** Retention is a cache-eviction policy over a log. When can a reader of the history endpoint tell that
    old rows were deleted? Exactly when the settings let a row leave before it stops mattering. */
module Pruning {
  import opened Basics
  import opened Samples
  import opened SampleLog

  /** The same run of a store that never deletes old rows. */
  function RunKeeping(cfg: Settings, g: Log, steps: seq<Step>): Log {
    if steps == [] then g
    else
      var before := RunKeeping(cfg, g, steps[..|steps| - 1]);
      var e := steps[|steps| - 1];
      if e.Prune? then before else Apply(cfg, before, e)
  }

  // ---------------------------------------------------------------------
  // What the history endpoint answers
  // ---------------------------------------------------------------------

  const DEFAULT_RETENTION_SECONDS: int := 7200

  function RetentionSeconds(cfg: Settings): int {
    var ret := cfg.retention / SECOND;
    if ret < 1 then DEFAULT_RETENTION_SECONDS else ret
  }

  function Window(rows: map<int, Sample>, lo: int, hi: int): map<int, Sample> {
    map t | t in rows && lo <= t <= hi :: rows[t]
  }

  /** handleNodeHistory: `from` and `to` are the optional query parameters, `from` clamped to retention. */
  function FirstSecond(cfg: Settings, from: Option<int>, now: int): int {
    var minT := Unix(now) - RetentionSeconds(cfg);
    Max(if from.Some? then from.value else minT, minT)
  }

  function LastSecond(to: Option<int>, now: int): int {
    if to.Some? then to.value else Unix(now)
  }

  function Answer(cfg: Settings, rows: map<int, Sample>, from: Option<int>, to: Option<int>, now: int): seq<Sample> {
    Rows(Window(rows, FirstSecond(cfg, from, now), LastSecond(to, now)))
  }

  /** Which stored samples a query is entitled to: no older than retention - two hours if that is under a second -
      and within the bounds it gives, up to now if it gives no upper one. */
  predicate Wanted(cfg: Settings, t: int, from: Option<int>, to: Option<int>, now: int) {
    && (if cfg.retention >= SECOND then (now / SECOND - t) * SECOND <= cfg.retention else now / SECOND - t <= 7200)
    && (from.Some? ==> from.value <= t)
    && (if to.Some? then t <= to.value else t <= now / SECOND)
  }

  /** The answer is exactly those, each once and in time order. */
  ghost predicate Exact(cfg: Settings, rows: map<int, Sample>, from: Option<int>, to: Option<int>, now: int,
                        answer: seq<Sample>) {
    && (forall i, j :: 0 <= i < j < |answer| ==> answer[i].t < answer[j].t)
    && (forall s: Sample :: s in answer <==> s.t in rows && rows[s.t] == s && Wanted(cfg, s.t, from, to, now))
  }

  lemma WantedIsWindow(cfg: Settings, t: int, from: Option<int>, to: Option<int>, now: int)
    ensures Wanted(cfg, t, from, to, now) <==> FirstSecond(cfg, from, now) <= t <= LastSecond(to, now)
  {
    var ret, age := cfg.retention / SECOND, Unix(now) - t;
    if cfg.retention >= SECOND {
      DivMonotone(SECOND, cfg.retention, SECOND);
      if age <= ret {
        MulMonotone(age, ret, SECOND);
      } else {
        MulMonotone(ret + 1, age, SECOND);
      }
    } else {
      DivMonotone(cfg.retention, SECOND - 1, SECOND);
    }
  }

  /** In all four cases of given and missing bounds. */
  lemma AnswerIsExact(cfg: Settings, rows: map<int, Sample>, from: Option<int>, to: Option<int>, now: int)
    requires forall t :: t in rows ==> rows[t].t == t
    ensures Exact(cfg, rows, from, to, now, Answer(cfg, rows, from, to, now))
  {
    RowsAreExact(Window(rows, FirstSecond(cfg, from, now), LastSecond(to, now)));
    forall t ensures Wanted(cfg, t, from, to, now) <==> FirstSecond(cfg, from, now) <= t <= LastSecond(to, now) {
      WantedIsWindow(cfg, t, from, to, now);
    }
  }

  lemma RowsAreExact(w: map<int, Sample>)
    requires forall t :: t in w ==> w[t].t == t
    ensures forall i, j :: 0 <= i < j < |Rows(w)| ==> Rows(w)[i].t < Rows(w)[j].t
    ensures forall s: Sample :: s in Rows(w) <==> s.t in w && w[s.t] == s
  {
    var keys := Ascending(w.Keys);
    AscendingMembers(w.Keys);
    AscendingIsSorted(w.Keys);
    forall s: Sample | s.t in w && w[s.t] == s ensures s in Rows(w) {
      var i :| 0 <= i < |keys| && keys[i] == s.t;
      assert Rows(w)[i] == s;
    }
  }

  // ---------------------------------------------------------------------
  // The claim
  // ---------------------------------------------------------------------

  /** The latest clock reading a prune of the run has acted on. */
  function LatestPrune(steps: seq<Step>): Option<int> {
    if steps == [] then None
    else
      var before, e := LatestPrune(steps[..|steps| - 1]), steps[|steps| - 1];
      if e.Prune? then Some(if before.Some? then Max(before.value, e.now) else e.now) else before
  }

  /** The same, up to the last restart. */
  function PrunedBeforeRestart(steps: seq<Step>): Option<int> {
    if steps == [] then None
    else if steps[|steps| - 1].Restart? then LatestPrune(steps[..|steps| - 1])
    else PrunedBeforeRestart(steps[..|steps| - 1])
  }

  predicate NotBefore(now: int, earlier: Option<int>) {
    earlier.Some? ==> earlier.value <= now
  }

  /** Readings may take effect in any order; only across a restart the clock does not go back: no heartbeat
      reads it earlier than a prune that ran before the hub last restarted. */
  predicate Timely(steps: seq<Step>) {
    steps == [] ||
    (var init, e := steps[..|steps| - 1], steps[|steps| - 1];
     Timely(init) && (e.Locked? ==> NotBefore(e.now, PrunedBeforeRestart(init))))
  }

  /** The same answer from both stores. */
  ghost predicate SameAnswer(cfg: Settings, steps: seq<Step>, from: Option<int>, to: Option<int>, now: int) {
    Answer(cfg, Run(cfg, EMPTY, steps).rows, from, to, now)
    == Answer(cfg, RunKeeping(cfg, EMPTY, steps).rows, from, to, now)
  }

  /** No reader who reads the clock no earlier than the prunes that have run can tell the stores apart. */
  ghost predicate Invisible(cfg: Settings) {
    forall steps, from, to, now ::
      Timely(steps) && NotBefore(now, LatestPrune(steps)) ==> SameAnswer(cfg, steps, from, to, now)
  }

  /** The settings under which nothing is deleted too early. */
  predicate RetentionIsSound(cfg: Settings) {
    cfg.retention >= SECOND && cfg.persistEvery <= (cfg.retention / SECOND + 1) * SECOND
  }

  /** The cutoff of a prune that read the clock then; no prune, no cutoff. */
  function CutoffAt(cfg: Settings, read: Option<int>): Option<int> {
    if read.None? then None else Some(Cutoff(cfg, read.value))
  }

  predicate Beyond(t: int, cutoff: Option<int>) {
    cutoff.Some? ==> t >= cutoff.value
  }

  /** The query's window is empty or starts no earlier than what the prunes kept. */
  predicate LooksBeyond(cfg: Settings, from: Option<int>, to: Option<int>, now: int, pruned: Option<int>) {
    Beyond(FirstSecond(cfg, from, now), CutoffAt(cfg, pruned)) || LastSecond(to, now) < FirstSecond(cfg, from, now)
  }

  /** A heartbeat of second t is due, or deleted anyway, whichever row before the cutoff was persisted last. */
  predicate Settled(cfg: Settings, t: int, beforeRestart: Option<int>) {
    beforeRestart.Some? ==>
      var cutoff := Cutoff(cfg, beforeRestart.value);
      t < cutoff || (t - cutoff + 1) * SECOND >= cfg.persistEvery
  }

  /** Every heartbeat after a restart is settled with respect to the prunes before that restart. */
  predicate Settles(cfg: Settings, steps: seq<Step>) {
    steps == [] ||
    (var init, e := steps[..|steps| - 1], steps[|steps| - 1];
     Settles(cfg, init) && (e.Locked? ==> Settled(cfg, Unix(e.now), PrunedBeforeRestart(init))))
  }

  // ---------------------------------------------------------------------
  // The two stores differ only where no answer looks
  // ---------------------------------------------------------------------

  ghost predicate Stale(last: Option<int>, cutoff: Option<int>) {
    last.Some? ==> !Beyond(last.value, cutoff)
  }

  ghost predicate SameBeyond(p: map<int, Sample>, f: map<int, Sample>, cutoff: Option<int>) {
    && (forall t :: Beyond(t, cutoff) ==> (t in p <==> t in f))
    && (forall t :: Beyond(t, cutoff) && t in p && t in f ==> p[t] == f[t])
  }

  /** Rows may differ behind the latest prune; lastPersist and claimed samples only by what a restart read back
      from such rows. */
  ghost predicate Agree(p: Log, f: Log, pruned: Option<int>, beforeRestart: Option<int>) {
    && SameBeyond(p.rows, f.rows, pruned)
    && (p.last == f.last || (beforeRestart.Some? && Stale(p.last, beforeRestart) && Stale(f.last, beforeRestart)))
    && (forall sm: Sample :: Beyond(sm.t, beforeRestart) ==> (sm in p.pending <==> sm in f.pending))
    && (beforeRestart.Some? ==> pruned.Some? && beforeRestart.value <= pruned.value)
  }

  lemma LockedAgrees(cfg: Settings, p: Log, f: Log, e: Step, pruned: Option<int>, before: Option<int>)
    requires e.Locked? && Settled(cfg, Unix(e.now), before)
    requires Agree(p, f, CutoffAt(cfg, pruned), CutoffAt(cfg, before))
    ensures Agree(Apply(cfg, p, e), Apply(cfg, f, e), CutoffAt(cfg, pruned), CutoffAt(cfg, before))
  {
    var t := Unix(e.now);
    if p.last != f.last && t >= Cutoff(cfg, before.value) {
      StaleIsDue(cfg, p.last, before.value, t);
      StaleIsDue(cfg, f.last, before.value, t);
    }
  }

  /** Anything stale was persisted so long ago that the heartbeat is due either way. */
  lemma StaleIsDue(cfg: Settings, last: Option<int>, read: int, t: int)
    requires Settled(cfg, t, Some(read)) && t >= Cutoff(cfg, read) && Stale(last, Some(Cutoff(cfg, read)))
    ensures Due(cfg, last, t)
  {
    if last.Some? {
      MulMonotone(t - Cutoff(cfg, read) + 1, t - last.value, SECOND);
    }
  }

  lemma InsertAgrees(cfg: Settings, p: Log, f: Log, sm: Sample, pruned: Option<int>, before: Option<int>)
    requires Agree(p, f, pruned, before)
    ensures Agree(Apply(cfg, p, Insert(sm)), Apply(cfg, f, Insert(sm)), pruned, before)
  {
    if !(sm in p.pending <==> sm in f.pending) {
      assert !Beyond(sm.t, pruned);
    }
  }

  lemma RestartAgrees(p: map<int, Sample>, f: map<int, Sample>, cutoff: Option<int>)
    requires SameBeyond(p, f, cutoff)
    ensures MaxKey(p.Keys) == MaxKey(f.Keys)
            || (cutoff.Some? && Stale(MaxKey(p.Keys), cutoff) && Stale(MaxKey(f.Keys), cutoff))
  {
    if !Stale(MaxKey(p.Keys), cutoff) {
      assert MaxOf(p.Keys) in f;
    }
    if !Stale(MaxKey(f.Keys), cutoff) {
      assert MaxOf(f.Keys) in p;
    }
  }

  lemma LaterPruneAgrees(cfg: Settings, p: map<int, Sample>, f: map<int, Sample>, pruned: Option<int>, now: int)
    requires SameBeyond(p, f, CutoffAt(cfg, pruned))
    ensures var latest := if pruned.Some? then Max(pruned.value, now) else now;
            && SameBeyond(Pruned(p, Cutoff(cfg, now)), f, CutoffAt(cfg, Some(latest)))
            && (pruned.Some? ==> Cutoff(cfg, pruned.value) <= Cutoff(cfg, latest))
  {
    var latest := if pruned.Some? then Max(pruned.value, now) else now;
    DivMonotone(now - cfg.retention, latest - cfg.retention, SECOND);
    if pruned.Some? {
      DivMonotone(pruned.value - cfg.retention, latest - cfg.retention, SECOND);
    }
  }

  lemma {:induction false} RunsAgree(cfg: Settings, steps: seq<Step>)
    requires Settles(cfg, steps)
    ensures Agree(Run(cfg, EMPTY, steps), RunKeeping(cfg, EMPTY, steps),
                  CutoffAt(cfg, LatestPrune(steps)), CutoffAt(cfg, PrunedBeforeRestart(steps)))
  {
    if steps != [] {
      var init, e := steps[..|steps| - 1], steps[|steps| - 1];
      RunsAgree(cfg, init);
      var p, f := Run(cfg, EMPTY, init), RunKeeping(cfg, EMPTY, init);
      match e
      case Locked(_, _) => LockedAgrees(cfg, p, f, e, LatestPrune(init), PrunedBeforeRestart(init));
      case Insert(sm) =>
        InsertAgrees(cfg, p, f, sm, CutoffAt(cfg, LatestPrune(init)), CutoffAt(cfg, PrunedBeforeRestart(init)));
      case Prune(now) => LaterPruneAgrees(cfg, p.rows, f.rows, LatestPrune(init), now);
      case Restart => RestartAgrees(p.rows, f.rows, CutoffAt(cfg, LatestPrune(init)));
      case _ =>
    }
  }

  lemma WindowsAgree(p: map<int, Sample>, f: map<int, Sample>, cutoff: Option<int>, lo: int, hi: int)
    requires SameBeyond(p, f, cutoff) && (Beyond(lo, cutoff) || hi < lo)
    ensures Window(p, lo, hi) == Window(f, lo, hi)
  {
  }

  /** Under any settings, in every interleaving whose heartbeats are settled: a query that looks only beyond the
      cutoff of the prunes that have run is answered as by a store that keeps everything. */
  lemma PruningIsInvisible(cfg: Settings, steps: seq<Step>, from: Option<int>, to: Option<int>, now: int)
    requires Settles(cfg, steps) && LooksBeyond(cfg, from, to, now, LatestPrune(steps))
    ensures SameAnswer(cfg, steps, from, to, now)
  {
    RunsAgree(cfg, steps);
    WindowsAgree(Run(cfg, EMPTY, steps).rows, RunKeeping(cfg, EMPTY, steps).rows, CutoffAt(cfg, LatestPrune(steps)),
                 FirstSecond(cfg, from, now), LastSecond(to, now));
  }

  // ---------------------------------------------------------------------
  // Sound settings keep every timely run and query on that side
  // ---------------------------------------------------------------------

  lemma CutoffBehindClock(cfg: Settings, read: int, now: int)
    requires cfg.retention >= SECOND && read <= now
    ensures Cutoff(cfg, read) <= Unix(now) - cfg.retention / SECOND
  {
    var r := cfg.retention / SECOND;
    DivMonotone(read - cfg.retention, now - r * SECOND, SECOND);
    DivUnique(now - r * SECOND, SECOND, now / SECOND - r);
  }

  lemma {:induction false} TimelySettles(cfg: Settings, steps: seq<Step>)
    requires RetentionIsSound(cfg) && Timely(steps)
    ensures Settles(cfg, steps)
  {
    if steps != [] {
      var init, e := steps[..|steps| - 1], steps[|steps| - 1];
      TimelySettles(cfg, init);
      var before := PrunedBeforeRestart(init);
      if e.Locked? && before.Some? {
        CutoffBehindClock(cfg, before.value, e.now);
        MulMonotone(cfg.retention / SECOND + 1, Unix(e.now) - Cutoff(cfg, before.value) + 1, SECOND);
      }
    }
  }

  lemma TimelyLooksBeyond(cfg: Settings, from: Option<int>, to: Option<int>, now: int, pruned: Option<int>)
    requires RetentionIsSound(cfg) && NotBefore(now, pruned)
    ensures LooksBeyond(cfg, from, to, now, pruned)
  {
    DivMonotone(SECOND, cfg.retention, SECOND);
    if pruned.Some? {
      CutoffBehindClock(cfg, pruned.value, now);
    }
  }

  // ---------------------------------------------------------------------
  // Runs that give the deletion away
  // ---------------------------------------------------------------------

  const IDLE := Heartbeat(0.0, 0.0, 0, 0, 0, 0, 0.0, 0.0, 0.0, 0.0, 0.0, 0.0)

  lemma RunPlus(cfg: Settings, g: Log, steps: seq<Step>, e: Step)
    ensures Run(cfg, g, steps + [e]) == Apply(cfg, Run(cfg, g, steps), e)
    ensures RunKeeping(cfg, g, steps + [e])
            == if e.Prune? then RunKeeping(cfg, g, steps) else Apply(cfg, RunKeeping(cfg, g, steps), e)
    ensures LatestPrune(steps + [e])
            == if e.Prune? then Some(if LatestPrune(steps).Some? then Max(LatestPrune(steps).value, e.now) else e.now)
               else LatestPrune(steps)
    ensures PrunedBeforeRestart(steps + [e]) == if e.Restart? then LatestPrune(steps) else PrunedBeforeRestart(steps)
    ensures Timely(steps + [e])
            <==> Timely(steps) && (e.Locked? ==> NotBefore(e.now, PrunedBeforeRestart(steps)))
    ensures Settles(cfg, steps + [e])
            <==> Settles(cfg, steps) && (e.Locked? ==> Settled(cfg, Unix(e.now), PrunedBeforeRestart(steps)))
  {
    assert (steps + [e])[..|steps|] == steps;
  }

  lemma RowsCount(rows: map<int, Sample>)
    ensures |Rows(rows)| == |rows|
  {
    AscendingMembers(rows.Keys);
    assert |rows.Keys| == |rows|;
  }

  /** A row only one of the stores has shows in every window over it that holds nothing else. */
  lemma OneRowShows(cfg: Settings, p: map<int, Sample>, f: map<int, Sample>, from: Option<int>, to: Option<int>,
                    now: int, t: int)
    requires var lo, hi := FirstSecond(cfg, from, now), LastSecond(to, now);
             && lo <= t <= hi
             && (forall u :: u in p && lo <= u <= hi ==> u == t)
             && (forall u :: u in f && lo <= u <= hi ==> u == t)
             && (t in p <==> t !in f)
    ensures Answer(cfg, p, from, to, now) != Answer(cfg, f, from, to, now)
  {
    var lo, hi := FirstSecond(cfg, from, now), LastSecond(to, now);
    var a, b := Window(p, lo, hi), Window(f, lo, hi);
    RowsCount(a);
    RowsCount(b);
    assert t in p ==> a == map[t := p[t]] && b == map[];
    assert t in f ==> b == map[t := f[t]] && a == map[];
  }

  /** One heartbeat of second t, written and then swept away by a prune that read n. */
  function SavedThenSwept(t: int, n: int): seq<Step> {
    [] + [Locked(t * SECOND, IDLE)] + [Insert(SampleFrom(IDLE, t))] + [Prune(n)]
  }

  lemma SavedThenSweptState(cfg: Settings, t: int, n: int)
    requires t < Cutoff(cfg, n)
    ensures var steps := SavedThenSwept(t, n);
            && Run(cfg, EMPTY, steps) == Log(Some(t), map[], {})
            && RunKeeping(cfg, EMPTY, steps) == Log(Some(t), map[t := SampleFrom(IDLE, t)], {})
            && Timely(steps) && Settles(cfg, steps) && LatestPrune(steps) == Some(n)
  {
    var sm := SampleFrom(IDLE, t);
    var s1: seq<Step> := [] + [Locked(t * SECOND, IDLE)];
    var s2 := s1 + [Insert(sm)];
    DivUnique(t * SECOND, SECOND, t);
    RunPlus(cfg, EMPTY, [], Locked(t * SECOND, IDLE));
    assert Run(cfg, EMPTY, s1) == Log(Some(t), map[], {sm}) == RunKeeping(cfg, EMPTY, s1);
    RunPlus(cfg, EMPTY, s1, Insert(sm));
    assert {sm} - {sm} == {};
    assert Run(cfg, EMPTY, s2) == Log(Some(t), map[t := sm], {}) == RunKeeping(cfg, EMPTY, s2);
    RunPlus(cfg, EMPTY, s2, Prune(n));
    assert Pruned(map[t := sm], Cutoff(cfg, n)) == map[];
  }

  function SweptThenReopened(t: int, n: int): seq<Step> {
    SavedThenSwept(t, n) + [Restart]
  }

  /** The row is gone from one store, so only the other still knows when the node was last persisted. */
  lemma SweptThenReopenedState(cfg: Settings, t: int, n: int)
    requires t < Cutoff(cfg, n)
    ensures var steps := SweptThenReopened(t, n);
            && Run(cfg, EMPTY, steps) == EMPTY
            && RunKeeping(cfg, EMPTY, steps) == Log(Some(t), map[t := SampleFrom(IDLE, t)], {})
            && Timely(steps) && Settles(cfg, steps)
            && LatestPrune(steps) == PrunedBeforeRestart(steps) == Some(n)
  {
    SavedThenSweptState(cfg, t, n);
    RunPlus(cfg, EMPTY, SavedThenSwept(t, n), Restart);
    assert map[t := SampleFrom(IDLE, t)].Keys == {t};
  }

  /** A heartbeat and its insert after any run. */
  function Written(steps: seq<Step>, now: int, hb: Heartbeat): seq<Step> {
    steps + [Locked(now, hb)] + [Insert(SampleFrom(hb, Unix(now)))]
  }

  lemma WrittenState(cfg: Settings, steps: seq<Step>, now: int, hb: Heartbeat)
    ensures var w, sm := Written(steps, now, hb), SampleFrom(hb, Unix(now));
            && Run(cfg, EMPTY, w) == Apply(cfg, Apply(cfg, Run(cfg, EMPTY, steps), Locked(now, hb)), Insert(sm))
            && RunKeeping(cfg, EMPTY, w)
               == Apply(cfg, Apply(cfg, RunKeeping(cfg, EMPTY, steps), Locked(now, hb)), Insert(sm))
            && LatestPrune(w) == LatestPrune(steps)
            && (Timely(w) <==> Timely(steps) && NotBefore(now, PrunedBeforeRestart(steps)))
            && (Settles(cfg, w) <==> Settles(cfg, steps) && Settled(cfg, Unix(now), PrunedBeforeRestart(steps)))
  {
    RunPlus(cfg, EMPTY, steps, Locked(now, hb));
    RunPlus(cfg, EMPTY, steps + [Locked(now, hb)], Insert(SampleFrom(hb, Unix(now))));
  }

  /** An unsettled heartbeat is stored by the pruning store and skipped by the other, and a query for its second
      shows that. */
  lemma UnsettledShows(cfg: Settings, read: int, now: int, hb: Heartbeat)
    requires !Settled(cfg, Unix(now), Some(read))
    ensures var t, steps := Unix(now), SweptThenReopened(Cutoff(cfg, read) - 1, read);
            && FirstSecond(cfg, Some(t), now) == t
            && !SameAnswer(cfg, Written(steps, now, hb), Some(t), Some(t), now)
  {
    var t, kept := Unix(now), Cutoff(cfg, read) - 1;
    var steps := SweptThenReopened(kept, read);
    SweptThenReopenedState(cfg, kept, read);
    WrittenState(cfg, steps, now, hb);
    assert !Due(cfg, Some(kept), t);
    var w := Written(steps, now, hb);
    OneRowShows(cfg, Run(cfg, EMPTY, w).rows, RunKeeping(cfg, EMPTY, w).rows, Some(t), Some(t), now, t);
  }

  // ---------------------------------------------------------------------
  // Exactly when
  // ---------------------------------------------------------------------

  /** Of every settled run whose latest prune read p, a query sees nothing missing if and only if its window is
      empty or starts at or past that prune's cutoff, whenever it read the clock. */
  lemma LateQueryIff(cfg: Settings, p: int, from: Option<int>, to: Option<int>, now: int)
    ensures (forall steps ::
               Settles(cfg, steps) && LatestPrune(steps) == Some(p) ==> SameAnswer(cfg, steps, from, to, now))
            <==> FirstSecond(cfg, from, now) >= Cutoff(cfg, p) || LastSecond(to, now) < FirstSecond(cfg, from, now)
  {
    if LooksBeyond(cfg, from, to, now, Some(p)) {
      forall steps | Settles(cfg, steps) && LatestPrune(steps) == Some(p)
        ensures SameAnswer(cfg, steps, from, to, now)
      {
        PruningIsInvisible(cfg, steps, from, to, now);
      }
    } else {
      var lo := FirstSecond(cfg, from, now);
      var steps := SavedThenSwept(lo, p);
      SavedThenSweptState(cfg, lo, p);
      OneRowShows(cfg, Run(cfg, EMPTY, steps).rows, RunKeeping(cfg, EMPTY, steps).rows, from, to, now, lo);
      assert !SameAnswer(cfg, steps, from, to, now);
    }
  }

  /** Of every settled run whose last restart came after a prune that read p, storing one more heartbeat shows
      nothing if and only if the second it was read in lies before that prune's cutoff, or at least persistEvery
      after the last second before the cutoff. */
  lemma LateHeartbeatIff(cfg: Settings, p: int, now: int, hb: Heartbeat)
    ensures (forall steps, from, to, at ::
               && Settles(cfg, steps) && PrunedBeforeRestart(steps) == Some(p)
               && LooksBeyond(cfg, from, to, at, LatestPrune(steps))
               ==> SameAnswer(cfg, Written(steps, now, hb), from, to, at))
            <==> Unix(now) < Cutoff(cfg, p) || (Unix(now) - Cutoff(cfg, p) + 1) * SECOND >= cfg.persistEvery
  {
    if Settled(cfg, Unix(now), Some(p)) {
      forall steps, from, to, at |
        && Settles(cfg, steps) && PrunedBeforeRestart(steps) == Some(p)
        && LooksBeyond(cfg, from, to, at, LatestPrune(steps))
        ensures SameAnswer(cfg, Written(steps, now, hb), from, to, at)
      {
        WrittenState(cfg, steps, now, hb);
        PruningIsInvisible(cfg, Written(steps, now, hb), from, to, at);
      }
    } else {
      var t, steps := Unix(now), SweptThenReopened(Cutoff(cfg, p) - 1, p);
      SweptThenReopenedState(cfg, Cutoff(cfg, p) - 1, p);
      UnsettledShows(cfg, p, now, hb);
      assert LooksBeyond(cfg, Some(t), Some(t), now, LatestPrune(steps));
      assert !SameAnswer(cfg, Written(steps, now, hb), Some(t), Some(t), now);
    }
  }

  /** A late query that misses rows, under any settings: it read the clock before the prune, and asks for all. */
  lemma LateQueryShows(cfg: Settings)
    requires cfg.Valid()
    ensures var n := cfg.retention + SECOND;
            Timely(SavedThenSwept(0, n)) && LatestPrune(SavedThenSwept(0, n)) == Some(n)
            && !SameAnswer(cfg, SavedThenSwept(0, n), None, None, 0)
  {
    var n := cfg.retention + SECOND;
    DivUnique(SECOND, SECOND, 1);
    SavedThenSweptState(cfg, 0, n);
    DivMonotone(0, cfg.retention, SECOND);
    OneRowShows(cfg, Run(cfg, EMPTY, SavedThenSwept(0, n)).rows, RunKeeping(cfg, EMPTY, SavedThenSwept(0, n)).rows,
                None, None, 0, 0);
  }

  /** Sub-second retention: the endpoint falls back to a two-hour window over rows already gone. */
  lemma SubSecondRetentionShows(cfg: Settings)
    requires cfg.Valid() && cfg.retention < SECOND
    ensures !Invisible(cfg)
  {
    var n := 2 * SECOND;
    DivUnique(n - cfg.retention, SECOND, 1);
    SavedThenSweptState(cfg, 0, n);
    var steps := SavedThenSwept(0, n);
    assert RetentionSeconds(cfg) == DEFAULT_RETENTION_SECONDS by { DivUnique(cfg.retention, SECOND, 0); }
    assert Unix(n) == 2;
    OneRowShows(cfg, Run(cfg, EMPTY, steps).rows, RunKeeping(cfg, EMPTY, steps).rows, None, None, n, 0);
    assert Timely(steps) && NotBefore(n, LatestPrune(steps)) && !SameAnswer(cfg, steps, None, None, n);
  }

  /** Persisting more rarely than rows live: a restart after a sweep forgets the last write, so the next
      heartbeat is stored although a store that kept the row would have skipped it. */
  lemma SparsePersistenceShows(cfg: Settings)
    requires cfg.Valid() && cfg.retention >= SECOND && !RetentionIsSound(cfg)
    ensures !Invisible(cfg)
  {
    var n, t := cfg.retention + SECOND, cfg.retention / SECOND + 1;
    DivUnique(n, SECOND, t);
    assert Cutoff(cfg, n) == 1;
    var steps := Written(SweptThenReopened(0, n), n, IDLE);
    SweptThenReopenedState(cfg, 0, n);
    WrittenState(cfg, SweptThenReopened(0, n), n, IDLE);
    UnsettledShows(cfg, n, n, IDLE);
    assert Timely(steps) && NotBefore(n, LatestPrune(steps)) && !SameAnswer(cfg, steps, Some(t), Some(t), n);
  }

  /** Deleting old rows is invisible to every reader, in every run, exactly under sound settings. */
  lemma PruningInvisibleIff(cfg: Settings)
    requires cfg.Valid()
    ensures Invisible(cfg) <==> RetentionIsSound(cfg)
  {
    if RetentionIsSound(cfg) {
      forall steps, from, to, now | Timely(steps) && NotBefore(now, LatestPrune(steps))
        ensures SameAnswer(cfg, steps, from, to, now)
      {
        TimelySettles(cfg, steps);
        TimelyLooksBeyond(cfg, from, to, now, LatestPrune(steps));
        PruningIsInvisible(cfg, steps, from, to, now);
      }
    } else if cfg.retention < SECOND {
      SubSecondRetentionShows(cfg);
    } else {
      SparsePersistenceShows(cfg);
    }
  }
}
