/** The session table: bounded, with lazy and eager eviction, against a table that never evicts anything. */
module Sessions {
  import opened Basics

  // ---------------------------------------------------------------------
  // The table
  // ---------------------------------------------------------------------

  /** evictLocked's effect: expired deadlines are dropped. */
  function Unexpired(byID: map<Id, int>, now: int): map<Id, int> {
    map id | id in byID && now < byID[id] :: byID[id]
  }

  class SessionStore {
    const ttl: int
    const maxCap: nat
    var byID: map<Id, int>

    constructor (ttl: int)
      ensures byID == map[] && maxCap == 4096
      ensures this.ttl == (if ttl <= 0 then 7 * 24 * 3600 * SECOND else ttl)
    {
      this.ttl := if ttl <= 0 then 7 * 24 * 3600 * SECOND else ttl;
      maxCap := 4096;
      byID := map[];
    }

    method Evict(now: int) returns (n: nat)
      modifies this
      ensures byID == Unexpired(old(byID), now)
      ensures n == |old(byID)| - |byID|
    {
      n := 0;
      var keys := byID.Keys;
      while keys != {}
        invariant keys <= byID.Keys
        invariant n == |old(byID)| - |byID|
        invariant forall id :: id in byID ==> id in old(byID) && byID[id] == old(byID)[id]
        invariant forall id :: id in old(byID) && now < old(byID)[id] ==> id in byID
        invariant forall id :: id in byID && now >= byID[id] ==> id in keys
        decreases |keys|
      {
        var id :| id in keys;
        if now >= byID[id] {
          assert byID.Keys == (byID - {id}).Keys + {id};
          byID := byID - {id};
          n := n + 1;
        }
        keys := keys - {id};
      }
    }

    /** `id` is the random id; None is the empty string of a full table. */
    method Create(id: Id, evictAt: int, now: int) returns (r: Option<Id>)
      requires |byID| <= maxCap
      modifies this
      ensures |byID| <= maxCap
      ensures (byID, r) == Created(old(byID), ttl, maxCap, id, evictAt, now)
    {
      if |byID| >= maxCap {
        var _ := Evict(evictAt);
        UnexpiredShrinks(old(byID), evictAt);
        if |byID| >= maxCap {
          return None;
        }
      }
      assert byID[id := now + ttl].Keys == byID.Keys + {id};
      byID := byID[id := now + ttl];
      r := Some(id);
    }

    /** Check reads the clock to test the deadline and again to push it out. */
    method Check(id: Id, now: int, again: int) returns (ok: bool)
      modifies this
      ensures (byID, ok) == Checked(old(byID), ttl, id, now, again)
      ensures |byID| <= |old(byID)|
    {
      if id == "" || id !in byID {
        return false;
      }
      if now >= byID[id] {
        assert byID.Keys == (byID - {id}).Keys + {id};
        byID := byID - {id};
        return false;
      }
      assert byID[id := again + ttl].Keys == byID.Keys;
      byID := byID[id := again + ttl];
      ok := true;
    }

    method Revoke(id: Id)
      modifies this
      ensures byID == Revoked(old(byID), id)
    {
      if id != "" {
        byID := byID - {id};
      }
    }

    method Sweep(now: int) returns (n: nat)
      modifies this
      ensures byID == Unexpired(old(byID), now)
      ensures n == |old(byID)| - |byID|
    {
      n := Evict(now);
    }
  }

  lemma UnexpiredShrinks(byID: map<Id, int>, now: int)
    ensures |Unexpired(byID, now)| <= |byID|
  {
    var kept := Unexpired(byID, now).Keys;
    assert byID.Keys == kept + (byID.Keys - kept);
  }

  function Created(byID: map<Id, int>, ttl: int, maxCap: nat, id: Id, evictAt: int, now: int)
    : (map<Id, int>, Option<Id>)
  {
    var room := if |byID| >= maxCap then Unexpired(byID, evictAt) else byID;
    if |room| >= maxCap then (room, None) else (room[id := now + ttl], Some(id))
  }

  function Checked(byID: map<Id, int>, ttl: int, id: Id, now: int, again: int): (map<Id, int>, bool) {
    if id == "" || id !in byID then (byID, false)
    else if now >= byID[id] then (byID - {id}, false)
    else (byID[id := again + ttl], true)
  }

  function Revoked(byID: map<Id, int>, id: Id): map<Id, int> {
    if id == "" then byID else byID - {id}
  }

  // ---------------------------------------------------------------------
  // Runs, and what callers see
  // ---------------------------------------------------------------------

  datatype Call =
    | Create(id: Id, evictAt: int, now: int)
    | Check(id: Id, now: int, again: int)
    | Revoke(id: Id)
    | Sweep(now: int)

  /** What the caller learns: whether a session was created, or whether one is live. */
  datatype Reply = Made(ok: bool) | Live(ok: bool) | Nothing

  function Apply(byID: map<Id, int>, ttl: int, maxCap: nat, c: Call): (map<Id, int>, Reply) {
    match c
    case Create(id, evictAt, now) =>
      var (t, r) := Created(byID, ttl, maxCap, id, evictAt, now); (t, Made(r.Some?))
    case Check(id, now, again) => var (t, ok) := Checked(byID, ttl, id, now, again); (t, Live(ok))
    case Revoke(id) => (Revoked(byID, id), Nothing)
    case Sweep(now) => (Unexpired(byID, now), Nothing)
  }

  /** The reference: when each session was last created or successfully checked. Nothing but a revocation is
      ever removed, and sweeping does nothing. */
  function TouchedWithin(touched: map<Id, int>, ttl: int, now: int): set<Id> {
    set id | id in touched && now - touched[id] < ttl
  }

  function Refer(touched: map<Id, int>, ttl: int, maxCap: nat, c: Call): (map<Id, int>, Reply) {
    match c
    case Create(id, evictAt, now) =>
      if |TouchedWithin(touched, ttl, evictAt)| >= maxCap then (touched, Made(false))
      else (touched[id := now], Made(true))
    case Check(id, now, again) =>
      if id in touched && now - touched[id] < ttl then (touched[id := again], Live(true))
      else (touched, Live(false))
    case Revoke(id) => (touched - {id}, Nothing)
    case Sweep(_) => (touched, Nothing)
  }

  function ClockAfter(clock: int, c: Call): int {
    match c
    case Create(_, _, now) => now
    case Check(_, _, again) => again
    case Revoke(_) => clock
    case Sweep(now) => now
  }

  /** The clock does not go back within the call. */
  predicate CallInOrder(clock: int, c: Call) {
    match c
    case Create(_, evictAt, now) => clock <= evictAt <= now
    case Check(_, now, again) => clock <= now <= again
    case Revoke(_) => true
    case Sweep(now) => clock <= now
  }

  /** Nor between calls; and minted ids are non-empty and not those of a session still on record. */
  predicate FreshAndInOrder(touched: map<Id, int>, ttl: int, maxCap: nat, clock: int, calls: seq<Call>)
    decreases |calls|
  {
    calls == [] ||
    (&& CallInOrder(clock, calls[0])
     && (calls[0].Create? ==> calls[0].id != "" && calls[0].id !in touched)
     && FreshAndInOrder(Refer(touched, ttl, maxCap, calls[0]).0, ttl, maxCap, ClockAfter(clock, calls[0]), calls[1..]))
  }

  function Replies(byID: map<Id, int>, ttl: int, maxCap: nat, calls: seq<Call>): seq<Reply>
    decreases |calls|
  {
    if calls == [] then []
    else
      var (t, r) := Apply(byID, ttl, maxCap, calls[0]);
      [r] + Replies(t, ttl, maxCap, calls[1..])
  }

  function ReferReplies(touched: map<Id, int>, ttl: int, maxCap: nat, calls: seq<Call>): seq<Reply>
    decreases |calls|
  {
    if calls == [] then []
    else
      var (t, r) := Refer(touched, ttl, maxCap, calls[0]);
      [r] + ReferReplies(t, ttl, maxCap, calls[1..])
  }

  /** How many entries the real table holds before the run and after each call. */
  function Sizes(byID: map<Id, int>, ttl: int, maxCap: nat, calls: seq<Call>): seq<nat>
    decreases |calls|
  {
    [|byID|] + if calls == [] then [] else Sizes(Apply(byID, ttl, maxCap, calls[0]).0, ttl, maxCap, calls[1..])
  }

  // ---------------------------------------------------------------------
  // Refinement
  // ---------------------------------------------------------------------

  /** The real table holds the reference's sessions, except some that have already expired. */
  ghost predicate Refines(byID: map<Id, int>, touched: map<Id, int>, ttl: int, maxCap: nat, clock: int) {
    && |byID| <= maxCap
    && "" !in touched
    && (forall id :: id in byID ==> id in touched && byID[id] == touched[id] + ttl)
    && (forall id :: id in touched && id !in byID ==> touched[id] + ttl <= clock)
  }

  lemma SubsetSize(a: set<Id>, b: set<Id>)
    requires a <= b
    ensures |a| <= |b|
  {
    assert b == a + (b - a);
  }

  lemma UnexpiredAreTouched(byID: map<Id, int>, touched: map<Id, int>, ttl: int, maxCap: nat, clock: int, now: int)
    requires Refines(byID, touched, ttl, maxCap, clock) && clock <= now
    ensures |Unexpired(byID, now)| == |TouchedWithin(touched, ttl, now)| <= |byID|
  {
    assert Unexpired(byID, now).Keys == TouchedWithin(touched, ttl, now);
    SubsetSize(TouchedWithin(touched, ttl, now), byID.Keys);
  }

  lemma AddingRefines(byID: map<Id, int>, touched: map<Id, int>, ttl: int, maxCap: nat, clock: int, id: Id, now: int)
    requires Refines(byID, touched, ttl, maxCap, clock) && clock <= now && |byID| < maxCap
    requires id != "" && id !in touched
    ensures Refines(byID[id := now + ttl], touched[id := now], ttl, maxCap, now)
  {
    assert byID[id := now + ttl].Keys == byID.Keys + {id};
  }

  lemma CreateRefines(byID: map<Id, int>, touched: map<Id, int>, ttl: int, maxCap: nat, clock: int, c: Call)
    requires ttl > 0 && c.Create? && Refines(byID, touched, ttl, maxCap, clock) && CallInOrder(clock, c)
    requires c.id != "" && c.id !in touched
    ensures Apply(byID, ttl, maxCap, c).1 == Refer(touched, ttl, maxCap, c).1
    ensures Refines(Apply(byID, ttl, maxCap, c).0, Refer(touched, ttl, maxCap, c).0, ttl, maxCap, c.now)
  {
    var kept := Unexpired(byID, c.evictAt);
    UnexpiredAreTouched(byID, touched, ttl, maxCap, clock, c.evictAt);
    UnexpiredShrinks(byID, c.evictAt);
    var room := if |byID| >= maxCap then kept else byID;
    assert Refines(room, touched, ttl, maxCap, c.evictAt);
    if |room| < maxCap {
      AddingRefines(room, touched, ttl, maxCap, c.evictAt, c.id, c.now);
    }
  }

  lemma OtherCallsRefine(byID: map<Id, int>, touched: map<Id, int>, ttl: int, maxCap: nat, clock: int, c: Call)
    requires ttl > 0 && !c.Create? && Refines(byID, touched, ttl, maxCap, clock) && CallInOrder(clock, c)
    ensures Apply(byID, ttl, maxCap, c).1 == Refer(touched, ttl, maxCap, c).1
    ensures Refines(Apply(byID, ttl, maxCap, c).0, Refer(touched, ttl, maxCap, c).0, ttl, maxCap, ClockAfter(clock, c))
  {
    var t := Apply(byID, ttl, maxCap, c).0;
    assert t.Keys <= byID.Keys;
    SubsetSize(t.Keys, byID.Keys);
  }

  /** Eviction cannot be observed: every Create and Check answers as the table that never evicts, whenever
      sweeps and evictions happen to run, and the table never outgrows its cap. */
  lemma {:induction false} EvictionIsInvisible(byID: map<Id, int>, touched: map<Id, int>, ttl: int, maxCap: nat,
                                               clock: int, calls: seq<Call>)
    requires ttl > 0 && Refines(byID, touched, ttl, maxCap, clock)
    requires FreshAndInOrder(touched, ttl, maxCap, clock, calls)
    ensures Replies(byID, ttl, maxCap, calls) == ReferReplies(touched, ttl, maxCap, calls)
    ensures |Sizes(byID, ttl, maxCap, calls)| == |calls| + 1
    ensures forall i :: 0 <= i <= |calls| ==> Sizes(byID, ttl, maxCap, calls)[i] <= maxCap
    decreases |calls|
  {
    if calls != [] {
      var c := calls[0];
      if c.Create? {
        CreateRefines(byID, touched, ttl, maxCap, clock, c);
      } else {
        OtherCallsRefine(byID, touched, ttl, maxCap, clock, c);
      }
      EvictionIsInvisible(Apply(byID, ttl, maxCap, c).0, Refer(touched, ttl, maxCap, c).0, ttl, maxCap,
                          ClockAfter(clock, c), calls[1..]);
    }
  }

  /** From an empty table. */
  lemma SessionsRefineReference(ttl: int, maxCap: nat, clock: int, calls: seq<Call>)
    requires ttl > 0 && FreshAndInOrder(map[], ttl, maxCap, clock, calls)
    ensures Replies(map[], ttl, maxCap, calls) == ReferReplies(map[], ttl, maxCap, calls)
    ensures |Sizes(map[], ttl, maxCap, calls)| == |calls| + 1
    ensures forall i :: 0 <= i <= |calls| ==> Sizes(map[], ttl, maxCap, calls)[i] <= maxCap
  {
    EvictionIsInvisible(map[], map[], ttl, maxCap, clock, calls);
  }
}
