/** The login limiter: a fixed-window failure counter per client, and what it bounds in any sliding window. */
module Limiter {
  import opened Basics

  datatype Bucket = Bucket(count: nat, until: int)

  // ---------------------------------------------------------------------
  // One key
  // ---------------------------------------------------------------------

  predicate Live(b: Option<Bucket>, now: int) {
    b.Some? && now < b.value.until
  }

  predicate Allowed(b: Option<Bucket>, limit: nat, now: int) {
    Live(b, now) ==> b.value.count < limit
  }

  /** Allow forgets a bucket whose window is over. */
  function AfterAllow(b: Option<Bucket>, now: int): Option<Bucket> {
    if Live(b, now) then b else None
  }

  /** Fail reads the clock once to test the bucket (at) and once more to open a new one (openAt). */
  function AfterFail(b: Option<Bucket>, window: int, at: int, openAt: int): Bucket {
    if Live(b, at) then b.value.(count := b.value.count + 1) else Bucket(1, openAt + window)
  }

  /** A bucket whose window is not over. */
  function StillLive(b: Option<Bucket>, now: int): Option<Bucket> {
    if b.Some? && now < b.value.until then b else None
  }

  /** One failure more in the same window, or the first of a new one. */
  predicate CountsFailure(was: Option<Bucket>, b: Bucket, window: int, at: int, openAt: int) {
    if was.Some? && at < was.value.until then b.count == was.value.count + 1 && b.until == was.value.until
    else b.count == 1 && b.until == openAt + window
  }

  function RetrySeconds(b: Option<Bucket>, at: int, again: int): int {
    if !Live(b, at) || b.value.until - again < 0 then 0 else CeilSeconds(b.value.until - again)
  }

  // ---------------------------------------------------------------------
  // The limiter
  // ---------------------------------------------------------------------

  class AttemptBucket {
    var count: nat
    var until: int

    constructor (until: int)
      ensures this.until == until && count == 0
    {
      this.until, count := until, 0;
    }
  }

  class LoginLimiter {
    const limit: nat
    const window: int
    var attempts: map<string, AttemptBucket>

    ghost predicate Valid()
      reads this
    {
      && limit > 0 && window > 0
      && forall a, b :: a in attempts && b in attempts && attempts[a] == attempts[b] ==> a == b
    }

    ghost function Of(key: string): Option<Bucket>
      reads this, attempts.Values
    {
      if key in attempts then Some(Bucket(attempts[key].count, attempts[key].until)) else None
    }

    constructor (limit: int, window: int)
      ensures Valid() && forall k :: Of(k) == None
      ensures this.limit == (if limit <= 0 then 5 else limit)
      ensures this.window == (if window <= 0 then 300 * SECOND else window)
    {
      this.limit := if limit <= 0 then 5 else limit;
      this.window := if window <= 0 then 300 * SECOND else window;
      attempts := map[];
    }

    method Allow(key: string, now: int) returns (ok: bool)
      requires Valid()
      modifies this
      ensures Valid() && ok == Allowed(old(Of(key)), limit, now)
      ensures !ok <==> old(key in attempts && now < attempts[key].until && attempts[key].count >= limit)
      ensures attempts.Values <= old(attempts.Values)
      ensures forall k :: Of(k) == if k == key then AfterAllow(old(Of(key)), now) else old(Of(k))
    {
      if key !in attempts {
        return true;
      }
      var b := attempts[key];
      if now >= b.until {
        attempts := attempts - {key};
        return true;
      }
      ok := b.count < limit;
    }

    method Fail(key: string, at: int, openAt: int) returns (locked: bool)
      requires Valid()
      modifies this, attempts.Values
      ensures Valid() && fresh(attempts.Values - old(attempts.Values))
      ensures Of(key) == Some(AfterFail(old(Of(key)), window, at, openAt))
      ensures forall k :: k != key ==> Of(k) == old(Of(k))
      ensures locked == (Of(key).value.count >= limit)
      ensures if old(key in attempts && at < attempts[key].until)
              then Of(key) == Some(Bucket(old(attempts[key].count) + 1, old(attempts[key].until)))
              else Of(key) == Some(Bucket(1, openAt + window))
    {
      if key !in attempts || at >= attempts[key].until {
        var bucket := new AttemptBucket(openAt + window);
        attempts := attempts[key := bucket];
      }
      var b := attempts[key];
      b.count := b.count + 1;
      locked := b.count >= limit;
    }

    method Reset(key: string)
      requires Valid()
      modifies this
      ensures Valid()
      ensures forall k :: Of(k) == if k == key then None else old(Of(k))
    {
      attempts := attempts - {key};
    }

    method RetryAfter(key: string, at: int, again: int) returns (seconds: int)
      ensures seconds == RetrySeconds(Of(key), at, again)
    {
      if key !in attempts || at >= attempts[key].until {
        return 0;
      }
      var d := attempts[key].until - again;
      if d < 0 {
        return 0;
      }
      seconds := (d + SECOND - 1) / SECOND;
    }
  }

  /** A locked-out client told to wait n seconds is let in n seconds after the answer and not after any fewer. */
  lemma RetryAfterIsExact(b: Bucket, limit: nat, at: int, now: int, n: nat)
    requires at < b.until && b.count >= limit
    ensures Allowed(Some(b), limit, now + n * SECOND) <==> n >= RetrySeconds(Some(b), at, now)
  {
    var s := RetrySeconds(Some(b), at, now);
    if n >= s {
      MulMonotone(s, n, SECOND);
    } else {
      MulMonotone(n, s - 1, SECOND);
    }
  }

  /** Its comment promises 0 when not locked; the code gives the rest of the window for any live bucket, so a
      client is told to wait although the next attempt would be let in exactly when its bucket is not yet full. */
  lemma RetryAfterIgnoresTheCount(b: Option<Bucket>, limit: nat, now: int)
    ensures RetrySeconds(b, now, now) > 0 <==> Live(b, now)
    ensures RetrySeconds(b, now, now) > 0 && Allowed(b, limit, now) <==> Live(b, now) && b.value.count < limit
  {
    if Live(b, now) {
      DivMonotone(SECOND, b.value.until - now + SECOND - 1, SECOND);
    }
  }

  // ---------------------------------------------------------------------
  // Logins handled one at a time
  // ---------------------------------------------------------------------

  datatype Outcome = BadJson | WrongPassword

  /** One handleLogin call that does not succeed, with its readings of the clock in order. */
  datatype Attempt = Attempt(allowAt: int, failAt: int, openAt: int, outcome: Outcome)

  predicate Recorded(b: Option<Bucket>, limit: nat, a: Attempt) {
    Allowed(b, limit, a.allowAt) && a.outcome == WrongPassword
  }

  function AfterLogin(b: Option<Bucket>, limit: nat, window: int, a: Attempt): Option<Bucket> {
    var b1 := AfterAllow(b, a.allowAt);
    if Recorded(b, limit, a) then Some(AfterFail(b1, window, a.failAt, a.openAt)) else b1
  }

  predicate InOrder(clock: int, attempts: seq<Attempt>)
    decreases |attempts|
  {
    attempts == [] ||
    (clock <= attempts[0].allowAt <= attempts[0].failAt <= attempts[0].openAt
     && InOrder(attempts[0].openAt, attempts[1..]))
  }

  /** How many failures with an instant in [lo, lo + window) the run records. */
  function FailuresIn(b: Option<Bucket>, limit: nat, window: int, attempts: seq<Attempt>, lo: int): nat
    decreases |attempts|
  {
    if attempts == [] then 0
    else
      (if Recorded(b, limit, attempts[0]) && lo <= attempts[0].failAt < lo + window then 1 else 0)
      + FailuresIn(AfterLogin(b, limit, window, attempts[0]), limit, window, attempts[1..], lo)
  }

  /** Failures the interval can still receive. A bucket opened inside it outlives it; only one opened before
      it can leave room for another. */
  function Room(b: Option<Bucket>, limit: nat, window: int, lo: int, clock: int): int {
    if clock < lo then 2 * limit - 1
    else if clock >= lo + window then 0
    else if b.None? then limit
    else Max(limit - b.value.count, 0) + (if b.value.until >= lo + window then 0 else limit)
  }

  lemma LoginUsesRoom(b: Option<Bucket>, limit: nat, window: int, a: Attempt, lo: int, clock: int)
    requires limit > 0 && window > 0 && InOrder(clock, [a])
    requires b.Some? ==> b.value.count > 0
    ensures var b' := AfterLogin(b, limit, window, a);
            && (b'.Some? ==> b'.value.count > 0)
            && (if Recorded(b, limit, a) && lo <= a.failAt < lo + window then 1 else 0)
               + Room(b', limit, window, lo, a.openAt) <= Room(b, limit, window, lo, clock)
  {
  }

  lemma {:induction false} FailuresFitInRoom(b: Option<Bucket>, limit: nat, window: int, attempts: seq<Attempt>,
                                             lo: int, clock: int)
    requires limit > 0 && window > 0 && InOrder(clock, attempts)
    requires b.Some? ==> b.value.count > 0
    ensures FailuresIn(b, limit, window, attempts, lo) <= Room(b, limit, window, lo, clock)
    decreases |attempts|
  {
    if attempts != [] {
      LoginUsesRoom(b, limit, window, attempts[0], lo, clock);
      FailuresFitInRoom(AfterLogin(b, limit, window, attempts[0]), limit, window, attempts[1..], lo,
                        attempts[0].openAt);
    }
  }

  /** The fixed window's price: no half-open interval of one window's length ever holds 2 * limit failures. */
  lemma SlidingWindowBound(limit: nat, window: int, attempts: seq<Attempt>, lo: int, clock: int)
    requires limit > 0 && window > 0 && InOrder(clock, attempts)
    ensures FailuresIn(None, limit, window, attempts, lo) <= 2 * limit - 1
  {
    FailuresFitInRoom(None, limit, window, attempts, lo, clock);
  }

  function Burst(at: int, n: nat): seq<Attempt> {
    seq(n, _ => Attempt(at, at, at, WrongPassword))
  }

  lemma {:induction false} BurstFails(b: Option<Bucket>, limit: nat, window: int, at: int, n: nat,
                                      rest: seq<Attempt>, lo: int)
    requires limit > 0 && window > 0 && Live(b, at) && b.value.count + n <= limit
    ensures FailuresIn(b, limit, window, Burst(at, n) + rest, lo)
            == (if lo <= at < lo + window then n else 0)
               + FailuresIn(Some(b.value.(count := b.value.count + n)), limit, window, rest, lo)
    decreases n
  {
    var all := Burst(at, n) + rest;
    if n == 0 {
      assert all == rest;
    } else {
      assert all[0] == Attempt(at, at, at, WrongPassword);
      assert all[1..] == Burst(at, n - 1) + rest;
      BurstFails(AfterLogin(b, limit, window, all[0]), limit, window, at, n - 1, rest, lo);
    }
  }

  lemma {:induction false} BurstInOrder(clock: int, at: int, n: nat, rest: seq<Attempt>)
    requires clock <= at && InOrder(at, rest)
    ensures InOrder(clock, Burst(at, n) + rest)
    decreases n
  {
    var all := Burst(at, n) + rest;
    if n == 0 {
      assert all == rest;
      assert rest != [] ==> clock <= rest[0].allowAt;
    } else {
      assert all[0] == Attempt(at, at, at, WrongPassword);
      assert all[1..] == Burst(at, n - 1) + rest;
      BurstInOrder(at, at, n - 1, rest);
    }
  }

  /** One failure, then the rest of its window's allowance just before it ends and a full one just after. */
  function Straddle(limit: nat, window: int): seq<Attempt>
    requires limit > 0
  {
    Burst(0, 1) + (Burst(window - 1, limit - 1) + (Burst(window, 1) + (Burst(window, limit - 1) + [])))
  }

  lemma StraddleInOrder(limit: nat, window: int)
    requires limit > 0 && window > 1
    ensures InOrder(0, Straddle(limit, window))
  {
    var s4 := Burst(window, limit - 1) + [];
    var s3 := Burst(window, 1) + s4;
    var s2 := Burst(window - 1, limit - 1) + s3;
    BurstInOrder(window, window, limit - 1, []);
    BurstInOrder(window - 1, window, 1, s4);
    BurstInOrder(0, window - 1, limit - 1, s3);
    BurstInOrder(0, 0, 1, s2);
  }

  /** A failure that finds no live bucket opens one. */
  lemma OpeningFailure(b: Option<Bucket>, limit: nat, window: int, at: int, rest: seq<Attempt>, lo: int)
    requires limit > 0 && window > 0 && !Live(b, at)
    ensures FailuresIn(b, limit, window, Burst(at, 1) + rest, lo)
            == (if lo <= at < lo + window then 1 else 0)
               + FailuresIn(Some(Bucket(1, at + window)), limit, window, rest, lo)
  {
    var all := Burst(at, 1) + rest;
    assert all[0] == Attempt(at, at, at, WrongPassword) && all[1..] == rest;
  }

  /** The bound is reached, for every limit. */
  lemma SlidingWindowBoundIsTight(limit: nat, window: int)
    requires limit > 0 && window > 1
    ensures InOrder(0, Straddle(limit, window))
    ensures FailuresIn(None, limit, window, Straddle(limit, window), window - 1) == 2 * limit - 1
  {
    StraddleInOrder(limit, window);
    var s4 := Burst(window, limit - 1) + [];
    var s3 := Burst(window, 1) + s4;
    var s2 := Burst(window - 1, limit - 1) + s3;
    var lo := window - 1;
    OpeningFailure(None, limit, window, 0, s2, lo);
    BurstFails(Some(Bucket(1, window)), limit, window, window - 1, limit - 1, s3, lo);
    OpeningFailure(Some(Bucket(limit, window)), limit, window, window, s4, lo);
    BurstFails(Some(Bucket(1, window + window)), limit, window, window, limit - 1, [], lo);
  }

  // ---------------------------------------------------------------------
  // Requests in flight at the same time
  // ---------------------------------------------------------------------

  /** inFlight requests of this key are past Allow and have not yet failed, succeeded or been dropped. */
  datatype Shared = Shared(bucket: Option<Bucket>, inFlight: nat)

  datatype Section =
    | AllowSection(now: int)
    | FailSection(at: int, openAt: int)
    | ResetSection
    | Dropped            // the body was not JSON

  predicate Possible(s: Shared, e: Section) {
    e.AllowSection? || s.inFlight > 0
  }

  function Enter(s: Shared, limit: nat, window: int, e: Section): Shared
    requires Possible(s, e)
  {
    match e
    case AllowSection(now) =>
      Shared(AfterAllow(s.bucket, now), s.inFlight + if Allowed(s.bucket, limit, now) then 1 else 0)
    case FailSection(at, openAt) => Shared(Some(AfterFail(s.bucket, window, at, openAt)), s.inFlight - 1)
    case ResetSection => Shared(None, s.inFlight - 1)
    case Dropped => Shared(s.bucket, s.inFlight - 1)
  }

  /** Any interleaving that never has more than m requests in flight. */
  predicate Interleaving(s: Shared, limit: nat, window: int, m: nat, run: seq<Section>)
    decreases |run|
  {
    s.inFlight <= m &&
    (run == [] ||
     (Possible(s, run[0]) && Interleaving(Enter(s, limit, window, run[0]), limit, window, m, run[1..])))
  }

  function EnterAll(s: Shared, limit: nat, window: int, m: nat, run: seq<Section>): Shared
    requires Interleaving(s, limit, window, m, run)
    decreases |run|
  {
    if run == [] then s else EnterAll(Enter(s, limit, window, run[0]), limit, window, m, run[1..])
  }

  /** Requests racing past Allow overshoot the limit by less than their number, on any clock. */
  lemma {:induction false} OvershootIsBounded(s: Shared, limit: nat, window: int, m: nat, run: seq<Section>)
    requires limit > 0 && Interleaving(s, limit, window, m, run)
    requires s.bucket.Some? ==> s.bucket.value.count + s.inFlight <= limit - 1 + m
    ensures var end := EnterAll(s, limit, window, m, run);
            end.bucket.Some? ==> end.bucket.value.count + end.inFlight <= limit - 1 + m
    decreases |run|
  {
    if run != [] {
      var s' := Enter(s, limit, window, run[0]);
      assert s'.inFlight <= m;
      OvershootIsBounded(s', limit, window, m, run[1..]);
    }
  }

  /** Before its deadline a live bucket's window is neither extended nor reopened, and failures only add to it:
      whatever arrives, short of a successful login by a request already in flight, the deadline stays put, and
      once the bucket is full nobody is let in. */
  lemma {:induction false} LockHolds(s: Shared, limit: nat, window: int, m: nat, run: seq<Section>, until: int)
    requires Interleaving(s, limit, window, m, run)
    requires s.bucket.Some? && s.bucket.value.until == until
    requires forall i :: 0 <= i < |run| ==>
               match run[i]
               case AllowSection(now) => now < until
               case FailSection(at, _) => at < until
               case ResetSection => false
               case Dropped => true
    ensures var end := EnterAll(s, limit, window, m, run);
            && end.bucket.Some? && end.bucket.value.until == until && end.bucket.value.count >= s.bucket.value.count
            && (s.bucket.value.count >= limit ==> end.inFlight <= s.inFlight)
    decreases |run|
  {
    if run != [] {
      var e := run[0];
      assert run[0] == e;
      LockHolds(Enter(s, limit, window, e), limit, window, m, run[1..], until);
    }
  }
}
