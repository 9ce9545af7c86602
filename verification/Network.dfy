/** The agent's traffic rates: differences of interface counters that may reset, appear and vanish between
    readings. */
module Network {
  import opened Basics
  import Text
  import Traffic

  // ---------------------------------------------------------------------
  // Sums over interfaces
  // ---------------------------------------------------------------------

  ghost function SumOf(m: map<string, nat>): nat {
    if m == map[] then 0
    else
      var k :| k in m;
      m[k] + SumOf(m - {k})
  }

  lemma {:induction false} SumWithout(m: map<string, nat>, k: string)
    requires k in m
    ensures SumOf(m) == m[k] + SumOf(m - {k})
    decreases |m|
  {
    var j :| j in m && SumOf(m) == m[j] + SumOf(m - {j});
    if j != k {
      SumWithout(m - {j}, k);
      SumWithout(m - {k}, j);
      assert m - {j} - {k} == m - {k} - {j};
    }
  }

  lemma SumWith(m: map<string, nat>, k: string, v: nat)
    ensures SumOf(m[k := v]) == v + SumOf(m - {k})
    ensures k !in m ==> m - {k} == m
  {
    SumWithout(m[k := v], k);
    assert m[k := v] - {k} == m - {k};
  }

  function At(m: map<string, nat>, k: string): nat {
    if k in m then m[k] else 0
  }

  lemma {:induction false} SumMonotone(a: map<string, nat>, b: map<string, nat>)
    requires forall k :: k in a ==> a[k] <= At(b, k)
    ensures SumOf(a) <= SumOf(b)
    decreases |a|
  {
    if a != map[] {
      var k :| k in a;
      SumWithout(a, k);
      SumMonotone(a - {k}, b - {k});
      if k in b {
        SumWithout(b, k);
      } else {
        assert b - {k} == b;
      }
    }
  }

  lemma {:induction false} SumSplits(c: map<string, nat>, a: map<string, nat>, b: map<string, nat>)
    requires forall k :: k in c ==> c[k] <= At(a, k) + At(b, k)
    ensures SumOf(c) <= SumOf(a) + SumOf(b)
    decreases |c|
  {
    if c != map[] {
      var k :| k in c;
      SumWithout(c, k);
      SumSplits(c - {k}, a - {k}, b - {k});
      if k in a { SumWithout(a, k); } else { assert a - {k} == a; }
      if k in b { SumWithout(b, k); } else { assert b - {k} == b; }
    }
  }

  // ---------------------------------------------------------------------
  // One reading
  // ---------------------------------------------------------------------

  datatype IOStat = IOStat(name: string, sent: nat, recv: nat)

  predicate IsLoopback(name: string) {
    name == "lo" || name == "lo0" || name == "Loopback" || name == "Loopback Pseudo-Interface 1"
    || Text.IsPrefix("loopback", Text.Lower(name))
  }

  /** The counters of one direction by name; a repeated name keeps its last entry. */
  function ByName(list: seq<IOStat>, sent: bool): map<string, nat> {
    if list == [] then map[]
    else
      var n := list[|list| - 1];
      var rest := ByName(list[..|list| - 1], sent);
      if IsLoopback(n.name) then rest else rest[n.name := if sent then n.sent else n.recv]
  }

  function Total(list: seq<IOStat>, sent: bool): nat {
    if list == [] then 0
    else
      var n := list[|list| - 1];
      Total(list[..|list| - 1], sent) + (if IsLoopback(n.name) then 0 else if sent then n.sent else n.recv)
  }

  /** What each interface known at both readings gained; one that went backwards gained nothing. */
  function Gains(cur: map<string, nat>, prev: map<string, nat>): map<string, nat> {
    map k | k in cur && k in prev :: if cur[k] >= prev[k] then cur[k] - prev[k] else 0
  }

  function Seconds(d: int): real {
    d as real / 1_000_000_000.0
  }

  predicate LongEnough(dt: int) {
    Seconds(dt) > 0.25
  }

  /** uint64(float64(bytes) / dt) */
  function Rate(bytes: nat, dt: int): nat
    requires LongEnough(dt)
  {
    RateIsNat(bytes as real, Seconds(dt));
    (bytes as real / Seconds(dt)).Floor
  }

  lemma RateIsNat(x: real, q: real)
    requires x >= 0.0 && q > 0.0
    ensures (x / q).Floor >= 0 && (x / q).Floor as real * q <= x
  {
    var r := x / q;
    assert r * q == x;
    RealMulSign(r, q);
    var gap := r - r.Floor as real;
    assert gap >= 0.0;
    RealMulSign(gap, q);
    assert gap * q == x - r.Floor as real * q;
  }

  lemma RateIsBacked(bytes: nat, dt: int)
    requires LongEnough(dt)
    ensures Rate(bytes, dt) as real * Seconds(dt) <= bytes as real
  {
    RateIsNat(bytes as real, Seconds(dt));
  }

  /** In whole numbers, with the window in nanoseconds: the rate is the bytes gained per second, rounded down. */
  predicate PerSecond(rate: nat, gained: nat, window: int) {
    rate * window <= gained * 1_000_000_000 < (rate + 1) * window
  }

  lemma FloorIsTight(x: real, q: real)
    requires x >= 0.0 && q > 0.0
    ensures x < ((x / q).Floor + 1) as real * q
  {
    var r := x / q;
    assert r * q == x;
    var gap := (r.Floor + 1) as real - r;
    assert gap > 0.0;
    RealMulSign(gap, q);
    assert gap * q == (r.Floor + 1) as real * q - x;
  }

  lemma InNanoseconds(n: nat, x: nat, dt: int)
    ensures n as real * Seconds(dt) <= x as real ==> n * dt <= x * 1_000_000_000
    ensures x as real < n as real * Seconds(dt) ==> x * 1_000_000_000 < n * dt
  {
    var e := 1_000_000_000.0;
    assert n as real * Seconds(dt) * e == n as real * dt as real == (n * dt) as real;
    assert x as real * e == (x * 1_000_000_000) as real;
  }

  lemma RateIsPerSecond(bytes: nat, dt: int)
    requires LongEnough(dt)
    ensures PerSecond(Rate(bytes, dt), bytes, dt)
  {
    RateIsNat(bytes as real, Seconds(dt));
    FloorIsTight(bytes as real, Seconds(dt));
    InNanoseconds(Rate(bytes, dt), bytes, dt);
    InNanoseconds(Rate(bytes, dt) + 1, bytes, dt);
  }

  /** What the heartbeat reports of bytes gained since the last reading: their rate if the window is longer than a
      quarter second, else nothing. */
  predicate ReportsRate(rate: nat, gained: nat, prevTime: Option<int>, now: int) {
    if prevTime.Some? && now - prevTime.value > 250_000_000 then PerSecond(rate, gained, now - prevTime.value)
    else rate == 0
  }

  lemma RateForReports(gained: nat, prevTime: Option<int>, now: int)
    ensures ReportsRate(RateFor(gained, prevTime, now), gained, prevTime, now)
  {
    if prevTime.Some? && LongEnough(now - prevTime.value) {
      RateIsPerSecond(gained, now - prevTime.value);
    }
  }

  /** The rate set in the heartbeat: none on the first reading or after too short a window. */
  function RateFor(gained: nat, prevTime: Option<int>, now: int): nat {
    if prevTime.Some? && LongEnough(now - prevTime.value) then Rate(gained, now - prevTime.value) else 0
  }

  /** The bytes such a rate stands for: the rate times the interval it covers. */
  function BytesOf(rate: nat, prevTime: Option<int>, now: int): real {
    if prevTime.None? then 0.0 else rate as real * Seconds(now - prevTime.value)
  }

  lemma RateForIsBacked(gained: nat, prevTime: Option<int>, now: int)
    ensures BytesOf(RateFor(gained, prevTime, now), prevTime, now) <= gained as real
  {
    if prevTime.Some? && LongEnough(now - prevTime.value) {
      RateIsBacked(gained, now - prevTime.value);
    }
  }

  ghost function Reported(cur: map<string, nat>, prev: map<string, nat>, prevTime: Option<int>, now: int): nat {
    RateFor(SumOf(Gains(cur, prev)), prevTime, now)
  }

  class Collector {
    var prevSent: map<string, nat>
    var prevRecv: map<string, nat>
    var prevTime: Option<int>

    ghost predicate Valid()
      reads this
    {
      prevSent.Keys == prevRecv.Keys
    }

    constructor ()
      ensures Valid() && prevSent == map[] && prevRecv == map[] && prevTime == None
    {
      prevSent, prevRecv, prevTime := map[], map[], None;
    }

    /** fillNet on the counters the system reports. */
    method FillNet(counters: seq<IOStat>, now: int) returns (totalUp: nat, totalDown: nat, netUp: nat, netDown: nat)
      requires Valid()
      modifies this
      ensures Valid()
      ensures prevSent == ByName(counters, true) && prevRecv == ByName(counters, false) && prevTime == Some(now)
      ensures totalUp == Total(counters, true) && totalDown == Total(counters, false)
      ensures netUp == Reported(ByName(counters, true), old(prevSent), old(prevTime), now)
      ensures netDown == Reported(ByName(counters, false), old(prevRecv), old(prevTime), now)
      ensures ReportsRate(netUp, SumOf(Gains(prevSent, old(prevSent))), old(prevTime), now)
      ensures ReportsRate(netDown, SumOf(Gains(prevRecv, old(prevRecv))), old(prevTime), now)
    {
      totalUp, totalDown, netUp, netDown := 0, 0, 0, 0;
      var sent: map<string, nat>, recv: map<string, nat> := map[], map[];
      for i := 0 to |counters|
        invariant sent == ByName(counters[..i], true) && recv == ByName(counters[..i], false)
        invariant sent.Keys == recv.Keys
        invariant totalUp == Total(counters[..i], true) && totalDown == Total(counters[..i], false)
      {
        assert counters[..i + 1][..i] == counters[..i];
        var n := counters[i];
        if !IsLoopback(n.name) {
          sent, recv := sent[n.name := n.sent], recv[n.name := n.recv];
          totalUp, totalDown := totalUp + n.sent, totalDown + n.recv;
        }
      }
      assert counters[..|counters|] == counters;
      if prevTime.Some? && LongEnough(now - prevTime.value) {
        var up, down := SumGains(sent, recv);
        netUp, netDown := Rate(up, now - prevTime.value), Rate(down, now - prevTime.value);
      }
      RateForReports(SumOf(Gains(sent, prevSent)), prevTime, now);
      RateForReports(SumOf(Gains(recv, prevRecv)), prevTime, now);
      prevSent, prevRecv, prevTime := sent, recv, Some(now);
    }

    /** The loop over the current interfaces, in whatever order the map yields them. */
    method SumGains(sent: map<string, nat>, recv: map<string, nat>) returns (up: nat, down: nat)
      requires Valid() && sent.Keys == recv.Keys
      ensures up == SumOf(Gains(sent, prevSent)) && down == SumOf(Gains(recv, prevRecv))
    {
      up, down := 0, 0;
      var names := sent.Keys;
      ghost var ups, downs := Gains(sent, prevSent), Gains(recv, prevRecv);
      ghost var upsLeft, downsLeft := ups, downs;
      while names != {}
        invariant names <= sent.Keys
        invariant upsLeft == Keep(ups, names) && downsLeft == Keep(downs, names)
        invariant up + SumOf(upsLeft) == SumOf(ups)
        invariant down + SumOf(downsLeft) == SumOf(downs)
        decreases |names|
      {
        var name :| name in names;
        KeepSum(ups, names, name);
        KeepSum(downs, names, name);
        ghost var up0, down0 := up, down;
        if name in prevSent {
          if sent[name] >= prevSent[name] {
            up := up + (sent[name] - prevSent[name]);
          }
          if recv[name] >= prevRecv[name] {
            down := down + (recv[name] - prevRecv[name]);
          }
        }
        assert up == up0 + At(ups, name) && down == down0 + At(downs, name);
        names := names - {name};
        upsLeft, downsLeft := Keep(ups, names), Keep(downs, names);
      }
    }
  }

  function Keep(m: map<string, nat>, names: set<string>): map<string, nat> {
    map k | k in m && k in names :: m[k]
  }

  lemma KeepSum(m: map<string, nat>, names: set<string>, k: string)
    requires k in names
    ensures SumOf(Keep(m, names)) == At(m, k) + SumOf(Keep(m, names - {k}))
  {
    if k in m {
      SumWithout(Keep(m, names), k);
      assert Keep(m, names) - {k} == Keep(m, names - {k});
    } else {
      assert Keep(m, names) == Keep(m, names - {k});
    }
  }

  // ---------------------------------------------------------------------
  // Over any run, what is reported was moved
  // ---------------------------------------------------------------------

  /** One direction of a host: its counters; per interface the bytes moved since the last reading; all bytes
      ever moved; the collector's memory; and the bytes its reported rates stand for. */
  datatype World = World(counter: map<string, nat>, since: map<string, nat>, moved: nat,
                         prev: map<string, nat>, prevTime: Option<int>, claimed: real)

  datatype Event =
    | Move(name: string, bytes: nat)
    | Appear(name: string, start: nat)
    | Vanish(name: string)
    | ResetToZero(name: string)
    | Collect(now: int)

  /** Traffic flows over existing interfaces; a new interface starts from zero, or anywhere if the collector
      did not see one of that name at its last reading. */
  predicate CanHappen(w: World, e: Event) {
    match e
    case Move(name, _) => name in w.counter
    case Appear(name, start) => name !in w.counter && (start == 0 || name !in w.prev)
    case Vanish(name) => name in w.counter
    case ResetToZero(name) => name in w.counter
    case Collect(_) => true
  }

  ghost function Happen(w: World, e: Event): World {
    match e
    case Move(name, bytes) =>
      w.(counter := w.counter[name := At(w.counter, name) + bytes],
         since := w.since[name := At(w.since, name) + bytes], moved := w.moved + bytes)
    case Appear(name, start) => w.(counter := w.counter[name := start])
    case Vanish(name) => w.(counter := w.counter - {name})
    case ResetToZero(name) => w.(counter := w.counter[name := 0])
    case Collect(now) =>
      w.(since := map[], prev := w.counter, prevTime := Some(now),
         claimed := w.claimed + BytesOf(Reported(w.counter, w.prev, w.prevTime, now), w.prevTime, now))
  }

  ghost predicate Possible(w: World, events: seq<Event>)
    decreases |events|
  {
    events == [] || (CanHappen(w, events[0]) && Possible(Happen(w, events[0]), events[1..]))
  }

  ghost function HappenAll(w: World, events: seq<Event>): World
    decreases |events|
  {
    if events == [] then w else HappenAll(Happen(w, events[0]), events[1..])
  }

  ghost predicate Inv(w: World) {
    && (forall k :: k in w.counter && k in w.prev ==> w.counter[k] <= w.prev[k] + At(w.since, k))
    && w.claimed + SumOf(w.since) as real <= w.moved as real
  }

  lemma GainsWereMoved(w: World)
    requires Inv(w)
    ensures SumOf(Gains(w.counter, w.prev)) <= SumOf(w.since)
  {
    SumMonotone(Gains(w.counter, w.prev), w.since);
  }

  lemma CollectClaimsLittle(w: World, now: int)
    requires Inv(w)
    ensures Inv(Happen(w, Collect(now)))
  {
    var gained := SumOf(Gains(w.counter, w.prev));
    GainsWereMoved(w);
    RateForIsBacked(gained, w.prevTime, now);
    assert SumOf(map[]) == 0;
  }

  lemma EventKeepsInv(w: World, e: Event)
    requires Inv(w) && CanHappen(w, e)
    ensures Inv(Happen(w, e))
  {
    match e
    case Move(name, bytes) =>
      SumWith(w.since, name, At(w.since, name) + bytes);
      if name in w.since { SumWithout(w.since, name); }
    case Collect(now) => CollectClaimsLittle(w, now);
    case _ =>
  }

  lemma {:induction false} InvHolds(w: World, events: seq<Event>)
    requires Inv(w) && Possible(w, events)
    ensures Inv(HappenAll(w, events))
    decreases |events|
  {
    if events != [] {
      EventKeepsInv(w, events[0]);
      InvHolds(Happen(w, events[0]), events[1..]);
    }
  }

  /** The reported rates, each times the interval it covers, never add up to more than the bytes moved since
      the agent started, whatever the interfaces and the clock do. */
  lemma NeverOverReported(counter: map<string, nat>, events: seq<Event>)
    requires Possible(World(counter, map[], 0, map[], None, 0.0), events)
    ensures var w := HappenAll(World(counter, map[], 0, map[], None, 0.0), events);
            w.claimed <= w.moved as real
  {
    InvHolds(World(counter, map[], 0, map[], None, 0.0), events);
  }

  // ---------------------------------------------------------------------
  // Nothing lost on a quiet host
  // ---------------------------------------------------------------------

  /** One call of fillNet: when it read the clock and what it read. */
  datatype Reading = Reading(now: int, counter: map<string, nat>)

  /** The deltas the rates are made from: a window of a quarter second or less reports nothing. */
  ghost function GainsOver(readings: seq<Reading>): nat {
    if |readings| < 2 then 0
    else
      var prev, cur := readings[|readings| - 2], readings[|readings| - 1];
      GainsOver(readings[..|readings| - 1])
      + (if LongEnough(cur.now - prev.now) then SumOf(Gains(cur.counter, prev.counter)) else 0)
  }

  /** What moved in the windows that were too short. */
  ghost function LostOver(readings: seq<Reading>): nat {
    if |readings| < 2 then 0
    else
      var prev, cur := readings[|readings| - 2], readings[|readings| - 1];
      LostOver(readings[..|readings| - 1])
      + (if LongEnough(cur.now - prev.now) then 0 else SumOf(Gains(cur.counter, prev.counter)))
  }

  /** The same interfaces, none of them reset. */
  predicate Grew(prev: map<string, nat>, cur: map<string, nat>) {
    cur.Keys == prev.Keys && forall k :: k in cur ==> cur[k] >= prev[k]
  }

  lemma {:induction false} GainIsDifference(cur: map<string, nat>, prev: map<string, nat>)
    requires Grew(prev, cur)
    ensures SumOf(Gains(cur, prev)) + SumOf(prev) == SumOf(cur)
    decreases |cur|
  {
    if cur == map[] {
      assert prev == map[] && Gains(cur, prev) == map[];
    } else {
      var k :| k in cur;
      GainIsDifference(cur - {k}, prev - {k});
      assert Gains(cur, prev) - {k} == Gains(cur - {k}, prev - {k});
      SumWithout(cur, k);
      SumWithout(prev, k);
      SumWithout(Gains(cur, prev), k);
    }
  }

  ghost predicate QuietHost(readings: seq<Reading>) {
    forall i, j :: 0 <= i < j == i + 1 < |readings| ==> Grew(readings[i].counter, readings[j].counter)
  }

  /** With a fixed set of interfaces and no resets, reported and lost deltas together are last total minus first. */
  lemma {:induction false} DeltasAddUp(readings: seq<Reading>)
    requires readings != [] && QuietHost(readings)
    ensures GainsOver(readings) + LostOver(readings) + SumOf(readings[0].counter)
            == SumOf(readings[|readings| - 1].counter)
    decreases |readings|
  {
    if |readings| > 1 {
      DeltasAddUp(readings[..|readings| - 1]);
      GainIsDifference(readings[|readings| - 1].counter, readings[|readings| - 2].counter);
    }
  }

  lemma {:induction false} NothingLost(readings: seq<Reading>)
    requires forall i, j :: 0 <= i < j == i + 1 < |readings| ==> LongEnough(readings[j].now - readings[i].now)
    ensures LostOver(readings) == 0
    decreases |readings|
  {
    if |readings| > 1 {
      NothingLost(readings[..|readings| - 1]);
    }
  }

  /** When every window is also longer than a quarter second, the reported deltas telescope. */
  lemma DeltasTelescope(readings: seq<Reading>)
    requires readings != [] && QuietHost(readings)
    requires forall i, j :: 0 <= i < j == i + 1 < |readings| ==> LongEnough(readings[j].now - readings[i].now)
    ensures GainsOver(readings) + SumOf(readings[0].counter) == SumOf(readings[|readings| - 1].counter)
  {
    DeltasAddUp(readings);
    NothingLost(readings);
  }

  /** The bytes the reported rates stand for, times 10^9: each rate times its window in nanoseconds. */
  ghost function ReportedOver(readings: seq<Reading>): int {
    if |readings| < 2 then 0
    else
      var prev, cur := readings[|readings| - 2], readings[|readings| - 1];
      ReportedOver(readings[..|readings| - 1])
      + Reported(cur.counter, prev.counter, Some(prev.now), cur.now) * (cur.now - prev.now)
  }

  /** The windows that are long enough, together. */
  function WindowsOver(readings: seq<Reading>): int {
    if |readings| < 2 then 0
    else
      var window := readings[|readings| - 1].now - readings[|readings| - 2].now;
      WindowsOver(readings[..|readings| - 1]) + if window > 250_000_000 then window else 0
  }

  lemma LongEnoughIff(dt: int)
    ensures LongEnough(dt) <==> dt > 250_000_000
  {
  }

  /** One report of a run: what its rate stands for, and what it may miss. */
  lemma ReportIsExact(gained: nat, prev: int, now: int)
    ensures var rate, window := RateFor(gained, Some(prev), now), now - prev;
            if LongEnough(window)
            then window > 250_000_000 && rate * window <= gained * 1_000_000_000 <= rate * window + window
            else window <= 250_000_000 && rate * window == 0
  {
    RateForReports(gained, Some(prev), now);
    LongEnoughIff(now - prev);
  }

  lemma {:induction false} RatesAreExact(readings: seq<Reading>)
    ensures ReportedOver(readings) <= GainsOver(readings) * 1_000_000_000
            <= ReportedOver(readings) + WindowsOver(readings)
    decreases |readings|
  {
    if |readings| >= 2 {
      var prev, cur := readings[|readings| - 2], readings[|readings| - 1];
      RatesAreExact(readings[..|readings| - 1]);
      ReportIsExact(SumOf(Gains(cur.counter, prev.counter)), prev.now, cur.now);
    }
  }

  /** On such a host the reported rates account for everything that moved: rate times window, summed, stays within
      one byte per second of last total minus first, less what moved in windows too short to report. */
  lemma RatesAccountForAll(readings: seq<Reading>)
    requires readings != [] && QuietHost(readings)
    ensures var moved := SumOf(readings[|readings| - 1].counter) - SumOf(readings[0].counter) - LostOver(readings);
            ReportedOver(readings) <= moved * 1_000_000_000 <= ReportedOver(readings) + WindowsOver(readings)
  {
    RatesAreExact(readings);
    DeltasAddUp(readings);
  }

  lemma {:induction false} CountersOfDirection(list: seq<IOStat>, sent: bool)
    requires forall i, j :: 0 <= i < j < |list| ==> list[i].name != list[j].name
    ensures forall i :: 0 <= i < |list| && !IsLoopback(list[i].name) ==>
              list[i].name in ByName(list, sent)
              && ByName(list, sent)[list[i].name] == if sent then list[i].sent else list[i].recv
    ensures forall k :: k in ByName(list, sent) ==> !IsLoopback(k)
  {
    if list != [] {
      var init := list[..|list| - 1];
      assert forall i :: 0 <= i < |init| ==> init[i] == list[i] && init[i].name != list[|list| - 1].name;
      CountersOfDirection(init, sent);
    }
  }

  /** The counters of each direction are those of the listed interfaces but the loopback ones, each under its own
      name, if each is listed once. */
  lemma CountersByName(list: seq<IOStat>)
    requires forall i, j :: 0 <= i < j < |list| ==> list[i].name != list[j].name
    ensures var up, down := ByName(list, true), ByName(list, false);
            && (forall i :: 0 <= i < |list| && !IsLoopback(list[i].name) ==>
                  && list[i].name in up && up[list[i].name] == list[i].sent
                  && list[i].name in down && down[list[i].name] == list[i].recv)
            && (forall k :: k in up || k in down ==>
                  !IsLoopback(k) && exists i :: 0 <= i < |list| && list[i].name == k)
  {
    CountersOfDirection(list, true);
    CountersOfDirection(list, false);
    TotalIsSum(list, true);
    TotalIsSum(list, false);
  }

  lemma PrefixIff(p: string, name: string)
    requires |p| <= |name|
    ensures Text.IsPrefix(p, Text.Lower(name)) <==> forall i :: 0 <= i < |p| ==> Text.LowerChar(name[i]) == p[i]
  {
    var s := Text.Lower(name);
    if s[..|p|] == p {
      assert forall i :: 0 <= i < |p| ==> s[..|p|][i] == p[i];
    }
    if forall i :: 0 <= i < |p| ==> Text.LowerChar(name[i]) == p[i] {
      assert forall i :: 0 <= i < |p| ==> s[..|p|][i] == p[i];
      assert s[..|p|] == p;
    }
  }

  /** Left out are lo, lo0 and every name that begins with "loopback" in any case. */
  lemma LoopbackIff(name: string)
    ensures IsLoopback(name)
            <==> name == "lo" || name == "lo0"
                 || (|name| >= 8 && forall i :: 0 <= i < 8 ==> Text.LowerChar(name[i]) == "loopback"[i])
  {
    var p: string := "loopback";
    if |name| >= 8 {
      PrefixIff(p, name);
    }
  }

  /** Between two readings, an interface known at both gains the difference, or nothing if its counter fell; one
      that is new or gone does not count. */
  lemma GainsAreExact(cur: map<string, nat>, prev: map<string, nat>, name: string)
    ensures name in Gains(cur, prev) <==> name in cur && name in prev
    ensures name in cur && name in prev ==>
              prev[name] + Gains(cur, prev)[name] == Max(prev[name], cur[name])
  {
  }

  /** An interface that neither vanishes nor resets between two readings gains exactly what it moved, whatever the
      others do. */
  lemma {:induction false} InterfaceGainsWhatMoved(w: World, events: seq<Event>, name: string)
    requires Possible(w, events) && name in w.counter && name in w.prev
    requires w.counter[name] == w.prev[name] + At(w.since, name)
    requires forall i :: 0 <= i < |events| ==> !events[i].Collect? && (events[i].name == name ==> events[i].Move?)
    ensures var end := HappenAll(w, events);
            && name in Gains(end.counter, end.prev)
            && Gains(end.counter, end.prev)[name] == At(end.since, name)
    decreases |events|
  {
    if events != [] {
      assert events[0] in events;
      InterfaceGainsWhatMoved(Happen(w, events[0]), events[1..], name);
    }
  }

  /** The cumulative total a heartbeat carries is the sum over the interfaces, if each is listed once. */
  lemma {:induction false} TotalIsSum(list: seq<IOStat>, sent: bool)
    requires forall i, j :: 0 <= i < j < |list| ==> list[i].name != list[j].name
    ensures Total(list, sent) == SumOf(ByName(list, sent))
    ensures forall k :: k in ByName(list, sent) ==> exists i :: 0 <= i < |list| && list[i].name == k
  {
    if list != [] {
      var init, n := list[..|list| - 1], list[|list| - 1];
      TotalIsSum(init, sent);
      var m := ByName(init, sent);
      assert forall i :: 0 <= i < |init| ==> init[i].name != n.name;
      SumWith(m, n.name, if sent then n.sent else n.recv);
      forall k | k in ByName(list, sent) ensures exists i :: 0 <= i < |list| && list[i].name == k {
        if k in m {
          var i :| 0 <= i < |init| && init[i].name == k;
          assert list[i].name == k;
        } else {
          assert list[|list| - 1].name == k;
        }
      }
    }
  }

  // ---------------------------------------------------------------------
  // Where the agent's totals and the hub's accounting do not fit
  // ---------------------------------------------------------------------

  /** The agent's next reading of its interfaces after a baseline reading, by any traffic, resets, removals and
      interfaces that start from zero. */
  ghost predicate Reaches(base: map<string, nat>, events: seq<Event>, cur: map<string, nat>) {
    && Possible(FromBaseline(base), events)
    && (forall i :: 0 <= i < |events| ==> !events[i].Collect? && (events[i].Appear? ==> events[i].start == 0))
    && HappenAll(FromBaseline(base), events).counter == cur
  }

  function FromBaseline(base: map<string, nat>): World {
    World(base, map[], 0, base, None, 0.0)
  }

  /** Whatever led from one reading to the other, the hub bills no more than what moved. */
  ghost predicate AlwaysHonest(base: map<string, nat>, cur: map<string, nat>) {
    forall events :: Reaches(base, events, cur) ==>
      Traffic.CounterDelta(SumOf(cur), SumOf(base)) <= HappenAll(FromBaseline(base), events).moved
  }

  /** Each counter either runs on from its baseline or has started from zero since. */
  ghost predicate Explained(w: World) {
    && SumOf(w.since) == w.moved
    && forall k :: k in w.counter ==>
         At(w.since, k) >= w.counter[k] || (k in w.prev && w.counter[k] == w.prev[k] + At(w.since, k))
  }

  lemma {:induction false} RunsAreExplained(w: World, events: seq<Event>)
    requires Explained(w) && Possible(w, events)
    requires forall i :: 0 <= i < |events| ==> !events[i].Collect? && (events[i].Appear? ==> events[i].start == 0)
    ensures Explained(HappenAll(w, events)) && HappenAll(w, events).prev == w.prev
    decreases |events|
  {
    if events != [] {
      var e := events[0];
      assert !e.Collect? && (e.Appear? ==> e.start == 0);
      if e.Move? {
        SumWith(w.since, e.name, At(w.since, e.name) + e.bytes);
        if e.name in w.since { SumWithout(w.since, e.name); }
      }
      RunsAreExplained(Happen(w, e), events[1..]);
    }
  }

  /** No interface of the baseline carries its old count on: each is gone, was idle from boot, or has reset. */
  predicate AllStartedOver(base: map<string, nat>, cur: map<string, nat>) {
    forall k :: k in base && k in cur ==> base[k] == 0 || cur[k] < base[k]
  }

  lemma HonestBill(base: map<string, nat>, cur: map<string, nat>, events: seq<Event>)
    requires SumOf(cur) >= SumOf(base) || AllStartedOver(base, cur)
    requires Reaches(base, events, cur)
    ensures Traffic.CounterDelta(SumOf(cur), SumOf(base)) <= HappenAll(FromBaseline(base), events).moved
  {
    RunsAreExplained(FromBaseline(base), events);
    var w := HappenAll(FromBaseline(base), events);
    if SumOf(cur) >= SumOf(base) {
      SumSplits(cur, base, w.since);
    } else {
      SumMonotone(cur, w.since);
    }
  }

  // The least traffic that explains a pair of readings, and a run that needs no more.

  function Least(base: map<string, nat>, cur: map<string, nat>): map<string, nat> {
    map k | k in cur :: if k in base && cur[k] >= base[k] then cur[k] - base[k] else cur[k]
  }

  ghost function Script(counter: map<string, nat>, cur: map<string, nat>, k: string): seq<Event> {
    if k !in cur then (if k in counter then [Vanish(k)] else [])
    else if k !in counter then [Appear(k, 0), Move(k, cur[k])]
    else if cur[k] < counter[k] then [ResetToZero(k), Move(k, cur[k])]
    else [Move(k, cur[k] - counter[k])]
  }

  lemma {:induction false} RunTwice(w: World, a: seq<Event>, b: seq<Event>)
    requires Possible(w, a) && Possible(HappenAll(w, a), b)
    ensures Possible(w, a + b) && HappenAll(w, a + b) == HappenAll(HappenAll(w, a), b)
    decreases |a|
  {
    if a == [] {
      assert a + b == b;
    } else {
      assert (a + b)[1..] == a[1..] + b;
      RunTwice(Happen(w, a[0]), a[1..], b);
    }
  }

  lemma RunOne(w: World, e: Event)
    requires CanHappen(w, e)
    ensures Possible(w, [e]) && HappenAll(w, [e]) == Happen(w, e)
  {
    assert [e][1..] == [];
    assert Possible(Happen(w, e), []);
    assert HappenAll(Happen(w, e), []) == Happen(w, e);
  }

  lemma RunBoth(w: World, d: Event, e: Event)
    requires CanHappen(w, d) && CanHappen(Happen(w, d), e)
    ensures Possible(w, [d, e]) && HappenAll(w, [d, e]) == Happen(Happen(w, d), e)
  {
    RunOne(w, d);
    RunOne(Happen(w, d), e);
    RunTwice(w, [d], [e]);
    assert [d] + [e] == [d, e];
  }

  /** The script settles one interface and leaves the others alone. */
  lemma ScriptSettles(w: World, cur: map<string, nat>, k: string)
    ensures Possible(w, Script(w.counter, cur, k))
    ensures var w' := HappenAll(w, Script(w.counter, cur, k));
            && w'.counter - {k} == w.counter - {k}
            && (k in w'.counter <==> k in cur) && (k in cur ==> w'.counter[k] == cur[k])
            && w'.moved == w.moved + At(Least(w.counter, cur), k)
  {
    var s := Script(w.counter, cur, k);
    if |s| == 1 {
      RunOne(w, s[0]);
      assert s == [s[0]];
    } else if |s| == 2 {
      RunBoth(w, s[0], s[1]);
      assert s == [s[0], s[1]];
    }
  }

  lemma {:induction false} CheapestRun(w: World, cur: map<string, nat>, keys: set<string>) returns (events: seq<Event>)
    requires forall k :: k !in keys ==> (k in w.counter <==> k in cur) && (k in cur ==> w.counter[k] == cur[k])
    ensures Possible(w, events)
    ensures forall i :: 0 <= i < |events| ==> !events[i].Collect? && (events[i].Appear? ==> events[i].start == 0)
    ensures HappenAll(w, events).counter == cur
    ensures HappenAll(w, events).moved == w.moved + SumOf(Keep(Least(w.counter, cur), keys))
    decreases |keys|
  {
    if keys == {} {
      events := [];
      assert w.counter == cur;
      assert Keep(Least(w.counter, cur), keys) == map[];
    } else {
      var k :| k in keys;
      var first := Script(w.counter, cur, k);
      ScriptSettles(w, cur, k);
      var w' := HappenAll(w, first);
      forall j | j !in keys - {k}
        ensures (j in w'.counter <==> j in cur) && (j in cur ==> w'.counter[j] == cur[j])
      {
        OthersAlone(w.counter, w'.counter, k, j);
      }
      var rest := CheapestRun(w', cur, keys - {k});
      events := first + rest;
      RunTwice(w, first, rest);
      KeepSum(Least(w.counter, cur), keys, k);
      LeastElsewhere(w.counter, w'.counter, cur, keys, k);
    }
  }

  lemma OthersAlone(a: map<string, nat>, b: map<string, nat>, k: string, j: string)
    requires a - {k} == b - {k}
    ensures j != k ==> (j in a <==> j in b) && (j in a ==> a[j] == b[j])
  {
    assert j != k ==> (j in a <==> j in a - {k}) && (j in b <==> j in b - {k});
  }

  lemma LeastElsewhere(a: map<string, nat>, b: map<string, nat>, cur: map<string, nat>, keys: set<string>, k: string)
    requires a - {k} == b - {k}
    ensures Keep(Least(b, cur), keys - {k}) == Keep(Least(a, cur), keys - {k})
  {
    forall j ensures j != k ==> (j in a <==> j in b) && (j in a ==> a[j] == b[j]) {
      OthersAlone(a, b, k, j);
    }
  }

  lemma LeastIsLess(base: map<string, nat>, cur: map<string, nat>)
    requires !AllStartedOver(base, cur)
    ensures SumOf(Least(base, cur)) < SumOf(cur)
  {
    var k :| k in base && k in cur && base[k] > 0 && cur[k] >= base[k];
    var least := Least(base, cur);
    SumWithout(least, k);
    SumWithout(cur, k);
    SumMonotone(least - {k}, cur - {k});
  }

  /** The hub bills differences of a total over interfaces and takes a fallen total for a host that started
      from zero. That is right for every possible history of the interfaces exactly when the total has not
      fallen, or every interface the baseline counted has itself started over. */
  lemma BillingInterfaceTotals(base: map<string, nat>, cur: map<string, nat>)
    ensures AlwaysHonest(base, cur) <==> SumOf(cur) >= SumOf(base) || AllStartedOver(base, cur)
  {
    if SumOf(cur) >= SumOf(base) || AllStartedOver(base, cur) {
      forall events | Reaches(base, events, cur)
        ensures Traffic.CounterDelta(SumOf(cur), SumOf(base)) <= HappenAll(FromBaseline(base), events).moved
      {
        HonestBill(base, cur, events);
      }
    } else {
      var keys := base.Keys + cur.Keys;
      var events := CheapestRun(FromBaseline(base), cur, keys);
      assert Keep(Least(base, cur), keys) == Least(base, cur);
      LeastIsLess(base, cur);
      assert Reaches(base, events, cur);
    }
  }

  /** A second interface goes away, nothing moves, and the first one's lifetime count is billed. */
  lemma VanishedInterfaceOvercharges()
    ensures var base, cur := map["eth0" := 100, "docker0" := 1000], map["eth0" := 100];
            && Reaches(base, [Vanish("docker0")], cur)
            && HappenAll(FromBaseline(base), [Vanish("docker0")]).moved == 0
            && Traffic.CounterDelta(SumOf(cur), SumOf(base)) == 100
  {
    var base: map<string, nat>, cur: map<string, nat> := map["eth0" := 100, "docker0" := 1000], map["eth0" := 100];
    SumWithout(base, "docker0");
    assert base - {"docker0"} == cur;
    SumWithout(cur, "eth0");
    assert cur - {"eth0"} == map[];
    RunOne(FromBaseline(base), Vanish("docker0"));
  }
}
