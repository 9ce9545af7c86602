/** The webhook debouncer: three maps, updated by two loops, that must amount to an edge detector. */
module Alerts {
  import opened Basics
  import opened Traffic

  datatype Status = Status(id: Id, name: string, online: bool, lastSeen: Option<int>, traffic: Traffic)

  datatype Event =
    | NodeOffline(nodeId: Id, name: string, ts: int, lastSeen: Option<int>)
    | NodeTraffic(nodeId: Id, name: string, pct: real, used: nat, quota: nat)

  /** The contents of alertState; offlineAlerted holds the instant of each alert still outstanding. */
  datatype State = State(wasOnline: map<Id, bool>, offlineAlerted: map<Id, int>, trafficAlerted: set<Id>)

  const INITIAL := State(map[], map[], {})

  predicate Over(n: Status, thresh: real) {
    n.traffic.quota > 0 && !n.traffic.unlimited && n.traffic.pct >= thresh
  }

  function OfflineEvent(n: Status, now: int): Event {
    NodeOffline(n.id, n.name, Unix(now), n.lastSeen)
  }

  function TrafficEvent(n: Status): Event {
    NodeTraffic(n.id, n.name, n.traffic.pct, n.traffic.used, n.traffic.quota)
  }

  predicate Distinct(list: seq<Status>) {
    forall i, j :: 0 <= i < j < |list| ==> list[i].id != list[j].id
  }

  function Ids(list: seq<Status>): set<Id> {
    set i | 0 <= i < |list| :: list[i].id
  }

  // ---------------------------------------------------------------------
  // One check, as the code does it
  // ---------------------------------------------------------------------

  predicate Fires(a: State, n: Status, now: int, cooldown: int) {
    n.id in a.wasOnline && a.wasOnline[n.id] && !n.online
    && (n.id !in a.offlineAlerted || now - a.offlineAlerted[n.id] >= cooldown)
  }

  /** The first loop's body: the new maps, and what it appends to toSend. */
  function Visit(a: State, n: Status, now: int, cooldown: int, thresh: real): State {
    var alerted := if Fires(a, n, now, cooldown) then a.offlineAlerted[n.id := now] else a.offlineAlerted;
    State(a.wasOnline[n.id := n.online],
          if n.online then alerted - {n.id} else alerted,
          if Over(n, thresh) then a.trafficAlerted + {n.id} else a.trafficAlerted - {n.id})
  }

  function VisitSends(a: State, n: Status, now: int, cooldown: int, thresh: real): seq<Event> {
    (if Fires(a, n, now, cooldown) then [OfflineEvent(n, now)] else [])
    + (if Over(n, thresh) && n.id !in a.trafficAlerted then [TrafficEvent(n)] else [])
  }

  function VisitAll(a: State, list: seq<Status>, now: int, cooldown: int, thresh: real): State {
    if list == [] then a
    else Visit(VisitAll(a, list[..|list| - 1], now, cooldown, thresh), list[|list| - 1], now, cooldown, thresh)
  }

  function VisitAllSends(a: State, list: seq<Status>, now: int, cooldown: int, thresh: real): seq<Event> {
    if list == [] then []
    else
      VisitAllSends(a, list[..|list| - 1], now, cooldown, thresh)
      + VisitSends(VisitAll(a, list[..|list| - 1], now, cooldown, thresh), list[|list| - 1], now, cooldown, thresh)
  }

  /** The second loop: nodes no longer listed are forgotten. */
  function Forget(a: State, live: set<Id>): State {
    Without(a, a.wasOnline.Keys - live)
  }

  function Without(a: State, gone: set<Id>): State {
    State(a.wasOnline - gone, a.offlineAlerted - gone, a.trafficAlerted - gone)
  }

  lemma WithoutNone(a: State)
    ensures Without(a, {}) == a
  {
    assert a.wasOnline - {} == a.wasOnline && a.offlineAlerted - {} == a.offlineAlerted;
  }

  lemma WithoutPlus(a: State, gone: set<Id>, id: Id)
    ensures Without(Without(a, gone), {id}) == Without(a, gone + {id})
  {
    assert a.wasOnline - gone - {id} == a.wasOnline - (gone + {id});
    assert a.offlineAlerted - gone - {id} == a.offlineAlerted - (gone + {id});
    assert a.trafficAlerted - gone - {id} == a.trafficAlerted - (gone + {id});
  }

  function Check(a: State, list: seq<Status>, now: int, cooldown: int, thresh: real): State {
    Forget(VisitAll(a, list, now, cooldown, thresh), Ids(list))
  }

  class AlertState {
    var wasOnline: map<Id, bool>
    var offlineAlerted: map<Id, int>
    var trafficAlerted: map<Id, ()>

    ghost function Model(): State
      reads this
    {
      State(wasOnline, offlineAlerted, trafficAlerted.Keys)
    }

    constructor ()
      ensures Model() == INITIAL
    {
      wasOnline, offlineAlerted, trafficAlerted := map[], map[], map[];
    }

    method VisitNode(n: Status, now: int, cooldown: int, thresh: real) returns (sent: seq<Event>)
      modifies this
      ensures Model() == Visit(old(Model()), n, now, cooldown, thresh)
      ensures sent == VisitSends(old(Model()), n, now, cooldown, thresh)
    {
      sent := [];
      var prev := n.id in wasOnline && wasOnline[n.id];
      if prev && !n.online {
        if n.id !in offlineAlerted || now - offlineAlerted[n.id] >= cooldown {
          offlineAlerted := offlineAlerted[n.id := now];
          sent := sent + [OfflineEvent(n, now)];
        }
      }
      if n.online {
        offlineAlerted := offlineAlerted - {n.id};
      }
      wasOnline := wasOnline[n.id := n.online];
      if Over(n, thresh) {
        if n.id !in trafficAlerted {
          trafficAlerted := trafficAlerted[n.id := ()];
          sent := sent + [TrafficEvent(n)];
        }
      } else {
        trafficAlerted := trafficAlerted - {n.id};
      }
      assert trafficAlerted.Keys == Visit(old(Model()), n, now, cooldown, thresh).trafficAlerted;
    }

    method ForgetOthers(live: set<Id>)
      modifies this
      ensures Model() == Forget(old(Model()), live)
    {
      var keys := wasOnline.Keys;
      ghost var a, gone := Model(), {};
      WithoutNone(a);
      while keys != {}
        invariant keys <= a.wasOnline.Keys && gone <= a.wasOnline.Keys - live
        invariant a.wasOnline.Keys - live <= keys + gone
        invariant Model() == Without(a, gone)
        decreases |keys|
      {
        var id :| id in keys;
        if id !in live {
          DropId(id);
          WithoutPlus(a, gone, id);
          gone := gone + {id};
        }
        keys := keys - {id};
      }
      assert gone == a.wasOnline.Keys - live;
    }

    method DropId(id: Id)
      modifies this
      ensures Model() == Without(old(Model()), {id})
    {
      wasOnline := wasOnline - {id};
      offlineAlerted := offlineAlerted - {id};
      trafficAlerted := trafficAlerted - {id};
      assert trafficAlerted.Keys == old(trafficAlerted.Keys) - {id};
    }

    /** checkAlerts' locked section, on the list it has just read. */
    method CheckAlerts(list: seq<Status>, now: int, offlineAfter: int, trafficPct: real) returns (toSend: seq<Event>)
      modifies this
      ensures var cooldown, thresh := Cooldown(offlineAfter), if trafficPct > 0.0 then trafficPct else 90.0;
              && Model() == Check(old(Model()), list, now, cooldown, thresh)
              && toSend == VisitAllSends(old(Model()), list, now, cooldown, thresh)
              && forall e :: e in toSend ==> Tells(e, list, now, thresh)
    {
      var cooldown, thresh := Cooldown(offlineAfter), Threshold(trafficPct);
      toSend := [];
      var live := {};
      for i := 0 to |list|
        invariant live == Ids(list[..i])
        invariant Model() == VisitAll(old(Model()), list[..i], now, cooldown, thresh)
        invariant toSend == VisitAllSends(old(Model()), list[..i], now, cooldown, thresh)
      {
        ghost var upTo := list[..i + 1];
        assert upTo[..i] == list[..i] && upTo[i] == list[i] && upTo == list[..i] + [list[i]];
        live := live + {list[i].id};
        IdsPlus(list[..i], list[i]);
        var sent := VisitNode(list[i], now, cooldown, thresh);
        toSend := toSend + sent;
      }
      assert list[..|list|] == list;
      SendsTell(old(Model()), list, now, cooldown, thresh);
      ForgetOthers(live);
    }
  }

  function Cooldown(offlineAfter: int): int {
    if offlineAfter * 2 <= 0 then 60 * SECOND else offlineAfter * 2
  }

  function Threshold(trafficPct: real): real {
    if trafficPct <= 0.0 then 90.0 else trafficPct
  }

  /** An event tells of a node as the list shows it: one offline, with its last-seen time and the time of the check
      in seconds, or one whose used share of its quota has reached the threshold, with that share and the bytes. */
  ghost predicate Tells(e: Event, list: seq<Status>, now: int, thresh: real) {
    exists n :: n in list && TellsOf(e, n, now, thresh)
  }

  predicate TellsOf(e: Event, n: Status, now: int, thresh: real) {
    && e.nodeId == n.id && e.name == n.name
    && match e
       case NodeOffline(_, _, ts, lastSeen) => !n.online && ts == now / SECOND && lastSeen == n.lastSeen
       case NodeTraffic(_, _, pct, used, quota) =>
         && 0 < quota == n.traffic.quota && used == n.traffic.used
         && thresh <= pct == n.traffic.pct && !n.traffic.unlimited
  }

  lemma {:induction false} SendsTell(a: State, list: seq<Status>, now: int, cooldown: int, thresh: real)
    ensures forall e :: e in VisitAllSends(a, list, now, cooldown, thresh) ==> Tells(e, list, now, thresh)
  {
    if list != [] {
      var init, n := list[..|list| - 1], list[|list| - 1];
      SendsTell(a, init, now, cooldown, thresh);
      forall e | e in VisitAllSends(a, list, now, cooldown, thresh) ensures Tells(e, list, now, thresh) {
        if e in VisitAllSends(a, init, now, cooldown, thresh) {
          var m :| m in init && TellsOf(e, m, now, thresh);
          assert m in list;
        } else {
          assert n in list && TellsOf(e, n, now, thresh);
        }
      }
    }
  }

  lemma IdsPlus(list: seq<Status>, n: Status)
    ensures Ids(list + [n]) == Ids(list) + {n.id}
  {
    var all := list + [n];
    assert forall i :: 0 <= i < |list| ==> all[i] == list[i];
    assert all[|list|] == n;
  }

  // ---------------------------------------------------------------------
  // What it amounts to: edges between consecutive lists
  // ---------------------------------------------------------------------

  ghost predicate Shows(list: seq<Status>, id: Id, online: bool) {
    exists i :: 0 <= i < |list| && list[i].id == id && list[i].online == online
  }

  /** Has a quota, and as much of it is used as the threshold says. */
  predicate IsOver(t: Traffic, thresh: real) {
    !(t.quota == 0 || t.unlimited || t.pct < thresh)
  }

  ghost predicate ShowsOver(list: seq<Status>, id: Id, thresh: real) {
    exists i :: 0 <= i < |list| && list[i].id == id && IsOver(list[i].traffic, thresh)
  }

  /** The specification: a node online in the previous list and not in this one, and a node over its quota
      threshold in this list and not in the previous one. No clock, no cooldown, no memory but the last list. */
  ghost function Edges(prev: seq<Status>, list: seq<Status>, now: int, thresh: real): seq<Event> {
    if list == [] then []
    else
      var n := list[|list| - 1];
      Edges(prev, list[..|list| - 1], now, thresh)
      + (if Shows(prev, n.id, true) && !n.online then [NodeOffline(n.id, n.name, now / SECOND, n.lastSeen)] else [])
      + (if IsOver(n.traffic, thresh) && !ShowsOver(prev, n.id, thresh)
         then [NodeTraffic(n.id, n.name, n.traffic.pct, n.traffic.used, n.traffic.quota)] else [])
  }

  /** What the three maps remember is exactly the previous list. */
  ghost predicate Remembers(a: State, prev: seq<Status>, thresh: real) {
    && a.wasOnline.Keys == Ids(prev)
    && (forall i :: 0 <= i < |prev| ==> a.wasOnline[prev[i].id] == prev[i].online)
    && (forall id :: id in a.trafficAlerted <==> ShowsOver(prev, id, thresh))
    && a.offlineAlerted.Keys <= a.wasOnline.Keys
    && a.trafficAlerted <= a.wasOnline.Keys
    && (forall id :: id in a.wasOnline && a.wasOnline[id] ==> id !in a.offlineAlerted)
  }

  /** Half-way through the first loop: `done` has been visited, the rest still shows the previous list. */
  ghost predicate Partway(a: State, a0: State, done: seq<Status>, thresh: real) {
    && a.wasOnline.Keys == a0.wasOnline.Keys + Ids(done)
    && (forall i :: 0 <= i < |done| ==> a.wasOnline[done[i].id] == done[i].online)
    && (forall i :: 0 <= i < |done| ==> (done[i].id in a.trafficAlerted <==> Over(done[i], thresh)))
    && (forall id :: id !in Ids(done) ==>
          && (id in a.wasOnline <==> id in a0.wasOnline)
          && (id in a0.wasOnline ==> a.wasOnline[id] == a0.wasOnline[id])
          && (id in a.trafficAlerted <==> id in a0.trafficAlerted)
          && (id in a.offlineAlerted ==> id in a0.offlineAlerted))
    && a.offlineAlerted.Keys <= a.wasOnline.Keys
    && (forall id :: id in a.wasOnline && a.wasOnline[id] ==> id !in a.offlineAlerted)
  }

  lemma VisitStep(a: State, a0: State, done: seq<Status>, n: Status, now: int, cooldown: int, thresh: real)
    requires Partway(a, a0, done, thresh) && n.id !in Ids(done)
    ensures Partway(Visit(a, n, now, cooldown, thresh), a0, done + [n], thresh)
  {
    IdsPlus(done, n);
    var a' := Visit(a, n, now, cooldown, thresh);
    forall i | 0 <= i < |done|
      ensures done[i].id != n.id
    {
      assert done[i].id in Ids(done);
    }
    assert a'.wasOnline.Keys == a.wasOnline.Keys + {n.id};
  }

  lemma VisitSendsEdges(a: State, a0: State, prev: seq<Status>, done: seq<Status>, n: Status,
                        now: int, cooldown: int, thresh: real)
    requires Remembers(a0, prev, thresh) && Partway(a, a0, done, thresh)
    requires Distinct(prev) && n.id !in Ids(done)
    ensures VisitSends(a, n, now, cooldown, thresh) ==
              (if Shows(prev, n.id, true) && !n.online then [OfflineEvent(n, now)] else [])
              + (if Over(n, thresh) && !ShowsOver(prev, n.id, thresh) then [TrafficEvent(n)] else [])
  {
    assert (n.id in a0.wasOnline && a0.wasOnline[n.id]) <==> Shows(prev, n.id, true);
  }

  lemma {:induction false} VisitAllIsPartway(a0: State, prev: seq<Status>, list: seq<Status>,
                                             now: int, cooldown: int, thresh: real)
    requires Remembers(a0, prev, thresh) && Distinct(list)
    ensures Partway(VisitAll(a0, list, now, cooldown, thresh), a0, list, thresh)
  {
    if list == [] {
      assert Ids(list) == {};
    } else {
      var init, n := list[..|list| - 1], list[|list| - 1];
      VisitAllIsPartway(a0, prev, init, now, cooldown, thresh);
      assert n.id !in Ids(init);
      assert init + [n] == list;
      VisitStep(VisitAll(a0, init, now, cooldown, thresh), a0, init, n, now, cooldown, thresh);
    }
  }

  /** The last node's edges, as the events VisitNode sends. */
  lemma EdgesStep(prev: seq<Status>, list: seq<Status>, now: int, thresh: real)
    requires list != []
    ensures var n := list[|list| - 1];
            Edges(prev, list, now, thresh)
            == Edges(prev, list[..|list| - 1], now, thresh)
               + ((if Shows(prev, n.id, true) && !n.online then [OfflineEvent(n, now)] else [])
                  + (if Over(n, thresh) && !ShowsOver(prev, n.id, thresh) then [TrafficEvent(n)] else []))
  {
  }

  lemma {:induction false} VisitAllSendsEdges(a0: State, prev: seq<Status>, list: seq<Status>,
                                              now: int, cooldown: int, thresh: real)
    requires Remembers(a0, prev, thresh) && Distinct(prev) && Distinct(list)
    ensures VisitAllSends(a0, list, now, cooldown, thresh) == Edges(prev, list, now, thresh)
  {
    if list != [] {
      var init, n := list[..|list| - 1], list[|list| - 1];
      VisitAllSendsEdges(a0, prev, init, now, cooldown, thresh);
      VisitAllIsPartway(a0, prev, init, now, cooldown, thresh);
      assert n.id !in Ids(init);
      VisitSendsEdges(VisitAll(a0, init, now, cooldown, thresh), a0, prev, init, n, now, cooldown, thresh);
      EdgesStep(prev, list, now, thresh);
    }
  }

  lemma ForgettingRemembers(a: State, a0: State, list: seq<Status>, thresh: real)
    requires Partway(a, a0, list, thresh) && Distinct(list)
    requires a0.trafficAlerted <= a0.wasOnline.Keys
    ensures Remembers(Forget(a, Ids(list)), list, thresh)
  {
    var f := Forget(a, Ids(list));
    forall i | 0 <= i < |list| ensures list[i].id in Ids(list) && list[i].id in a.wasOnline {
    }
    assert f.wasOnline.Keys == Ids(list);
    forall id ensures id in f.trafficAlerted <==> ShowsOver(list, id, thresh) {
      if id in f.trafficAlerted {
        assert id in a.wasOnline;
        assert id in Ids(list);
      }
    }
  }

  /** Every check sends exactly the edges since the previous one and then remembers exactly its own list;
      in particular neither the clock nor the cooldown ever decides anything but the time stamp. */
  lemma CheckIsEdgeDetector(a: State, prev: seq<Status>, list: seq<Status>, now: int, cooldown: int, thresh: real)
    requires Remembers(a, prev, thresh) && Distinct(prev) && Distinct(list)
    ensures VisitAllSends(a, list, now, cooldown, thresh) == Edges(prev, list, now, thresh)
    ensures Remembers(Check(a, list, now, cooldown, thresh), list, thresh)
  {
    VisitAllSendsEdges(a, prev, list, now, cooldown, thresh);
    VisitAllIsPartway(a, prev, list, now, cooldown, thresh);
    ForgettingRemembers(VisitAll(a, list, now, cooldown, thresh), a, list, thresh);
  }

  // ---------------------------------------------------------------------
  // Any sequence of checks since start-up
  // ---------------------------------------------------------------------

  datatype Round = Round(list: seq<Status>, now: int)

  function StateAfter(rounds: seq<Round>, cooldown: int, thresh: real): State {
    if rounds == [] then INITIAL
    else
      var r := rounds[|rounds| - 1];
      Check(StateAfter(rounds[..|rounds| - 1], cooldown, thresh), r.list, r.now, cooldown, thresh)
  }

  /** What check number k sent. */
  function Sent(rounds: seq<Round>, k: nat, cooldown: int, thresh: real): seq<Event>
    requires k < |rounds|
  {
    VisitAllSends(StateAfter(rounds[..k], cooldown, thresh), rounds[k].list, rounds[k].now, cooldown, thresh)
  }

  function LastList(rounds: seq<Round>): seq<Status> {
    if rounds == [] then [] else rounds[|rounds| - 1].list
  }

  lemma {:induction false} StateIsLastList(rounds: seq<Round>, cooldown: int, thresh: real)
    requires forall k :: 0 <= k < |rounds| ==> Distinct(rounds[k].list)
    ensures Distinct(LastList(rounds)) && Remembers(StateAfter(rounds, cooldown, thresh), LastList(rounds), thresh)
  {
    if rounds == [] {
      assert forall id :: !ShowsOver([], id, thresh);
    } else {
      var init, r := rounds[..|rounds| - 1], rounds[|rounds| - 1];
      StateIsLastList(init, cooldown, thresh);
      CheckIsEdgeDetector(StateAfter(init, cooldown, thresh), LastList(init), r.list, r.now, cooldown, thresh);
    }
  }

  /** Over any sequence of status lists, check k sends the edges from list k - 1 to list k: the same events
      for every cooldown. */
  lemma RunIsEdgeDetector(rounds: seq<Round>, k: nat, cooldown: int, thresh: real)
    requires k < |rounds| && forall i :: 0 <= i < |rounds| ==> Distinct(rounds[i].list)
    ensures Sent(rounds, k, cooldown, thresh)
            == Edges(LastList(rounds[..k]), rounds[k].list, rounds[k].now, thresh)
  {
    StateIsLastList(rounds[..k], cooldown, thresh);
    CheckIsEdgeDetector(StateAfter(rounds[..k], cooldown, thresh), LastList(rounds[..k]),
                        rounds[k].list, rounds[k].now, cooldown, thresh);
  }
}
