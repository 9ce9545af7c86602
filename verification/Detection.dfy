/** How long a dead node can go unnoticed: ListStatus' online flag, the sweep ticker and the debouncer
    put together. */
module Detection {
  import opened Basics
  import opened Alerts
  import opened Traffic

  /** ListStatus: a node is online while its last heartbeat is younger than offlineAfter. */
  predicate Online(seen: Option<int>, now: int, offlineAfter: int) {
    seen.Some? && now - seen.value < offlineAfter
  }

  /** sweepLoop's alert ticker. */
  function TickEvery(offlineAfter: int): int {
    Min(if offlineAfter > 0 then offlineAfter else 30 * SECOND, 15 * SECOND)
  }

  // ---------------------------------------------------------------------
  // Counting a node's offline events
  // ---------------------------------------------------------------------

  function OfflineCount(events: seq<Event>, id: Id): nat {
    if events == [] then 0
    else
      var e := events[|events| - 1];
      OfflineCount(events[..|events| - 1], id) + (if e.NodeOffline? && e.nodeId == id then 1 else 0)
  }

  lemma {:induction false} OfflineCountPlus(a: seq<Event>, b: seq<Event>, id: Id)
    ensures OfflineCount(a + b, id) == OfflineCount(a, id) + OfflineCount(b, id)
  {
    if b == [] {
      assert a + b == a;
    } else {
      OfflineCountPlus(a, b[..|b| - 1], id);
      assert (a + b)[..|a + b| - 1] == a + b[..|b| - 1];
    }
  }

  lemma ShowsSplits(list: seq<Status>, id: Id)
    requires Distinct(list) && list != []
    ensures var init, n := list[..|list| - 1], list[|list| - 1];
            && (Shows(list, id, false) <==> Shows(init, id, false) || (n.id == id && !n.online))
            && !(Shows(init, id, false) && n.id == id)
  {
    var init, n := list[..|list| - 1], list[|list| - 1];
    assert forall i :: 0 <= i < |init| ==> init[i] == list[i];
  }

  lemma CountEvents(off: seq<Event>, over: seq<Event>, sent: seq<Event>, n: Status, now: int, id: Id)
    requires off == [] || off == [OfflineEvent(n, now)]
    requires over == [] || over == [TrafficEvent(n)]
    ensures OfflineCount(sent + off + over, id)
            == OfflineCount(sent, id) + if off != [] && n.id == id then 1 else 0
  {
    OfflineCountPlus(sent, off, id);
    OfflineCountPlus(sent + off, over, id);
    assert OfflineCount([], id) == 0;
  }

  lemma {:induction false} EdgeCount(prev: seq<Status>, list: seq<Status>, id: Id, now: int, thresh: real)
    requires Distinct(list)
    ensures OfflineCount(Edges(prev, list, now, thresh), id)
            == if Shows(prev, id, true) && Shows(list, id, false) then 1 else 0
  {
    if list != [] {
      var init, n := list[..|list| - 1], list[|list| - 1];
      EdgeCount(prev, init, id, now, thresh);
      ShowsSplits(list, id);
      CountEvents(if Shows(prev, n.id, true) && !n.online then [OfflineEvent(n, now)] else [],
                  if Over(n, thresh) && !ShowsOver(prev, n.id, thresh) then [TrafficEvent(n)] else [],
                  Edges(prev, init, now, thresh), n, now, id);
    }
  }

  /** Offline events for `id` sent by checks lo, lo + 1, ..., hi - 1. */
  function OfflineBetween(rounds: seq<Round>, lo: nat, hi: nat, id: Id, cooldown: int, thresh: real): nat
    requires lo <= hi <= |rounds|
    decreases hi - lo
  {
    if lo == hi then 0
    else OfflineBetween(rounds, lo, hi - 1, id, cooldown, thresh)
         + OfflineCount(Sent(rounds, hi - 1, cooldown, thresh), id)
  }

  lemma SentCount(rounds: seq<Round>, k: nat, id: Id, cooldown: int, thresh: real)
    requires k < |rounds| && forall i :: 0 <= i < |rounds| ==> Distinct(rounds[i].list)
    ensures OfflineCount(Sent(rounds, k, cooldown, thresh), id)
            == if k > 0 && Shows(rounds[k - 1].list, id, true) && Shows(rounds[k].list, id, false) then 1 else 0
  {
    RunIsEdgeDetector(rounds, k, cooldown, thresh);
    EdgeCount(LastList(rounds[..k]), rounds[k].list, id, rounds[k].now, thresh);
    assert k > 0 ==> LastList(rounds[..k]) == rounds[k - 1].list;
  }

  // ---------------------------------------------------------------------
  // Silence
  // ---------------------------------------------------------------------

  /** at[k] is the reading of the clock that round k's list was made with. Lists first.. all show a node whose last
      heartbeat was at h, and one is made at least every tick until the silence ends at `until`. */
  ghost predicate SilentSince(rounds: seq<Round>, at: seq<int>, first: nat, id: Id, h: int, until: int,
                              offlineAfter: int) {
    && first < |rounds| == |at|
    && (forall k :: 0 <= k < |rounds| ==> Distinct(rounds[k].list))
    && (forall k :: first <= k < |rounds| ==> Shows(rounds[k].list, id, Online(Some(h), at[k], offlineAfter)))
    && ChecksUntil(at, first, until, offlineAfter)
  }

  lemma ShowsOne(list: seq<Status>, id: Id, online: bool)
    requires Distinct(list) && Shows(list, id, online)
    ensures !Shows(list, id, !online)
  {
  }

  /** The first list at which the silence has lasted long enough. */
  lemma {:induction false} FirstLateList(at: seq<int>, first: nat, late: int) returns (k: nat)
    requires first < |at| && at[first] < late <= at[|at| - 1]
    ensures first < k < |at| && at[k - 1] < late <= at[k]
    decreases |at| - first
  {
    if at[first + 1] >= late {
      k := first + 1;
    } else {
      k := FirstLateList(at, first + 1, late);
    }
  }

  lemma {:induction false} InOrder(at: seq<int>, first: nat, i: nat, j: nat)
    requires first <= i <= j < |at|
    requires forall k :: first < k < |at| ==> at[k - 1] <= at[k]
    ensures at[i] <= at[j]
    decreases j - i
  {
    if i < j {
      InOrder(at, first, i, j - 1);
    }
  }

  lemma {:induction false} OnceIn(rounds: seq<Round>, lo: nat, hi: nat, k: nat, id: Id, cooldown: int, thresh: real)
    requires lo <= hi <= |rounds| && lo <= k
    requires forall j :: lo <= j < hi ==>
               OfflineCount(Sent(rounds, j, cooldown, thresh), id) == if j == k then 1 else 0
    ensures OfflineBetween(rounds, lo, hi, id, cooldown, thresh) == if k < hi then 1 else 0
    decreases hi - lo
  {
    if lo < hi {
      OnceIn(rounds, lo, hi - 1, k, id, cooldown, thresh);
    }
  }

  /** One check during the silence: it alerts if and only if it is the first late one. */
  lemma SilentCheck(rounds: seq<Round>, at: seq<int>, first: nat, id: Id, h: int, until: int, offlineAfter: int,
                    k: nat, j: nat, cooldown: int, thresh: real)
    requires SilentSince(rounds, at, first, id, h, until, offlineAfter)
    requires first < k < |rounds| && at[k - 1] < h + offlineAfter <= at[k]
    requires first <= j < |rounds|
    ensures OfflineCount(Sent(rounds, j, cooldown, thresh), id) == if j == k then 1 else 0
  {
    SentCount(rounds, j, id, cooldown, thresh);
    ShowsOne(rounds[j].list, id, Online(Some(h), at[j], offlineAfter));
    if j < k {
      InOrder(at, first, j, k - 1);
    } else {
      InOrder(at, first, k, j);
      if j > k {
        InOrder(at, first, k, j - 1);
        ShowsOne(rounds[j - 1].list, id, false);
      }
    }
  }

  lemma DetectionBoundOfRounds(rounds: seq<Round>, at: seq<int>, first: nat, id: Id, h: int, until: int,
                               offlineAfter: int, cooldown: int, thresh: real)
    returns (k: nat)
    requires offlineAfter > 0
    requires SilentSince(rounds, at, first, id, h, until, offlineAfter)
    requires h <= at[first] < h + offlineAfter
    requires until - h > offlineAfter + TickEvery(offlineAfter)
    ensures first < k < |rounds| == |at|
    ensures at[k - 1] < h + offlineAfter <= at[k] < h + offlineAfter + TickEvery(offlineAfter)
    ensures OfflineCount(Sent(rounds, k, cooldown, thresh), id) == 1
    ensures OfflineBetween(rounds, first, |rounds|, id, cooldown, thresh) == 1
  {
    k := FirstLateList(at, first, h + offlineAfter);
    forall j | first <= j < |rounds|
      ensures OfflineCount(Sent(rounds, j, cooldown, thresh), id) == if j == k then 1 else 0
    {
      SilentCheck(rounds, at, first, id, h, until, offlineAfter, k, j, cooldown, thresh);
    }
    OnceIn(rounds, first, |rounds|, k, id, cooldown, thresh);
  }

  // ---------------------------------------------------------------------
  // A run of heartbeats and checks
  // ---------------------------------------------------------------------

  datatype Entry = Entry(id: Id, name: string, traffic: Traffic)

  /** A check lists the nodes with one reading of the clock and goes through them with another. */
  datatype Happening =
    | Beat(id: Id, at: int)
    | Forgotten(id: Id)
    | Check(listAt: int, now: int, roster: seq<Entry>)

  /** The hub's last-seen times. */
  function SeenAfter(run: seq<Happening>): map<Id, int> {
    if run == [] then map[]
    else
      var seen, e := SeenAfter(run[..|run| - 1]), run[|run| - 1];
      match e
      case Beat(id, at) => seen[id := at]
      case Forgotten(id) => seen - {id}
      case Check(_, _, _) => seen
  }

  function SeenAt(run: seq<Happening>, id: Id): Option<int> {
    if id in SeenAfter(run) then Some(SeenAfter(run)[id]) else None
  }

  function Listed(run: seq<Happening>, roster: seq<Entry>, listAt: int, offlineAfter: int): seq<Status> {
    seq(|roster|, i requires 0 <= i < |roster| =>
      Status(roster[i].id, roster[i].name, Online(SeenAt(run, roster[i].id), listAt, offlineAfter),
             SeenAt(run, roster[i].id), roster[i].traffic))
  }

  function Rounds(run: seq<Happening>, offlineAfter: int): seq<Round> {
    if run == [] then []
    else
      var init, e := run[..|run| - 1], run[|run| - 1];
      Rounds(init, offlineAfter)
      + if e.Check? then [Round(Listed(init, e.roster, e.listAt, offlineAfter), e.now)] else []
  }

  /** The clock readings the lists were made with. */
  function ListTimes(run: seq<Happening>): seq<int> {
    if run == [] then []
    else
      var e := run[|run| - 1];
      ListTimes(run[..|run| - 1]) + if e.Check? then [e.listAt] else []
  }

  /** Each check lists every node once. */
  predicate ListsOnce(run: seq<Happening>) {
    forall i :: 0 <= i < |run| && run[i].Check? ==>
      forall j, k :: 0 <= j < k < |run[i].roster| ==> run[i].roster[j].id != run[i].roster[k].id
  }

  predicate Lists(e: Happening, id: Id)
    requires e.Check?
  {
    exists j :: 0 <= j < |e.roster| && e.roster[j].id == id
  }

  /** The node stays listed and neither reports nor is deleted. */
  predicate SilentIn(run: seq<Happening>, id: Id) {
    forall i :: 0 <= i < |run| ==>
      if run[i].Check? then Lists(run[i], id) else run[i].id != id
  }

  lemma {:induction false} RoundsAreDistinct(run: seq<Happening>, offlineAfter: int)
    requires ListsOnce(run)
    ensures |Rounds(run, offlineAfter)| == |ListTimes(run)|
    ensures forall k :: 0 <= k < |ListTimes(run)| ==> Distinct(Rounds(run, offlineAfter)[k].list)
  {
    if run != [] {
      var init := run[..|run| - 1];
      assert forall i :: 0 <= i < |init| ==> init[i] == run[i];
      RoundsAreDistinct(init, offlineAfter);
    }
  }

  lemma ListedShows(run: seq<Happening>, e: Happening, id: Id, offlineAfter: int)
    requires e.Check? && Lists(e, id)
    ensures Shows(Listed(run, e.roster, e.listAt, offlineAfter), id, Online(SeenAt(run, id), e.listAt, offlineAfter))
  {
    var j :| 0 <= j < |e.roster| && e.roster[j].id == id;
    assert Listed(run, e.roster, e.listAt, offlineAfter)[j].id == id;
  }

  /** After a heartbeat at h, every list of the silence shows the node by that time. */
  lemma {:induction false} SilenceShows(before: seq<Happening>, after: seq<Happening>, id: Id, h: int,
                                        offlineAfter: int)
    requires ListsOnce(before + after) && SilentIn(after, id) && SeenAt(before, id) == Some(h)
    ensures SeenAt(before + after, id) == Some(h)
    ensures var run, first := before + after, |ListTimes(before)|;
            && |Rounds(run, offlineAfter)| == |ListTimes(run)| && ListTimes(run) == ListTimes(before) + ListTimes(after)
            && (forall k :: first <= k < |ListTimes(run)| ==>
                  Shows(Rounds(run, offlineAfter)[k].list, id, Online(Some(h), ListTimes(run)[k], offlineAfter)))
    decreases |after|
  {
    var run := before + after;
    RoundsAreDistinct(run, offlineAfter);
    if after == [] {
      assert run == before;
    } else {
      var init, e := after[..|after| - 1], after[|after| - 1];
      assert run[..|run| - 1] == before + init;
      assert forall i :: 0 <= i < |init| ==> init[i] == after[i];
      assert forall i :: 0 <= i < |before + init| ==> (before + init)[i] == run[i];
      SilenceShows(before, init, id, h, offlineAfter);
      RoundsAreDistinct(before + init, offlineAfter);
      if e.Check? {
        ListedShows(before + init, e, id, offlineAfter);
      }
    }
  }

  /** sweepLoop checks at least every tick until then. */
  predicate ChecksUntil(at: seq<int>, first: nat, until: int, offlineAfter: int)
    requires first < |at|
  {
    && (forall i :: first < i < |at| ==> at[i - 1] <= at[i] <= at[i - 1] + TickEvery(offlineAfter))
    && at[|at| - 1] + TickEvery(offlineAfter) >= until
  }

  lemma ChecksUntilPlus(pre: seq<int>, at: seq<int>, until: int, offlineAfter: int)
    requires at != [] && ChecksUntil(at, 0, until, offlineAfter)
    ensures ChecksUntil(pre + at, |pre|, until, offlineAfter)
  {
    forall i | |pre| < i < |pre + at|
      ensures (pre + at)[i - 1] <= (pre + at)[i] <= (pre + at)[i - 1] + TickEvery(offlineAfter)
    {
      assert (pre + at)[i] == at[i - |pre|] && (pre + at)[i - 1] == at[i - |pre| - 1];
    }
  }

  lemma SilenceOfRun(before: seq<Happening>, after: seq<Happening>, id: Id, h: int, until: int, offlineAfter: int)
    requires ListsOnce(before + after) && SeenAt(before, id) == Some(h) && SilentIn(after, id)
    requires ListTimes(after) != [] && ChecksUntil(ListTimes(after), 0, until, offlineAfter)
    ensures ListTimes(before + after) == ListTimes(before) + ListTimes(after)
    ensures SilentSince(Rounds(before + after, offlineAfter), ListTimes(before + after), |ListTimes(before)|, id, h,
                        until, offlineAfter)
  {
    SilenceShows(before, after, id, h, offlineAfter);
    RoundsAreDistinct(before + after, offlineAfter);
    ChecksUntilPlus(ListTimes(before), ListTimes(after), until, offlineAfter);
  }

  /** A heartbeat at h that some check sees in time, then more than offlineAfter + tick of silence: exactly one
      node.offline event, from the first list made at or after h + offlineAfter, less than one tick late. */
  lemma DetectionBound(before: seq<Happening>, after: seq<Happening>, id: Id, h: int, until: int, offlineAfter: int,
                       cooldown: int, thresh: real)
    returns (k: nat)
    requires offlineAfter > 0 && ListsOnce(before + after)
    requires SeenAt(before, id) == Some(h) && SilentIn(after, id)
    requires ListTimes(after) != [] && ChecksUntil(ListTimes(after), 0, until, offlineAfter)
    requires h <= ListTimes(after)[0] < h + offlineAfter
    requires until - h > offlineAfter + TickEvery(offlineAfter)
    ensures var rounds, at := Rounds(before + after, offlineAfter), ListTimes(before + after);
            var first := |ListTimes(before)|;
            && first < k < |rounds| == |at|
            && at[k - 1] < h + offlineAfter <= at[k] < h + offlineAfter + TickEvery(offlineAfter)
            && TickEvery(offlineAfter) == (if offlineAfter < 15_000_000_000 then offlineAfter else 15_000_000_000)
            && OfflineCount(Sent(rounds, k, cooldown, thresh), id) == 1
            && OfflineBetween(rounds, first, |rounds|, id, cooldown, thresh) == 1
  {
    SilenceOfRun(before, after, id, h, until, offlineAfter);
    k := DetectionBoundOfRounds(Rounds(before + after, offlineAfter), ListTimes(before + after), |ListTimes(before)|,
                                id, h, until, offlineAfter, cooldown, thresh);
  }

  // ---------------------------------------------------------------------
  // Exactly which check alerts
  // ---------------------------------------------------------------------

  lemma {:induction false} NoRoundsWithoutChecks(a: seq<Happening>, b: seq<Happening>, offlineAfter: int)
    requires forall i :: 0 <= i < |b| ==> !b[i].Check?
    ensures Rounds(a + b, offlineAfter) == Rounds(a, offlineAfter)
    decreases |b|
  {
    if b == [] {
      assert a + b == a;
    } else {
      assert (a + b)[..|a + b| - 1] == a + b[..|b| - 1];
      NoRoundsWithoutChecks(a, b[..|b| - 1], offlineAfter);
    }
  }

  lemma RoundsPlus(run: seq<Happening>, e: Happening, offlineAfter: int)
    requires e.Check?
    ensures Rounds(run + [e], offlineAfter)
            == Rounds(run, offlineAfter) + [Round(Listed(run, e.roster, e.listAt, offlineAfter), e.now)]
  {
    assert (run + [e])[..|run|] == run;
  }

  /** What a list shows of the node: nothing unless it names it, else whether it has been heard of in time. */
  lemma ShownIff(run: seq<Happening>, e: Happening, id: Id, offlineAfter: int, online: bool)
    requires e.Check?
    ensures Shows(Listed(run, e.roster, e.listAt, offlineAfter), id, online)
            <==> Lists(e, id) && online == Online(SeenAt(run, id), e.listAt, offlineAfter)
  {
    var list := Listed(run, e.roster, e.listAt, offlineAfter);
    if Lists(e, id) {
      ListedShows(run, e, id, offlineAfter);
    }
    if Shows(list, id, online) {
      var i :| 0 <= i < |list| && list[i].id == id && list[i].online == online;
      assert e.roster[i].id == id;
    }
  }

  /** In any run, deletions included: a check raises node.offline if and only if it names the node and has not
      heard of it in time, or at all, and the check before it named the node and had. */
  lemma AlarmIff(before: seq<Happening>, c: Happening, between: seq<Happening>, e: Happening, id: Id,
                 offlineAfter: int, cooldown: int, thresh: real)
    requires c.Check? && e.Check? && forall i :: 0 <= i < |between| ==> !between[i].Check?
    requires ListsOnce(before + [c] + between + [e])
    ensures var rounds, upTo := Rounds(before + [c] + between + [e], offlineAfter), before + [c] + between;
            && |rounds| >= 2
            && OfflineCount(Sent(rounds, |rounds| - 1, cooldown, thresh), id)
               == if Lists(c, id) && Online(SeenAt(before, id), c.listAt, offlineAfter)
                     && Lists(e, id) && !Online(SeenAt(upTo, id), e.listAt, offlineAfter) then 1 else 0
  {
    var upTo := before + [c] + between;
    RoundsPlus(before, c, offlineAfter);
    NoRoundsWithoutChecks(before + [c], between, offlineAfter);
    RoundsPlus(upTo, e, offlineAfter);
    RoundsAreDistinct(upTo + [e], offlineAfter);
    var rounds := Rounds(upTo + [e], offlineAfter);
    ShownIff(before, c, id, offlineAfter, true);
    ShownIff(upTo, e, id, offlineAfter, false);
    SentCount(rounds, |rounds| - 1, id, cooldown, thresh);
  }

  /** ListStatus reads its rows before it takes the lock: a list that still names a node deleted meanwhile, and
      shown online before, raises the alarm at once. */
  lemma DeletedNodeAlarms(before: seq<Happening>, c: Happening, e: Happening, id: Id, offlineAfter: int,
                          cooldown: int, thresh: real)
    requires c.Check? && e.Check? && Lists(c, id) && Lists(e, id)
    requires ListsOnce(before + [c] + [Forgotten(id)] + [e]) && Online(SeenAt(before, id), c.listAt, offlineAfter)
    ensures var rounds := Rounds(before + [c] + [Forgotten(id)] + [e], offlineAfter);
            && |rounds| >= 2
            && OfflineCount(Sent(rounds, |rounds| - 1, cooldown, thresh), id) == 1
  {
    var upTo := before + [c] + [Forgotten(id)];
    assert upTo[..|upTo| - 1] == before + [c] && upTo[|upTo| - 1] == Forgotten(id);
    AlarmIff(before, c, [Forgotten(id)], e, id, offlineAfter, cooldown, thresh);
  }

  // ---------------------------------------------------------------------
  // No false alarm
  // ---------------------------------------------------------------------

  predicate NeverBeat(run: seq<Happening>, id: Id) {
    forall i :: 0 <= i < |run| && run[i].Beat? ==> run[i].id != id
  }

  lemma {:induction false} NeverBeatIsUnseen(run: seq<Happening>, id: Id)
    requires NeverBeat(run, id)
    ensures SeenAt(run, id) == None
  {
    if run != [] {
      NeverBeatIsUnseen(run[..|run| - 1], id);
    }
  }

  /** No list of the run is made when the node's last heartbeat is offlineAfter old, or names it when it has been
      heard of and then deleted. */
  predicate NeverLate(run: seq<Happening>, id: Id, offlineAfter: int) {
    forall i :: 0 <= i < |run| && run[i].Check? ==> ListedInTime(run, i, id, offlineAfter)
  }

  predicate ListedInTime(run: seq<Happening>, i: nat, id: Id, offlineAfter: int)
    requires i < |run| && run[i].Check?
  {
    match SeenAt(run[..i], id)
    case Some(h) => run[i].listAt - h < offlineAfter
    case None => Lists(run[i], id) ==> NeverBeat(run[..i], id)
  }

  lemma LastInTime(run: seq<Happening>, id: Id, offlineAfter: int)
    requires run != [] && NeverLate(run, id, offlineAfter)
    ensures NeverLate(run[..|run| - 1], id, offlineAfter)
    ensures run[|run| - 1].Check? ==> ListedInTime(run, |run| - 1, id, offlineAfter)
  {
    var init := run[..|run| - 1];
    forall i | 0 <= i < |init| && init[i].Check? ensures ListedInTime(init, i, id, offlineAfter) {
      assert init[..i] == run[..i] && ListedInTime(run, i, id, offlineAfter);
    }
  }

  ghost predicate NeverOnline(rounds: seq<Round>, id: Id) {
    forall k :: 0 <= k < |rounds| ==> !Shows(rounds[k].list, id, true)
  }

  /** No list shows the node offline once one has shown it online. */
  ghost predicate NeverDrops(rounds: seq<Round>, id: Id) {
    forall j, k :: 0 <= j < k < |rounds| && Shows(rounds[j].list, id, true) ==> !Shows(rounds[k].list, id, false)
  }

  lemma NeverDropsPlus(rounds: seq<Round>, r: Round, id: Id)
    requires NeverDrops(rounds, id) && (NeverOnline(rounds, id) || !Shows(r.list, id, false))
    ensures NeverDrops(rounds + [r], id)
  {
  }

  /** A node that is never late stays online once seen, wherever it is listed. */
  lemma {:induction false} NeverLateStaysOnline(run: seq<Happening>, id: Id, offlineAfter: int)
    requires NeverLate(run, id, offlineAfter)
    ensures NeverDrops(Rounds(run, offlineAfter), id)
    ensures NeverBeat(run, id) ==> NeverOnline(Rounds(run, offlineAfter), id)
  {
    if run != [] {
      var init, e := run[..|run| - 1], run[|run| - 1];
      var rounds := Rounds(init, offlineAfter);
      LastInTime(run, id, offlineAfter);
      NeverLateStaysOnline(init, id, offlineAfter);
      assert NeverBeat(run, id) ==> NeverBeat(init, id);
      if e.Check? {
        var r := Round(Listed(init, e.roster, e.listAt, offlineAfter), e.now);
        if NeverBeat(init, id) {
          NeverBeatIsUnseen(init, id);
        }
        ShownIff(init, e, id, offlineAfter, true);
        ShownIff(init, e, id, offlineAfter, false);
        NeverDropsPlus(rounds, r, id);
        assert Rounds(run, offlineAfter) == rounds + [r];
      } else {
        assert Rounds(run, offlineAfter) == rounds;
      }
    }
  }

  /** No false alarm: in any run, a node that no list finds silent for offlineAfter, or deleted, never raises
      node.offline. */
  lemma NoFalseAlarm(run: seq<Happening>, id: Id, offlineAfter: int, k: nat, cooldown: int, thresh: real)
    requires ListsOnce(run) && NeverLate(run, id, offlineAfter)
    requires k < |Rounds(run, offlineAfter)|
    ensures OfflineCount(Sent(Rounds(run, offlineAfter), k, cooldown, thresh), id) == 0
  {
    NeverLateStaysOnline(run, id, offlineAfter);
    RoundsAreDistinct(run, offlineAfter);
    SentCount(Rounds(run, offlineAfter), k, id, cooldown, thresh);
  }
}
