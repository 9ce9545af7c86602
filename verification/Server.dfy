/** The handlers that drive the machines: an alert check over the store's own status list, and a login. */
module Server {
  import opened Basics
  import S = Store
  import A = Alerts
  import D = Detection
  import L = Limiter
  import Sessions

  /** What a login request turns out to hold. */
  datatype Credentials = NotJson | Wrong | Right

  /** What the client is told. */
  datatype Reply = Ok(sid: Id) | BadRequest | Unauthorized | TooManyRequests | TableFull

  class Server {
    const store: S.Store
    const alerts: A.AlertState
    const limiter: L.LoginLimiter
    const sessions: Sessions.SessionStore
    const webhook: bool        // WEBHOOK_URL is set
    const trafficPct: real

    constructor (store: S.Store, alerts: A.AlertState, limiter: L.LoginLimiter, sessions: Sessions.SessionStore,
                 webhook: bool, trafficPct: real)
      ensures this.store == store && this.alerts == alerts && this.limiter == limiter && this.sessions == sessions
      ensures this.webhook == webhook && this.trafficPct == trafficPct
    {
      this.store, this.alerts, this.limiter, this.sessions := store, alerts, limiter, sessions;
      this.webhook, this.trafficPct := webhook, trafficPct;
    }

    /** The nodes table in created_at order. */
    ghost predicate Lists(order: seq<Id>)
      reads store
    {
      && (forall i :: 0 <= i < |order| ==> order[i] in store.nodes)
      && (forall i, j :: 0 <= i < j < |order| ==> order[i] != order[j])
    }

    ghost function Statuses(order: seq<Id>, now: int): seq<A.Status>
      requires Lists(order)
      reads store
    {
      seq(|order|, i requires 0 <= i < |order| && order[i] in store.nodes reads store => store.StatusOf(order[i], now))
    }

    /** checkAlerts: each check is one round of the machine in Alerts, on a list that names every node once and
        shows it online exactly while its last heartbeat is younger than offlineAfter. The clock is read once for
        the list and once for the events' time stamps. */
    method CheckAlerts(order: seq<Id>, listAt: int, now: int) returns (sent: seq<A.Event>)
      requires Lists(order) && store.Valid()
      modifies alerts
      ensures !webhook ==> sent == [] && alerts.Model() == old(alerts.Model())
      ensures webhook ==>
                var list := Statuses(order, listAt);
                var cooldown := A.Cooldown(store.cfg.offlineAfter);
                var thresh := if trafficPct > 0.0 then trafficPct else 90.0;
                && alerts.Model() == A.Check(old(alerts.Model()), list, now, cooldown, thresh)
                && sent == A.VisitAllSends(old(alerts.Model()), list, now, cooldown, thresh)
                && (forall e :: e in sent ==> A.Tells(e, list, now, thresh))
                && (forall i :: 0 <= i < |order| ==> store.ShowsNode(list[i], order[i], listAt))
                && A.Distinct(list)
                && forall i :: 0 <= i < |order| ==>
                     A.Shows(list, order[i], D.Online(S.LookUp(store.seen, order[i]), listAt, store.cfg.offlineAfter))
    {
      sent := [];
      if !webhook {
        return;
      }
      var views := store.ListStatus(order, listAt);
      var list := seq(|views|, i requires 0 <= i < |views| => views[i].status);
      assert list == Statuses(order, listAt);
      forall i | 0 <= i < |order|
        ensures A.Shows(list, order[i], D.Online(S.LookUp(store.seen, order[i]), listAt, store.cfg.offlineAfter))
      {
        assert list[i] == store.StatusOf(order[i], listAt);
      }
      assert forall i :: 0 <= i < |order| ==> store.ShowsNode(list[i], order[i], listAt);
      sent := alerts.CheckAlerts(list, now, store.cfg.offlineAfter, trafficPct);
    }

    /** handleLogin, with its readings of the clock; `sid` is the random id. A locked-out client is turned away
        before its password is looked at; an attempt that does not succeed moves its bucket as Limiter.AfterLogin
        says; success clears the bucket and mints a session. */
    method HandleLogin(key: string, c: Credentials, a: L.Attempt, sid: Id, evictAt: int, now: int) returns (r: Reply)
      requires limiter.Valid() && |sessions.byID| <= sessions.maxCap
      requires c == NotJson ==> a.outcome == L.BadJson
      requires c == Wrong ==> a.outcome == L.WrongPassword
      modifies limiter, limiter.attempts.Values, sessions
      ensures limiter.Valid() && |sessions.byID| <= sessions.maxCap
      ensures forall k :: k != key ==> limiter.Of(k) == old(limiter.Of(k))
      ensures !L.Allowed(old(limiter.Of(key)), limiter.limit, a.allowAt) ==>
                r == TooManyRequests && limiter.Of(key) == old(limiter.Of(key)) && sessions.byID == old(sessions.byID)
      ensures c != Right ==>
                && limiter.Of(key) == L.AfterLogin(old(limiter.Of(key)), limiter.limit, limiter.window, a)
                && sessions.byID == old(sessions.byID)
      ensures L.Allowed(old(limiter.Of(key)), limiter.limit, a.allowAt) ==>
                match c
                case NotJson => r == BadRequest && limiter.Of(key) == L.StillLive(old(limiter.Of(key)), a.allowAt)
                case Wrong =>
                  && limiter.Of(key).Some?
                  && L.CountsFailure(L.StillLive(old(limiter.Of(key)), a.allowAt), limiter.Of(key).value,
                                     limiter.window, a.failAt, a.openAt)
                  && r == if limiter.Of(key).Some? && limiter.Of(key).value.count >= limiter.limit
                       then TooManyRequests else Unauthorized
                case Right =>
                  && limiter.Of(key) == None
                  && var (table, made) := Sessions.Created(old(sessions.byID), sessions.ttl, sessions.maxCap, sid,
                                                           evictAt, now);
                     sessions.byID == table && r == if made.Some? then Ok(sid) else TableFull
    {
      var ok := limiter.Allow(key, a.allowAt);
      if !ok {
        return TooManyRequests;
      }
      match c
      case NotJson =>
        r := BadRequest;
      case Wrong =>
        var locked := limiter.Fail(key, a.failAt, a.openAt);
        r := if locked then TooManyRequests else Unauthorized;
      case Right =>
        limiter.Reset(key);
        var made := sessions.Create(sid, evictAt, now);
        r := if made.Some? then Ok(sid) else TableFull;
    }
  }
}
