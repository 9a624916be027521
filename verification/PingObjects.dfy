/** The lag meter as it is kept in memory: server records, the list of servers that answer
    pings, and the association list of the other pings. */
module PingObjects {
  import opened Text
  import opened Lists
  import opened DataList
  import opened Ping

  class ServerRec {
    const server: Server
    const domain: string
    var pingId: Option<string>
    var lagSent: int
    var lag: int
    var lagLastCheck: int
    var connected: bool
    var connectionLost: bool

    constructor (server: Server, domain: string)
      ensures this.server == server && View() == Meter(domain, None, 0, 0, 0, false)
    {
      this.server, this.domain := server, domain;
      pingId, lagSent, lag, lagLastCheck, connected, connectionLost := None, 0, 0, 0, false, false;
    }

    function View(): Meter
      reads this
    {
      Meter(domain, pingId, lagSent, lag, lagLastCheck, connected)
    }
  }

  function Ids(servers: seq<ServerRec>): (ids: seq<Server>)
    ensures |ids| == |servers| && forall i | 0 <= i < |ids| :: ids[i] == servers[i].server
  {
    seq(|servers|, i requires 0 <= i < |servers| => servers[i].server)
  }

  // ----- What one round of the timer does

  function Checked(m: Meter, action: Action, id: string, now: Clock): Meter {
    match action
    case Nothing => m
    case Drop => m.(connected := false)
    case Measure => m.(pingId := Some(id), lagSent := now, lastCheck := Sec(now))
  }

  function Output(m: Meter, server: Server, action: Action, id: string, now: Clock): seq<Out> {
    match action
    case Nothing => []
    case Drop => [LagDisconnect(server)]
    case Measure => [Request(server, m.domain, id, now)]
  }

  function Elsewhere(pings: map<Key, Sent>, server: Server): map<Key, Sent> {
    map k | k in pings && k.server != server :: pings[k]
  }

  /** A round of the timer: the servers it looks at, how they were, and what it does. */
  datatype Round = Round(list: seq<ServerRec>, views: seq<Meter>, others: map<Key, Sent>,
                         actions: seq<Action>, ids: seq<string>, now: Clock)
  {
    ghost predicate Fits() {
      && |list| == |views| == |actions| == |ids|
      && forall i, j | 0 <= i < j < |list| :: list[i].server != list[j].server
    }

    /** What the first `k` servers caused to be sent. */
    ghost function Sent(k: nat): seq<Out>
      requires Fits() && k <= |list|
    {
      if k == 0 then []
      else Sent(k - 1) + Output(views[k - 1], list[k - 1].server, actions[k - 1], ids[k - 1], now)
    }

    /** Those of the first `k` servers that were not dropped. */
    ghost function Left(k: nat): seq<ServerRec>
      requires Fits() && k <= |list|
    {
      if k == 0 then [] else Left(k - 1) + if actions[k - 1].Drop? then [] else [list[k - 1]]
    }

    /** The other pings, less those of the first `k` servers that were dropped. */
    ghost function Pending(k: nat): map<Key, Ping.Sent>
      requires Fits() && k <= |list|
    {
      if k == 0 then others
      else if actions[k - 1].Drop? then Elsewhere(Pending(k - 1), list[k - 1].server)
      else Pending(k - 1)
    }
  }

  ghost function Views(servers: seq<ServerRec>): (views: seq<Meter>)
    reads servers
    ensures |views| == |servers| && forall i | 0 <= i < |views| :: views[i] == servers[i].View()
  {
    seq(|servers|, i requires 0 <= i < |servers| reads servers => servers[i].View())
  }

  function Actions(views: seq<Meter>, checkTime: int, maxLag: int, now: Clock): (actions: seq<Action>)
    ensures |actions| == |views|
    ensures forall i | 0 <= i < |views| :: actions[i] == ActionFor(views[i], checkTime, maxLag, now)
  {
    seq(|views|, i requires 0 <= i < |views| => ActionFor(views[i], checkTime, maxLag, now))
  }

  lemma {:induction false} NothingHappens(t: Round, k: nat)
    requires t.Fits() && k <= |t.list| && forall i | 0 <= i < |t.actions| :: t.actions[i].Nothing?
    ensures t.Sent(k) == [] && t.Left(k) == t.list[..k] && t.Pending(k) == t.others
  {
    if k == 0 {
    } else {
      NothingHappens(t, k - 1);
    }
  }

  lemma {:induction false} LeftMembers(t: Round, k: nat)
    requires t.Fits() && k <= |t.list|
    ensures forall i | 0 <= i < |t.Left(k)| :: t.Left(k)[i] in t.list[..k]
  {
    if k == 0 {
    } else {
      LeftMembers(t, k - 1);
      assert t.list[..k] == t.list[..k - 1] + [t.list[k - 1]];
    }
  }

  // ----- Lists of servers

  lemma NextLeft(t: Round, k: nat)
    requires t.Fits() && k < |t.list|
    ensures t.Left(k + 1) + t.list[k + 1..]
            == if t.actions[k].Drop? then RemoveOne(t.Left(k) + t.list[k..], t.list[k])
               else t.Left(k) + t.list[k..]
  {
    assert t.list[k..] == [t.list[k]] + t.list[k + 1..];
    LeftMembers(t, k);
    RemoveOneAfter(t.Left(k), t.list[k..], t.list[k]);
    assert t.Left(k) + ([t.list[k]] + t.list[k + 1..]) == t.Left(k) + [t.list[k]] + t.list[k + 1..];
  }

  lemma {:induction false} RemainingMembers(servers: seq<ServerRec>, server: ServerRec, rest: seq<ServerRec>)
    requires forall i, j | 0 <= i < j < |servers| :: servers[i].server != servers[j].server
    requires rest == RemoveOne(servers, server)
    ensures forall i, j | 0 <= i < j < |rest| :: rest[i].server != rest[j].server
    ensures forall i | 0 <= i < |rest| :: rest[i] in servers && rest[i] != server
    ensures forall i | 0 <= i < |servers| && servers[i] != server :: servers[i] in rest
  {
    if servers == [] {
    } else {
      var tail := RemoveOne(servers[1..], server);
      RemainingMembers(servers[1..], server, tail);
      if servers[0] == server {
        assert forall i | 0 <= i < |rest| :: rest[i] == servers[i + 1];
      } else {
        forall i | 0 <= i < |tail| ensures tail[i].server != servers[0].server && tail[i] in servers {
          var j :| 0 <= j < |servers[1..]| && servers[1..][j] == tail[i];
          assert servers[j + 1] == tail[i];
        }
        forall i | 0 <= i < |servers| && servers[i] != server ensures servers[i] in rest {
          if i > 0 {
            assert servers[1..][i - 1] == servers[i];
          }
        }
      }
    }
  }

  class Pings {
    var supported: seq<ServerRec>
    const pings: DataList<Sent>

    /** `ping_init` */
    constructor ()
      ensures Valid() && supported == [] && Others() == map[] && fresh(pings)
    {
      supported := [];
      pings := new DataList();
    }

    /** A server is listed once, and no two records share an identity. */
    ghost predicate Valid()
      reads this, pings, pings.list
    {
      && pings.Valid()
      && forall i, j | 0 <= i < j < |supported| :: supported[i].server != supported[j].server
    }

    ghost function Others(): map<Key, Sent>
      reads pings, pings.list
    {
      ToMap(pings.Items())
    }

    /** `request_ping` */
    method RequestPing(server: ServerRec, dest: string, id: string, now: Clock) returns (out: Out)
      requires Valid()
      modifies server`pingId, server`lagSent, server`lagLastCheck, pings, pings.list
      ensures Valid()
      ensures (server.View(), Others(), out)
              == Ping.RequestPing(old(server.View()), old(Others()), server.server, dest, id, now)
    {
      if dest == server.domain {
        out := PingServer(server, id, now);
      } else {
        pings.Add(server.server, dest, Sent(id, now));
        out := Request(server.server, dest, id, now);
      }
    }

    /** The branch of `request_ping` for the server itself. */
    method PingServer(server: ServerRec, id: string, now: Clock) returns (out: Out)
      modifies server`pingId, server`lagSent, server`lagLastCheck
      ensures (server.View(), Others(), out)
              == Ping.RequestPing(old(server.View()), old(Others()), server.server, server.domain, id, now)
    {
      server.pingId := Some(id);
      server.lagSent := now;
      server.lagLastCheck := Sec(now);
      out := Request(server.server, server.domain, id, now);
    }

    /** `sig_recv_iq`, for a result */
    method RecvResult(server: ServerRec, id: string, from: string, empty: bool, now: Clock) returns (outs: seq<Out>)
      requires Valid()
      modifies server`lag, server`lagSent, server`pingId
      ensures (server.View(), outs)
              == Ping.RecvResult(old(server.View()), Others(), server.server, id, from, empty, now)
    {
      outs := [];
      if server.pingId.Some? && (from == "" || from == server.domain) && id == server.pingId.value {
        server.lag := Int32(Milliseconds(now, server.lagSent));
        server.lagSent := 0;
        server.pingId := None;
        outs := [Lag(server.server, server.lag)];
      } else if empty {
        var rec, at := pings.FindRec(server.server, from);
        FindExactly(pings.Items(), Key(server.server, from));
        if rec != null && id == rec.data.id {
          outs := [Pong(server.server, from, Milliseconds(now, rec.data.at))];
        }
      }
    }

    /** `sig_server_features`, for a server with the ping feature */
    method ServerFeatures(server: ServerRec)
      requires Valid() && forall r | r in supported && r.server == server.server :: r == server
      modifies this`supported
      ensures Valid() && server in supported
      ensures Ids(supported) == if server.server in Ids(old(supported)) then Ids(old(supported))
                                else [server.server] + Ids(old(supported))
    {
      if server !in supported {
        supported := [server] + supported;
        assert forall i | 0 <= i < |Ids(old(supported))| :: Ids(old(supported))[i] == old(supported)[i].server;
      } else {
        var i :| 0 <= i < |supported| && supported[i] == server;
        assert Ids(supported)[i] == server.server;
      }
    }

    /** `sig_disconnected` */
    method Disconnected(server: ServerRec)
      requires Valid()
      modifies this`supported, pings
      ensures Valid() && supported == RemoveOne(old(supported), server)
      ensures Others() == Elsewhere(old(Others()), server.server)
    {
      RemainingMembers(supported, server, RemoveOne(supported, server));
      supported := RemoveOne(supported, server);
      pings.Cleanup(Some(server.server));
      SameMap(Others(), Elsewhere(old(Others()), server.server));
    }

    /** The body of the loop of `check_ping_func`. */
    method CheckServer(server: ServerRec, checkTime: int, maxLag: int, id: string, now: Clock) returns (outs: seq<Out>)
      requires Valid() && checkTime > 0
      modifies this`supported, pings, server
      ensures Valid()
      ensures var action := ActionFor(old(server.View()), checkTime, maxLag, now);
              && server.View() == Checked(old(server.View()), action, id, now)
              && outs == Output(old(server.View()), server.server, action, id, now)
              && supported == (if action.Drop? then RemoveOne(old(supported), server) else old(supported))
              && Others() == if action.Drop? then Elsewhere(old(Others()), server.server) else old(Others())
    {
      outs := [];
      if Sec(server.lagSent) != 0 {
        if maxLag > 1 && Sec(now) - Sec(server.lagSent) > maxLag {
          outs := [LagDisconnect(server.server)];
          server.connectionLost := true;
          server.connected := false;
          Disconnected(server);
        }
      } else if server.lagLastCheck + checkTime < Sec(now) && server.connected {
        var out := PingServer(server, id, now);
        outs := [out];
      }
    }

    /** The first `k` servers of the round have been looked at. */
    ghost predicate Checking(t: Round, k: nat, outs: seq<Out>)
      requires t.Fits() && k <= |t.list|
      reads this, pings, pings.list, t.list
    {
      && Valid() && supported == t.Left(k) + t.list[k..]
      && (forall i | 0 <= i < |t.list| ::
            t.list[i].View() == if i < k then Checked(t.views[i], t.actions[i], t.ids[i], t.now) else t.views[i])
      && outs == t.Sent(k) && Others() == t.Pending(k)
    }

    method CheckNext(server: ServerRec, checkTime: int, maxLag: int, id: string, now: Clock, outs: seq<Out>,
                     ghost t: Round, ghost k: nat)
      returns (outs': seq<Out>)
      requires t.Fits() && k < |t.list| && server == t.list[k] && id == t.ids[k] && now == t.now
      requires checkTime > 0 && t.actions == Actions(t.views, checkTime, maxLag, now)
      requires Checking(t, k, outs)
      modifies this`supported, pings, server
      ensures Checking(t, k + 1, outs')
    {
      assert forall i | 0 <= i < |t.list| && i != k :: t.list[i] != server by {
        assert forall i | 0 <= i < |t.list| && i != k :: t.list[i].server != server.server;
      }
      var more := CheckServer(server, checkTime, maxLag, id, now);
      outs' := outs + more;
      NextLeft(t, k);
    }

    /** The round is over: what became of each server, what was sent, and which servers and
        pings are left. */
    ghost predicate Done(t: Round, outs: seq<Out>)
      requires t.Fits()
      reads this, pings, pings.list, t.list
    {
      var n := |t.list|;
      && (forall i | 0 <= i < n :: t.list[i].View() == Checked(t.views[i], t.actions[i], t.ids[i], t.now))
      && outs == t.Sent(n) && supported == t.Left(n) && Others() == t.Pending(n)
    }

    lemma CheckingAll(t: Round, outs: seq<Out>)
      requires t.Fits() && Checking(t, |t.list|, outs)
      ensures Valid() && Done(t, outs)
    {
      assert t.Left(|t.list|) + t.list[|t.list|..] == t.Left(|t.list|);
    }

    lemma CheckingNone(t: Round)
      requires t.Fits() && Valid() && supported == t.list && Views(t.list) == t.views && Others() == t.others
      ensures Checking(t, 0, [])
    {
      assert t.Left(0) + t.list[0..] == t.list;
    }

    lemma NothingChecked(t: Round)
      requires t.Fits() && Checking(t, 0, []) && forall i | 0 <= i < |t.actions| :: t.actions[i].Nothing?
      ensures Done(t, [])
    {
      NothingHappens(t, |t.list|);
      assert t.Left(0) + t.list[0..] == t.list && t.list[..|t.list|] == t.list;
    }

    method CheckAll(list: seq<ServerRec>, checkTime: int, maxLag: int, ids: seq<string>, now: Clock, ghost t: Round)
      returns (outs: seq<Out>)
      requires t.Fits() && list == t.list && ids == t.ids && now == t.now
      requires checkTime > 0 && t.actions == Actions(t.views, checkTime, maxLag, now)
      requires Checking(t, 0, [])
      modifies this`supported, pings, list
      ensures Valid() && Done(t, outs)
    {
      outs := [];
      for k := 0 to |list|
        invariant Checking(t, k, outs)
      {
        outs := CheckNext(list[k], checkTime, maxLag, ids[k], now, outs, t, k);
      }
      CheckingAll(t, outs);
    }

    /** The round that begins now. */
    ghost function NewRound(checkTime: int, maxLag: int, ids: seq<string>, now: Clock): (t: Round)
      requires Valid() && |ids| == |supported|
      reads this, pings, pings.list, supported
      ensures t.Fits()
    {
      Round(supported, Views(supported), Others(), Actions(Views(supported), checkTime, maxLag, now), ids, now)
    }

    /** `check_ping_func`: every second, all servers that answer pings are looked at; `ids`
        are the ids the requests would get. */
    method CheckPing(checkTime: int, maxLag: int, ids: seq<string>, now: Clock) returns (outs: seq<Out>)
      requires Valid() && |ids| == |supported|
      modifies this`supported, pings, supported
      ensures Valid()
      ensures Done(old(NewRound(checkTime, maxLag, ids, now)), outs)
    {
      ghost var t := NewRound(checkTime, maxLag, ids, now);
      CheckingNone(t);
      if checkTime <= 0 {
        NothingChecked(t);
        return [];
      }
      outs := CheckAll(supported, checkTime, maxLag, ids, now, t);
    }
  }

  // ----- A round of the timer is a run of checks

  ghost predicate FreshIds(t: Round, log: seq<Out>) {
    && (forall i | 0 <= i < |t.ids| :: UnusedId(log, t.ids[i]))
    && (forall i, j | 0 <= i < j < |t.ids| :: t.ids[i] != t.ids[j])
  }

  /** The state after the first `k` servers, when `log` was the log before the round. */
  ghost predicate Shows(s: State, t: Round, k: nat, log: seq<Out>)
    requires t.Fits() && k <= |t.list|
  {
    && s.supported == Ids(t.Left(k)) + Ids(t.list)[k..]
    && s.pings == t.Pending(k) && s.log == log + t.Sent(k)
    && forall i | 0 <= i < |t.list| && !(i < k && t.actions[i].Drop?) ::
         && t.list[i].server in s.meters
         && s.meters[t.list[i].server]
            == if i < k then Checked(t.views[i], t.actions[i], t.ids[i], t.now) else t.views[i]
  }

  function Checks(t: Round, checkTime: int, maxLag: int): (es: seq<Event>)
    requires |t.list| == |t.ids|
    ensures |es| == |t.list|
    ensures forall i | 0 <= i < |es| :: es[i] == Check(t.list[i].server, checkTime, maxLag, t.ids[i], t.now)
  {
    seq(|t.list|, i requires 0 <= i < |t.list| => Check(t.list[i].server, checkTime, maxLag, t.ids[i], t.now))
  }

  lemma {:induction false} SentIds(t: Round, k: nat)
    requires t.Fits() && k <= |t.list|
    ensures forall i | 0 <= i < |t.Sent(k)| && t.Sent(k)[i].Request? :: t.Sent(k)[i].id in t.ids[..k]
  {
    if k == 0 {
    } else {
      SentIds(t, k - 1);
      assert t.ids[..k] == t.ids[..k - 1] + [t.ids[k - 1]];
    }
  }

  lemma NextId(t: Round, k: nat, log: seq<Out>)
    requires t.Fits() && k < |t.list| && FreshIds(t, log)
    ensures UnusedId(log + t.Sent(k), t.ids[k])
  {
    SentIds(t, k);
    var all := log + t.Sent(k);
    forall i | 0 <= i < |all| && all[i].Request? ensures all[i].id != t.ids[k] {
      if i >= |log| {
        assert all[i] == t.Sent(k)[i - |log|];
      }
    }
  }

  lemma NextRemoved(t: Round, k: nat)
    requires t.Fits() && k < |t.list|
    ensures RemoveOne(Ids(t.Left(k)) + Ids(t.list)[k..], t.list[k].server)
            == Ids(t.Left(k)) + Ids(t.list)[k + 1..]
  {
    var left := t.Left(k);
    var front, rest := Ids(left), Ids(t.list)[k..];
    LeftMembers(t, k);
    forall i | 0 <= i < |front| ensures front[i] != t.list[k].server {
      var j :| 0 <= j < |t.list[..k]| && t.list[..k][j] == left[i];
    }
    RemoveOneAfter(front, rest, t.list[k].server);
  }

  lemma Passing<T>(s: seq<T>, x: T, t: seq<T>)
    ensures s + ([x] + t) == s + [x] + t && x in s + ([x] + t)
  {
    assert (s + ([x] + t))[|s|] == x;
  }

  lemma IdsMore(servers: seq<ServerRec>, server: ServerRec)
    ensures Ids(servers + [server]) == Ids(servers) + [server.server]
  {
  }

  lemma IdsFrom(servers: seq<ServerRec>, k: nat)
    requires k < |servers|
    ensures Ids(servers)[k..] == [servers[k].server] + Ids(servers)[k + 1..]
  {
  }

  lemma NextSupported(t: Round, k: nat)
    requires t.Fits() && k < |t.list|
    ensures t.list[k].server in Ids(t.Left(k)) + Ids(t.list)[k..]
    ensures var before := Ids(t.Left(k)) + Ids(t.list)[k..];
            Ids(t.Left(k + 1)) + Ids(t.list)[k + 1..]
            == if t.actions[k].Drop? then RemoveOne(before, t.list[k].server) else before
  {
    IdsFrom(t.list, k);
    Passing(Ids(t.Left(k)), t.list[k].server, Ids(t.list)[k + 1..]);
    if t.actions[k].Drop? {
      NextRemoved(t, k);
      assert t.Left(k + 1) == t.Left(k);
    } else {
      IdsMore(t.Left(k), t.list[k]);
    }
  }

  lemma NextLog(t: Round, k: nat, log: seq<Out>)
    requires t.Fits() && k < |t.list|
    ensures log + t.Sent(k + 1)
            == log + t.Sent(k) + Output(t.views[k], t.list[k].server, t.actions[k], t.ids[k], t.now)
  {
  }

  lemma NextShows(s: State, t: Round, k: nat, log: seq<Out>, checkTime: int, maxLag: int)
    requires t.Fits() && k < |t.list| && FreshIds(t, log) && Shows(s, t, k, log)
    requires t.actions == Actions(t.views, checkTime, maxLag, t.now)
    ensures var e := Checks(t, checkTime, maxLag)[k];
            CanHappen(s, e) && Shows(Step(s, e), t, k + 1, log)
  {
    var server, action := t.list[k].server, t.actions[k];
    NextId(t, k, log);
    NextSupported(t, k);
    NextLog(t, k, log);
    assert forall i | 0 <= i < |t.list| && i != k :: t.list[i].server != server;
    assert s.meters[server] == t.views[k] && ActionFor(s.meters[server], checkTime, maxLag, t.now) == action;
  }

  lemma PrefixNext<T>(a: seq<T>, b: seq<T>, k: nat)
    requires 0 < k <= |b|
    ensures a + b[..k] == a + b[..k - 1] + [b[k - 1]]
  {
    assert b[..k] == b[..k - 1] + [b[k - 1]];
  }

  /** After any history, a round of the timer that starts from what the servers then show
      does what checking them one after the other does. */
  lemma {:induction false} RoundIsChecks(es: seq<Event>, t: Round, k: nat, checkTime: int, maxLag: int)
    requires Possible(es) && t.Fits() && k <= |t.list| && FreshIds(t, Run(es).log)
    requires t.actions == Actions(t.views, checkTime, maxLag, t.now)
    requires Shows(Run(es), t, 0, Run(es).log)
    ensures var checks := Checks(t, checkTime, maxLag)[..k];
            Possible(es + checks) && Shows(Run(es + checks), t, k, Run(es).log)
  {
    var checks := Checks(t, checkTime, maxLag);
    if k == 0 {
      assert es + checks[..0] == es;
    } else {
      RoundIsChecks(es, t, k - 1, checkTime, maxLag);
      var before := es + checks[..k - 1];
      NextShows(Run(before), t, k - 1, Run(es).log, checkTime, maxLag);
      RunNext(before, checks[k - 1]);
      PrefixNext(es, checks, k);
    }
  }
}
