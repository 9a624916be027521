/** Pings and the lag meter (XEP-0199): which pings are sent, and what is reported when a
    reply arrives. Clock readings are in microseconds. */
module Ping {
  import opened Text
  import opened Lists
  import opened DataList

  const SECOND := 1_000_000

  /** `g_get_current_time`, at least one second after the epoch. */
  type Clock = t: int | SECOND <= t witness SECOND

  /** `tv_sec` and `time` */
  function Sec(t: int): (s: int)
    ensures 1_000_000 * s <= t < 1_000_000 * (s + 1)
  {
    t / SECOND
  }

  /** `get_timeval_diff`, in milliseconds rounded down */
  function Milliseconds(now: int, sent: int): (ms: int)
    ensures sent + 1000 * ms <= now < sent + 1000 * (ms + 1)
  {
    (now - sent) / 1000
  }

  /** The cast of a `long` to a 32-bit `int`. */
  function Int32(x: int): (r: int)
    ensures -0x8000_0000 <= r < 0x8000_0000 && (x - r) % 0x1_0000_0000 == 0
  {
    (x + 0x8000_0000) % 0x1_0000_0000 - 0x8000_0000
  }

  /** The lag meter's part of a server record; `lagSent` is 0 when it is all zeroes. */
  datatype Meter =
    Meter(domain: string, pingId: Option<string>, lagSent: int, lag: int, lastCheck: int, connected: bool)

  /** `struct ping_data` */
  datatype Sent = Sent(id: string, at: Clock)

  datatype Out =
    | Request(server: Server, to: string, id: string, at: Clock)
    | Lag(server: Server, lag: int)
    | Pong(server: Server, from: string, milliseconds: int)
    | LagDisconnect(server: Server)

  // ----- One server

  /** `request_ping` */
  function RequestPing(m: Meter, pings: map<Key, Sent>, server: Server, dest: string, id: string, now: Clock):
    (Meter, map<Key, Sent>, Out)
  {
    if dest == m.domain then
      (m.(pingId := Some(id), lagSent := now, lastCheck := Sec(now)), pings, Request(server, dest, id, now))
    else
      (m, pings[Key(server, dest) := Sent(id, now)], Request(server, dest, id, now))
  }

  predicate AnswersMeter(m: Meter, id: string, from: string) {
    m.pingId.Some? && (from == "" || from == m.domain) && id == m.pingId.value
  }

  /** `sig_recv_iq` for a result; `empty` says that the stanza has no children. */
  function RecvResult(m: Meter, pings: map<Key, Sent>, server: Server,
                      id: string, from: string, empty: bool, now: Clock):
    (Meter, seq<Out>)
  {
    if AnswersMeter(m, id, from) then
      var lag := Int32(Milliseconds(now, m.lagSent));
      (m.(lag := lag, lagSent := 0, pingId := None), [Lag(server, lag)])
    else if empty && Key(server, from) in pings && pings[Key(server, from)].id == id then
      (m, [Pong(server, from, Milliseconds(now, pings[Key(server, from)].at))])
    else (m, [])
  }

  datatype Action = Nothing | Drop | Measure

  /** The branches of `check_ping_func` for one server. */
  function ActionFor(m: Meter, checkTime: int, maxLag: int, now: Clock): Action {
    if checkTime <= 0 then Nothing
    else if Sec(m.lagSent) != 0 then
      if maxLag > 1 && Sec(now) - Sec(m.lagSent) > maxLag then Drop else Nothing
    else if m.lastCheck + checkTime < Sec(now) && m.connected then Measure
    else Nothing
  }

  // ----- All servers

  /** `log` holds everything that was sent or reported so far. */
  datatype State = State(meters: map<Server, Meter>, pings: map<Key, Sent>, supported: seq<Server>, log: seq<Out>)

  datatype Event =
    | Created(server: Server, domain: string)
    | Connected(server: Server)
    | Features(server: Server)
    | Asked(server: Server, dest: string, id: string, now: Clock)
    | Result(server: Server, id: string, from: string, empty: bool, now: Clock)
    | Check(server: Server, checkTime: int, maxLag: int, id: string, now: Clock)
    | Disconnected(server: Server)

  predicate UnusedId(log: seq<Out>, id: string) {
    forall i | 0 <= i < |log| && log[i].Request? :: log[i].id != id
  }

  /** Stanza ids are never used twice; a server record that is gone does not come back. */
  predicate CanHappen(s: State, e: Event) {
    match e
    case Created(server, _) => server !in s.meters && forall i | 0 <= i < |s.log| :: s.log[i].server != server
    case Asked(server, _, id, _) => server in s.meters && UnusedId(s.log, id)
    case Check(server, _, _, id, _) => server in s.meters && server in s.supported && UnusedId(s.log, id)
    case _ => e.server in s.meters
  }

  /** `sig_disconnected`; the server record then goes away. */
  function Closed(s: State, server: Server): State {
    s.(meters := s.meters - {server},
       pings := map k | k in s.pings && k.server != server :: s.pings[k],
       supported := RemoveOne(s.supported, server))
  }

  function Ask(s: State, server: Server, dest: string, id: string, now: Clock): State
    requires server in s.meters
  {
    var (m, pings, out) := RequestPing(s.meters[server], s.pings, server, dest, id, now);
    s.(meters := s.meters[server := m], pings := pings, log := s.log + [out])
  }

  function Step(s: State, e: Event): State
    requires CanHappen(s, e)
  {
    match e
    case Created(server, domain) => s.(meters := s.meters[server := Meter(domain, None, 0, 0, 0, false)])
    case Connected(server) => s.(meters := s.meters[server := s.meters[server].(connected := true)])
    case Features(server) => if server in s.supported then s else s.(supported := [server] + s.supported)
    case Asked(server, dest, id, now) => Ask(s, server, dest, id, now)
    case Result(server, id, from, empty, now) =>
      var (m, outs) := RecvResult(s.meters[server], s.pings, server, id, from, empty, now);
      s.(meters := s.meters[server := m], log := s.log + outs)
    case Check(server, checkTime, maxLag, id, now) => (
      match ActionFor(s.meters[server], checkTime, maxLag, now)
      case Nothing => s
      case Drop => Closed(s.(log := s.log + [LagDisconnect(server)]), server)
      case Measure => Ask(s, server, s.meters[server].domain, id, now))
    case Disconnected(server) => Closed(s, server)
  }

  // ----- What the log says

  predicate IsPing(out: Out, server: Server, to: string) {
    out.Request? && out.server == server && out.to == to
  }

  predicate IsLag(out: Out, server: Server) {
    out.Lag? && out.server == server
  }

  /** Request `i` is the last ping sent to the server itself, and no lag was reported since. */
  ghost predicate Outstanding(log: seq<Out>, i: int, server: Server, domain: string) {
    && 0 <= i < |log| && IsPing(log[i], server, domain)
    && forall j | i < j < |log| :: !IsPing(log[j], server, domain) && !IsLag(log[j], server)
  }

  ghost predicate LastPing(log: seq<Out>, i: int, server: Server, to: string) {
    && 0 <= i < |log| && IsPing(log[i], server, to)
    && forall j | i < j < |log| :: !IsPing(log[j], server, to)
  }

  /** The meter shows what the log says: the outstanding server ping and the last one. */
  ghost predicate Agrees(m: Meter, server: Server, log: seq<Out>) {
    && (m.pingId.Some? <==> m.lagSent != 0)
    && (m.pingId.None? ==> forall i :: !Outstanding(log, i, server, m.domain))
    && (m.pingId.Some? ==>
        exists i :: Outstanding(log, i, server, m.domain) && log[i].id == m.pingId.value && log[i].at == m.lagSent)
    && (m.lastCheck == 0 ==> forall i | 0 <= i < |log| :: !IsPing(log[i], server, m.domain))
    && (m.lastCheck != 0 ==>
        exists i :: LastPing(log, i, server, m.domain) && Sec(log[i].at) == m.lastCheck)
  }

  ghost predicate UniqueIds(log: seq<Out>) {
    forall i, j | 0 <= i < j < |log| && log[i].Request? && log[j].Request? :: log[i].id != log[j].id
  }

  ghost predicate WasSent(log: seq<Out>, key: Key, ping: Sent) {
    Request(key.server, key.jid, ping.id, ping.at) in log
  }

  ghost predicate Inv(s: State) {
    && (forall server | server in s.meters :: Agrees(s.meters[server], server, s.log))
    && (forall key | key in s.pings :: WasSent(s.log, key, s.pings[key]))
    && UniqueIds(s.log)
  }

  /** An output that is no ping of the server and no report of its lag changes nothing. */
  lemma AgreesWithOther(m: Meter, server: Server, log: seq<Out>, out: Out)
    requires Agrees(m, server, log) && !IsPing(out, server, m.domain) && !IsLag(out, server)
    ensures Agrees(m, server, log + [out])
  {
    var log' := log + [out];
    if m.pingId.Some? {
      var i :| Outstanding(log, i, server, m.domain) && log[i].id == m.pingId.value && log[i].at == m.lagSent;
      assert Outstanding(log', i, server, m.domain) && log'[i] == log[i];
    } else {
      forall i ensures !Outstanding(log', i, server, m.domain) {
        if Outstanding(log', i, server, m.domain) {
          assert forall j | i < j < |log| :: log'[j] == log[j];
          assert Outstanding(log, i, server, m.domain);
        }
      }
    }
    if m.lastCheck != 0 {
      var i :| LastPing(log, i, server, m.domain) && Sec(log[i].at) == m.lastCheck;
      assert LastPing(log', i, server, m.domain) && log'[i] == log[i];
    }
  }

  lemma AgreesAfterPing(m: Meter, server: Server, log: seq<Out>, id: string, now: Clock)
    ensures Agrees(m.(pingId := Some(id), lagSent := now, lastCheck := Sec(now)), server,
                   log + [Request(server, m.domain, id, now)])
  {
    var log' := log + [Request(server, m.domain, id, now)];
    assert Outstanding(log', |log|, server, m.domain) && LastPing(log', |log|, server, m.domain);
  }

  lemma AgreesAfterLag(m: Meter, server: Server, log: seq<Out>, lag: int)
    requires Agrees(m, server, log)
    ensures Agrees(m.(lag := lag, lagSent := 0, pingId := None), server, log + [Lag(server, lag)])
  {
    var log' := log + [Lag(server, lag)];
    assert IsLag(log'[|log|], server);
    if m.lastCheck != 0 {
      var i :| LastPing(log, i, server, m.domain) && Sec(log[i].at) == m.lastCheck;
      assert LastPing(log', i, server, m.domain) && log'[i] == log[i];
    }
  }

  lemma AskInv(s: State, server: Server, dest: string, id: string, now: Clock)
    requires Inv(s) && server in s.meters && UnusedId(s.log, id)
    ensures Inv(Ask(s, server, dest, id, now))
  {
    var s' := Ask(s, server, dest, id, now);
    var out := Request(server, dest, id, now);
    forall other | other in s'.meters ensures Agrees(s'.meters[other], other, s'.log) {
      if other == server && dest == s.meters[server].domain {
        AgreesAfterPing(s.meters[server], server, s.log, id, now);
      } else {
        AgreesWithOther(s.meters[other], other, s.log, out);
      }
    }
    assert out == s'.log[|s.log|];
  }

  lemma ResultInv(s: State, e: Event)
    requires Inv(s) && e.Result? && CanHappen(s, e)
    ensures Inv(Step(s, e))
  {
    var s' := Step(s, e);
    var (m, outs) := RecvResult(s.meters[e.server], s.pings, e.server, e.id, e.from, e.empty, e.now);
    if outs == [] {
      assert s'.log == s.log;
    } else {
      forall other | other in s'.meters ensures Agrees(s'.meters[other], other, s'.log) {
        if other == e.server && outs[0].Lag? {
          AgreesAfterLag(s.meters[other], other, s.log, outs[0].lag);
        } else {
          AgreesWithOther(s.meters[other], other, s.log, outs[0]);
        }
      }
    }
  }

  lemma ClosedInv(s: State, server: Server)
    requires Inv(s)
    ensures Inv(Closed(s, server))
  {
  }

  lemma DropInv(s: State, server: Server)
    requires Inv(s) && server in s.meters
    ensures Inv(s.(log := s.log + [LagDisconnect(server)]))
  {
    forall other | other in s.meters ensures Agrees(s.meters[other], other, s.log + [LagDisconnect(server)]) {
      AgreesWithOther(s.meters[other], other, s.log, LagDisconnect(server));
    }
  }

  lemma StepInv(s: State, e: Event)
    requires Inv(s) && CanHappen(s, e)
    ensures Inv(Step(s, e))
  {
    match e
    case Created(_, _) =>
    case Connected(server) =>
    case Features(_) =>
    case Asked(server, dest, id, now) => AskInv(s, server, dest, id, now);
    case Result(_, _, _, _, _) => ResultInv(s, e);
    case Check(server, checkTime, maxLag, id, now) =>
      if ActionFor(s.meters[server], checkTime, maxLag, now).Drop? {
        DropInv(s, server);
        ClosedInv(s.(log := s.log + [LagDisconnect(server)]), server);
      } else if ActionFor(s.meters[server], checkTime, maxLag, now).Measure? {
        AskInv(s, server, s.meters[server].domain, id, now);
      }
    case Disconnected(server) => ClosedInv(s, server);
  }

  ghost function Run(es: seq<Event>): State
    requires Possible(es)
    decreases |es|, 1
  {
    if |es| == 0 then State(map[], map[], [], []) else Step(Run(es[..|es| - 1]), es[|es| - 1])
  }

  // ----- Runs

  ghost predicate Possible(es: seq<Event>)
    decreases |es|, 0
  {
    |es| == 0 || (Possible(es[..|es| - 1]) && CanHappen(Run(es[..|es| - 1]), es[|es| - 1]))
  }

  lemma RunNext(es: seq<Event>, e: Event)
    requires Possible(es) && CanHappen(Run(es), e)
    ensures Possible(es + [e]) && Run(es + [e]) == Step(Run(es), e)
  {
    assert (es + [e])[..|es + [e]| - 1] == es;
  }

  lemma {:induction false} RunInv(es: seq<Event>)
    requires Possible(es)
    ensures Inv(Run(es))
  {
    if |es| == 0 {
    } else {
      RunInv(es[..|es| - 1]);
      StepInv(Run(es[..|es| - 1]), es[|es| - 1]);
    }
  }

  /** In every reachable state `ping_id` is set exactly when `lag_sent` is, and exactly
      while a ping to the server is outstanding. */
  lemma MeterShowsOutstanding(es: seq<Event>, server: Server)
    requires Possible(es) && server in Run(es).meters
    ensures var s := Run(es);
            var m := s.meters[server];
            && (m.pingId.Some? <==> m.lagSent != 0)
            && (m.pingId.Some? <==> exists i :: Outstanding(s.log, i, server, m.domain))
            && (forall i :: Outstanding(s.log, i, server, m.domain) ==>
                  m.pingId == Some(s.log[i].id) && m.lagSent == s.log[i].at)
  {
    RunInv(es);
    var s := Run(es);
    var m := s.meters[server];
    forall i, j | Outstanding(s.log, i, server, m.domain) && Outstanding(s.log, j, server, m.domain)
      ensures i == j
    {
    }
  }

  /** The server's answer to the outstanding ping, and nothing else, measures the lag. */
  lemma AnswerMeasuresLag(es: seq<Event>, e: Event)
    requires Possible(es) && e.Result? && CanHappen(Run(es), e)
    ensures var s := Run(es);
            var m := s.meters[e.server];
            var s' := Step(s, e);
            (exists i :: Outstanding(s.log, i, e.server, m.domain) && s.log[i].id == e.id
                         && (e.from == "" || e.from == m.domain)) <==>
              (exists lag :: && s'.log == s.log + [Lag(e.server, lag)]
                             && s'.meters == s.meters[e.server := m.(pingId := None, lagSent := 0, lag := lag)])
  {
    MeterShowsOutstanding(es, e.server);
    var s := Run(es);
    var m := s.meters[e.server];
    if AnswersMeter(m, e.id, e.from) {
      assert Step(s, e).log == s.log + [Lag(e.server, Int32(Milliseconds(e.now, m.lagSent)))];
    } else {
      forall lag ensures Step(s, e).log != s.log + [Lag(e.server, lag)] {
        assert (s.log + [Lag(e.server, lag)])[|s.log|].Lag?;
      }
    }
  }

  /** What a reply reports is the time since the one ping that bears its id was sent, to
      the server itself or to the sender of the reply. */
  lemma ReportsMatchingPing(es: seq<Event>, e: Event, out: Out)
    requires Possible(es) && e.Result? && CanHappen(Run(es), e)
    requires Step(Run(es), e).log == Run(es).log + [out]
    ensures var s := Run(es);
            exists i :: 0 <= i < |s.log| && s.log[i].Request? && s.log[i].id == e.id && s.log[i].server == e.server
              && (forall j | 0 <= j < |s.log| && s.log[j].Request? && s.log[j].id == e.id :: j == i)
              && (out.Lag? ==> s.log[i].to == s.meters[e.server].domain
                               && out == Lag(e.server, Int32(Milliseconds(e.now, s.log[i].at))))
              && (!out.Lag? ==> s.log[i].to == e.from
                                && out == Pong(e.server, e.from, Milliseconds(e.now, s.log[i].at)))
  {
    RunInv(es);
    var s := Run(es);
    var m := s.meters[e.server];
    assert Step(s, e).log[|s.log|] == out;
    if AnswersMeter(m, e.id, e.from) {
      var i :| Outstanding(s.log, i, e.server, m.domain) && s.log[i].id == m.pingId.value && s.log[i].at == m.lagSent;
      assert s.log[i].Request?;
    } else {
      var key := Key(e.server, e.from);
      assert WasSent(s.log, key, s.pings[key]);
      var i :| 0 <= i < |s.log| && s.log[i] == Request(key.server, key.jid, s.pings[key].id, s.pings[key].at);
      assert s.log[i].Request?;
    }
  }

  lemma LagSentInSeconds(m: Meter, server: Server, log: seq<Out>)
    requires Agrees(m, server, log)
    ensures Sec(m.lagSent) != 0 <==> m.pingId.Some?
  {
    if m.pingId.Some? {
      var i :| Outstanding(log, i, server, m.domain) && log[i].at == m.lagSent;
    }
  }

  lemma LastTells<T>(s: seq<T>, x: T, y: T)
    requires s + [x] == s + [y]
    ensures x == y
  {
    assert (s + [x])[|s|] == x && (s + [y])[|s|] == y;
  }

  lemma CheckActs(s: State, e: Event)
    requires CanHappen(s, e) && e.Check?
    ensures var m := s.meters[e.server];
            var ping, drop := Request(e.server, m.domain, e.id, e.now), LagDisconnect(e.server);
            && (Step(s, e).log == s.log + [ping] <==> ActionFor(m, e.checkTime, e.maxLag, e.now).Measure?)
            && (Step(s, e).log == s.log + [drop] <==> ActionFor(m, e.checkTime, e.maxLag, e.now).Drop?)
  {
    var m := s.meters[e.server];
    var ping, drop := Request(e.server, m.domain, e.id, e.now), LagDisconnect(e.server);
    if s.log + [ping] == s.log + [drop] {
      LastTells(s.log, ping, drop);
    }
    assert |Step(s, e).log| == |s.log| + if ActionFor(m, e.checkTime, e.maxLag, e.now).Nothing? then 0 else 1;
  }

  /** The timer pings a server exactly when no ping to it is outstanding, the last one is
      more than `lag_check_time` seconds old, and it is connected. */
  lemma TimerPings(es: seq<Event>, e: Event)
    requires Possible(es) && e.Check? && CanHappen(Run(es), e)
    ensures var s := Run(es);
            var m := s.meters[e.server];
            Step(s, e).log == s.log + [Request(e.server, m.domain, e.id, e.now)] <==>
              && e.checkTime > 0 && m.connected
              && (forall i :: !Outstanding(s.log, i, e.server, m.domain))
              && (forall i :: LastPing(s.log, i, e.server, m.domain) ==>
                    Sec(e.now) - Sec(s.log[i].at) > e.checkTime)
              && ((forall i :: !LastPing(s.log, i, e.server, m.domain)) ==> Sec(e.now) > e.checkTime)
  {
    RunInv(es);
    var s := Run(es);
    var m := s.meters[e.server];
    LagSentInSeconds(m, e.server, s.log);
    CheckActs(s, e);
    if m.lastCheck != 0 {
      var i :| LastPing(s.log, i, e.server, m.domain) && Sec(s.log[i].at) == m.lastCheck;
      forall j | LastPing(s.log, j, e.server, m.domain) ensures j == i {
      }
    }
  }

  /** The timer drops a server exactly when a ping to it has been outstanding for more
      than `max_lag` seconds. */
  lemma TimerDrops(es: seq<Event>, e: Event)
    requires Possible(es) && e.Check? && CanHappen(Run(es), e)
    ensures var s := Run(es);
            var m := s.meters[e.server];
            Step(s, e).log == s.log + [LagDisconnect(e.server)] && e.server !in Step(s, e).meters <==>
              && e.checkTime > 0 && e.maxLag > 1
              && exists i :: Outstanding(s.log, i, e.server, m.domain) && Sec(e.now) - Sec(s.log[i].at) > e.maxLag
  {
    RunInv(es);
    var s := Run(es);
    var m := s.meters[e.server];
    LagSentInSeconds(m, e.server, s.log);
    CheckActs(s, e);
    if m.pingId.Some? {
      var i :| Outstanding(s.log, i, e.server, m.domain) && s.log[i].at == m.lagSent;
      forall j | Outstanding(s.log, j, e.server, m.domain) ensures j == i {
      }
    }
  }

  // ----- Pings of other entities

  /** The record for `to` is that of the last ping of the server to it. */
  ghost predicate Recorded(s: State, server: Server, to: string) {
    var key := Key(server, to);
    && (key in s.pings ==>
          exists i :: && LastPing(s.log, i, server, to)
                      && s.log[i].id == s.pings[key].id && s.log[i].at == s.pings[key].at)
    && (key !in s.pings ==> forall i | 0 <= i < |s.log| :: !IsPing(s.log[i], server, to))
  }

  /** Of every other entity the last ping is recorded, while the server is there, and of the
      server itself none. */
  ghost predicate AllRecorded(s: State) {
    && (forall server, to | server in s.meters && to != s.meters[server].domain :: Recorded(s, server, to))
    && (forall server | server in s.meters :: Key(server, s.meters[server].domain) !in s.pings)
  }

  lemma RecordedKept(s: State, s': State, server: Server, to: string, out: Out)
    requires Recorded(s, server, to) && !IsPing(out, server, to) && s'.log == s.log + [out]
    requires Key(server, to) in s'.pings <==> Key(server, to) in s.pings
    requires Key(server, to) in s.pings ==> s'.pings[Key(server, to)] == s.pings[Key(server, to)]
    ensures Recorded(s', server, to)
  {
    var key := Key(server, to);
    if key in s.pings {
      var i :| LastPing(s.log, i, server, to) && s.log[i].id == s.pings[key].id && s.log[i].at == s.pings[key].at;
      assert LastPing(s'.log, i, server, to) && s'.log[i] == s.log[i];
    }
  }

  lemma AskRecorded(s: State, server: Server, dest: string, id: string, now: Clock)
    requires AllRecorded(s) && server in s.meters
    ensures AllRecorded(Ask(s, server, dest, id, now))
  {
    var s' := Ask(s, server, dest, id, now);
    var out := Request(server, dest, id, now);
    forall other, to | other in s'.meters && to != s'.meters[other].domain ensures Recorded(s', other, to) {
      assert to != s.meters[other].domain;
      if other == server && to == dest {
        assert s'.log[|s.log|] == out && LastPing(s'.log, |s.log|, server, dest);
      } else {
        RecordedKept(s, s', other, to, out);
      }
    }
  }

  lemma ResultRecorded(s: State, e: Event)
    requires AllRecorded(s) && e.Result? && CanHappen(s, e)
    ensures AllRecorded(Step(s, e))
  {
    var s' := Step(s, e);
    forall other, to | other in s'.meters && to != s'.meters[other].domain ensures Recorded(s', other, to) {
      assert Recorded(s, other, to);
      if s'.log != s.log {
        RecordedKept(s, s', other, to, s'.log[|s.log|]);
      }
    }
  }

  lemma ClosedRecorded(s: State, server: Server)
    requires AllRecorded(s)
    ensures AllRecorded(Closed(s, server))
  {
    var s' := Closed(s, server);
    forall other, to | other in s'.meters && to != s'.meters[other].domain ensures Recorded(s', other, to) {
      assert Recorded(s, other, to);
    }
  }

  lemma NewServerHasNone(s: State, server: Server, to: string)
    requires Inv(s) && forall i | 0 <= i < |s.log| :: s.log[i].server != server
    ensures Key(server, to) !in s.pings
  {
    var key := Key(server, to);
    assert key in s.pings ==> WasSent(s.log, key, s.pings[key]);
  }

  lemma CreatedRecorded(s: State, e: Event)
    requires Inv(s) && AllRecorded(s) && e.Created? && CanHappen(s, e)
    ensures AllRecorded(Step(s, e))
  {
    var s' := Step(s, e);
    forall other, to | other in s'.meters && to != s'.meters[other].domain ensures Recorded(s', other, to) {
      if other == e.server {
        NewServerHasNone(s, other, to);
      } else {
        assert Recorded(s, other, to);
      }
    }
    NewServerHasNone(s, e.server, e.domain);
  }

  lemma DropRecorded(s: State, server: Server)
    requires AllRecorded(s)
    ensures AllRecorded(s.(log := s.log + [LagDisconnect(server)]))
  {
    var s' := s.(log := s.log + [LagDisconnect(server)]);
    forall other, to | other in s.meters && to != s.meters[other].domain ensures Recorded(s', other, to) {
      RecordedKept(s, s', other, to, LagDisconnect(server));
    }
  }

  lemma StepRecorded(s: State, e: Event)
    requires Inv(s) && AllRecorded(s) && CanHappen(s, e)
    ensures AllRecorded(Step(s, e))
  {
    match e
    case Created(_, _) => CreatedRecorded(s, e);
    case Connected(server) =>
      forall other, to | other in s.meters && to != s.meters[other].domain ensures Recorded(Step(s, e), other, to) {
        assert Recorded(s, other, to);
      }
    case Features(_) =>
      forall other, to | other in s.meters && to != s.meters[other].domain ensures Recorded(Step(s, e), other, to) {
        assert Recorded(s, other, to);
      }
    case Asked(server, dest, id, now) => AskRecorded(s, server, dest, id, now);
    case Result(_, _, _, _, _) => ResultRecorded(s, e);
    case Check(server, checkTime, maxLag, id, now) =>
      if ActionFor(s.meters[server], checkTime, maxLag, now).Drop? {
        DropRecorded(s, server);
        ClosedRecorded(s.(log := s.log + [LagDisconnect(server)]), server);
      } else if ActionFor(s.meters[server], checkTime, maxLag, now).Measure? {
        AskRecorded(s, server, s.meters[server].domain, id, now);
      }
    case Disconnected(server) => ClosedRecorded(s, server);
  }

  lemma {:induction false} RunRecorded(es: seq<Event>)
    requires Possible(es)
    ensures AllRecorded(Run(es))
  {
    if |es| == 0 {
    } else {
      RunRecorded(es[..|es| - 1]);
      RunInv(es[..|es| - 1]);
      StepRecorded(Run(es[..|es| - 1]), es[|es| - 1]);
    }
  }

  lemma LastPingOnce(log: seq<Out>, i: int, j: int, server: Server, to: string)
    requires LastPing(log, i, server, to) && LastPing(log, j, server, to)
    ensures i == j
  {
  }

  /** The id of a ping to another entity does not answer the meter. */
  lemma OtherIdNoAnswer(s: State, server: Server, i: int, to: string, from: string)
    requires Inv(s) && server in s.meters && LastPing(s.log, i, server, to) && to != s.meters[server].domain
    ensures !AnswersMeter(s.meters[server], s.log[i].id, from)
  {
    var m := s.meters[server];
    if m.pingId.Some? {
      var j :| Outstanding(s.log, j, server, m.domain) && s.log[j].id == m.pingId.value;
      assert s.log[i].Request? && s.log[j].Request? && i != j;
    }
  }

  lemma PongStep(s: State, e: Event)
    requires e.Result? && CanHappen(s, e)
    ensures var key := Key(e.server, e.from);
            (exists ms :: Step(s, e).log == s.log + [Pong(e.server, e.from, ms)]) <==>
              !AnswersMeter(s.meters[e.server], e.id, e.from) && e.empty && key in s.pings && s.pings[key].id == e.id
  {
    var lag := Lag(e.server, Int32(Milliseconds(e.now, s.meters[e.server].lagSent)));
    if ms :| Step(s, e).log == s.log + [Pong(e.server, e.from, ms)] {
      assert Step(s, e).log[|s.log|].Pong?;
      if AnswersMeter(s.meters[e.server], e.id, e.from) {
        LastTells(s.log, lag, Pong(e.server, e.from, ms));
      }
    }
  }

  /** A reply is reported to the user exactly if it is empty and bears the id of the last ping
      to its sender, who is not the server itself. */
  lemma PongExactly(es: seq<Event>, e: Event)
    requires Possible(es) && e.Result? && CanHappen(Run(es), e)
    ensures var s := Run(es);
            (exists ms :: Step(s, e).log == s.log + [Pong(e.server, e.from, ms)]) <==>
              && e.empty && e.from != s.meters[e.server].domain
              && exists i :: LastPing(s.log, i, e.server, e.from) && s.log[i].id == e.id
  {
    RunInv(es);
    RunRecorded(es);
    var s := Run(es);
    var key := Key(e.server, e.from);
    PongStep(s, e);
    if e.from != s.meters[e.server].domain {
      assert Recorded(s, e.server, e.from);
      forall i | LastPing(s.log, i, e.server, e.from) && s.log[i].id == e.id
        ensures key in s.pings && s.pings[key].id == e.id && !AnswersMeter(s.meters[e.server], e.id, e.from)
      {
        OtherIdNoAnswer(s, e.server, i, e.from, e.from);
      }
      if key in s.pings && s.pings[key].id == e.id {
        var i :| LastPing(s.log, i, e.server, e.from) && s.log[i].id == s.pings[key].id;
      }
    }
  }

  lemma StepLogGrows(s: State, e: Event)
    requires CanHappen(s, e)
    ensures s.log <= Step(s, e).log
  {
  }

  lemma {:induction false} LogGrows(es: seq<Event>, more: seq<Event>)
    requires Possible(es + more)
    ensures Possible(es) && Run(es).log <= Run(es + more).log
  {
    if |more| == 0 {
      assert es + more == es;
    } else {
      assert (es + more)[..|es + more| - 1] == es + more[..|more| - 1];
      LogGrows(es, more[..|more| - 1]);
      StepLogGrows(Run(es + more[..|more| - 1]), more[|more| - 1]);
    }
  }

  lemma AskSends(es: seq<Event>, ask: Event)
    requires Possible(es + [ask]) && ask.Asked?
    ensures Possible(es)
    ensures Run(es + [ask]).log == Run(es).log + [Request(ask.server, ask.dest, ask.id, ask.now)]
  {
    assert (es + [ask])[..|es + [ask]| - 1] == es;
  }

  /** A ping that the user asks for is sent; and whatever happens in between, short of another
      ping to the same entity, its answer reports the time since. */
  lemma AskedThenAnswered(es: seq<Event>, ask: Event, more: seq<Event>, reply: Event)
    requires Possible(es) && Possible(es + [ask] + more) && CanHappen(Run(es + [ask] + more), reply)
    requires ask.Asked? && reply.Result? && reply.server == ask.server
    requires reply.from == ask.dest && reply.id == ask.id && reply.empty
    requires var s := Run(es + [ask] + more);
             && ask.dest != s.meters[ask.server].domain
             && forall i | |Run(es).log| < i < |s.log| :: !IsPing(s.log[i], ask.server, ask.dest)
    ensures var s := Run(es + [ask] + more);
            && Run(es).log + [Request(ask.server, ask.dest, ask.id, ask.now)] <= s.log
            && Step(s, reply).log == s.log + [Pong(ask.server, ask.dest, Milliseconds(reply.now, ask.now))]
  {
    var all := es + [ask] + more;
    var s, k := Run(all), |Run(es).log|;
    LogGrows(es + [ask], more);
    AskSends(es, ask);
    assert s.log[k] == Request(ask.server, ask.dest, ask.id, ask.now);
    assert LastPing(s.log, k, ask.server, ask.dest);
    PongExactly(all, reply);
    var ms :| Step(s, reply).log == s.log + [Pong(reply.server, reply.from, ms)];
    ReportsMatchingPing(all, reply, Pong(reply.server, reply.from, ms));
  }

  // ----- Which servers are checked

  /** Event `x` about a server happened, and the server has been there ever since. */
  ghost predicate Since(es: seq<Event>, x: Event)
    requires Possible(es)
    decreases |es|
  {
    |es| != 0 && x.server in Run(es).meters && (es[|es| - 1] == x || Since(es[..|es| - 1], x))
  }

  ghost predicate SupportedThere(s: State) {
    NoDup(s.supported) && forall server | server in s.supported :: server in s.meters
  }

  lemma ClosedServers(s: State, gone: Server, server: Server)
    requires SupportedThere(s)
    ensures var s' := Closed(s, gone);
            SupportedThere(s') && (server in s'.supported <==> server in s.supported && server != gone)
  {
    RemoveOneAt(s.supported, gone, RemoveOne(s.supported, gone));
  }

  lemma StepServers(s: State, e: Event, server: Server)
    requires SupportedThere(s) && CanHappen(s, e)
    ensures var s' := Step(s, e);
            && SupportedThere(s')
            && (server in s'.supported <==> server in s'.meters && (e == Features(server) || server in s.supported))
            && (server in s'.meters ==>
                  (s'.meters[server].connected <==>
                     e == Connected(server) || (server in s.meters && s.meters[server].connected)))
  {
    match e
    case Disconnected(gone) => ClosedServers(s, gone, server);
    case Check(gone, checkTime, maxLag, _, now) =>
      ClosedServers(s.(log := s.log + [LagDisconnect(gone)]), gone, server);
    case _ =>
  }

  /** The timer can check exactly the servers that have announced the feature since they are
      there, each once; and takes exactly those for connected that are since then. */
  lemma {:induction false} ServersExactly(es: seq<Event>, server: Server)
    requires Possible(es)
    ensures var s := Run(es);
            && SupportedThere(s) && (server in s.supported <==> Since(es, Features(server)))
            && (server in s.meters && s.meters[server].connected <==> Since(es, Connected(server)))
  {
    if |es| == 0 {
    } else {
      ServersExactly(es[..|es| - 1], server);
      StepServers(Run(es[..|es| - 1]), es[|es| - 1], server);
    }
  }
}
