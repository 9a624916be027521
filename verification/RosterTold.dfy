/** "presence changed" tells what the roster shows of each full JID; and the list of our own
    sessions never holds this one. */
module RosterTold {
  import opened Text
  import opened Lists
  import opened Sorting
  import opened Roster
  import opened RosterContacts
  import opened RosterRuns
  import opened RosterHistory
  import opened RosterSignals

  // ----- What one event tells

  datatype Told = Told(show: int, status: Option<string>)

  /** What the signals tell of one full JID, in order. */
  function Changes(signals: seq<Signal>, full: string): seq<Told> {
    if signals == [] then []
    else
      var last := signals[|signals| - 1];
      Changes(signals[..|signals| - 1], full) +
      if last.Changed? && last.full == full then [Told(last.show, last.status)] else []
  }

  lemma {:induction false} ChangesConcat(s: seq<Signal>, t: seq<Signal>, full: string)
    ensures Changes(s + t, full) == Changes(s, full) + Changes(t, full)
  {
    if t == [] {
      assert s + t == s;
    } else {
      ChangesConcat(s, t[..|t| - 1], full);
      assert (s + t)[..|s + t| - 1] == s + t[..|t| - 1];
    }
  }

  lemma ChangesOne(x: Signal, full: string)
    ensures Changes([x], full) == if x.Changed? && x.full == full then [Told(x.show, x.status)] else []
  {
    assert [x][..0] == [];
  }

  lemma ChangesTwo(x: Signal, y: Signal, full: string)
    ensures Changes([x, y], full) == Changes([x], full) + Changes([y], full)
  {
    assert [x] + [y] == [x, y];
    ChangesConcat([x], [y], full);
  }

  /** The resource that the roster shows for `u/n`: a contact's, or one of our own sessions. */
  function Shown(a: Account, u: string, n: string): Option<Resource> {
    match Lookup(a.groups, u)
    case Some(c) => Entry(c.user.resources, n)
    case None => if u == a.jid then Entry(a.mine, n) else None
  }

  /** What a presence tells of its sender, given what is shown before and after it: an
      available one what has changed, if anything has; an unavailable one or an error that it
      is so, if the sender was shown. */
  function Tells(e: Event, was: Option<Resource>, now: Option<Resource>): seq<Told>
    requires IsPresence(e)
  {
    match e
    case Available(_) => if now.None? || was == now then [] else [Told(now.value.show, now.value.status)]
    case Unavailable(_, status) => if was.None? then [] else [Told(UNAVAILABLE, status)]
    case _ => if was.None? then [] else [Told(ERROR, None)]
  }

  lemma TouchSignals(rs: seq<Resource>, p: Presence)
    ensures Touch(rs, p).signals ==
            (if FindResource(rs, Extract(p.full)).None? then [Online(p.full, Strip(p.full), Extract(p.full))] else [])
            + (if Touch(rs, p).accepted then [Changed(p.full, GetShow(p.show), p.status)] else [])
  {
  }

  lemma OnlineThenChanged(isNew: bool, accepted: bool, p: Presence)
    ensures var online := Online(p.full, Strip(p.full), Extract(p.full));
            var changed := Changed(p.full, GetShow(p.show), p.status);
            Changes((if isNew then [online] else []) + (if accepted then [changed] else []), p.full)
            == if accepted then [Told(GetShow(p.show), p.status)] else []
  {
    var online, changed := Online(p.full, Strip(p.full), Extract(p.full)), Changed(p.full, GetShow(p.show), p.status);
    ChangesConcat(if isNew then [online] else [], if accepted then [changed] else [], p.full);
    ChangesOne(online, p.full);
    ChangesOne(changed, p.full);
  }

  /** An available presence is accepted exactly if it changes the entry. */
  lemma AcceptedExactly(rs: seq<Resource>, p: Presence, n: string)
    requires UniqueName(multiset(rs), n) && Extract(p.full) == Some(n)
    ensures var now := Entry(Touch(rs, p).resources, n);
            && now.Some? && now.value.show == GetShow(p.show) && now.value.status == p.status
            && (Touch(rs, p).accepted <==> Entry(rs, n) != now)
  {
    TouchEntry(rs, n, p);
  }

  lemma TouchTells(rs: seq<Resource>, p: Presence, n: string)
    requires UniqueName(multiset(rs), n) && Extract(p.full) == Some(n)
    ensures Changes(Touch(rs, p).signals, p.full)
            == Tells(Available(p), Entry(rs, n), Entry(Touch(rs, p).resources, n))
  {
    TouchSignals(rs, p);
    AcceptedExactly(rs, p, n);
    OnlineThenChanged(FindResource(rs, Extract(p.full)).None?, Touch(rs, p).accepted, p);
  }

  lemma SignalsTell(rs: seq<Resource>, e: Event, n: string)
    requires IsPresence(e) && UniqueName(multiset(rs), n) && Extract(Sender(e)) == Some(n)
    ensures Changes(SignalsOf(rs, e), Sender(e)) == Tells(e, Entry(rs, n), Entry(ResourcesAfter(rs, e), n))
  {
    match e
    case Available(p) => TouchTells(rs, p, n);
    case Unavailable(from, status) =>
      var s := OfflineSignals(from, status);
      ChangesTwo(s[0], s[1], from);
      ChangesOne(s[0], from);
      ChangesOne(s[1], from);
    case PresenceError(from) => ChangesOne(Changed(from, ERROR, None), from);
  }

  lemma OthersUntold(rs: seq<Resource>, e: Event, full: string)
    requires IsPresence(e) && Sender(e) != full
    ensures Changes(SignalsOf(rs, e), full) == []
  {
    match e
    case Available(p) =>
      var online, changed := Online(p.full, Strip(p.full), Extract(p.full)), Changed(p.full, GetShow(p.show), p.status);
      TouchSignals(rs, p);
      var isNew, accepted := FindResource(rs, Extract(p.full)).None?, Touch(rs, p).accepted;
      ChangesConcat(if isNew then [online] else [], if accepted then [changed] else [], full);
      ChangesOne(online, full);
      ChangesOne(changed, full);
    case Unavailable(from, status) =>
      var s := OfflineSignals(from, status);
      ChangesTwo(s[0], s[1], full);
      ChangesOne(s[0], full);
      ChangesOne(s[1], full);
    case PresenceError(from) => ChangesOne(Changed(from, ERROR, None), full);
  }

  /** Where a presence from `u/n` goes: what is shown afterwards. */
  lemma ShownAfter(a: Account, e: Event, u: string, n: string)
    requires WellKept(a.groups) && IsPresence(e) && Strip(Sender(e)) == u
    requires Lookup(a.groups, u).Some? || ReachesMine(a, e)
    ensures var c := Lookup(a.groups, u);
            var rs := if c.Some? then c.value.user.resources else a.mine;
            Shown(a, u, n) == Entry(rs, n) && Shown(Step(a, e).0, u, n) == Entry(ResourcesAfter(rs, e), n)
  {
    StepContactOf(a, e, u);
    StepJid(a, e);
    MineAfter(a, e);
  }

  /** A presence that reaches a list tells of its sender what changed; nothing else is told. */
  lemma StepTells(a: Account, e: Event, u: string, n: string)
    requires Bare(u) && Trackful(a, u, n) && Trackable([e], u, n)
    ensures Changes(Step(a, e).1, FullJid(u, n)) ==
            if IsPresence(e) && Sender(e) == FullJid(u, n) && (Lookup(a.groups, u).Some? || ReachesMine(a, e))
            then Tells(e, Shown(a, u, n), Shown(Step(a, e).0, u, n)) else []
  {
    JoinSplits(u, n);
    if IsPresence(e) {
      StepSignals(a, e);
      var c := Lookup(a.groups, Strip(Sender(e)));
      var rs := if c.Some? then c.value.user.resources else a.mine;
      if Sender(e) != FullJid(u, n) {
        OthersUntold(rs, e, FullJid(u, n));
      } else if c.Some? || ReachesMine(a, e) {
        ShownAfter(a, e, u, n);
        SignalsTell(rs, e, n);
      }
    }
  }

  // ----- What a run has told

  /** Of a contact that is not our own account, the roster shows what is tracked. */
  lemma ShownTracked(a: Account, u: string, n: string)
    requires u != a.jid
    ensures var t := TrackOf(Lookup(a.groups, u), n);
            Shown(a, u, n) == if t.Known? then t.entry else None
  {
  }

  lemma TrackStays(t: Track, u: string, n: string, e: Event)
    requires Bare(u) && !(IsPresence(e) && Sender(e) == FullJid(u, n))
    requires TrackAfter(t, u, n, e).Known? && TrackAfter(t, u, n, e).entry.Some?
    ensures TrackAfter(t, u, n, e) == t
  {
    if IsPresence(e) {
      FullJidParts(Sender(e), u, n);
    }
  }

  /** Its entry stays as it is, unless the event is a presence from that full JID. */
  lemma ShownStays(a: Account, e: Event, u: string, n: string)
    requires Bare(u) && Trackful(a, u, n) && Trackable([e], u, n) && u != a.jid
    requires Shown(Step(a, e).0, u, n).Some? && !(IsPresence(e) && Sender(e) == FullJid(u, n))
    ensures Shown(Step(a, e).0, u, n) == Shown(a, u, n)
  {
    StepTracks(a, e, u, n);
    ShownTracked(a, u, n);
    ShownTracked(Step(a, e).0, u, n);
    if !e.Disconnected? {
      TrackStays(TrackOf(Lookup(a.groups, u), n), u, n, e);
    }
  }

  /** The last thing told of `u/n` is what is shown of it. */
  predicate ToldRight(told: seq<Told>, shown: Option<Resource>) {
    shown.Some? ==>
      && told != [] && told[|told| - 1].show == shown.value.show
      && (shown.value.show != ERROR ==> told[|told| - 1].status == shown.value.status)
  }

  lemma TellsRight(told: seq<Told>, e: Event, was: Option<Resource>, now: Option<Resource>, n: string)
    requires IsPresence(e) && ToldRight(told, was) && Extract(Sender(e)) == Some(n) && now == EntryAfter(was, n, e)
    ensures ToldRight(told + Tells(e, was, now), now)
  {
    assert told + [] == told;
    assert e.PresenceError? && was.Some? ==> now.value.show == ERROR;
  }

  lemma ContactTold(a: Account, e: Event, u: string, n: string, told: seq<Told>)
    requires Bare(u) && Trackful(a, u, n) && Trackable([e], u, n) && ToldRight(told, Shown(a, u, n))
    requires IsPresence(e) && Sender(e) == FullJid(u, n) && Lookup(a.groups, u).Some?
    ensures ToldRight(told + Tells(e, Shown(a, u, n), Shown(Step(a, e).0, u, n)), Shown(Step(a, e).0, u, n))
  {
    var rs := Lookup(a.groups, u).value.user.resources;
    JoinSplits(u, n);
    ShownAfter(a, e, u, n);
    EntryStep(rs, n, e);
    TellsRight(told, e, Shown(a, u, n), Shown(Step(a, e).0, u, n), n);
  }

  lemma StrangerUnshown(a: Account, e: Event, u: string, n: string)
    requires WellKept(a.groups) && IsPresence(e) && u != a.jid && Lookup(a.groups, u).None?
    ensures Shown(Step(a, e).0, u, n).None?
  {
    StepContactOf(a, e, u);
    StepJid(a, e);
  }

  lemma ToldStep(a: Account, e: Event, u: string, n: string, told: seq<Told>)
    requires Bare(u) && Trackful(a, u, n) && Trackable([e], u, n) && u != a.jid && ToldRight(told, Shown(a, u, n))
    ensures ToldRight(told + Changes(Step(a, e).1, FullJid(u, n)), Shown(Step(a, e).0, u, n))
  {
    StepTells(a, e, u, n);
    if IsPresence(e) && Sender(e) == FullJid(u, n) {
      if Lookup(a.groups, u).Some? {
        ContactTold(a, e, u, n, told);
      } else {
        StrangerUnshown(a, e, u, n);
      }
    } else if Shown(Step(a, e).0, u, n).Some? {
      ShownStays(a, e, u, n);
      assert told + [] == told;
    }
  }

  /** After any events of a connection, whoever listens to "presence changed" knows the show
      and the status of every resource listed; the status not after an error, which tells none. */
  lemma {:induction false} ToldIsShown(jid: string, resource: string, es: seq<Event>, u: string, n: string)
    requires Bare(u) && u != jid && Trackable(es, u, n)
    ensures var (a, signals) := Run(Fresh(jid, resource), es);
            Trackful(a, u, n) && a.jid == jid && ToldRight(Changes(signals, FullJid(u, n)), Shown(a, u, n))
  {
    if es == [] {
    } else {
      var init, e := es[..|es| - 1], es[|es| - 1];
      var (a, signals) := Run(Fresh(jid, resource), init);
      ToldIsShown(jid, resource, init, u, n);
      assert e in es && Trackable([e], u, n);
      StepTracks(a, e, u, n);
      ToldStep(a, e, u, n, Changes(signals, FullJid(u, n)));
      ChangesConcat(signals, Step(a, e).1, FullJid(u, n));
    }
  }

  // ----- Our own session

  lemma TouchNames(rs: seq<Resource>, p: Presence, r: Resource)
    requires r in Touch(rs, p).resources && Extract(p.full).Some?
    ensures r.name == Extract(p.full).value || r in rs
  {
    var was := Replaced(rs, p);
    var now := Announced(was, p);
    TouchBag(rs, p);
    assert r in multiset(Touch(rs, p).resources) + Bag(was);
    assert r in multiset(rs) + Bag(Some(now));
    assert r in multiset(rs) || r == now;
  }

  lemma NoNewNames(rs: seq<Resource>, e: Event)
    requires IsPresence(e) && !e.Available?
    ensures forall r | r in ResourcesAfter(rs, e) :: exists s | s in rs :: s.name == r.name
  {
    forall r | r in ResourcesAfter(rs, e) ensures exists s | s in rs :: s.name == r.name {
      var k := FindResource(rs, Extract(Sender(e)));
      assert k.Some? ==> rs[k.value] in rs;
      assert r in rs || (k.Some? && r.name == rs[k.value].name);
    }
  }

  lemma OwnStepUnlisted(a: Account, e: Event)
    requires forall r | r in a.mine :: r.name != a.resource
    ensures forall r | r in Step(a, e).0.mine :: r.name != a.resource
  {
    if !e.Disconnected? {
      MineAfter(a, e);
      if ReachesMine(a, e) && e.Available? {
        SplitRebuilds(e.presence.full);
        forall r | r in Step(a, e).0.mine ensures r.name != a.resource {
          TouchNames(a.mine, e.presence, r);
        }
      } else if ReachesMine(a, e) {
        NoNewNames(a.mine, e);
      }
    }
  }

  /** This session, by which we are connected, is never listed among our own. */
  lemma {:induction false} OwnNeverListed(jid: string, resource: string, es: seq<Event>)
    ensures var a := Run(Fresh(jid, resource), es).0;
            a.jid == jid && a.resource == resource && forall r | r in a.mine :: r.name != resource
  {
    if es == [] {
    } else {
      var init, e := es[..|es| - 1], es[|es| - 1];
      var a := Run(Fresh(jid, resource), init).0;
      OwnNeverListed(jid, resource, init);
      OwnStepUnlisted(a, e);
      assert Step(a, e).0.jid == a.jid && Step(a, e).0.resource == a.resource;
    }
  }
}
