/** "presence online" and "presence offline" strictly alternate for each full JID. */
module RosterSignals {
  import opened Text
  import opened Roster
  import opened RosterContacts
  import opened RosterRuns
  import opened RosterHistory

  /** The online (true) and offline (false) signals of one full JID, in order. */
  function OnOff(signals: seq<Signal>, full: string): seq<bool> {
    if signals == [] then []
    else
      var last := signals[|signals| - 1];
      OnOff(signals[..|signals| - 1], full) +
      if last.Online? && last.full == full then [true]
      else if last.Offline? && last.full == full then [false]
      else []
  }

  /** Reads the signals as a switch: `None` as soon as one repeats the state it finds. */
  function Follow(on: bool, signals: seq<bool>): Option<bool> {
    if signals == [] then Some(on)
    else
      match Follow(on, signals[..|signals| - 1])
      case None => None
      case Some(state) =>
        if signals[|signals| - 1] == state then None else Some(signals[|signals| - 1])
  }

  lemma {:induction false} OnOffConcat(s: seq<Signal>, t: seq<Signal>, full: string)
    ensures OnOff(s + t, full) == OnOff(s, full) + OnOff(t, full)
  {
    if t == [] {
      assert s + t == s;
    } else {
      OnOffConcat(s, t[..|t| - 1], full);
      assert (s + t)[..|s + t| - 1] == s + t[..|t| - 1];
    }
  }

  lemma {:induction false} FollowConcat(on: bool, s: seq<bool>, t: seq<bool>)
    ensures Follow(on, s + t) == if Follow(on, s).None? then None else Follow(Follow(on, s).value, t)
  {
    if t == [] {
      assert s + t == s;
    } else {
      FollowConcat(on, s, t[..|t| - 1]);
      assert (s + t)[..|s + t| - 1] == s + t[..|t| - 1];
    }
  }

  /** Is `u/n` listed: among a contact's resources, or among our own sessions? */
  predicate Listed(a: Account, u: string, n: string) {
    match Lookup(a.groups, u)
    case Some(c) => Entry(c.user.resources, n).Some?
    case None => u == a.jid && Entry(a.mine, n).Some?
  }

  /** Does the event reach our own list? Only when our JID is not a contact, and an
      available presence only when it is not of this very session. */
  predicate ReachesMine(a: Account, e: Event) {
    && IsPresence(e) && Strip(Sender(e)) == a.jid && Lookup(a.groups, a.jid).None?
    && (e.Available? ==> Extract(e.presence.full).Some? && e.presence.full != FullJid(a.jid, a.resource))
  }

  lemma OwnSessionExactly(a: Account, full: string)
    requires Strip(full) == a.jid
    ensures OwnSession(a, full) <==> Extract(full).Some? && full != FullJid(a.jid, a.resource)
  {
    SplitRebuilds(full);
  }

  lemma MineAfter(a: Account, e: Event)
    requires !e.Disconnected?
    ensures Step(a, e).0.mine == if ReachesMine(a, e) then ResourcesAfter(a.mine, e) else a.mine
  {
    if e.Available? && Strip(e.presence.full) == a.jid {
      OwnSessionExactly(a, e.presence.full);
    }
    if IsPresence(e) && FindUser(a.groups, Strip(Sender(e))).None? {
      assert e.Unavailable? || e.PresenceError? ==>
          (FindResource(a.mine, Extract(Sender(e))).Some? && Strip(Sender(e)) == a.jid) || Step(a, e).0.mine == a.mine;
    }
  }

  lemma MineStep(a: Account, e: Event, n: string)
    requires UniqueName(multiset(a.mine), n) && !e.Disconnected?
    ensures UniqueName(multiset(Step(a, e).0.mine), n)
    ensures Entry(Step(a, e).0.mine, n) == if ReachesMine(a, e) then EntryAfter(Entry(a.mine, n), n, e)
                                           else Entry(a.mine, n)
  {
    MineAfter(a, e);
    if ReachesMine(a, e) {
      EntryStep(a.mine, n, e);
    }
  }

  /** The online and offline signals of an event from `e`'s sender. */
  function Switches(listed: bool, e: Event): seq<bool>
    requires IsPresence(e)
  {
    if e.Available? then (if listed then [] else [true])
    else if e.Unavailable? then (if listed then [false] else [])
    else []
  }

  lemma OnOffOne(x: Signal, full: string)
    ensures OnOff([x], full) == if x.Online? && x.full == full then [true]
                                else if x.Offline? && x.full == full then [false] else []
  {
    assert [x][..0] == [];
  }

  lemma OnOffTwo(x: Signal, y: Signal, full: string)
    ensures OnOff([x, y], full) == OnOff([x], full) + OnOff([y], full)
  {
    assert [x] + [y] == [x, y];
    OnOffConcat([x], [y], full);
  }

  lemma TouchSwitches(rs: seq<Resource>, p: Presence, full: string)
    ensures OnOff(Touch(rs, p).signals, full) ==
            if p.full == full then Switches(FindResource(rs, Extract(full)).Some?, Available(p)) else []
  {
    var changed := Changed(p.full, GetShow(p.show), p.status);
    var online := Online(p.full, Strip(p.full), Extract(p.full));
    assert [] + [changed] == [changed] && [online] + [changed] == [online, changed];
    OnOffOne(changed, full);
    OnOffOne(online, full);
    OnOffTwo(online, changed, full);
    assert Touch(rs, p).signals ==
           if FindResource(rs, Extract(p.full)).None? then [online, changed]
           else if Touch(rs, p).accepted then [changed]
           else [];
  }

  lemma OfflineSwitches(from: string, status: Option<string>, full: string)
    ensures OnOff(OfflineSignals(from, status), full) == if from == full then [false] else []
  {
    var s := OfflineSignals(from, status);
    OnOffTwo(s[0], s[1], full);
    OnOffOne(s[0], full);
    OnOffOne(s[1], full);
  }

  /** The signals of a presence that reaches the resource list `rs`. */
  function SignalsOf(rs: seq<Resource>, e: Event): seq<Signal>
    requires IsPresence(e)
  {
    match e
    case Available(p) => Touch(rs, p).signals
    case Unavailable(from, status) =>
      if FindResource(rs, Extract(from)).Some? then OfflineSignals(from, status) else []
    case PresenceError(from) =>
      if FindResource(rs, Extract(from)).Some? then [Changed(from, ERROR, None)] else []
  }

  lemma AvailableSignals(a: Account, p: Presence)
    ensures var c := Lookup(a.groups, Strip(p.full));
            RecvAvailable(a, p).1 == if c.Some? then Touch(c.value.user.resources, p).signals
                                     else if ReachesMine(a, Available(p)) then Touch(a.mine, p).signals else []
  {
    if Strip(p.full) == a.jid {
      OwnSessionExactly(a, p.full);
    }
  }

  lemma StepSignals(a: Account, e: Event)
    requires IsPresence(e)
    ensures var c := Lookup(a.groups, Strip(Sender(e)));
            Step(a, e).1 == if c.Some? then SignalsOf(c.value.user.resources, e)
                            else if ReachesMine(a, e) then SignalsOf(a.mine, e) else []
  {
    match e
    case Available(p) => AvailableSignals(a, p);
    case _ =>
  }

  lemma PresenceSwitches(rs: seq<Resource>, e: Event, full: string)
    requires IsPresence(e)
    ensures OnOff(SignalsOf(rs, e), full) ==
            if Sender(e) == full then Switches(FindResource(rs, Extract(full)).Some?, e) else []
  {
    match e
    case Available(p) => TouchSwitches(rs, p, full);
    case Unavailable(from, status) => OfflineSwitches(from, status, full);
    case PresenceError(from) => OnOffOne(Changed(from, ERROR, None), full);
  }

  /** What one event signals about `u/n` depends only on whether it is listed. */
  lemma StepSwitches(a: Account, e: Event, u: string, n: string)
    requires Bare(u)
    ensures OnOff(Step(a, e).1, FullJid(u, n)) ==
            if IsPresence(e) && Sender(e) == FullJid(u, n) && (Lookup(a.groups, u).Some? || ReachesMine(a, e))
            then Switches(Listed(a, u, n), e) else []
  {
    var full := FullJid(u, n);
    JoinSplits(u, n);
    if IsPresence(e) {
      var c := Lookup(a.groups, Strip(Sender(e)));
      StepSignals(a, e);
      PresenceSwitches(if c.Some? then c.value.user.resources else a.mine, e, full);
    }
  }

  /** The event changes whether `u/n` is listed, and tells nobody. A removal may uncover our
      own session of that name; a push of our own JID may hide it behind a new contact. */
  predicate Unheard(a: Account, e: Event, u: string, n: string) {
    match e
    case Push(jid, subscription, _, _) =>
      && jid == Some(u)
      && if ParseSubscription(subscription).Remove?
         then Lookup(a.groups, u).Some? && Listed(a, u, n) != (u == a.jid && Entry(a.mine, n).Some?)
         else Lookup(a.groups, u).None? && Listed(a, u, n)
    case Disconnected => a.groups != [] && Listed(a, u, n)
    case _ => false
  }

  ghost predicate Trackful(a: Account, u: string, n: string) {
    WellKept(a.groups) && NameOk(Lookup(a.groups, u), n) && UniqueName(multiset(a.mine), n)
  }

  lemma StepJid(a: Account, e: Event)
    ensures Step(a, e).0.jid == a.jid
  {
  }

  lemma StepTracks(a: Account, e: Event, u: string, n: string)
    requires Trackful(a, u, n) && Trackable([e], u, n)
    ensures Trackful(Step(a, e).0, u, n) && Step(a, e).0.jid == a.jid
    ensures !e.Disconnected? ==>
              && TrackOf(Lookup(Step(a, e).0.groups, u), n) == TrackAfter(TrackOf(Lookup(a.groups, u), n), u, n, e)
              && Entry(Step(a, e).0.mine, n) == if ReachesMine(a, e) then EntryAfter(Entry(a.mine, n), n, e)
                                                else Entry(a.mine, n)
  {
    assert e in [e];
    var was, now := Lookup(a.groups, u), Lookup(Step(a, e).0.groups, u);
    assert WellKept(Step(a, e).0.groups) && now == ContactAfter(was, u, e) by {
      StepContactOf(a, e, u);
    }
    assert NameOk(now, n) && TrackOf(now, n) == TrackAfter(TrackOf(was, n), u, n, e) by {
      TrackStep(was, u, n, e);
    }
    if !e.Disconnected? {
      MineStep(a, e, n);
    }
    StepJid(a, e);
  }

  lemma ListedTrack(a: Account, u: string, n: string)
    ensures Listed(a, u, n) <==> var t := TrackOf(Lookup(a.groups, u), n);
                                 if t.Known? then t.entry.Some? else u == a.jid && Entry(a.mine, n).Some?
  {
  }

  lemma PresenceListed(a: Account, e: Event, u: string, n: string)
    requires Bare(u) && Trackful(a, u, n) && Trackable([e], u, n) && IsPresence(e)
    ensures Listed(Step(a, e).0, u, n) ==
            if Sender(e) == FullJid(u, n) && (Lookup(a.groups, u).Some? || ReachesMine(a, e))
            then e.Available? || (e.PresenceError? && Listed(a, u, n)) else Listed(a, u, n)
  {
    StepTracks(a, e, u, n);
    ListedTrack(a, u, n);
    ListedTrack(Step(a, e).0, u, n);
    FullJidParts(Sender(e), u, n);
  }

  lemma PushListed(a: Account, e: Event, u: string, n: string)
    requires Bare(u) && Trackful(a, u, n) && Trackable([e], u, n) && e.Push?
    ensures Listed(Step(a, e).0, u, n) == (Listed(a, u, n) != Unheard(a, e, u, n))
  {
    StepTracks(a, e, u, n);
    ListedTrack(a, u, n);
    ListedTrack(Step(a, e).0, u, n);
  }

  /** Whether `u/n` is listed afterwards, whatever the event. */
  lemma StepListed(a: Account, e: Event, u: string, n: string)
    requires Bare(u) && Trackful(a, u, n) && Trackable([e], u, n)
    ensures Trackful(Step(a, e).0, u, n) && Step(a, e).0.jid == a.jid
    ensures Listed(Step(a, e).0, u, n) ==
            if IsPresence(e) && Sender(e) == FullJid(u, n) && (Lookup(a.groups, u).Some? || ReachesMine(a, e))
            then e.Available? || (e.PresenceError? && Listed(a, u, n))
            else Listed(a, u, n) != Unheard(a, e, u, n)
  {
    StepTracks(a, e, u, n);
    if IsPresence(e) {
      PresenceListed(a, e, u, n);
    } else if e.Push? {
      PushListed(a, e, u, n);
    }
  }

  lemma SwitchFollows(on: bool, e: Event)
    requires IsPresence(e)
    ensures Follow(on, Switches(on, e)) == Some(e.Available? || (e.PresenceError? && on))
  {
    assert [true][..0] == [] && [false][..0] == [];
  }

  /** The signals of an event tell exactly whether `u/n` is listed before and after it,
      unless the event is a push or a disconnection that changes this unheard. */
  lemma StepAlternates(a: Account, e: Event, u: string, n: string)
    requires Bare(u) && Trackful(a, u, n) && Trackable([e], u, n)
    ensures Trackful(Step(a, e).0, u, n) && Step(a, e).0.jid == a.jid
    ensures Follow(Listed(a, u, n), OnOff(Step(a, e).1, FullJid(u, n))) == Some(Listed(Step(a, e).0, u, n))
            <==> !Unheard(a, e, u, n)
  {
    StepListed(a, e, u, n);
    StepSwitches(a, e, u, n);
    if IsPresence(e) {
      SwitchFollows(Listed(a, u, n), e);
    }
  }

  /** No event of the run is unheard, where it arrives. */
  ghost predicate AllHeard(a: Account, es: seq<Event>, u: string, n: string) {
    es == [] || (AllHeard(a, es[..|es| - 1], u, n) && !Unheard(Run(a, es[..|es| - 1]).0, es[|es| - 1], u, n))
  }

  /** Over any run in which nothing is unheard, the signals for `u/n` strictly alternate,
      starting from whether it was listed and ending with whether it is. */
  lemma {:induction false} OnlineOfflineAlternate(a: Account, es: seq<Event>, u: string, n: string)
    requires Bare(u) && Trackful(a, u, n) && Trackable(es, u, n) && AllHeard(a, es, u, n)
    ensures Trackful(Run(a, es).0, u, n) && Run(a, es).0.jid == a.jid
    ensures Follow(Listed(a, u, n), OnOff(Run(a, es).1, FullJid(u, n))) == Some(Listed(Run(a, es).0, u, n))
  {
    if es == [] {
    } else {
      var init, e := es[..|es| - 1], es[|es| - 1];
      OnlineOfflineAlternate(a, init, u, n);
      assert e in es && Trackable([e], u, n);
      StepAlternates(Run(a, init).0, e, u, n);
      OnOffConcat(Run(a, init).1, Step(Run(a, init).0, e).1, FullJid(u, n));
      FollowConcat(Listed(a, u, n), OnOff(Run(a, init).1, FullJid(u, n)),
                   OnOff(Step(Run(a, init).0, e).1, FullJid(u, n)));
    }
  }

  /** Between two roster removals of a contact that is not our own account, nothing is
      unheard; nor for our own JID once it is a contact. */
  lemma {:induction false} HeardBetweenRemovals(a: Account, es: seq<Event>, u: string, n: string)
    requires WellKept(a.groups) && forall e | e in es :: PushesBare(e) && !Drops(e, u)
    requires u != a.jid || Lookup(a.groups, u).Some?
    ensures AllHeard(a, es, u, n) && Run(a, es).0.jid == a.jid && WellKept(Run(a, es).0.groups)
    ensures u == a.jid ==> Lookup(Run(a, es).0.groups, u).Some?
  {
    if es == [] {
    } else {
      var init, e := es[..|es| - 1], es[|es| - 1];
      HeardBetweenRemovals(a, init, u, n);
      assert e in es;
      StepContactOf(Run(a, init).0, e, u);
      StepJid(Run(a, init).0, e);
    }
  }

  lemma RunMore(a: Account, es: seq<Event>, e: Event, full: string)
    ensures Run(a, es + [e]).0 == Step(Run(a, es).0, e).0
    ensures OnOff(Run(a, es + [e]).1, full) == OnOff(Run(a, es).1, full) + OnOff(Step(Run(a, es).0, e).1, full)
  {
    assert (es + [e])[..|es|] == es;
    OnOffConcat(Run(a, es).1, Step(Run(a, es).0, e).1, full);
  }

  lemma PlusTwo<T>(s: seq<T>, x: T, y: T)
    ensures s + [x] + [y] == s + [x, y]
  {
  }

  lemma RunTwo(a: Account, es: seq<Event>, e1: Event, e2: Event, full: string)
    ensures var b := Run(a, es).0;
            OnOff(Run(a, es + [e1, e2]).1, full)
            == OnOff(Run(a, es).1, full) + OnOff(Step(b, e1).1, full) + OnOff(Step(Step(b, e1).0, e2).1, full)
  {
    PlusTwo(es, e1, e2);
    RunMore(a, es, e1, full);
    RunMore(a, es + [e1], e2, full);
  }

  lemma RunFirst(a: Account, e: Event, full: string)
    ensures Run(a, [e]).0 == Step(a, e).0 && OnOff(Run(a, [e]).1, full) == OnOff(Step(a, e).1, full)
  {
    assert [e][..0] == [];
    assert Run(a, []) == (a, []);
    OnOffConcat([], Step(a, e).1, full);
  }

  lemma OneAndTwo<T>(x: T, y: T, z: T)
    ensures [x] + [y, z] == [x, y, z]
  {
  }

  lemma RunThree(a: Account, e1: Event, e2: Event, e3: Event, full: string)
    ensures var a1 := Step(a, e1).0;
            OnOff(Run(a, [e1, e2, e3]).1, full)
            == OnOff(Step(a, e1).1, full) + OnOff(Step(a1, e2).1, full) + OnOff(Step(Step(a1, e2).0, e3).1, full)
  {
    OneAndTwo(e1, e2, e3);
    RunFirst(a, e1, full);
    RunTwo(a, [e1], e2, e3, full);
  }

  lemma OtherSessionReaches(a: Account, p: Presence, n: string)
    requires Bare(a.jid) && Lookup(a.groups, a.jid).None? && p.full == FullJid(a.jid, n) && n != a.resource
    ensures ReachesMine(a, Available(p))
  {
    JoinSplits(a.jid, n);
    JoinSplits(a.jid, a.resource);
  }

  lemma NoContactStays(a: Account, p: Presence)
    requires Lookup(a.groups, Strip(p.full)).None?
    ensures Lookup(Step(a, Available(p)).0.groups, Strip(p.full)).None?
  {
  }

  lemma Announces(a: Account, p: Presence, jid: string, n: string)
    requires Bare(jid) && Trackful(a, jid, n) && p.full == FullJid(jid, n) && !Listed(a, jid, n)
    requires Lookup(a.groups, jid).Some? || (jid == a.jid && n != a.resource)
    ensures var (a', signals) := Step(a, Available(p));
            OnOff(signals, p.full) == [true] && Listed(a', jid, n) && Trackful(a', jid, n) && a'.jid == a.jid
            && (Lookup(a.groups, jid).None? ==> Lookup(a'.groups, jid).None?)
  {
    JoinSplits(jid, n);
    if Lookup(a.groups, jid).None? {
      OtherSessionReaches(a, p, n);
      NoContactStays(a, p);
    }
    StepListed(a, Available(p), jid, n);
    StepSwitches(a, Available(p), jid, n);
  }

  lemma OwnPushHides(a: Account, jid: string, n: string)
    requires Bare(jid) && Trackful(a, jid, n) && jid == a.jid && Lookup(a.groups, jid).None? && Listed(a, jid, n)
    ensures var (a', signals) := Step(a, Push(Some(jid), None, None, None));
            signals == [] && !Listed(a', jid, n) && Trackful(a', jid, n) && Lookup(a'.groups, jid).Some?
  {
    StepListed(a, Push(Some(jid), None, None, None), jid, n);
    StepContactOf(a, Push(Some(jid), None, None, None), jid);
  }

  /** Our own JID pushed while another session of ours is listed: that session is hidden, and
      its next presence announces it again without an "offline" in between. */
  lemma OwnPushRepeatsOnline(jid: string, here: string, there: string, p: Presence)
    requires Bare(jid) && here != there && p.full == FullJid(jid, there)
    ensures OnOff(Run(Fresh(jid, here), [Available(p), Push(Some(jid), None, None, None), Available(p)]).1, p.full)
            == [true, true]
  {
    var push := Push(Some(jid), None, None, None);
    var a0 := Fresh(jid, here);
    var a1 := Step(a0, Available(p)).0;
    JoinSplits(jid, there);
    Announces(a0, p, jid, there);
    OwnPushHides(a1, jid, there);
    Announces(Step(a1, push).0, p, jid, there);
    RunThree(a0, Available(p), push, Available(p), p.full);
  }
}
