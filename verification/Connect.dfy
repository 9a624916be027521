/** Our own presence across connecting, losing the connection and reconnecting: every
    connect announces it exactly once, and a reconnect announces what was saved. */
module Connect {
  import opened Text
  import opened Roster

  const PRIORITY_MIN := -128
  const PRIORITY_MAX := 127

  predicate InBounds(priority: int) {
    PRIORITY_MIN <= priority <= PRIORITY_MAX
  }

  datatype Mood = Mood(show: int, status: Option<string>, priority: int)

  /** A broadcast presence stanza; the show element is left out for plain "available". */
  datatype Stanza = Stanza(show: Option<int>, status: Option<string>, priority: int)

  /** What the others read in a broadcast: section 4.7.2.1 of RFC 6121 for a missing show. */
  function Announced(z: Stanza): Mood {
    Mood(if z.show.Some? then z.show.value else AVAILABLE, z.status, z.priority)
  }

  /** The connection record: the saved presence, and whether this is a reconnection. */
  datatype Conn = Conn(mood: Mood, reconnection: bool)

  // ----- Specification

  predicate Changed(a: Mood, b: Mood) {
    PresenceChanged(a.show, b.show, a.status, b.status, a.priority, b.priority)
  }

  /** A server record that has just authenticated. */
  function FreshMood(setting: int): Mood {
    Mood(AVAILABLE, None, if InBounds(setting) then setting else 0)
  }

  /** `sig_set_presence` */
  function SetPresence(mine: Mood, wanted: Mood): (Mood, seq<Stanza>) {
    if !Changed(wanted, mine) then (mine, [])
    else
      var priority := if InBounds(wanted.priority) then wanted.priority else mine.priority;
      (wanted.(priority := priority),
       [Stanza(if wanted.show != AVAILABLE then Some(wanted.show) else None, wanted.status, priority)])
  }

  /** `sig_connected` of xmpp-servers.c */
  function Greeting(conn: Conn, mine: Mood): seq<Stanza> {
    if conn.reconnection && Changed(conn.mood, mine) then [] else [Stanza(None, None, mine.priority)]
  }

  datatype Handled = Handled(conn: Conn, mine: Mood, sent: seq<Stanza>)

  /** `sig_connected` of xmpp-servers-reconnect.c */
  function Restored(conn: Conn, mine: Mood): Handled {
    if !conn.reconnection then Handled(conn, mine, [])
    else
      var (now, sent) := SetPresence(mine, conn.mood);
      Handled(conn.(mood := conn.mood.(status := None)), now, sent)
  }

  /** Both handlers of "server connected", in the order in which they were added or in
      the other one: both ask to be last. */
  function Connected(conn: Conn, mine: Mood, swapped: bool): Handled {
    if swapped then
      var h := Restored(conn, mine);
      h.(sent := h.sent + Greeting(h.conn, h.mine))
    else
      var greeting := Greeting(conn, mine);
      var h := Restored(conn, mine);
      h.(sent := greeting + h.sent)
  }

  // ----- One connect

  /** The presence this connect has to announce. */
  function Due(conn: Conn, setting: int): Mood {
    if conn.reconnection then conn.mood
    else Mood(AVAILABLE, None, if -128 <= setting <= 127 then setting else 0)
  }

  /** Fresh or reconnecting, with a changed presence or not: exactly one broadcast, of
      the saved presence if there is one, and it is what the server record then says. */
  lemma ConnectAnnouncesOnce(conn: Conn, setting: int)
    requires InBounds(conn.mood.priority)
    ensures var h := Connected(conn, FreshMood(setting), false);
            |h.sent| == 1 && Announced(h.sent[0]) == Due(conn, setting) == h.mine && InBounds(h.mine.priority)
  {
    var mine := FreshMood(setting);
    if conn.reconnection && Changed(conn.mood, mine) {
      assert Connected(conn, mine, false).sent == [] + SetPresence(mine, conn.mood).1;
    } else {
      assert Connected(conn, mine, false).sent == [Stanza(None, None, mine.priority)] + [];
    }
  }

  /** In this order, would the plain greeting follow the presence that was restored? */
  predicate GreetsTwice(conn: Conn, mine: Mood, swapped: bool) {
    swapped && conn.reconnection && conn.mood.status.None? && Changed(conn.mood, mine)
  }

  /** And would it contradict it? */
  predicate Misleads(conn: Conn, swapped: bool) {
    swapped && conn.reconnection && conn.mood.status.None? && conn.mood.show != AVAILABLE
  }

  /** In either order the record ends up right. There is one broadcast, and the last one is
      right, exactly unless the handlers run in the other order and a presence without a
      status was saved that differs from a new one's, or from its show. */
  lemma ConnectExact(conn: Conn, setting: int, swapped: bool)
    requires InBounds(conn.mood.priority)
    ensures var h := Connected(conn, FreshMood(setting), swapped);
            && h.mine == Due(conn, setting) && InBounds(h.mine.priority) && h.conn.mood.priority == conn.mood.priority
            && |h.sent| == (if GreetsTwice(conn, FreshMood(setting), swapped) then 2 else 1)
            && (forall i | 0 <= i < |h.sent| :: InBounds(h.sent[i].priority))
            && (Announced(h.sent[|h.sent| - 1]) == h.mine <==> !Misleads(conn, swapped))
  {
    var mine := FreshMood(setting);
    if !swapped {
      ConnectAnnouncesOnce(conn, setting);
      assert Connected(conn, mine, false).sent == Greeting(conn, mine) + Restored(conn, mine).sent;
    } else {
      var h := Restored(conn, mine);
      assert Connected(conn, mine, true).sent == h.sent + Greeting(h.conn, h.mine);
    }
  }

  // ----- Runs

  datatype State = Closed(conn: Conn) | Open(conn: Conn, mine: Mood)

  /** `swapped` says in which order the handlers of "server connected" are called. */
  datatype Event =
    | Dial(setting: int, swapped: bool)
    | Set(wanted: Mood)
    | Lose(kept: Option<string>)
    | Fail(setting: int)
    | Reconnect(setting: int, swapped: bool)

  const START := Closed(Conn(Mood(UNAVAILABLE, None, 0), false))

  predicate CanHappen(s: State, e: Event) {
    if e.Set? || e.Lose? then s.Open? else s.Closed?
  }

  /** `sig_save_status`, which looks only at a server that is connected. */
  function Saved(conn: Conn, mine: Mood, connected: bool): Conn {
    if connected then conn.(mood := Mood(mine.show, conn.mood.status, mine.priority)) else conn
  }

  /** `Lose` keeps of the status what irssi chose to save. A failed attempt goes through
      the same saving, with a server that never got connected. */
  function Step(s: State, e: Event): (State, seq<Stanza>)
    requires CanHappen(s, e)
  {
    match e
    case Dial(setting, swapped) =>
      var h := Connected(START.conn, FreshMood(setting), swapped);
      (Open(h.conn, h.mine), h.sent)
    case Reconnect(setting, swapped) =>
      var h := Connected(s.conn, FreshMood(setting), swapped);
      (Open(h.conn, h.mine), h.sent)
    case Set(wanted) =>
      var (now, sent) := SetPresence(s.mine, wanted);
      (Open(s.conn, now), sent)
    case Lose(kept) => (Closed(Conn(Saved(s.conn, s.mine, true).mood.(status := kept), true)), [])
    case Fail(setting) => (Closed(Saved(s.conn, FreshMood(setting), false)), [])
  }

  ghost function Run(s: State, es: seq<Event>): (State, seq<Stanza>)
    requires Possible(s, es)
    decreases |es|, 1
  {
    if |es| == 0 then (s, [])
    else
      var (s1, sent) := Run(s, es[..|es| - 1]);
      var (s2, more) := Step(s1, es[|es| - 1]);
      (s2, sent + more)
  }

  ghost predicate Possible(s: State, es: seq<Event>)
    decreases |es|, 0
  {
    |es| == 0 || (Possible(s, es[..|es| - 1]) && CanHappen(Run(s, es[..|es| - 1]).0, es[|es| - 1]))
  }

  /** A connect misled the others, and no change of presence has been broadcast since. */
  ghost predicate Misled(es: seq<Event>)
    requires Possible(START, es)
    decreases |es|
  {
    |es| != 0 &&
      var s := Run(START, es[..|es| - 1]).0;
      var e := es[|es| - 1];
      || (e.Reconnect? && Misleads(s.conn, e.swapped))
      || (e.Set? && Misled(es[..|es| - 1]) && !Changed(e.wanted, s.mine))
  }

  /** Priorities are legal everywhere, and while we are connected the others know our
      presence unless they were misled: the last broadcast is the one the server record
      holds. */
  ghost predicate Inv(s: State, sent: seq<Stanza>, misled: bool) {
    && InBounds(s.conn.mood.priority)
    && (forall i | 0 <= i < |sent| :: InBounds(sent[i].priority))
    && (s.Open? ==> InBounds(s.mine.priority) && |sent| > 0
                    && (Announced(sent[|sent| - 1]) == s.mine <==> !misled))
  }

  lemma StepInv(s: State, e: Event, sent: seq<Stanza>, misled: bool)
    requires Inv(s, sent, misled) && CanHappen(s, e)
    ensures Inv(Step(s, e).0, sent + Step(s, e).1,
                (e.Reconnect? && Misleads(s.conn, e.swapped)) || (e.Set? && misled && !Changed(e.wanted, s.mine)))
  {
    match e
    case Dial(setting, swapped) => ConnectExact(START.conn, setting, swapped);
    case Reconnect(setting, swapped) => ConnectExact(s.conn, setting, swapped);
    case _ => assert sent + [] == sent;
  }

  /** After any history of connects with the handlers in either order, the last broadcast is
      our presence exactly unless the others are misled; every priority is legal. */
  lemma {:induction false} AnnouncedExactly(es: seq<Event>)
    requires Possible(START, es)
    ensures Inv(Run(START, es).0, Run(START, es).1, Misled(es))
  {
    if |es| == 0 {
    } else {
      var init := es[..|es| - 1];
      AnnouncedExactly(init);
      var (s, sent) := Run(START, init);
      StepInv(s, es[|es| - 1], sent, Misled(init));
    }
  }

  ghost predicate InOrder(es: seq<Event>) {
    forall i | 0 <= i < |es| :: !((es[i].Dial? || es[i].Reconnect?) && es[i].swapped)
  }

  lemma {:induction false} InOrderNeverMisled(es: seq<Event>)
    requires Possible(START, es) && InOrder(es)
    ensures !Misled(es)
  {
    if |es| == 0 {
    } else {
      InOrderNeverMisled(es[..|es| - 1]);
    }
  }

  /** With the handlers in the order in which they are added, the last broadcast is always
      our presence. */
  lemma AnnouncedIsCurrent(es: seq<Event>)
    requires Possible(START, es) && InOrder(es)
    ensures var (s, sent) := Run(START, es);
            s.Open? ==> |sent| > 0 && Announced(sent[|sent| - 1]) == s.mine
  {
    AnnouncedExactly(es);
    InOrderNeverMisled(es);
  }

  /** After any history, connecting (again) gives the record the presence that is due, and
      broadcasts exactly once unless it greets twice. */
  lemma EveryConnectOnce(es: seq<Event>, e: Event)
    requires Possible(START, es) && CanHappen(Run(START, es).0, e) && (e.Dial? || e.Reconnect?)
    ensures var conn := if e.Dial? then START.conn else Run(START, es).0.conn;
            var (s, sent) := Step(Run(START, es).0, e);
            && s.mine == Due(conn, e.setting)
            && 1 <= |sent| <= 2 && (|sent| == 1 <==> !GreetsTwice(conn, FreshMood(e.setting), e.swapped))
            && (Announced(sent[|sent| - 1]) == s.mine <==> !Misleads(conn, e.swapped))
  {
    AnnouncedExactly(es);
    ConnectExact(if e.Dial? then START.conn else Run(START, es).0.conn, e.setting, e.swapped);
  }

  /** Setting a presence: nothing at all if it is the one we have; otherwise one broadcast of
      what we have then, which is the wanted presence, with the old priority exactly if the
      wanted one is outside -128..127. */
  lemma SetExactly(s: State, wanted: Mood)
    requires s.Open?
    ensures var (s', sent) := Step(s, Set(wanted));
            && s'.Open? && s'.conn == s.conn
            && (if wanted == s.mine then s'.mine == s.mine && sent == []
                else && s'.mine.show == wanted.show && s'.mine.status == wanted.status
                     && s'.mine.priority ==
                        (if -128 <= wanted.priority <= 127 then wanted.priority else s.mine.priority)
                     && |sent| == 1 && Announced(sent[0]) == s'.mine
                     && (sent[0].show.Some? <==> wanted.show != AVAILABLE))
  {
  }

  /** After any history, the same presence set again is broadcast again exactly if its
      priority is out of bounds. */
  lemma SetTwiceExactly(es: seq<Event>, wanted: Mood)
    requires Possible(START, es) && Run(START, es).0.Open?
    ensures var once := Step(Run(START, es).0, Set(wanted)).0;
            Step(once, Set(wanted)).1 != [] <==> !(-128 <= wanted.priority <= 127)
  {
    AnnouncedExactly(es);
    SetExactly(Run(START, es).0, wanted);
    SetExactly(Step(Run(START, es).0, Set(wanted)).0, wanted);
  }

  ghost predicate AllFail(es: seq<Event>) {
    forall i | 0 <= i < |es| :: es[i].Fail?
  }

  lemma {:induction false} FailuresChangeNothing(s: State, es: seq<Event>)
    requires s.Closed? && AllFail(es)
    ensures Possible(s, es) && Run(s, es) == (s, [])
  {
    if |es| == 0 {
    } else {
      var init, e := es[..|es| - 1], es[|es| - 1];
      FailuresChangeNothing(s, init);
      var none: seq<Stanza> := [];
      assert e.Fail? && Step(s, e) == (s, none) && none + none == none;
    }
  }

  /** After any history, losing the connection, failing to reconnect any number of times
      and then reconnecting restores the presence we had, with the status irssi kept. It is
      broadcast once, and last, with the handlers in the order in which they are added; in
      the other order exactly unless no status was kept and it differs from a new record's
      presence, or from its show. */
  lemma ReconnectRestores(es: seq<Event>, kept: Option<string>, failures: seq<Event>, setting: int, swapped: bool)
    requires Possible(START, es) && Run(START, es).0.Open? && AllFail(failures)
    ensures var had := Run(START, es).0.mine.(status := kept);
            var lost := Step(Run(START, es).0, Lose(kept)).0;
            && Possible(lost, failures)
            && CanHappen(Run(lost, failures).0, Reconnect(setting, swapped))
            && var (s, sent) := Step(Run(lost, failures).0, Reconnect(setting, swapped));
               && s.mine == had && |sent| > 0
               && (|sent| == 1 <==> !(swapped && kept.None? && had != FreshMood(setting)))
               && (Announced(sent[|sent| - 1]) == had <==> !(swapped && kept.None? && had.show != AVAILABLE))
  {
    AnnouncedExactly(es);
    var lost := Step(Run(START, es).0, Lose(kept)).0;
    FailuresChangeNothing(lost, failures);
    ConnectExact(lost.conn, setting, swapped);
  }

  // ----- The records

  class ConnectRec {
    var show: int
    var priority: int
    var awayReason: Option<string>
    var reconnection: bool

    constructor ()
      ensures View() == START.conn
    {
      show, priority, awayReason, reconnection := UNAVAILABLE, 0, None, false;
    }

    function View(): Conn
      reads this
    {
      Conn(Mood(show, awayReason, priority), reconnection)
    }
  }

  /** `sig_server_connect_copy`; irssi itself copies the other two fields. */
  method ConnectCopy(src: ConnectRec) returns (conn: ConnectRec)
    ensures fresh(conn) && conn.View() == src.View()
  {
    conn := new ConnectRec();
    conn.show := src.show;
    conn.priority := src.priority;
    conn.awayReason, conn.reconnection := src.awayReason, src.reconnection;
  }

  class ServerRec {
    var show: int
    var priority: int
    var awayReason: Option<string>
    var connected: bool
    const connrec: ConnectRec

    function Mine(): Mood
      reads this
    {
      Mood(show, awayReason, priority)
    }

    /** `xmpp_server_init_connect` */
    constructor (conn: ConnectRec, setting: int)
      ensures connrec == conn && !connected && Mine() == FreshMood(setting).(show := UNAVAILABLE)
    {
      connrec, connected, awayReason, show := conn, false, None, UNAVAILABLE;
      priority := if !InBounds(setting) then 0 else setting;
    }

    /** `lm_auth_cb`, up to telling irssi that the server is connected */
    method Authenticated()
      modifies this`show, this`connected
      ensures connected && Mine() == old(Mine()).(show := AVAILABLE)
    {
      show := AVAILABLE;
      connected := true;
    }

    /** `sig_set_presence` */
    method ChangePresence(newShow: int, status: Option<string>, newPriority: int) returns (sent: seq<Stanza>)
      modifies this`show, this`awayReason, this`priority
      ensures (Mine(), sent) == SetPresence(old(Mine()), Mood(newShow, status, newPriority))
    {
      if !PresenceChanged(newShow, show, status, awayReason, newPriority, priority) {
        return [];
      }
      show := newShow;
      awayReason := status;
      if InBounds(newPriority) {
        priority := newPriority;
      }
      sent := [Stanza(if newShow != AVAILABLE then Some(show) else None, awayReason, priority)];
    }

    /** `sig_connected` of xmpp-servers.c */
    method Greet() returns (sent: seq<Stanza>)
      ensures sent == Greeting(connrec.View(), Mine())
    {
      if connrec.reconnection
         && PresenceChanged(connrec.show, show, connrec.awayReason, awayReason, connrec.priority, priority) {
        return [];
      }
      sent := [Stanza(None, None, priority)];
    }

    /** `sig_connected` of xmpp-servers-reconnect.c */
    method Restore() returns (sent: seq<Stanza>)
      modifies this`show, this`awayReason, this`priority, connrec`awayReason
      ensures Handled(connrec.View(), Mine(), sent) == Restored(old(connrec.View()), old(Mine()))
    {
      if !connrec.reconnection {
        return [];
      }
      sent := ChangePresence(connrec.show, connrec.awayReason, connrec.priority);
      connrec.awayReason := None;
    }

    /** Authentication succeeded: irssi emits "server connected". */
    method FinishConnect(swapped: bool) returns (sent: seq<Stanza>)
      modifies this, connrec`awayReason
      ensures connected
      ensures Handled(connrec.View(), Mine(), sent) ==
              Connected(old(connrec.View()), old(Mine()).(show := AVAILABLE), swapped)
    {
      Authenticated();
      var first, second;
      if swapped {
        first := Restore();
        second := Greet();
      } else {
        first := Greet();
        second := Restore();
      }
      sent := first + second;
    }

    /** `sig_save_status` */
    method SaveStatus(conn: ConnectRec)
      modifies conn`show, conn`priority
      ensures conn.View() == Saved(old(conn.View()), Mine(), connected)
    {
      if !connected {
        return;
      }
      conn.show := show;
      conn.priority := priority;
    }
  }

  /** Connecting with a connection record gives a server record with the presence due, and
      broadcasts it exactly as `ConnectExact` says. */
  method OpenConnection(conn: ConnectRec, setting: int, swapped: bool) returns (server: ServerRec, sent: seq<Stanza>)
    requires InBounds(conn.priority)
    modifies conn`awayReason
    ensures fresh(server) && server.connrec == conn && server.connected
    ensures server.Mine() == Due(old(conn.View()), setting)
    ensures |sent| == if GreetsTwice(old(conn.View()), FreshMood(setting), swapped) then 2 else 1
    ensures Announced(sent[|sent| - 1]) == server.Mine() <==> !Misleads(old(conn.View()), swapped)
  {
    ConnectExact(conn.View(), setting, swapped);
    server := new ServerRec(conn, setting);
    sent := server.FinishConnect(swapped);
  }
}
