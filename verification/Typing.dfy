/** Typing notifications: a key in a query starts composing and arms a timer; the timer
    stops composing once no key came for a while. Time is in whole seconds. `Q` is the
    type of query records. The server stays connected throughout. */
module Typing {
  import opened Text
  import opened Lists

  const KEY_TAB := 9
  const KEY_RETURN := 10
  const KEY_ESCAPE := 27
  const KEYS_PAGE := 91
  const KEYS_OTHER := 126
  const KEY_BACKSPACE := 127

  const COMPOSING_TIMEOUT := 5

  datatype Timer<Q> = Timer(query: Q, due: int)

  /** "composing start", "composing stop", or the message sent by RETURN. */
  datatype Mark<Q> = Start(query: Q) | Stop(query: Q) | Sent(query: Q)

  /** `since` holds the `composing_time` of every open query, 0 when not composing. */
  datatype State<Q> = State(now: int, since: map<Q, int>, timers: seq<Timer<Q>>, lastKey: int, keylog: bool)

  /** A key press in the active query; `line` is the input line and `command` the first
      of the command characters. */
  datatype KeyPress = KeyPress(key: int, line: Option<string>, command: Option<char>, enabled: bool)

  datatype Event<Q> =
    | Open(query: Q)
    | Key(active: Option<Q>, press: KeyPress)
    | Fire(timer: nat)
    | Tick
    | Keylog(on: bool)
    | Destroy(query: Q)

  // ----- Specification

  /** "ignore command or empty line" */
  predicate Ignored(p: KeyPress) {
    p.line.Some? && (p.line.value == "" || (p.command.Some? && p.line.value[0] == p.command.value))
  }

  predicate IsTyping(key: int, lastKey: int) {
    && key != KEY_TAB && key != KEY_RETURN && lastKey != KEY_ESCAPE && key != KEY_ESCAPE
    && lastKey != KEYS_PAGE && key != KEYS_PAGE && key != KEYS_OTHER && key != KEY_BACKSPACE
  }

  /** The `composing_time` after a key that is typing. */
  function Refreshed(now: int, since: int): int {
    if since == 0 || now - since < COMPOSING_TIMEOUT - 1 then now else since
  }

  /** `sig_gui_key_pressed` */
  function KeyPressed<Q(==)>(s: State<Q>, active: Option<Q>, p: KeyPress): (State<Q>, seq<Mark<Q>>)
    requires active.Some? ==> active.value in s.since
  {
    if (!p.enabled && s.keylog) || active.None? then (s, [])
    else
      var q := active.value;
      var typing := !Ignored(p) && IsTyping(p.key, s.lastKey);
      var starts := typing && s.since[q] == 0;
      var since := if p.key == KEY_RETURN then 0 else if typing then Refreshed(s.now, s.since[q]) else s.since[q];
      (s.(since := s.since[q := since], lastKey := p.key,
          timers := if starts then s.timers + [Timer(q, s.now + COMPOSING_TIMEOUT)] else s.timers),
       if starts then [Start(q)] else if p.key == KEY_RETURN then [Sent(q)] else [])
  }

  /** `stop_composing`, run for timer `i`: kept for another round, or gone. */
  function Fired<Q(==)>(s: State<Q>, i: nat): (State<Q>, seq<Mark<Q>>)
    requires i < |s.timers| && s.timers[i].query in s.since
  {
    var q := s.timers[i].query;
    if s.since[q] == 0 then (s.(timers := RemoveAt(s.timers, i)), [])
    else if s.now - s.since[q] < COMPOSING_TIMEOUT then
      (s.(timers := s.timers[i := Timer(q, s.now + COMPOSING_TIMEOUT)]), [])
    else (s.(since := s.since[q := 0], timers := RemoveAt(s.timers, i)), [Stop(q)])
  }

  /** When a timer fires, it is armed for another five seconds exactly if its query is
      composing and was refreshed less than five seconds ago; otherwise it goes, with a stop
      exactly if the query was composing, which ends. No other timer or query notices. */
  lemma FiredExactly<Q>(s: State<Q>, i: nat)
    requires i < |s.timers| && s.timers[i].query in s.since
    ensures var (s', marks) := Fired(s, i);
            var q := s.timers[i].query;
            var again := s.since[q] != 0 && s.now - s.since[q] < 5;
            && s'.timers == (if again then s.timers[i := Timer(q, s.now + 5)] else s.timers[..i] + s.timers[i + 1..])
            && marks == (if !again && s.since[q] != 0 then [Stop(q)] else [])
            && s'.since == s.since[q := if again then s.since[q] else 0]
            && s'.now == s.now && s'.lastKey == s.lastKey && s'.keylog == s.keylog
  {
    if s.since[s.timers[i].query] == 0 {
      assert s.since == s.since[s.timers[i].query := 0];
    }
  }

  /** `sig_query_destroyed` */
  function Destroyed<Q(==)>(s: State<Q>, q: Q): (State<Q>, seq<Mark<Q>>)
    requires q in s.since
  {
    (s.(since := s.since - {q}), if s.since[q] != 0 then [Stop(q)] else [])
  }

  /** What can happen next. Timers fire when they are due: the clock does not move on
      before they have. The timer of a query that is gone is not run. */
  predicate CanHappen<Q(==)>(s: State<Q>, e: Event<Q>) {
    match e
    case Open(q) => q !in s.since && forall t | t in s.timers :: t.query != q
    case Key(active, _) => active.Some? ==> active.value in s.since
    case Fire(i) => i < |s.timers| && s.timers[i].due == s.now && s.timers[i].query in s.since
    case Tick => forall t | t in s.timers && t.query in s.since :: t.due != s.now
    case Keylog(_) => true
    case Destroy(q) => q in s.since
  }

  function Step<Q(==)>(s: State<Q>, e: Event<Q>): (State<Q>, seq<Mark<Q>>)
    requires CanHappen(s, e)
  {
    match e
    case Open(q) => (s.(since := s.since[q := 0]), [])
    case Key(active, p) => KeyPressed(s, active, p)
    case Fire(i) => Fired(s, i)
    case Tick => (s.(now := s.now + 1), [])
    case Keylog(on) => (s.(keylog := on), [])
    case Destroy(q) => Destroyed(s, q)
  }

  // ----- What every step keeps

  /** A live timer of `q` that will be run before `q` has been quiet for ten seconds. */
  predicate Watches<Q(==)>(t: Timer<Q>, q: Q, since: int) {
    t.query == q && t.due < since + 2 * COMPOSING_TIMEOUT
  }

  ghost predicate Inv<Q>(s: State<Q>) {
    && s.now > 0
    && (forall q | q in s.since :: 0 <= s.since[q] <= s.now)
    && (forall t | t in s.timers && t.query in s.since :: s.now <= t.due <= s.now + COMPOSING_TIMEOUT)
    && (forall q | q in s.since && s.since[q] != 0 :: exists t :: t in s.timers && Watches(t, q, s.since[q]))
  }

  /** The key writes text into the input line: the logger listens, the line is no command and
      not empty, and the key is neither a control key nor what follows an escape. */
  predicate Writes<Q>(s: State<Q>, p: KeyPress) {
    && (p.enabled || !s.keylog)
    && (p.line.Some? ==> p.line.value != "" && p.command != Some(p.line.value[0]))
    && p.key !in {9, 10, 27, 91, 126, 127} && s.lastKey !in {27, 91}
  }

  /** A key in a query starts composing exactly if it writes while the query is idle, with a
      timer for five seconds later; it refreshes composing exactly if it writes within four
      seconds of the last refresh; and RETURN, once heard, ends it. No other query notices. */
  lemma KeyExactly<Q>(s: State<Q>, q: Q, p: KeyPress)
    requires q in s.since && s.now > 0
    ensures var (s', marks) := KeyPressed(s, Some(q), p);
            var idle, heard := s.since[q] == 0, p.enabled || !s.keylog;
            && (Writes(s, p) && idle <==> Start(q) in marks)
            && marks == (if Writes(s, p) && idle then [Start(q)] else if heard && p.key == 10 then [Sent(q)] else [])
            && s'.timers == (if Writes(s, p) && idle then s.timers + [Timer(q, s.now + 5)] else s.timers)
            && s'.since.Keys == s.since.Keys
            && s'.since[q] == (if heard && p.key == 10 then 0
                               else if Writes(s, p) && (idle || s.now - s.since[q] < 4) then s.now else s.since[q])
            && (forall other | other in s.since && other != q :: s'.since[other] == s.since[other])
            && s'.lastKey == (if heard then p.key else s.lastKey) && s'.now == s.now && s'.keylog == s.keylog
  {
  }

  lemma KeyInv<Q>(s: State<Q>, active: Option<Q>, p: KeyPress)
    requires Inv(s) && (active.Some? ==> active.value in s.since)
    ensures Inv(KeyPressed(s, active, p).0)
  {
    var s' := KeyPressed(s, active, p).0;
    forall q | q in s'.since && s'.since[q] != 0
      ensures exists t :: t in s'.timers && Watches(t, q, s'.since[q])
    {
      if s.since[q] == 0 {
        var t := Timer(q, s.now + COMPOSING_TIMEOUT);
        assert s'.timers == s.timers + [t] && t in s'.timers && Watches(t, q, s'.since[q]);
      } else {
        var t :| t in s.timers && Watches(t, q, s.since[q]);
        assert t in s'.timers && Watches(t, q, s'.since[q]);
      }
    }
  }

  lemma RemoveAtKeeps<T>(s: seq<T>, i: nat)
    requires i < |s|
    ensures forall x | x in RemoveAt(s, i) :: x in s
    ensures forall x | x in s && x != s[i] :: x in RemoveAt(s, i)
  {
    forall x | x in s && x != s[i] ensures x in RemoveAt(s, i) {
      var k :| 0 <= k < |s| && s[k] == x;
      assert x == RemoveAt(s, i)[if k < i then k else k - 1];
    }
  }

  lemma FireInv<Q>(s: State<Q>, i: nat)
    requires Inv(s) && CanHappen(s, Fire(i))
    ensures Inv(Fired(s, i).0)
  {
    var s' := Fired(s, i).0;
    var fired := s.timers[i];
    RemoveAtKeeps(s.timers, i);
    forall q | q in s'.since && s'.since[q] != 0
      ensures exists t :: t in s'.timers && Watches(t, q, s'.since[q])
    {
      var t :| t in s.timers && Watches(t, q, s.since[q]);
      if q == fired.query {
        assert s'.timers[i] == Timer(q, s.now + COMPOSING_TIMEOUT) && Watches(s'.timers[i], q, s.since[q]);
      } else if s.since[fired.query] != 0 && s.now - s.since[fired.query] < COMPOSING_TIMEOUT {
        var k :| 0 <= k < |s.timers| && s.timers[k] == t;
        assert s'.timers[k] == t;
      }
    }
  }

  lemma StepInv<Q>(s: State<Q>, e: Event<Q>)
    requires Inv(s) && CanHappen(s, e)
    ensures Inv(Step(s, e).0)
  {
    match e
    case Key(active, p) => KeyInv(s, active, p);
    case Fire(i) => FireInv(s, i);
    case _ =>
      var s' := Step(s, e).0;
      forall q | q in s'.since && s'.since[q] != 0
        ensures exists t :: t in s'.timers && Watches(t, q, s'.since[q])
      {
        var t :| t in s.timers && Watches(t, q, s.since[q]);
        assert t in s'.timers;
      }
  }

  ghost function Run<Q>(s: State<Q>, es: seq<Event<Q>>): (State<Q>, seq<Mark<Q>>)
    requires Possible(s, es)
    decreases |es|, 1
  {
    if |es| == 0 then (s, [])
    else
      var (s1, marks) := Run(s, es[..|es| - 1]);
      var (s2, more) := Step(s1, es[|es| - 1]);
      (s2, marks + more)
  }

  // ----- Runs

  ghost predicate Possible<Q>(s: State<Q>, es: seq<Event<Q>>)
    decreases |es|, 0
  {
    |es| == 0 || (Possible(s, es[..|es| - 1]) && CanHappen(Run(s, es[..|es| - 1]).0, es[|es| - 1]))
  }

  function Initial<Q(==)>(now: int): State<Q> {
    State(now, map[], [], 0, false)
  }

  lemma {:induction false} RunInv<Q>(s: State<Q>, es: seq<Event<Q>>)
    requires Inv(s) && Possible(s, es)
    ensures Inv(Run(s, es).0)
  {
    if |es| == 0 {
    } else {
      RunInv(s, es[..|es| - 1]);
      StepInv(Run(s, es[..|es| - 1]).0, es[|es| - 1]);
    }
  }

  /** In every reachable state a query that is composing has a live timer, and was
      refreshed less than ten seconds ago: the stop comes in time. */
  lemma ComposingIsWatched<Q>(now: int, es: seq<Event<Q>>, q: Q)
    requires now > 0 && Possible(Initial(now), es)
    ensures var s := Run(Initial(now), es).0;
            q in s.since && s.since[q] != 0 ==>
              && s.now < s.since[q] + 2 * COMPOSING_TIMEOUT
              && exists t :: t in s.timers && t.query == q && s.now <= t.due <= s.now + COMPOSING_TIMEOUT
  {
    RunInv(Initial(now), es);
    var s := Run(Initial(now), es).0;
    if q in s.since && s.since[q] != 0 {
      var t :| t in s.timers && Watches(t, q, s.since[q]);
    }
  }

  /** Composing ends only by a stop that is emitted or by RETURN; otherwise a key merely
      refreshes it, and only if the last refresh is less than four seconds old. */
  lemma EndsOnlyByMark<Q>(s: State<Q>, e: Event<Q>, q: Q)
    requires Inv(s) && CanHappen(s, e) && q in s.since && s.since[q] != 0
    ensures var (s', marks) := Step(s, e);
            || (Stop(q) in marks && (q !in s'.since || s'.since[q] == 0))
            || (Sent(q) in marks && s'.since[q] == 0)
            || (q in s'.since && s'.since[q] == s.since[q])
            || (q in s'.since && s'.since[q] == s.now && s.now - s.since[q] < COMPOSING_TIMEOUT - 1)
  {
  }

  /** A stop is emitted only while composing, less than ten seconds after the last
      refresh, and by a timer only after five quiet seconds. */
  lemma StopsInTime<Q>(s: State<Q>, e: Event<Q>, q: Q)
    requires Inv(s) && CanHappen(s, e) && Stop(q) in Step(s, e).1
    ensures q in s.since && s.since[q] != 0 && s.now - s.since[q] < 2 * COMPOSING_TIMEOUT
    ensures e.Fire? ==> COMPOSING_TIMEOUT <= s.now - s.since[q]
    ensures e.Fire? || e.Destroy?
  {
    var t :| t in s.timers && Watches(t, q, s.since[q]);
  }

  // ----- Starts and stops

  /** What the marks of one query say: `None` once two starts, or a stop while idle. */
  function Follow<Q(==)>(active: bool, marks: seq<Mark<Q>>, q: Q): Option<bool> {
    if |marks| == 0 then Some(active)
    else
      var last := marks[|marks| - 1];
      match Follow(active, marks[..|marks| - 1], q)
      case None => None
      case Some(on) =>
        if last.query != q then Some(on)
        else if last.Start? then (if on then None else Some(true))
        else if last.Stop? then (if on then Some(false) else None)
        else Some(false)
  }

  lemma {:induction false} FollowConcat<Q>(active: bool, s: seq<Mark<Q>>, t: seq<Mark<Q>>, q: Q)
    ensures Follow(active, s + t, q) ==
            if Follow(active, s, q).None? then None else Follow(Follow(active, s, q).value, t, q)
  {
    if |t| == 0 {
      assert s + t == s;
    } else {
      FollowConcat(active, s, t[..|t| - 1], q);
      assert (s + t)[..|s + t| - 1] == s + t[..|t| - 1];
    }
  }

  predicate Composing<Q(==)>(s: State<Q>, q: Q) {
    q in s.since && s.since[q] != 0
  }

  lemma StepFollows<Q>(s: State<Q>, e: Event<Q>, q: Q)
    requires Inv(s) && CanHappen(s, e)
    ensures Follow(Composing(s, q), Step(s, e).1, q) == Some(Composing(Step(s, e).0, q))
  {
    var marks := Step(s, e).1;
    if |marks| == 1 {
      assert marks[..0] == [];
    }
  }

  /** For each query, a run never has two starts without a stop or a RETURN between them,
      and never a stop unless it was composing. */
  lemma {:induction false} StartsAndStopsAlternate<Q>(s: State<Q>, es: seq<Event<Q>>, q: Q)
    requires Inv(s) && Possible(s, es)
    ensures Follow(Composing(s, q), Run(s, es).1, q) == Some(Composing(Run(s, es).0, q))
  {
    if |es| == 0 {
    } else {
      var init, e := es[..|es| - 1], es[|es| - 1];
      StartsAndStopsAlternate(s, init, q);
      RunInv(s, init);
      StepFollows(Run(s, init).0, e, q);
      FollowConcat(Composing(s, q), Run(s, init).1, Step(Run(s, init).0, e).1, q);
    }
  }

  // ----- Steady typing

  /** When a key last wrote in `q`; `t` if none did in this run. */
  ghost function LastWrite<Q>(s: State<Q>, es: seq<Event<Q>>, q: Q, t: int): int
    requires Possible(s, es)
    decreases |es|
  {
    if |es| == 0 then t
    else
      var s1, e := Run(s, es[..|es| - 1]).0, es[|es| - 1];
      if e.Key? && e.active == Some(q) && Writes(s1, e.press) then s1.now else LastWrite(s, es[..|es| - 1], q, t)
  }

  /** Whenever something happens, a key wrote in `q` less than four seconds ago, counting from
      `t`; no RETURN is heard in `q`, and it is not destroyed. */
  ghost predicate Steady<Q>(s: State<Q>, es: seq<Event<Q>>, q: Q, t: int)
    requires Possible(s, es)
    decreases |es|
  {
    |es| == 0 ||
      var init, e := es[..|es| - 1], es[|es| - 1];
      && Steady(s, init, q, t) && Run(s, init).0.now - LastWrite(s, init, q, t) < 4
      && e != Destroy(q) && !(e.Key? && e.active == Some(q) && e.press.key == 10)
  }

  lemma SteadyStep<Q>(s: State<Q>, e: Event<Q>, q: Q)
    requires Inv(s) && CanHappen(s, e) && Composing(s, q) && s.now - s.since[q] < 4
    requires e != Destroy(q) && !(e.Key? && e.active == Some(q) && e.press.key == 10)
    ensures var (s', marks) := Step(s, e);
            && Start(q) !in marks && Stop(q) !in marks && Composing(s', q)
            && s'.since[q] == if e.Key? && e.active == Some(q) && Writes(s, e.press) then s.now else s.since[q]
  {
    if e.Key? && e.active.Some? {
      KeyExactly(s, e.active.value, e.press);
    }
  }

  /** Who keeps typing is shown composing all the time: no stop and no second start, and the
      query was last refreshed by the last key that wrote. */
  lemma {:induction false} SteadyTypingGoesOn<Q>(s: State<Q>, es: seq<Event<Q>>, q: Q)
    requires Inv(s) && Composing(s, q) && Possible(s, es) && Steady(s, es, q, s.since[q])
    ensures var (s', marks) := Run(s, es);
            && Composing(s', q) && s'.since[q] == LastWrite(s, es, q, s.since[q])
            && Start(q) !in marks && Stop(q) !in marks
  {
    if |es| == 0 {
    } else {
      var init, e := es[..|es| - 1], es[|es| - 1];
      var (s1, marks) := Run(s, init);
      SteadyTypingGoesOn(s, init, q);
      RunInv(s, init);
      SteadyStep(s1, e, q);
    }
  }

  /** Timers of one query can coexist: typing, RETURN and typing again leaves two. */
  lemma TimersCoexist<Q>(s: State<Q>, q: Q)
    requires Inv(s) && q in s.since && s.since[q] == 0 && !s.keylog && s.timers == [] && IsTyping(97, s.lastKey)
    ensures var key := KeyPress(97, None, None, true);
            var s1 := KeyPressed(s, Some(q), key).0;
            var s2 := KeyPressed(s1, Some(q), KeyPress(KEY_RETURN, None, None, true)).0;
            var s3 := KeyPressed(s2, Some(q), key).0;
            s3.timers == [Timer(q, s.now + COMPOSING_TIMEOUT), Timer(q, s.now + COMPOSING_TIMEOUT)]
  {
  }
}
