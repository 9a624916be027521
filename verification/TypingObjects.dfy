/** The key logger and the composing timers as they are kept in memory. Each handler is
    proved to do to the records what `Typing` says it does to their values. */
module TypingObjects {
  import opened Text
  import opened Lists
  import opened Typing

  class QueryRec {
    var composingTime: int

    constructor ()
      ensures composingTime == 0
    {
      composingTime := 0;
    }
  }

  /** The `composing_time` of every query. */
  ghost function Since(queries: set<QueryRec>): map<QueryRec, int>
    reads queries
  {
    map q | q in queries :: q.composingTime
  }

  class KeyLogger {
    var lastKey: int
    var keylogActive: bool
    var timers: seq<Timer<QueryRec>>

    constructor ()
      ensures forall now :: View(now, {}) == Initial(now)
    {
      lastKey, keylogActive, timers := 0, false, [];
    }

    /** The handler's state, given the clock and the open queries. */
    ghost function View(now: int, queries: set<QueryRec>): State<QueryRec>
      reads this, queries
    {
      State(now, Since(queries), timers, lastKey, keylogActive)
    }

    /** `sig_gui_key_pressed` */
    method KeyPressed(now: int, active: Option<QueryRec>, press: KeyPress, ghost queries: set<QueryRec>)
      returns (marks: seq<Mark<QueryRec>>)
      requires active.Some? ==> active.value in queries
      modifies this`timers, this`lastKey, if active.Some? then {active.value} else {}
      ensures (View(now, queries), marks) == Typing.KeyPressed(old(View(now, queries)), active, press)
    {
      marks := [];
      if (!press.enabled && keylogActive) || active.None? {
        assert Since(queries) == old(Since(queries));
        return;
      }
      var query := active.value;
      if !Ignored(press) && IsTyping(press.key, lastKey) {
        if query.composingTime == 0 {
          query.composingTime := now;
          timers := timers + [Timer(query, now + COMPOSING_TIMEOUT)];
          marks := [Start(query)];
        } else if now - query.composingTime < COMPOSING_TIMEOUT - 1 {
          query.composingTime := now;
        }
      }
      if press.key == KEY_RETURN {
        query.composingTime := 0;
        marks := [Sent(query)];
      }
      lastKey := press.key;
      assert Since(queries) == old(Since(queries))[query := query.composingTime];
      if query.composingTime == old(query.composingTime) {
        assert Since(queries) == old(Since(queries));
      }
    }

    /** `stop_composing`: whether its timer is to be armed again. */
    method StopComposing(now: int, query: QueryRec) returns (again: bool, marks: seq<Mark<QueryRec>>)
      modifies query
      ensures again == (old(query.composingTime) != 0 && now - old(query.composingTime) < COMPOSING_TIMEOUT)
      ensures query.composingTime == if again then old(query.composingTime) else 0
      ensures marks == if !again && old(query.composingTime) != 0 then [Stop(query)] else []
    {
      if query.composingTime == 0 {
        return false, [];
      }
      if now - query.composingTime < COMPOSING_TIMEOUT {
        return true, [];
      }
      query.composingTime := 0;
      return false, [Stop(query)];
    }

    /** The main loop runs timer `i`, and removes it unless it asks to run again. */
    method RunTimer(now: int, i: nat, ghost queries: set<QueryRec>) returns (marks: seq<Mark<QueryRec>>)
      requires i < |timers| && timers[i].query in queries
      modifies this`timers, timers[i].query
      ensures (View(now, queries), marks) == Fired(old(View(now, queries)), i)
    {
      var query := timers[i].query;
      var again;
      again, marks := StopComposing(now, query);
      if again {
        timers := timers[i := Timer(query, now + COMPOSING_TIMEOUT)];
      } else {
        timers := RemoveAt(timers, i);
      }
      assert Since(queries) == old(Since(queries))[query := query.composingTime];
      if query.composingTime == old(query.composingTime) {
        assert Since(queries) == old(Since(queries));
      }
    }

    /** `sig_query_destroyed` */
    method QueryDestroyed(now: int, query: QueryRec, ghost queries: set<QueryRec>) returns (marks: seq<Mark<QueryRec>>)
      requires query in queries
      ensures (View(now, queries - {query}), marks) == Destroyed(View(now, queries), query)
    {
      marks := if query.composingTime != 0 then [Stop(query)] else [];
      assert Since(queries - {query}) == Since(queries) - {query};
    }

    /** `keyloger_enabled` */
    method Enable(now: int, enable: bool, ghost queries: set<QueryRec>)
      modifies this`keylogActive
      ensures (View(now, queries), []) == Step(old(View(now, queries)), Keylog(enable))
    {
      if enable && !keylogActive {
        keylogActive := true;
      } else if !enable && keylogActive {
        keylogActive := false;
      }
      assert Since(queries) == old(Since(queries));
    }
  }
}
