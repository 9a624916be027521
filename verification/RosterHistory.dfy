/** The presence history of one full JID: what a contact's resource list shows of
    resource `n` is decided by the events about that contact and that full JID alone. */
module RosterHistory {
  import opened Text
  import opened Lists
  import opened Sorting
  import opened Roster
  import opened RosterContacts
  import opened RosterRuns

  // ----- One resource of one list

  /** At most one resource is called `n`. */
  ghost predicate UniqueName(m: multiset<Resource>, n: string) {
    && (forall r | r in m && r.name == n :: m[r] == 1)
    && (forall r, s | r in m && s in m && r.name == n && s.name == n :: r == s)
  }

  function Entry(rs: seq<Resource>, n: string): Option<Resource> {
    match FindResource(rs, Some(n))
    case None => None
    case Some(i) => Some(rs[i])
  }

  lemma {:induction false} FindResourceNone(rs: seq<Resource>, n: string)
    requires FindResource(rs, Some(n)).None?
    ensures forall r | r in rs :: r.name != n
  {
    if rs == [] {
    } else {
      FindResourceNone(rs[1..], n);
    }
  }

  /** `rosters_find_resource` finds the one resource with that name. */
  lemma EntryIsMembership(rs: seq<Resource>, n: string)
    requires UniqueName(multiset(rs), n)
    ensures forall r :: Entry(rs, n) == Some(r) <==> r in multiset(rs) && r.name == n
  {
    if FindResource(rs, Some(n)).None? {
      FindResourceNone(rs, n);
    } else {
      assert rs[FindResource(rs, Some(n)).value] in multiset(rs);
    }
  }

  function Bag(r: Option<Resource>): multiset<Resource> {
    if r.Some? then multiset{r.value} else multiset{}
  }

  /** Replacing the entry `was` called `m` by `now` changes nothing for other names. */
  lemma ReplacedEntry(rs: seq<Resource>, rs': seq<Resource>, m: string,
                      was: Option<Resource>, now: Option<Resource>, n: string)
    requires UniqueName(multiset(rs), n)
    requires multiset(rs') + Bag(was) == multiset(rs) + Bag(now)
    requires was.Some? ==> was.value.name == m && was.value in multiset(rs)
    requires now.Some? ==> now.value.name == m
    requires m == n && was.None? ==> Entry(rs, n).None?
    ensures UniqueName(multiset(rs'), n)
    ensures Entry(rs', n) == if n == m then now else Entry(rs, n)
  {
    EntryIsMembership(rs, n);
    forall r: Resource
      ensures r.name == n ==> multiset(rs')[r] == if n == m then (if now == Some(r) then 1 else 0) else multiset(rs)[r]
    {
      assert (multiset(rs') + Bag(was))[r] == multiset(rs')[r] + Bag(was)[r];
      assert (multiset(rs) + Bag(now))[r] == multiset(rs)[r] + Bag(now)[r];
      assert Entry(rs, n) == Some(r) <==> r in multiset(rs) && r.name == n;
    }
    EntryIsMembership(rs', n);
    var expected := if n == m then now else Entry(rs, n);
    assert forall r :: Entry(rs', n) == Some(r) <==> expected == Some(r);
    if Entry(rs', n).Some? {
      assert expected == Some(Entry(rs', n).value);
    } else if expected.Some? {
      assert Entry(rs', n) == Some(expected.value);
    }
  }

  /** The resource a presence describes, given the one it replaces. */
  function Announced(was: Option<Resource>, p: Presence): Resource {
    var priority := if p.priority.Some? then p.priority.value else if was.Some? then was.value.priority else 0;
    Resource(if Extract(p.full).Some? then Extract(p.full).value else "", priority, GetShow(p.show), p.status)
  }

  /** What an event from the contact does to its resource `n`: the reference. */
  function EntryAfter(was: Option<Resource>, n: string, e: Event): Option<Resource>
    requires IsPresence(e)
  {
    if Extract(Sender(e)) != Some(n) then was
    else
      match e
      case Available(p) => Some(Announced(was, p))
      case Unavailable(_, _) => None
      case PresenceError(_) => if was.Some? then Some(was.value.(show := ERROR)) else None
      case _ => was
  }

  /** A bare presence never finds the resource it makes, so `""` can be listed again. */
  predicate BareAvailable(e: Event) {
    e.Available? && Extract(e.presence.full).None?
  }

  function Replaced(rs: seq<Resource>, p: Presence): Option<Resource> {
    match FindResource(rs, Extract(p.full))
    case None => None
    case Some(i) => Some(rs[i])
  }

  lemma TouchBag(rs: seq<Resource>, p: Presence)
    ensures var was := Replaced(rs, p);
            multiset(Touch(rs, p).resources) + Bag(was) == multiset(rs) + Bag(Some(Announced(was, p)))
  {
    var was := Replaced(rs, p);
    var now := Announced(was, p);
    var t := Touch(rs, p);
    if was.Some? {
      var i := FindResource(rs, Extract(p.full)).value;
      if t.accepted {
        assert t.resources == SortResources(rs[i := now]);
        UpdateBag(rs, i, now);
        SortPermutes(rs[i := now], ResourceLe);
      } else {
        assert t.resources == rs && was.value == now;
      }
    } else {
      var created := Resource(now.name, 0, UNAVAILABLE, None);
      assert ([created] + rs)[0 := now] == [now] + rs;
      assert t.resources == SortResources([now] + rs);
      SortPermutes([now] + rs, ResourceLe);
      assert multiset([now] + rs) == multiset{now} + multiset(rs);
    }
  }

  lemma TouchEntry(rs: seq<Resource>, n: string, p: Presence)
    requires UniqueName(multiset(rs), n)
    requires n != "" || Extract(p.full).Some?
    ensures UniqueName(multiset(Touch(rs, p).resources), n)
    ensures Entry(Touch(rs, p).resources, n) == EntryAfter(Entry(rs, n), n, Available(p))
  {
    var was := Replaced(rs, p);
    var now := Announced(was, p);
    TouchBag(rs, p);
    ReplacedEntry(rs, Touch(rs, p).resources, now.name, was, Some(now), n);
  }

  /** An event from the contact does to its resource `n` what the reference says. */
  lemma EntryStep(rs: seq<Resource>, n: string, e: Event)
    requires IsPresence(e) && UniqueName(multiset(rs), n)
    requires n != "" || !BareAvailable(e)
    ensures UniqueName(multiset(ResourcesAfter(rs, e)), n)
    ensures Entry(ResourcesAfter(rs, e), n) == EntryAfter(Entry(rs, n), n, e)
  {
    var k := FindResource(rs, Extract(Sender(e)));
    if e.Available? {
      TouchEntry(rs, n, e.presence);
    } else if k.Some? {
      var was := rs[k.value];
      if e.Unavailable? {
        RemoveBag(rs, k.value);
        ReplacedEntry(rs, RemoveAt(rs, k.value), was.name, Some(was), None, n);
      } else {
        UpdateBag(rs, k.value, was.(show := ERROR));
        ReplacedEntry(rs, rs[k.value := was.(show := ERROR)], was.name, Some(was), Some(was.(show := ERROR)), n);
      }
    }
  }

  // ----- One full JID over a run

  /** What is known of resource `n` of the contact: not a contact, or its entry. */
  datatype Track = Unknown | Known(entry: Option<Resource>)

  function TrackOf(c: Option<Contact>, n: string): Track {
    if c.None? then Unknown else Known(Entry(c.value.user.resources, n))
  }

  ghost predicate NameOk(c: Option<Contact>, n: string) {
    c.Some? ==> UniqueName(multiset(c.value.user.resources), n)
  }

  /** The push removes contact `u`, or the connection is gone. */
  predicate Drops(e: Event, u: string) {
    e.Disconnected? || (e.Push? && e.jid == Some(u) && ParseSubscription(e.subscription).Remove?)
  }

  predicate Adds(e: Event, u: string) {
    e.Push? && e.jid == Some(u) && !ParseSubscription(e.subscription).Remove?
  }

  function TrackAfter(t: Track, u: string, n: string, e: Event): Track {
    if Drops(e, u) then Unknown
    else if Adds(e, u) then (if t.Unknown? then Known(None) else t)
    else if t.Known? && IsPresence(e) && Strip(Sender(e)) == u then Known(EntryAfter(t.entry, n, e))
    else t
  }

  lemma BareIsWhole(e: Event)
    ensures BareAvailable(e) ==> Strip(e.presence.full) == e.presence.full
  {
    if e.Available? {
      SplitRebuilds(e.presence.full);
    }
  }

  lemma TrackPresence(rs: seq<Resource>, rs': seq<Resource>, u: string, n: string, e: Event)
    requires IsPresence(e) && Strip(Sender(e)) == u && UniqueName(multiset(rs), n)
    requires n != "" || !(BareAvailable(e) && e.presence.full == u)
    requires rs' == ResourcesAfter(rs, e)
    ensures UniqueName(multiset(rs'), n) && Entry(rs', n) == EntryAfter(Entry(rs, n), n, e)
  {
    BareIsWhole(e);
    EntryStep(rs, n, e);
  }

  lemma TrackStep(c: Option<Contact>, u: string, n: string, e: Event)
    requires NameOk(c, n)
    requires n != "" || !(BareAvailable(e) && e.presence.full == u)
    ensures NameOk(ContactAfter(c, u, e), n)
    ensures TrackOf(ContactAfter(c, u, e), n) == TrackAfter(TrackOf(c, n), u, n, e)
  {
    if c.Some? && IsPresence(e) && Strip(Sender(e)) == u {
      TrackPresence(c.value.user.resources, ContactAfter(c, u, e).value.user.resources, u, n, e);
    }
  }

  function TrackAll(t: Track, u: string, n: string, es: seq<Event>): Track {
    if es == [] then t else TrackAfter(TrackAll(t, u, n, es[..|es| - 1]), u, n, es[|es| - 1])
  }

  /** The events allowed for resource `""`: no presence from the bare JID itself. */
  ghost predicate Trackable(es: seq<Event>, u: string, n: string) {
    && (forall e | e in es :: PushesBare(e))
    && (n != "" || forall e | e in es :: !(BareAvailable(e) && e.presence.full == u))
  }

  lemma {:induction false} TrackContact(c: Option<Contact>, u: string, n: string, es: seq<Event>)
    requires NameOk(c, n) && Trackable(es, u, n)
    ensures NameOk(ContactAfterAll(c, u, es), n)
    ensures TrackOf(ContactAfterAll(c, u, es), n) == TrackAll(TrackOf(c, n), u, n, es)
  {
    if es == [] {
    } else {
      TrackContact(c, u, n, es[..|es| - 1]);
      TrackStep(ContactAfterAll(c, u, es[..|es| - 1]), u, n, es[|es| - 1]);
    }
  }

  /** For any interleaving of events about all contacts, the roster shows of resource
      `n` of contact `u` exactly what the events about that full JID say, at most once. */
  lemma PresenceHistory(a: Account, u: string, n: string, es: seq<Event>)
    requires WellKept(a.groups) && NameOk(Lookup(a.groups, u), n) && Trackable(es, u, n)
    ensures NameOk(Lookup(Run(a, es).0.groups, u), n)
    ensures TrackOf(Lookup(Run(a, es).0.groups, u), n) == TrackAll(TrackOf(Lookup(a.groups, u), n), u, n, es)
  {
    RunRefinesMap(a, es);
    TrackContact(Lookup(a.groups, u), u, n, es);
  }

  function BareResource(p: Presence): Resource {
    Resource("", if p.priority.Some? then p.priority.value else 0, GetShow(p.show), p.status)
  }

  /** A presence from a bare JID always lists one more resource `""`. */
  lemma BareTouchAdds(rs: seq<Resource>, p: Presence)
    requires Extract(p.full).None?
    ensures multiset(Touch(rs, p).resources) == multiset(rs) + multiset{BareResource(p)}
  {
    var rs1 := [Resource("", 0, UNAVAILABLE, None)] + rs;
    assert rs1[0 := BareResource(p)] == [BareResource(p)] + rs;
    SortPermutes([BareResource(p)] + rs, ResourceLe);
  }

  /** A presence keeps the name `""` unique exactly when its JID has a resource or nothing
      is listed under that name yet. */
  lemma TouchUniqueExactly(rs: seq<Resource>, p: Presence)
    requires UniqueName(multiset(rs), "")
    ensures UniqueName(multiset(Touch(rs, p).resources), "") <==>
            Extract(p.full).Some? || forall r | r in rs :: r.name != ""
  {
    if Extract(p.full).Some? {
      TouchEntry(rs, "", p);
    } else {
      var b := BareResource(p);
      BareTouchAdds(rs, p);
      forall r | r in rs
        ensures r in multiset(rs) && (r.name == "" ==> (multiset(rs) + multiset{b})[b] >= 2 || r != b)
      {
      }
    }
  }

  /** Two presences from a bare JID list the resource `""` twice. */
  lemma BarePresenceDuplicates(p: Presence)
    requires Extract(p.full).None?
    ensures var once := Touch([], p).resources;
            !UniqueName(multiset(Touch(once, p).resources), "")
  {
    var once := Touch([], p).resources;
    BareTouchAdds([], p);
    TouchUniqueExactly([], p);
    assert BareResource(p) in multiset(once);
    TouchUniqueExactly(once, p);
  }

  // ----- The history read off the list of events

  predicate IsAvailable(e: Event, u: string, n: string) {
    e.Available? && e.presence.full == FullJid(u, n)
  }

  predicate IsUnavailable(e: Event, u: string, n: string) {
    e.Unavailable? && e.from == FullJid(u, n)
  }

  predicate IsError(e: Event, u: string, n: string) {
    e.PresenceError? && e.from == FullJid(u, n)
  }

  /** `u` was pushed and neither removed nor lost with the connection since. */
  ghost predicate ContactIn(es: seq<Event>, u: string) {
    exists k :: 0 <= k < |es| && Adds(es[k], u) && forall j | k < j < |es| :: !Drops(es[j], u)
  }

  /** Event `i` is an available presence of `u/n` that nothing has ended since. */
  ghost predicate LiveSince(es: seq<Event>, i: int, u: string, n: string) {
    && 0 <= i < |es| && IsAvailable(es[i], u, n) && ContactIn(es[..i], u)
    && forall j | i < j < |es| :: !Drops(es[j], u) && !IsUnavailable(es[j], u, n)
  }

  lemma ContactInLast(es: seq<Event>, u: string)
    requires es != []
    ensures var e := es[|es| - 1];
            ContactIn(es, u) <==> Adds(e, u) || (!Drops(e, u) && ContactIn(es[..|es| - 1], u))
  {
    var init, e := es[..|es| - 1], es[|es| - 1];
    if Adds(e, u) {
      assert ContactIn(es, u);
    } else if !Drops(e, u) && ContactIn(init, u) {
      var k :| 0 <= k < |init| && Adds(init[k], u) && forall j | k < j < |init| :: !Drops(init[j], u);
      assert Adds(es[k], u);
      forall j | k < j < |es| ensures !Drops(es[j], u) {
        if j < |init| {
          assert es[j] == init[j];
        }
      }
    }
    if ContactIn(es, u) && !Adds(e, u) {
      var k :| 0 <= k < |es| && Adds(es[k], u) && forall j | k < j < |es| :: !Drops(es[j], u);
      assert forall j | k <= j < |init| :: init[j] == es[j];
      assert Adds(init[k], u) && !Drops(es[|es| - 1], u);
    }
  }

  lemma LiveSinceLast(es: seq<Event>, i: nat, u: string, n: string)
    requires i < |es|
    ensures var m := |es| - 1;
            LiveSince(es, i, u, n) <==>
              if i == m then IsAvailable(es[m], u, n) && ContactIn(es[..m], u)
              else LiveSince(es[..m], i, u, n) && !Drops(es[m], u) && !IsUnavailable(es[m], u, n)
  {
    var m := |es| - 1;
    if i < m {
      assert es[..m][..i] == es[..i];
      assert forall j | 0 <= j < m :: es[..m][j] == es[j];
    }
  }

  lemma FullJidParts(full: string, u: string, n: string)
    requires Bare(u)
    ensures full == FullJid(u, n) <==> Strip(full) == u && Extract(full) == Some(n)
  {
    JoinSplits(u, n);
    SplitRebuilds(full);
  }

  /** What one event does to being a contact, and to being listed. */
  lemma ListedStep(t: Track, u: string, n: string, e: Event)
    requires Bare(u)
    ensures var t' := TrackAfter(t, u, n, e);
            && (t'.Known? <==> Adds(e, u) || (!Drops(e, u) && t.Known?))
            && (t'.Known? && t'.entry.Some? <==>
                  !Drops(e, u) && t.Known? && (IsAvailable(e, u, n) || (t.entry.Some? && !IsUnavailable(e, u, n))))
  {
    if IsPresence(e) {
      FullJidParts(Sender(e), u, n);
    }
  }

  /** The tracker knows `u` exactly when the history says it is a contact, and shows
      `u/n` exactly when some available presence of it is live. */
  lemma {:induction false} ListedExactly(es: seq<Event>, u: string, n: string)
    requires Bare(u)
    ensures TrackAll(Unknown, u, n, es).Known? <==> ContactIn(es, u)
    ensures TrackAll(Unknown, u, n, es).Known? && TrackAll(Unknown, u, n, es).entry.Some? <==>
            exists i :: LiveSince(es, i, u, n)
  {
    if es == [] {
    } else {
      var m := |es| - 1;
      var init, e := es[..m], es[m];
      ListedExactly(init, u, n);
      ContactInLast(es, u);
      ListedStep(TrackAll(Unknown, u, n, init), u, n, e);
      var now := TrackAll(Unknown, u, n, es);
      if now.Known? && now.entry.Some? {
        if IsAvailable(e, u, n) {
          LiveSinceLast(es, m, u, n);
        } else {
          var i :| LiveSince(init, i, u, n);
          LiveSinceLast(es, i, u, n);
        }
      }
      if i :| LiveSince(es, i, u, n) {
        LiveSinceLast(es, i, u, n);
      }
    }
  }

  /** What one event does to the entry of a resource that stays (or becomes) listed. */
  lemma ShownStep(t: Track, u: string, n: string, e: Event)
    requires Bare(u) && t.Known? && !Drops(e, u) && !IsUnavailable(e, u, n)
    requires IsAvailable(e, u, n) || t.entry.Some?
    ensures var t' := TrackAfter(t, u, n, e);
            && t'.Known? && t'.entry.Some?
            && (IsAvailable(e, u, n) ==>
                  var r := t'.entry.value;
                  r.name == n && r.status == e.presence.status && r.show == GetShow(e.presence.show))
            && (!IsAvailable(e, u, n) ==>
                  t'.entry == if IsError(e, u, n) then Some(t.entry.value.(show := ERROR)) else t.entry)
  {
    if IsPresence(e) {
      FullJidParts(Sender(e), u, n);
    }
  }

  ghost predicate ErrorSince(es: seq<Event>, i: nat, u: string, n: string) {
    exists j :: i < j < |es| && IsError(es[j], u, n)
  }

  lemma ErrorSinceLast(es: seq<Event>, i: nat, u: string, n: string)
    requires i < |es|
    ensures var m := |es| - 1;
            ErrorSince(es, i, u, n) <==> i < m && (IsError(es[m], u, n) || ErrorSince(es[..m], i, u, n))
  {
    var m := |es| - 1;
    assert forall j | 0 <= j < m :: es[..m][j] == es[j];
    if ErrorSince(es[..m], i, u, n) {
      var j :| i < j < m && IsError(es[..m][j], u, n);
      assert IsError(es[j], u, n);
    }
    if j :| i < j < |es| && IsError(es[j], u, n) {
      assert j == m || IsError(es[..m][j], u, n);
    }
  }

  lemma ContactKnown(es: seq<Event>, u: string, n: string)
    requires Bare(u) && ContactIn(es, u)
    ensures TrackAll(Unknown, u, n, es).Known?
  {
    ListedExactly(es, u, n);
  }

  /** The last live available presence gives the status, and the show unless an error
      of that full JID came later. */
  lemma LiveEarlier(es: seq<Event>, i: nat, u: string, n: string)
    requires LiveSince(es, i, u, n) && i < |es| - 1
    requires forall j | i < j < |es| :: !IsAvailable(es[j], u, n)
    ensures var m := |es| - 1;
            && LiveSince(es[..m], i, u, n) && es[..m][i] == es[i]
            && (forall j | i < j < m :: !IsAvailable(es[..m][j], u, n))
            && !IsAvailable(es[m], u, n) && !IsUnavailable(es[m], u, n) && !Drops(es[m], u)
  {
    LiveSinceLast(es, i, u, n);
    assert forall j | 0 <= j < |es| - 1 :: es[..|es| - 1][j] == es[j];
  }

  lemma {:induction false} ShownExactly(es: seq<Event>, i: nat, u: string, n: string)
    requires Bare(u) && LiveSince(es, i, u, n)
    requires forall j | i < j < |es| :: !IsAvailable(es[j], u, n)
    ensures TrackAll(Unknown, u, n, es).Known? && TrackAll(Unknown, u, n, es).entry.Some?
    ensures var r := TrackAll(Unknown, u, n, es).entry.value;
            && r.name == n
            && r.status == es[i].presence.status
            && r.show == if ErrorSince(es, i, u, n) then ERROR else GetShow(es[i].presence.show)
  {
    var m := |es| - 1;
    LiveSinceLast(es, i, u, n);
    ErrorSinceLast(es, i, u, n);
    if i < m {
      LiveEarlier(es, i, u, n);
      ShownExactly(es[..m], i, u, n);
    } else {
      ContactKnown(es[..m], u, n);
    }
    ShownStep(TrackAll(Unknown, u, n, es[..m]), u, n, es[m]);
  }

  /** Event `k` gave the listed resource a priority, and none was given since. */
  ghost predicate GivesPriority(es: seq<Event>, k: int, u: string, n: string) {
    && LiveSince(es, k, u, n) && es[k].presence.priority.Some?
    && forall j | k < j < |es| :: !(IsAvailable(es[j], u, n) && es[j].presence.priority.Some?)
  }

  lemma GivesPriorityLast(es: seq<Event>, k: nat, u: string, n: string)
    requires k < |es|
    ensures var m := |es| - 1;
            GivesPriority(es, k, u, n) <==>
              if k == m then IsAvailable(es[m], u, n) && ContactIn(es[..m], u) && es[m].presence.priority.Some?
              else GivesPriority(es[..m], k, u, n) && !Drops(es[m], u) && !IsUnavailable(es[m], u, n)
                   && !(IsAvailable(es[m], u, n) && es[m].presence.priority.Some?)
  {
    LiveSinceLast(es, k, u, n);
    if k < |es| - 1 {
      assert forall j | 0 <= j < |es| - 1 :: es[..|es| - 1][j] == es[j];
    }
  }

  /** What the tracked entry holds after `es` when `u/n` is listed. */
  predicate ListedAfter(es: seq<Event>, u: string, n: string) {
    var t := TrackAll(Unknown, u, n, es);
    t.Known? && t.entry.Some?
  }

  lemma {:induction false} PriorityGiven(es: seq<Event>, k: nat, u: string, n: string)
    requires Bare(u) && ListedAfter(es, u, n) && GivesPriority(es, k, u, n)
    ensures es[k].presence.priority == Some(TrackAll(Unknown, u, n, es).entry.value.priority)
  {
    var m := |es| - 1;
    var init, e := es[..m], es[m];
    ListedExactly(init, u, n);
    JoinSplits(u, n);
    GivesPriorityLast(es, k, u, n);
    if IsPresence(e) {
      SplitRebuilds(Sender(e));
    }
    if k < m {
      assert LiveSince(init, k, u, n) && init[k] == es[k];
      PriorityGiven(init, k, u, n);
    }
  }

  lemma {:induction false} PriorityNeverGiven(es: seq<Event>, u: string, n: string)
    requires Bare(u) && ListedAfter(es, u, n) && forall k :: !GivesPriority(es, k, u, n)
    ensures TrackAll(Unknown, u, n, es).entry.value.priority == 0
  {
    var m := |es| - 1;
    var init, e := es[..m], es[m];
    ListedExactly(init, u, n);
    JoinSplits(u, n);
    GivesPriorityLast(es, m, u, n);
    if IsPresence(e) {
      SplitRebuilds(Sender(e));
    }
    if ListedAfter(init, u, n) {
      forall k ensures !GivesPriority(init, k, u, n) {
        if 0 <= k < m {
          GivesPriorityLast(es, k, u, n);
        }
      }
      PriorityNeverGiven(init, u, n);
    }
  }

  /** The priority is the last one given while listed, 0 when none was. */
  lemma PriorityExactly(es: seq<Event>, u: string, n: string)
    requires Bare(u) && ListedAfter(es, u, n)
    ensures var r := TrackAll(Unknown, u, n, es).entry.value;
            && (forall k :: GivesPriority(es, k, u, n) ==> es[k].presence.priority == Some(r.priority))
            && ((forall k :: !GivesPriority(es, k, u, n)) ==> r.priority == 0)
  {
    forall k | GivesPriority(es, k, u, n)
      ensures es[k].presence.priority == Some(TrackAll(Unknown, u, n, es).entry.value.priority)
    {
      PriorityGiven(es, k, u, n);
    }
    if forall k :: !GivesPriority(es, k, u, n) {
      PriorityNeverGiven(es, u, n);
    }
  }

  // ----- The roster itself

  /** Event `i` is the last available presence of `u/n`, and it still counts. */
  ghost predicate LastAvailable(es: seq<Event>, i: int, u: string, n: string) {
    LiveSince(es, i, u, n) && forall j | i < j < |es| :: !IsAvailable(es[j], u, n)
  }

  lemma {:induction false} LastAvailableExists(es: seq<Event>, i: int, u: string, n: string)
    requires LiveSince(es, i, u, n)
    ensures exists k :: LastAvailable(es, k, u, n)
    decreases |es| - i
  {
    if j :| i < j < |es| && IsAvailable(es[j], u, n) {
      var k :| 0 <= k < i && Adds(es[..i][k], u) && forall m | k < m < i :: !Drops(es[..i][m], u);
      assert Adds(es[..j][k], u);
      assert forall m | k < m < j :: es[..j][m] == es[m] && (m < i ==> es[..i][m] == es[m]);
      assert ContactIn(es[..j], u);
      LastAvailableExists(es, j, u, n);
    } else {
      assert LastAvailable(es, i, u, n);
    }
  }

  /** The contact that the roster of a new connection shows after the events. */
  function ShownContact(jid: string, resource: string, es: seq<Event>, u: string): Option<Contact> {
    Lookup(Run(Fresh(jid, resource), es).0.groups, u)
  }

  lemma RosterTracks(jid: string, resource: string, es: seq<Event>, u: string, n: string)
    requires Trackable(es, u, n)
    ensures var c := ShownContact(jid, resource, es, u);
            NameOk(c, n) && TrackOf(c, n) == TrackAll(Unknown, u, n, es)
  {
    PresenceHistory(Fresh(jid, resource), u, n, es);
  }

  /** What the roster shows of `u/n` after any events is what the events say: `u` is listed
      exactly if it was added and not dropped since, `n` at most once, and exactly if an
      available presence still counts; status, show and priority are the last ones given. */
  lemma RosterTellsHistory(jid: string, resource: string, es: seq<Event>, u: string, n: string)
    requires Bare(u) && Trackable(es, u, n)
    ensures var c := ShownContact(jid, resource, es, u);
            && (c.Some? <==> ContactIn(es, u))
            && ((exists i :: LiveSince(es, i, u, n)) <==> c.Some? && Entry(c.value.user.resources, n).Some?)
            && (c.Some? ==> UniqueName(multiset(c.value.user.resources), n))
            && (c.Some? && Entry(c.value.user.resources, n).Some? ==>
                  var r := Entry(c.value.user.resources, n).value;
                  && r.name == n
                  && (exists i :: LastAvailable(es, i, u, n))
                  && (forall i :: LastAvailable(es, i, u, n) ==>
                        && r.status == es[i].presence.status
                        && r.show == if ErrorSince(es, i, u, n) then ERROR else GetShow(es[i].presence.show))
                  && (forall k :: GivesPriority(es, k, u, n) ==> es[k].presence.priority == Some(r.priority))
                  && ((forall k :: !GivesPriority(es, k, u, n)) ==> r.priority == 0))
  {
    RosterTracks(jid, resource, es, u, n);
    ListedExactly(es, u, n);
    if ListedAfter(es, u, n) {
      PriorityExactly(es, u, n);
      var live :| LiveSince(es, live, u, n);
      LastAvailableExists(es, live, u, n);
      forall i | LastAvailable(es, i, u, n)
        ensures var r := TrackAll(Unknown, u, n, es).entry.value;
                && r.status == es[i].presence.status
                && r.show == if ErrorSince(es, i, u, n) then ERROR else GetShow(es[i].presence.show)
      {
        ShownExactly(es, i, u, n);
      }
    }
  }
}
