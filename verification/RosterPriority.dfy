/** In every reachable state, whatever the events, each contact's and our own
    resources are listed by descending priority. */
module RosterPriority {
  import opened Text
  import opened Lists
  import opened Sorting
  import opened Roster
  import opened RosterOrder
  import opened RosterContacts

  ghost predicate Ordered(rs: seq<Resource>, lo: int) {
    ByPriority(rs) && PrioritiesIn(rs, lo)
  }

  /** Each JID has its own window, which starts at `lo` of the JID. */
  ghost predicate AllOrdered(a: Account, lo: string -> int) {
    && (forall c | c in Contacts(a.groups) :: Ordered(c.user.resources, lo(c.user.jid)))
    && Ordered(a.mine, lo(a.jid))
  }

  /** The priority that a presence brings; a resource whose priority was never given has 0. */
  function PriorityOf(p: Presence): int {
    if p.priority.Some? then p.priority.value else 0
  }

  /** Every priority the event brings lies in the window of its sender. */
  predicate PriorityInWindow(e: Event, lo: string -> int) {
    e.Available? ==> InWindow(PriorityOf(e.presence), lo(Strip(e.presence.full)))
  }

  lemma ResourceAt(rs: seq<Resource>, i: nat)
    requires i < |rs|
    ensures rs[i] in rs
  {
  }

  /** An accepted presence leaves the resources fully ordered: priority descending,
      show descending, name ascending. One that changes nothing leaves the list alone. */
  lemma TouchOrders(rs: seq<Resource>, p: Presence, lo: int)
    requires Ordered(rs, lo) && InWindow(PriorityOf(p), lo)
    ensures Ordered(Touch(rs, p).resources, lo)
    ensures if Touch(rs, p).accepted then Sorted(Touch(rs, p).resources, ResourceOrder)
            else Touch(rs, p).resources == rs
  {
    var at := FindResource(rs, Extract(p.full));
    var created := Resource(if Extract(p.full).Some? then Extract(p.full).value else "", 0, UNAVAILABLE, None);
    var rs1 := if at.Some? then rs else [created] + rs;
    var i := if at.Some? then at.value else 0;
    var priority := if p.priority.Some? then p.priority.value else rs1[i].priority;
    var rs2 := rs1[i := Resource(rs1[i].name, priority, GetShow(p.show), p.status)];
    forall r | r in rs2 ensures InWindow(r.priority, lo) {
      var k :| 0 <= k < |rs2| && rs2[k] == r;
      if at.Some? {
        ResourceAt(rs, k);
      } else if k != i {
        ResourceAt(rs, k - 1);
      }
    }
    SortResourcesOrders(rs2, lo);
  }

  lemma RemoveOrders(rs: seq<Resource>, k: nat, lo: int)
    requires Ordered(rs, lo) && k < |rs|
    ensures Ordered(RemoveAt(rs, k), lo)
  {
    var rest := RemoveAt(rs, k);
    forall r | r in rest ensures InWindow(r.priority, lo) {
      var i :| 0 <= i < |rest| && rest[i] == r;
      ResourceAt(rs, if i < k then i else i + 1);
    }
  }

  /** A presence error keeps the priority order, although it does not sort again. */
  lemma ErrorOrders(rs: seq<Resource>, k: nat, lo: int)
    requires Ordered(rs, lo) && k < |rs|
    ensures Ordered(rs[k := rs[k].(show := ERROR)], lo)
  {
    var marked := rs[k := rs[k].(show := ERROR)];
    forall r | r in marked ensures InWindow(r.priority, lo) {
      var i :| 0 <= i < |marked| && marked[i] == r;
      ResourceAt(rs, i);
    }
  }

  /** Does `r` with show ERROR belong in front of `s`, or behind it? */
  predicate ErrorBefore(r: Resource, s: Resource) {
    || r.priority > s.priority
    || (r.priority == s.priority && s.show < ERROR)
    || (r.priority == s.priority && s.show == ERROR && StrCmp(r.name, s.name) <= 0)
  }

  predicate ErrorBehind(r: Resource, s: Resource) {
    || s.priority > r.priority
    || (s.priority == r.priority && s.show > ERROR)
    || (s.priority == r.priority && s.show == ERROR && StrCmp(s.name, r.name) <= 0)
  }

  /** An error keeps the full order exactly when the resource, with its show lowered, still
      belongs between its two neighbours; the one in front matters only for a resource
      that was listed as unavailable. */
  lemma ErrorKeepsOrderExactly(rs: seq<Resource>, k: nat)
    requires Sorted(rs, ResourceOrder) && k < |rs|
    ensures Sorted(rs[k := rs[k].(show := ERROR)], ResourceOrder) <==>
            && (k == 0 || ErrorBehind(rs[k], rs[k - 1]))
            && (k + 1 == |rs| || ErrorBefore(rs[k], rs[k + 1]))
    ensures rs[k].show >= ERROR && k > 0 ==> ErrorBehind(rs[k], rs[k - 1])
  {
    var marked := rs[k := rs[k].(show := ERROR)];
    assert k > 0 ==> (ResourceOrder(marked[k - 1], marked[k]) <==> ErrorBehind(rs[k], rs[k - 1]));
    assert k + 1 < |rs| ==> (ResourceOrder(marked[k], marked[k + 1]) <==> ErrorBefore(rs[k], rs[k + 1]));
    if (k == 0 || ErrorBehind(rs[k], rs[k - 1])) && (k + 1 == |rs| || ErrorBefore(rs[k], rs[k + 1])) {
      forall i, j | 0 <= i < j < |marked| ensures ResourceOrder(marked[i], marked[j]) {
        if i == k && j > k + 1 {
          ResourceOrderTransitive(marked[k], marked[k + 1], marked[j]);
        } else if j == k && i < k - 1 {
          ResourceOrderTransitive(marked[i], marked[k - 1], marked[k]);
        }
      }
    }
  }

  /** It can lose the full order: here show is no longer descending. */
  lemma ErrorLosesFullOrder()
    ensures var rs := [Resource("a", 0, CHAT, None), Resource("b", 0, AVAILABLE, None)];
            Sorted(rs, ResourceOrder) && !Sorted(rs[0 := rs[0].(show := ERROR)], ResourceOrder)
  {
    ErrorKeepsOrderExactly([Resource("a", 0, CHAT, None), Resource("b", 0, AVAILABLE, None)], 0);
  }

  // ----- Where the resource lists of a new roster come from

  /** The contacts `c` and `d` list the same resources of the same JID. */
  predicate SameList(c: Contact, d: Contact) {
    c.user.jid == d.user.jid && c.user.resources == d.user.resources
  }

  /** Every resource list in `n` is empty or was in `m` for the same JID. */
  ghost predicate ResourcesFrom(n: multiset<Contact>, m: multiset<Contact>) {
    forall c | c in n :: c.user.resources == [] || exists d :: d in m && SameList(c, d)
  }

  lemma ReplacedFrom(m: multiset<Contact>, n: multiset<Contact>, was: multiset<Contact>, now: multiset<Contact>)
    requires n + was == m + now
    ensures forall c | c in n :: c in m || c in now
  {
    forall c | c in n ensures c in m || c in now {
      assert (n + was)[c] == n[c] + was[c] && (m + now)[c] == m[c] + now[c];
    }
  }

  lemma FromTransitive(l: multiset<Contact>, m: multiset<Contact>, n: multiset<Contact>)
    requires ResourcesFrom(m, l) && ResourcesFrom(n, m)
    ensures ResourcesFrom(n, l)
  {
  }

  lemma ReplaceKeeps(gs: seq<Group>, g: nat, i: nat, v: User)
    requires UserAt(gs, (g, i)) && v.jid == gs[g].users[i].jid && v.resources == gs[g].users[i].resources
    ensures ResourcesFrom(Contacts(SetUsers(gs, g, SortUsers(gs[g].users[i := v]))), Contacts(gs))
  {
    var w := Contact(gs[g].name, gs[g].users[i]);
    ContactsAt(gs, (g, i));
    ContactsUpdateSorted(gs, (g, i), v);
    ReplacedFrom(Contacts(gs), Contacts(SetUsers(gs, g, SortUsers(gs[g].users[i := v]))),
                 multiset{w}, multiset{Contact(gs[g].name, v)});
    assert w in Contacts(gs) && SameList(Contact(gs[g].name, v), w);
  }

  lemma MoveStepKeeps(gs: seq<Group>, at: (nat, nat), group: Option<string>)
    requires UserAt(gs, at)
    ensures ResourcesFrom(Contacts(MoveStep(gs, at, group).0), Contacts(gs))
  {
    var u := gs[at.0].users[at.1];
    ContactsAt(gs, at);
    MoveStepContacts(gs, at, group);
    ReplacedFrom(Contacts(gs), Contacts(MoveStep(gs, at, group).0),
                 multiset{Contact(gs[at.0].name, u)}, multiset{Contact(group, u)});
    assert SameList(Contact(group, u), Contact(gs[at.0].name, u));
  }

  lemma MoveAndRenameKeeps(gs: seq<Group>, at: (nat, nat), name: Option<string>, group: Option<string>)
    requires UserAt(gs, at)
    ensures ResourcesFrom(Contacts(MoveAndRename(gs, at, name, group).0), Contacts(gs))
  {
    var (gs1, at1) := MoveStep(gs, at, group);
    MoveStepKeeps(gs, at, group);
    var u := gs1[at1.0].users[at1.1];
    if u.name != name {
      var v := u.(name := name);
      var us := gs1[at1.0].users[at1.1 := v];
      ReplaceKeeps(gs1, at1.0, at1.1, v);
      SetUsersTwice(gs1, at1.0, us, SortUsers(us));
      FromTransitive(Contacts(gs), Contacts(gs1),
                     Contacts(SetUsers(gs1, at1.0, SortUsers(gs1[at1.0].users[at1.1 := v]))));
    }
  }

  lemma SubscriptionKeeps(gs: seq<Group>, at: (nat, nat), change: SubscriptionChange)
    requires UserAt(gs, at)
    ensures ResourcesFrom(Contacts(UpdateSubscription(gs, at, change)), Contacts(gs))
  {
    var c := Contact(gs[at.0].name, gs[at.0].users[at.1]);
    ContactsAt(gs, at);
    UpdateSubscriptionContacts(gs, at, change);
    var now := match change
               case Remove => multiset{}
               case Keep => multiset{c}
               case Become(s) => multiset{c.(user := c.user.(subscription := s))};
    ReplacedFrom(Contacts(gs), Contacts(UpdateSubscription(gs, at, change)), multiset{c}, now);
  }

  lemma AddUserKeeps(gs: seq<Group>, u: User, group: Option<string>)
    requires u.resources == []
    ensures ResourcesFrom(Contacts(AddUser(gs, u, group)), Contacts(gs))
  {
    ContactsFindOrAdd(gs, group);
    ContactsAppend(FindOrAddGroup(gs, group), GroupIndex(gs, group), u);
    ReplacedFrom(Contacts(gs), Contacts(AddUser(gs, u, group)), multiset{}, multiset{Contact(group, u)});
  }

  lemma SubscribedKeeps(gs: seq<Group>, gs1: seq<Group>, at: (nat, nat), change: SubscriptionChange)
    requires UserAt(gs1, at) && ResourcesFrom(Contacts(gs1), Contacts(gs))
    ensures ResourcesFrom(Contacts(UpdateSubscription(gs1, at, change)), Contacts(gs))
  {
    SubscriptionKeeps(gs1, at, change);
    FromTransitive(Contacts(gs), Contacts(gs1), Contacts(UpdateSubscription(gs1, at, change)));
  }

  lemma PushKeeps(gs: seq<Group>, jid: string, subscription: Option<string>,
                  name: Option<string>, group: Option<string>)
    ensures ResourcesFrom(Contacts(UpdateUser(gs, jid, subscription, name, group)), Contacts(gs))
  {
    var change := ParseSubscription(subscription);
    match FindUser(gs, Strip(jid))
    case None =>
      var u := User(jid, name, SubNone, false, []);
      var gs1 := AddUser(gs, u, group);
      AddUserKeeps(gs, u, group);
      AddUserContacts(gs, u, group);
      SubscribedKeeps(gs, gs1, (GroupIndex(gs, group), |gs1[GroupIndex(gs, group)].users| - 1), change);
    case Some(at) =>
      var (gs1, at1) := MoveAndRename(gs, at, name, group);
      MoveAndRenameKeeps(gs, at, name, group);
      SubscribedKeeps(gs, gs1, at1, change);
  }

  /** A presence replaces the one contact it concerns by `u`. */
  lemma PresenceReplaces(gs: seq<Group>, at: (nat, nat), u: User, sorted: bool, lo: string -> int)
    requires UserAt(gs, at) && Ordered(u.resources, lo(u.jid))
    requires forall c | c in Contacts(gs) :: Ordered(c.user.resources, lo(c.user.jid))
    ensures var us := gs[at.0].users[at.1 := u];
            forall c | c in Contacts(SetUsers(gs, at.0, if sorted then SortUsers(us) else us)) ::
              Ordered(c.user.resources, lo(c.user.jid))
  {
    var us := gs[at.0].users[at.1 := u];
    var name := gs[at.0].name;
    if sorted {
      ContactsUpdateSorted(gs, at, u);
    } else {
      ContactsUpdate(gs, at, u);
    }
    ReplacedFrom(Contacts(gs), Contacts(SetUsers(gs, at.0, if sorted then SortUsers(us) else us)),
                 multiset{Contact(name, gs[at.0].users[at.1])}, multiset{Contact(name, u)});
  }

  lemma AvailableOrdered(a: Account, p: Presence, lo: string -> int)
    requires AllOrdered(a, lo) && PriorityInWindow(Available(p), lo)
    ensures AllOrdered(RecvAvailable(a, p).0, lo)
  {
    match FindUser(a.groups, Strip(p.full))
    case None =>
      if OwnSession(a, p.full) {
        TouchOrders(a.mine, p, lo(a.jid));
      }
    case Some(at) =>
      var u := a.groups[at.0].users[at.1];
      ContactsAt(a.groups, at);
      TouchOrders(u.resources, p, lo(u.jid));
      var t := Touch(u.resources, p);
      PresenceReplaces(a.groups, at, u.(error := false, resources := t.resources), t.accepted, lo);
  }

  lemma UnavailableOrdered(a: Account, from: string, status: Option<string>, lo: string -> int)
    requires AllOrdered(a, lo)
    ensures AllOrdered(RecvUnavailable(a, from, status).0, lo)
  {
    match FindUser(a.groups, Strip(from))
    case None =>
      if FindResource(a.mine, Extract(from)).Some? {
        RemoveOrders(a.mine, FindResource(a.mine, Extract(from)).value, lo(a.jid));
      }
    case Some(at) =>
      var u := a.groups[at.0].users[at.1];
      ContactsAt(a.groups, at);
      var k := FindResource(u.resources, Extract(from));
      if k.Some? {
        RemoveOrders(u.resources, k.value, lo(u.jid));
        PresenceReplaces(a.groups, at, u.(error := false, resources := RemoveAt(u.resources, k.value)), true, lo);
      } else {
        PresenceReplaces(a.groups, at, u.(error := false), false, lo);
      }
  }

  lemma ErrorOrdered(a: Account, from: string, lo: string -> int)
    requires AllOrdered(a, lo)
    ensures AllOrdered(RecvError(a, from).0, lo)
  {
    match FindUser(a.groups, Strip(from))
    case None =>
      if FindResource(a.mine, Extract(from)).Some? {
        ErrorOrders(a.mine, FindResource(a.mine, Extract(from)).value, lo(a.jid));
      }
    case Some(at) =>
      var u := a.groups[at.0].users[at.1];
      ContactsAt(a.groups, at);
      var k := FindResource(u.resources, Extract(from));
      if k.Some? {
        ErrorOrders(u.resources, k.value, lo(u.jid));
        var rs := u.resources;
        PresenceReplaces(a.groups, at, u.(resources := rs[k.value := rs[k.value].(show := ERROR)]), true, lo);
      } else {
        PresenceReplaces(a.groups, at, u.(error := true), false, lo);
      }
  }

  /** One event keeps every resource list in priority order. */
  lemma StepOrdered(a: Account, e: Event, lo: string -> int)
    requires AllOrdered(a, lo) && PriorityInWindow(e, lo)
    ensures AllOrdered(Step(a, e).0, lo)
  {
    match e
    case Push(jid, subscription, name, group) =>
      if jid.Some? {
        PushKeeps(a.groups, jid.value, subscription, name, group);
      }
    case Available(p) => AvailableOrdered(a, p, lo);
    case Unavailable(from, status) => UnavailableOrdered(a, from, status, lo);
    case PresenceError(from) => ErrorOrdered(a, from, lo);
    case Disconnected =>
  }

  lemma {:induction false} RunOrdered(a: Account, es: seq<Event>, lo: string -> int)
    requires AllOrdered(a, lo) && forall e | e in es :: PriorityInWindow(e, lo)
    ensures AllOrdered(Run(a, es).0, lo)
  {
    if es == [] {
    } else {
      var init := es[..|es| - 1];
      RunOrdered(a, init, lo);
      StepOrdered(Run(a, init).0, es[|es| - 1], lo);
    }
  }

  /** After any events of a connection, every resource list is in priority order, provided
      that the priorities of each JID lie in one window. */
  lemma PriorityOrderAlways(jid: string, resource: string, es: seq<Event>, lo: string -> int)
    requires forall e | e in es :: PriorityInWindow(e, lo)
    ensures AllOrdered(Run(Fresh(jid, resource), es).0, lo)
  {
    RunOrdered(Fresh(jid, resource), es, lo);
  }

  /** Outside such a window the order can be lost: with priorities 2147483647 and -2
      the comparator's subtraction wraps around and the lower one is listed first. */
  lemma WrappedPrioritiesMisorder()
    ensures var high := Resource("h", 0x7fff_ffff, AVAILABLE, None);
            var low := Resource("l", -2, AVAILABLE, None);
            SortResources([high, low]) == [low, high] && !ByPriority([low, high])
  {
    var high := Resource("h", 0x7fff_ffff, AVAILABLE, None);
    var low := Resource("l", -2, AVAILABLE, None);
    assert [high, low][..1] == [high] && [high, low][1..] == [low];
    assert MergeSort([high], ResourceLe) == [high] && MergeSort([low], ResourceLe) == [low];
    assert !ResourceLe(high, low);
    assert SortResources([high, low]) == Merge([high], [low], ResourceLe) == [low] + Merge([high], [], ResourceLe);
    assert [low, high][0].priority < [low, high][1].priority;
  }

  // ----- Order of a group after a presence

  /** The contact a presence concerns, afterwards; an error of a listed resource leaves
      the contact's error flag alone, the other presences clear it. */
  function UserAfter(u: User, e: Event): User
    requires IsPresence(e)
  {
    u.(error := e.PresenceError? && u.error, resources := ResourcesAfter(u.resources, e))
  }

  /** After an accepted presence, an unavailable presence or an error of a listed
      resource, a group whose error flags then fit shows its users online first, then by
      show descending, then by display name; and they are the same users as before,
      but for the one concerned. */
  lemma PresenceOrdersGroup(a: Account, e: Event, g: nat, i: nat)
    requires IsPresence(e)
    requires var from := Sender(e);
             && FindUser(a.groups, Strip(from)) == Some((g, i))
             && (if e.Available? then Touch(a.groups[g].users[i].resources, e.presence).accepted
                 else FindResource(a.groups[g].users[i].resources, Extract(from)).Some?)
    requires FlagsFit(a.groups[g].users[i := UserAfter(a.groups[g].users[i], e)])
    ensures var us, vs := a.groups[g].users, Step(a, e).0.groups[g].users;
            && Sorted(vs, UserOrder)
            && multiset(vs) == multiset(us[i := UserAfter(us[i], e)])
  {
    var us := a.groups[g].users;
    var v := UserAfter(us[i], e);
    assert Step(a, e).0.groups[g].users == SortUsers(us[i := v]);
    SortUsersOrders(us[i := v]);
  }
}
