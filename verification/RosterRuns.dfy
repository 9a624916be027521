/** Whole runs of the roster engine, seen one JID at a time: the grouped lists
    refine a map from JIDs to contacts under any interleaving of pushes and
    presences. */
module RosterRuns {
  import opened Text
  import opened Roster
  import opened RosterContacts

  /** What one event does to the contact with JID `jid`, given only that contact. */
  function ContactAfter(was: Option<Contact>, jid: string, e: Event): Option<Contact> {
    if e.Push? then
      if e.jid == Some(jid) then PushedContact(was, jid, e.subscription, e.name, e.group) else was
    else if e.Disconnected? then None
    else if was.None? || Strip(Sender(e)) != jid then was
    else
      var u := was.value.user;
      var error := e.PresenceError? && (u.error || FindResource(u.resources, Extract(e.from)).None?);
      Some(was.value.(user := u.(error := error, resources := ResourcesAfter(u.resources, e))))
  }

  function ContactAfterAll(was: Option<Contact>, jid: string, es: seq<Event>): Option<Contact> {
    if es == [] then was
    else ContactAfter(ContactAfterAll(was, jid, es[..|es| - 1]), jid, es[|es| - 1])
  }

  /** The pushed JID, if any, is bare. */
  predicate PushesBare(e: Event) {
    e.Push? && e.jid.Some? ==> Bare(e.jid.value)
  }

  ghost predicate WellKept(gs: seq<Group>) {
    Unique(gs) && AllBare(gs) && GroupsSorted(gs)
  }

  lemma ReplacedContact(gs: seq<Group>, hs: seq<Group>, c: Contact, d: Contact)
    requires Unique(gs) && AllBare(gs) && c in Contacts(gs) && c.user.jid == d.user.jid
    requires Contacts(hs) + multiset{c} == Contacts(gs) + multiset{d}
    ensures Unique(hs) && AllBare(hs)
    ensures forall j :: Lookup(hs, j) == if j == d.user.jid then Some(d) else Lookup(gs, j)
  {
    UniqueAfterReplace(Contacts(gs), Contacts(hs), c, d);
    forall j ensures Lookup(hs, j) == if j == d.user.jid then Some(d) else Lookup(gs, j) {
      LookupIsMembership(gs, j);
      LookupIsMembership(hs, j);
      SameOption(Lookup(hs, j), if j == d.user.jid then Some(d) else Lookup(gs, j));
    }
  }

  /** A presence replaces one user record in place, then perhaps sorts its group. */
  lemma PresenceContact(gs: seq<Group>, at: (nat, nat), u: User, sorted: bool)
    requires UserAt(gs, at) && WellKept(gs) && u.jid == gs[at.0].users[at.1].jid
    ensures var us := gs[at.0].users[at.1 := u];
            var hs := SetUsers(gs, at.0, if sorted then SortUsers(us) else us);
            && WellKept(hs)
            && forall j :: Lookup(hs, j) == if j == u.jid then Some(Contact(gs[at.0].name, u)) else Lookup(gs, j)
  {
    var us := gs[at.0].users[at.1 := u];
    var hs := SetUsers(gs, at.0, if sorted then SortUsers(us) else us);
    ContactsAt(gs, at);
    if sorted {
      ContactsUpdateSorted(gs, at, u);
    } else {
      ContactsUpdate(gs, at, u);
    }
    ReplacedContact(gs, hs, Contact(gs[at.0].name, gs[at.0].users[at.1]), Contact(gs[at.0].name, u));
    SameNames(gs, hs);
  }

  lemma PresenceStep(a: Account, e: Event, at: (nat, nat))
    requires WellKept(a.groups) && IsPresence(e) && FindUser(a.groups, Strip(Sender(e))) == Some(at)
    ensures WellKept(Step(a, e).0.groups)
    ensures forall j :: Lookup(Step(a, e).0.groups, j) == ContactAfter(Lookup(a.groups, j), j, e)
  {
    var from := Sender(e);
    var u := a.groups[at.0].users[at.1];
    var v := ContactAfter(Lookup(a.groups, Strip(from)), Strip(from), e).value.user;
    var sorted := if e.Available? then Touch(u.resources, e.presence).accepted
                  else FindResource(u.resources, Extract(from)).Some?;
    var us := a.groups[at.0].users[at.1 := v];
    assert Step(a, e).0.groups == SetUsers(a.groups, at.0, if sorted then SortUsers(us) else us);
    PresenceContact(a.groups, at, v, sorted);
  }

  lemma PushStep(a: Account, e: Event)
    requires WellKept(a.groups) && PushesBare(e) && e.Push? && e.jid.Some?
    ensures WellKept(Step(a, e).0.groups)
    ensures forall j :: Lookup(Step(a, e).0.groups, j) == ContactAfter(Lookup(a.groups, j), j, e)
  {
    PushRefinesMap(a.groups, e.jid.value, e.subscription, e.name, e.group);
    UpdateUserSorted(a.groups, e.jid.value, e.subscription, e.name, e.group);
  }

  /** One event does to every contact what the per-contact reference says. */
  lemma StepContact(a: Account, e: Event)
    requires WellKept(a.groups) && PushesBare(e)
    ensures WellKept(Step(a, e).0.groups)
    ensures forall j :: Lookup(Step(a, e).0.groups, j) == ContactAfter(Lookup(a.groups, j), j, e)
  {
    if e.Push? && e.jid.Some? {
      PushStep(a, e);
    } else if IsPresence(e) && FindUser(a.groups, Strip(Sender(e))).Some? {
      PresenceStep(a, e, FindUser(a.groups, Strip(Sender(e))).value);
    } else if e.Disconnected? {
      assert Step(a, e).0.groups == [];
    } else {
      assert Step(a, e).0.groups == a.groups;
    }
  }

  lemma StepContactOf(a: Account, e: Event, jid: string)
    requires WellKept(a.groups) && PushesBare(e)
    ensures WellKept(Step(a, e).0.groups)
    ensures Lookup(Step(a, e).0.groups, jid) == ContactAfter(Lookup(a.groups, jid), jid, e)
  {
    StepContact(a, e);
  }

  /** After any run, every lookup gives what the history of that JID alone gives. */
  lemma {:induction false} RunRefinesMap(a: Account, es: seq<Event>)
    requires WellKept(a.groups) && forall e | e in es :: PushesBare(e)
    ensures WellKept(Run(a, es).0.groups)
    ensures forall j :: Lookup(Run(a, es).0.groups, j) == ContactAfterAll(Lookup(a.groups, j), j, es)
  {
    if es == [] {
    } else {
      RunRefinesMap(a, es[..|es| - 1]);
      StepContact(Run(a, es[..|es| - 1]).0, es[|es| - 1]);
    }
  }
}
