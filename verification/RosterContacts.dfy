/** The grouped lists refine one collection of contacts, each with the name of its
    group: how every roster push changes that collection, and how the groups stay
    sorted. The order of the lists does not matter here. */
module RosterContacts {
  import opened Text
  import opened Lists
  import opened Sorting
  import opened Roster

  /** A contact: its group and its record. */
  datatype Contact = Contact(group: Option<string>, user: User)

  function Tagged(group: Option<string>, us: seq<User>): multiset<Contact> {
    if us == [] then multiset{} else multiset{Contact(group, us[0])} + Tagged(group, us[1..])
  }

  /** All contacts of the roster, whatever their positions. */
  function Contacts(gs: seq<Group>): multiset<Contact> {
    if gs == [] then multiset{} else Tagged(gs[0].name, gs[0].users) + Contacts(gs[1..])
  }

  ghost predicate UniqueIn(m: multiset<Contact>) {
    && (forall c | c in m :: m[c] == 1)
    && (forall c, d | c in m && d in m && c.user.jid == d.user.jid :: c == d)
  }

  /** No JID is listed twice. */
  ghost predicate Unique(gs: seq<Group>) {
    UniqueIn(Contacts(gs))
  }

  ghost predicate AllBare(gs: seq<Group>) {
    forall c | c in Contacts(gs) :: Bare(c.user.jid)
  }

  predicate NameBefore(a: Option<string>, b: Option<string>) {
    b.Some? && (a.None? || StrCmp(a.value, b.value) < 0)
  }

  /** Group names strictly ascending, hence distinct, the unnamed group first. */
  ghost predicate GroupsSorted(gs: seq<Group>) {
    forall i, j | 0 <= i < j < |gs| :: NameBefore(gs[i].name, gs[j].name)
  }

  /** The contact with this JID, if any. */
  function Lookup(gs: seq<Group>, jid: string): Option<Contact> {
    match FindUser(gs, jid)
    case None => None
    case Some((g, i)) => Some(Contact(gs[g].name, gs[g].users[i]))
  }

  // ----- Counting

  /** Two bags that differ in one part only. */
  lemma Swap<T>(s: multiset<T>, t: multiset<T>, p: multiset<T>, x: multiset<T>, y: multiset<T>, q: multiset<T>)
    requires s == p + x + q && t == p + y + q
    ensures t + x == s + y
  {
    assert t + x == p + y + q + x;
    assert s + y == p + x + q + y;
    forall e ensures (t + x)[e] == (s + y)[e] {
    }
  }

  /** Two replacements in a row. */
  lemma Compose<T>(s: multiset<T>, t: multiset<T>, w: multiset<T>, x: multiset<T>, y: multiset<T>, z: multiset<T>)
    requires t + x == s + y && w + y == t + z
    ensures w + x == s + z
  {
    forall e ensures (w + x)[e] == (s + z)[e] {
      assert (t + x)[e] == t[e] + x[e] && (s + y)[e] == s[e] + y[e];
      assert (w + y)[e] == w[e] + y[e] && (t + z)[e] == t[e] + z[e];
    }
  }

  /** The difference of the parts is the difference of the wholes. */
  lemma Chain<T>(s: multiset<T>, t: multiset<T>, x: multiset<T>, y: multiset<T>, u: multiset<T>, v: multiset<T>)
    requires t + x == s + y && y + u == x + v
    ensures t + u == s + v
  {
    forall e ensures (t + u)[e] == (s + v)[e] {
      assert (t + x)[e] == t[e] + x[e] && (s + y)[e] == s[e] + y[e];
      assert (y + u)[e] == y[e] + u[e] && (x + v)[e] == x[e] + v[e];
    }
  }

  lemma Assoc<T>(a: multiset<T>, b: multiset<T>, c: multiset<T>)
    ensures a + (b + c) == a + b + c
  {
  }

  lemma Cancel<T>(a: multiset<T>, b: multiset<T>, c: multiset<T>)
    requires a + c == b + c
    ensures a == b
  {
    forall e ensures a[e] == b[e] {
      assert (a + c)[e] == a[e] + c[e] && (b + c)[e] == b[e] + c[e];
    }
  }

  lemma CountCons<T>(s: seq<T>, x: T)
    requires s != []
    ensures multiset(s)[x] == multiset(s[1..])[x] + if s[0] == x then 1 else 0
  {
    assert s == [s[0]] + s[1..];
  }

  lemma {:induction false} TaggedCount(group: Option<string>, us: seq<User>, c: Contact)
    ensures Tagged(group, us)[c] == if c.group == group then multiset(us)[c.user] else 0
  {
    if us == [] {
    } else {
      TaggedCount(group, us[1..], c);
      CountCons(us, c.user);
    }
  }

  lemma TaggedPermutation(group: Option<string>, us: seq<User>, vs: seq<User>)
    requires multiset(us) == multiset(vs)
    ensures Tagged(group, us) == Tagged(group, vs)
  {
    forall c: Contact ensures Tagged(group, us)[c] == Tagged(group, vs)[c] {
      TaggedCount(group, us, c);
      TaggedCount(group, vs, c);
    }
  }

  lemma TaggedSorted(group: Option<string>, us: seq<User>)
    ensures Tagged(group, SortUsers(us)) == Tagged(group, us)
  {
    SortPermutes(us, UserLe);
    TaggedPermutation(group, SortUsers(us), us);
  }

  lemma TaggedConcat(group: Option<string>, us: seq<User>, vs: seq<User>)
    ensures Tagged(group, us + vs) == Tagged(group, us) + Tagged(group, vs)
  {
    forall c: Contact ensures Tagged(group, us + vs)[c] == (Tagged(group, us) + Tagged(group, vs))[c] {
      TaggedCount(group, us, c);
      TaggedCount(group, vs, c);
      TaggedCount(group, us + vs, c);
    }
  }

  lemma TaggedSplit(group: Option<string>, us: seq<User>, i: nat)
    requires i < |us|
    ensures Tagged(group, us) == Tagged(group, us[..i]) + multiset{Contact(group, us[i])} + Tagged(group, us[i + 1..])
  {
    TaggedConcat(group, us[..i], us[i..]);
    assert us == us[..i] + us[i..];
    assert us[i..][0] == us[i] && us[i..][1..] == us[i + 1..];
    assert Tagged(group, us[i..]) == multiset{Contact(group, us[i])} + Tagged(group, us[i + 1..]);
    Assoc(Tagged(group, us[..i]), multiset{Contact(group, us[i])}, Tagged(group, us[i + 1..]));
  }

  lemma TaggedRemove(group: Option<string>, us: seq<User>, i: nat)
    requires i < |us|
    ensures Tagged(group, us) == Tagged(group, RemoveAt(us, i)) + multiset{Contact(group, us[i])}
  {
    TaggedSplit(group, us, i);
    TaggedConcat(group, us[..i], us[i + 1..]);
  }

  lemma TaggedUpdate(group: Option<string>, us: seq<User>, i: nat, u: User)
    requires i < |us|
    ensures Tagged(group, us[i := u]) + multiset{Contact(group, us[i])}
            == Tagged(group, us) + multiset{Contact(group, u)}
  {
    TaggedSplit(group, us, i);
    TaggedSplit(group, us[i := u], i);
    assert us[i := u][..i] == us[..i] && us[i := u][i + 1..] == us[i + 1..];
    Swap(Tagged(group, us), Tagged(group, us[i := u]), Tagged(group, us[..i]),
         multiset{Contact(group, us[i])}, multiset{Contact(group, u)}, Tagged(group, us[i + 1..]));
  }

  lemma ConcatTail<T>(s: seq<T>, t: seq<T>)
    requires s != []
    ensures (s + t)[0] == s[0] && (s + t)[1..] == s[1..] + t
  {
  }

  lemma SplitAt<T>(s: seq<T>, i: nat)
    requires i < |s|
    ensures s == s[..i] + s[i..] && s[i..] == [s[i]] + s[i + 1..]
    ensures s[i..][0] == s[i] && s[i..][1..] == s[i + 1..]
  {
  }

  lemma ContactsCons(gs: seq<Group>)
    requires gs != []
    ensures Contacts(gs) == Tagged(gs[0].name, gs[0].users) + Contacts(gs[1..])
  {
  }

  lemma {:induction false} ContactsConcat(gs: seq<Group>, hs: seq<Group>)
    ensures Contacts(gs + hs) == Contacts(gs) + Contacts(hs)
  {
    if gs == [] {
      assert gs + hs == hs;
    } else {
      var all, rest := gs + hs, gs[1..];
      ConcatTail(gs, hs);
      ContactsConcat(rest, hs);
      ContactsCons(gs);
      ContactsCons(all);
      Assoc(Tagged(gs[0].name, gs[0].users), Contacts(rest), Contacts(hs));
    }
  }

  lemma ContactsSplit(gs: seq<Group>, g: nat)
    requires g < |gs|
    ensures Contacts(gs) == Contacts(gs[..g]) + Tagged(gs[g].name, gs[g].users) + Contacts(gs[g + 1..])
  {
    var front, rest, after := gs[..g], gs[g..], gs[g + 1..];
    SplitAt(gs, g);
    ContactsConcat(front, rest);
    ContactsCons(rest);
    Assoc(Contacts(front), Tagged(gs[g].name, gs[g].users), Contacts(after));
  }

  lemma ContactsSetUsers(gs: seq<Group>, g: nat, us: seq<User>)
    requires g < |gs|
    ensures Contacts(SetUsers(gs, g, us)) + Tagged(gs[g].name, gs[g].users)
            == Contacts(gs) + Tagged(gs[g].name, us)
  {
    var hs := SetUsers(gs, g, us);
    ContactsSplit(gs, g);
    ContactsSplit(hs, g);
    assert hs[..g] == gs[..g] && hs[g + 1..] == gs[g + 1..];
    Swap(Contacts(gs), Contacts(hs), Contacts(gs[..g]),
         Tagged(gs[g].name, gs[g].users), Tagged(gs[g].name, us), Contacts(gs[g + 1..]));
  }

  lemma ContactsAt(gs: seq<Group>, at: (nat, nat))
    requires UserAt(gs, at)
    ensures Contact(gs[at.0].name, gs[at.0].users[at.1]) in Contacts(gs)
  {
    ContactsSplit(gs, at.0);
    TaggedSplit(gs[at.0].name, gs[at.0].users, at.1);
  }

  lemma ContactsSorted(gs: seq<Group>, g: nat)
    requires g < |gs|
    ensures Contacts(SetUsers(gs, g, SortUsers(gs[g].users))) == Contacts(gs)
  {
    var us := gs[g].users;
    ContactsSetUsers(gs, g, SortUsers(us));
    TaggedSorted(gs[g].name, us);
    Cancel(Contacts(SetUsers(gs, g, SortUsers(us))), Contacts(gs), Tagged(gs[g].name, us));
  }

  lemma ContactsRemove(gs: seq<Group>, at: (nat, nat))
    requires UserAt(gs, at)
    ensures Contacts(SetUsers(gs, at.0, RemoveAt(gs[at.0].users, at.1)))
              + multiset{Contact(gs[at.0].name, gs[at.0].users[at.1])}
            == Contacts(gs)
  {
    ContactsSetUsers(gs, at.0, RemoveAt(gs[at.0].users, at.1));
    TaggedRemove(gs[at.0].name, gs[at.0].users, at.1);
    var name, us := gs[at.0].name, gs[at.0].users;
    Chain(Contacts(gs), Contacts(SetUsers(gs, at.0, RemoveAt(us, at.1))), Tagged(name, us),
          Tagged(name, RemoveAt(us, at.1)), multiset{Contact(name, us[at.1])}, multiset{});
  }

  lemma ContactsUpdate(gs: seq<Group>, at: (nat, nat), u: User)
    requires UserAt(gs, at)
    ensures Contacts(SetUsers(gs, at.0, gs[at.0].users[at.1 := u]))
              + multiset{Contact(gs[at.0].name, gs[at.0].users[at.1])}
            == Contacts(gs) + multiset{Contact(gs[at.0].name, u)}
  {
    ContactsSetUsers(gs, at.0, gs[at.0].users[at.1 := u]);
    TaggedUpdate(gs[at.0].name, gs[at.0].users, at.1, u);
    var name, us := gs[at.0].name, gs[at.0].users;
    Chain(Contacts(gs), Contacts(SetUsers(gs, at.0, us[at.1 := u])), Tagged(name, us),
          Tagged(name, us[at.1 := u]), multiset{Contact(name, us[at.1])}, multiset{Contact(name, u)});
  }

  lemma SetUsersTwice(gs: seq<Group>, g: nat, us: seq<User>, vs: seq<User>)
    requires g < |gs|
    ensures SetUsers(SetUsers(gs, g, us), g, vs) == SetUsers(gs, g, vs)
  {
  }

  /** As `ContactsUpdate`, with the group sorted afterwards. */
  lemma ContactsUpdateSorted(gs: seq<Group>, at: (nat, nat), u: User)
    requires UserAt(gs, at)
    ensures Contacts(SetUsers(gs, at.0, SortUsers(gs[at.0].users[at.1 := u])))
            + multiset{Contact(gs[at.0].name, gs[at.0].users[at.1])}
            == Contacts(gs) + multiset{Contact(gs[at.0].name, u)}
  {
    var hs := SetUsers(gs, at.0, gs[at.0].users[at.1 := u]);
    ContactsUpdate(gs, at, u);
    ContactsSorted(hs, at.0);
    SetUsersTwice(gs, at.0, gs[at.0].users[at.1 := u], SortUsers(hs[at.0].users));
  }

  lemma ContactsAppend(gs: seq<Group>, g: nat, u: User)
    requires g < |gs|
    ensures Contacts(SetUsers(gs, g, gs[g].users + [u])) == Contacts(gs) + multiset{Contact(gs[g].name, u)}
  {
    ContactsSetUsers(gs, g, gs[g].users + [u]);
    TaggedConcat(gs[g].name, gs[g].users, [u]);
    assert Tagged(gs[g].name, [u]) == multiset{Contact(gs[g].name, u)};
    Chain(Contacts(gs), Contacts(SetUsers(gs, g, gs[g].users + [u])), Tagged(gs[g].name, gs[g].users),
          Tagged(gs[g].name, gs[g].users + [u]), multiset{}, multiset{Contact(gs[g].name, u)});
  }

  lemma EmptyGroupContacts(group: Option<string>)
    ensures Contacts([Group(group, [])]) == multiset{}
  {
    ContactsCons([Group(group, [])]);
    assert [Group(group, [])][1..] == [];
  }

  lemma Rejoin<T>(s: seq<T>, i: nat)
    requires i <= |s|
    ensures s[..i] + s[i..] == s
  {
  }

  /** A new group, still empty, brings no contact. */
  lemma ContactsInsert(gs: seq<Group>, i: nat, group: Option<string>)
    requires i <= |gs|
    ensures Contacts(gs[..i] + [Group(group, [])] + gs[i..]) == Contacts(gs)
  {
    var front, rest, added := gs[..i], gs[i..], [Group(group, [])];
    ContactsConcat(front + added, rest);
    ContactsConcat(front, added);
    EmptyGroupContacts(group);
    assert Contacts(front + added) == Contacts(front);
    ContactsConcat(front, rest);
    Rejoin(gs, i);
  }

  lemma ContactsFindOrAdd(gs: seq<Group>, group: Option<string>)
    ensures Contacts(FindOrAddGroup(gs, group)) == Contacts(gs)
  {
    if FindGroup(gs, group).None? {
      ContactsInsert(gs, GroupIndex(gs, group), group);
    }
  }

  // ----- Lookups see the collection

  lemma {:induction false} FindInUsersNone(group: Option<string>, us: seq<User>, jid: string)
    requires FindInUsers(us, jid).None?
    ensures forall c | c in Tagged(group, us) :: c.user.jid != jid
  {
    if us == [] {
    } else {
      FindInUsersNone(group, us[1..], jid);
    }
  }

  lemma {:induction false} FindUserNone(gs: seq<Group>, jid: string)
    requires FindUser(gs, jid).None?
    ensures forall c | c in Contacts(gs) :: c.user.jid != jid
  {
    if gs == [] {
    } else {
      FindInUsersNone(gs[0].name, gs[0].users, jid);
      FindUserNone(gs[1..], jid);
    }
  }

  /** `rosters_find_user` finds the one contact with that JID, and fails only when
      there is none. */
  lemma LookupIsMembership(gs: seq<Group>, jid: string)
    requires Unique(gs)
    ensures forall c :: Lookup(gs, jid) == Some(c) <==> c in Contacts(gs) && c.user.jid == jid
  {
    if FindUser(gs, jid).None? {
      FindUserNone(gs, jid);
    } else {
      ContactsAt(gs, FindUser(gs, jid).value);
    }
  }

  lemma GroupMembers(gs: seq<Group>, g: nat, u: User)
    requires g < |gs| && u in gs[g].users
    ensures Contact(gs[g].name, u) in Contacts(gs)
  {
    var i :| 0 <= i < |gs[g].users| && gs[g].users[i] == u;
    ContactsAt(gs, (g, i));
  }

  // ----- The steps of a push

  lemma InsertedAt<T>(s: seq<T>, at: nat, x: T)
    requires at <= |s|
    ensures var t := s[..at] + [x] + s[at..];
            && |t| == |s| + 1 && t[at] == x
            && (forall k | 0 <= k < |s| :: t[if at <= k then k + 1 else k] == s[k])
            && (forall y | y in t :: y in s || y == x)
  {
  }

  lemma OldGroupPlace(vs: seq<Group>, g: nat, group: Option<string>, from: nat)
    requires g < |vs| && vs[g].name != group
    requires from == if FindGroup(vs, group).None? && GroupIndex(vs, group) <= g then g + 1 else g
    ensures var hs := FindOrAddGroup(vs, group);
            from < |hs| && hs[from] == vs[g] && from != GroupIndex(vs, group)
  {
    if FindGroup(vs, group).None? {
      InsertedAt(vs, GroupIndex(vs, group), Group(group, []));
    }
  }

  /** Where the groups are when a user moves: a new group may push its old one along. */
  lemma MoveUserUnfolds(vs: seq<Group>, at: (nat, nat), group: Option<string>, from: nat)
    requires UserAt(vs, at) && vs[at.0].name != group
    requires from == if FindGroup(vs, group).None? && GroupIndex(vs, group) <= at.0 then at.0 + 1 else at.0
    ensures var hs := FindOrAddGroup(vs, group);
            var i := GroupIndex(vs, group);
            var us := vs[at.0].users;
            && from < |hs| && hs[from] == vs[at.0] && from != i
            && i < |hs| && hs[i].name == group
            && MoveUser(vs, at, group) ==
               SetUsers(SetUsers(hs, from, RemoveAt(us, at.1)), i, hs[i].users + [us[at.1]])
  {
    OldGroupPlace(vs, at.0, group, from);
    var hs, i := FindOrAddGroup(vs, group), GroupIndex(vs, group);
    assert SetUsers(hs, from, RemoveAt(vs[at.0].users, at.1))[i] == hs[i];
  }

  /** Taking a user from one group and appending it to another. */
  lemma MovedContacts(gs: seq<Group>, at: (nat, nat), g: nat)
    requires UserAt(gs, at) && g < |gs| && g != at.0
    ensures var us := gs[at.0].users;
            Contacts(SetUsers(SetUsers(gs, at.0, RemoveAt(us, at.1)), g, gs[g].users + [us[at.1]]))
              + multiset{Contact(gs[at.0].name, us[at.1])}
            == Contacts(gs) + multiset{Contact(gs[g].name, us[at.1])}
  {
    var us := gs[at.0].users;
    var less := SetUsers(gs, at.0, RemoveAt(us, at.1));
    ContactsRemove(gs, at);
    assert less[g] == gs[g];
    ContactsAppend(less, g, us[at.1]);
    Compose(Contacts(gs), Contacts(less), Contacts(SetUsers(less, g, less[g].users + [us[at.1]])),
            multiset{Contact(gs[at.0].name, us[at.1])}, multiset{}, multiset{Contact(gs[g].name, us[at.1])});
  }

  lemma MoveUserContacts(gs: seq<Group>, at: (nat, nat), group: Option<string>)
    requires UserAt(gs, at) && gs[at.0].name != group
    ensures var u := gs[at.0].users[at.1];
            Contacts(MoveUser(gs, at, group)) + multiset{Contact(gs[at.0].name, u)}
            == Contacts(gs) + multiset{Contact(group, u)}
  {
    var us := gs[at.0].users;
    var g := GroupIndex(gs, group);
    var gs1 := FindOrAddGroup(gs, group);
    var from: nat := if FindGroup(gs, group).None? && g <= at.0 then at.0 + 1 else at.0;
    MoveUserUnfolds(gs, at, group, from);
    ContactsFindOrAdd(gs, group);
    MovedContacts(gs1, (from, at.1), g);
  }

  lemma MoveStepContacts(gs: seq<Group>, at: (nat, nat), group: Option<string>)
    requires UserAt(gs, at)
    ensures var u := gs[at.0].users[at.1];
            Contacts(MoveStep(gs, at, group).0) + multiset{Contact(gs[at.0].name, u)}
            == Contacts(gs) + multiset{Contact(group, u)}
  {
    if gs[at.0].name != group {
      MoveUserContacts(gs, at, group);
      ContactsSorted(MoveUser(gs, at, group), GroupIndex(gs, group));
    }
  }

  lemma UniqueAfterReplace(m: multiset<Contact>, n: multiset<Contact>, c: Contact, d: Contact)
    requires UniqueIn(m) && c in m && c.user.jid == d.user.jid
    requires n + multiset{c} == m + multiset{d}
    ensures UniqueIn(n) && d in n
    ensures forall x :: x in n <==> x == d || (x in m && x.user.jid != d.user.jid)
  {
    assert n == m + multiset{d} - multiset{c};
    forall x ensures n[x] == if x.user.jid == d.user.jid then (if x == d then 1 else 0) else m[x] {
      if x.user.jid == d.user.jid && x != c {
        assert x !in m;
      }
    }
  }

  lemma RenameStepContacts(gs: seq<Group>, at: (nat, nat), name: Option<string>)
    requires UserAt(gs, at)
    ensures var c := Contact(gs[at.0].name, gs[at.0].users[at.1]);
            Contacts(RenameStep(gs, at, name).0) + multiset{c}
            == Contacts(gs) + multiset{c.(user := c.user.(name := name))}
  {
    var u := gs[at.0].users[at.1];
    if u.name != name {
      var us := gs[at.0].users[at.1 := u.(name := name)];
      ContactsUpdateSorted(gs, at, u.(name := name));
      SetUsersTwice(gs, at.0, us, SortUsers(us));
    } else {
      assert u == u.(name := name);
    }
  }

  /** A known contact that is pushed takes the new group and name. */
  lemma MoveAndRenameContacts(gs: seq<Group>, at: (nat, nat), name: Option<string>, group: Option<string>)
    requires UserAt(gs, at)
    ensures var u := gs[at.0].users[at.1];
            Contacts(MoveAndRename(gs, at, name, group).0) + multiset{Contact(gs[at.0].name, u)}
            == Contacts(gs) + multiset{Contact(group, u.(name := name))}
  {
    var u := gs[at.0].users[at.1];
    var (gs1, at1) := MoveStep(gs, at, group);
    MoveStepContacts(gs, at, group);
    RenameStepContacts(gs1, at1, name);
    Compose(Contacts(gs), Contacts(gs1), Contacts(MoveAndRename(gs, at, name, group).0),
            multiset{Contact(gs[at.0].name, u)}, multiset{Contact(group, u)},
            multiset{Contact(group, u.(name := name))});
  }

  /** Dropping a group with one user drops one contact. */
  lemma LastContactGone(gs: seq<Group>, g: nat)
    requires g < |gs| && |gs[g].users| == 1
    ensures Contacts(RemoveAt(gs, g)) + multiset{Contact(gs[g].name, gs[g].users[0])} == Contacts(gs)
  {
    var us := gs[g].users;
    var front, rest := gs[..g], gs[g + 1..];
    ContactsSplit(gs, g);
    ContactsConcat(front, rest);
    assert us == [us[0]];
    assert Tagged(gs[g].name, us) == multiset{Contact(gs[g].name, us[0])};
  }

  lemma UpdateSubscriptionContacts(gs: seq<Group>, at: (nat, nat), change: SubscriptionChange)
    requires UserAt(gs, at)
    ensures var c := Contact(gs[at.0].name, gs[at.0].users[at.1]);
            Contacts(UpdateSubscription(gs, at, change)) + multiset{c}
            == Contacts(gs) + match change
                              case Remove => multiset{}
                              case Keep => multiset{c}
                              case Become(s) => multiset{Contact(c.group, c.user.(subscription := s))}
  {
    var us := gs[at.0].users;
    match change
    case Keep =>
    case Become(s) => ContactsUpdate(gs, at, us[at.1].(subscription := s));
    case Remove =>
      if |us| == 1 {
        LastContactGone(gs, at.0);
      } else {
        ContactsRemove(gs, at);
      }
  }

  function PushedSubscription(was: Subscription, change: SubscriptionChange): Subscription {
    if change.Become? then change.subscription else was
  }

  /** What a push of `jid` makes of the contact it found (or did not find): the
      reference the grouped lists refine. */
  function PushedContact(was: Option<Contact>, jid: string, subscription: Option<string>,
                         name: Option<string>, group: Option<string>): Option<Contact>
  {
    var change := ParseSubscription(subscription);
    var u := if was.Some? then was.value.user else User(jid, None, SubNone, false, []);
    if change.Remove? then None
    else Some(Contact(group, u.(name := name, subscription := PushedSubscription(u.subscription, change))))
  }

  function ToMultiset(c: Option<Contact>): multiset<Contact> {
    if c.Some? then multiset{c.value} else multiset{}
  }

  lemma AddUserContacts(gs: seq<Group>, u: User, group: Option<string>)
    ensures Contacts(AddUser(gs, u, group)) == Contacts(gs) + multiset{Contact(group, u)}
    ensures var g := AddUser(gs, u, group)[GroupIndex(gs, group)];
            g.name == group && |g.users| > 0 && g.users[|g.users| - 1] == u
  {
    ContactsFindOrAdd(gs, group);
    ContactsAppend(FindOrAddGroup(gs, group), GroupIndex(gs, group), u);
  }

  lemma UpdateUserNew(gs: seq<Group>, jid: string, subscription: Option<string>, name: Option<string>,
                      group: Option<string>, gs1: seq<Group>, at: (nat, nat))
    requires FindUser(gs, Strip(jid)).None? && UserAt(gs1, at)
    requires gs1 == AddUser(gs, User(jid, name, SubNone, false, []), group)
    requires at == (GroupIndex(gs, group), |gs1[at.0].users| - 1)
    ensures UpdateUser(gs, jid, subscription, name, group)
            == UpdateSubscription(gs1, at, ParseSubscription(subscription))
  {
  }

  /** Something put in and then replaced. */
  lemma PutThenReplace<T>(s: multiset<T>, t: multiset<T>, w: multiset<T>, x: multiset<T>, y: multiset<T>)
    requires t == s + x && w + x == t + y
    ensures w == s + y
  {
    forall e ensures w[e] == (s + y)[e] {
      assert (w + x)[e] == w[e] + x[e] && (t + y)[e] == t[e] + y[e];
    }
  }

  /** A push that finds no user adds one, unless it is a removal. */
  lemma NewUserContacts(gs: seq<Group>, jid: string, subscription: Option<string>,
                        name: Option<string>, group: Option<string>)
    requires FindUser(gs, Strip(jid)).None?
    ensures Contacts(UpdateUser(gs, jid, subscription, name, group))
            == Contacts(gs) + ToMultiset(PushedContact(None, jid, subscription, name, group))
  {
    var u := User(jid, name, SubNone, false, []);
    var c, now := Contact(group, u), PushedContact(None, jid, subscription, name, group);
    var gs1 := AddUser(gs, u, group);
    AddUserContacts(gs, u, group);
    var at: (nat, nat) := (GroupIndex(gs, group), |gs1[GroupIndex(gs, group)].users| - 1);
    var change := ParseSubscription(subscription);
    var gs2 := UpdateSubscription(gs1, at, change);
    UpdateUserNew(gs, jid, subscription, name, group, gs1, at);
    UpdateSubscriptionContacts(gs1, at, change);
    assert Contacts(gs2) + multiset{c} == Contacts(gs1) + ToMultiset(now);
    PutThenReplace(Contacts(gs), Contacts(gs1), Contacts(gs2), multiset{c}, ToMultiset(now));
  }

  /** A push of a bare JID changes the entry of that JID as the reference says and
      leaves every other contact, resources included, as it was. */
  lemma UpdateUserContacts(gs: seq<Group>, jid: string, subscription: Option<string>,
                           name: Option<string>, group: Option<string>)
    ensures var gs' := UpdateUser(gs, jid, subscription, name, group);
            var was := Lookup(gs, Strip(jid));
            Contacts(gs') + ToMultiset(was)
            == Contacts(gs) + ToMultiset(PushedContact(was, jid, subscription, name, group))
  {
    var change := ParseSubscription(subscription);
    var was := Lookup(gs, Strip(jid));
    var now := PushedContact(was, jid, subscription, name, group);
    match FindUser(gs, Strip(jid))
    case None => NewUserContacts(gs, jid, subscription, name, group);
    case Some(at) =>
      var (gs1, at1) := MoveAndRename(gs, at, name, group);
      MoveAndRenameContacts(gs, at, name, group);
      UpdateSubscriptionContacts(gs1, at1, change);
      Compose(Contacts(gs), Contacts(gs1), Contacts(UpdateUser(gs, jid, subscription, name, group)),
              ToMultiset(was), multiset{Contact(gs1[at1.0].name, gs1[at1.0].users[at1.1])}, ToMultiset(now));
  }

  lemma UniqueAfterPush(m: multiset<Contact>, n: multiset<Contact>, was: Option<Contact>,
                        now: Option<Contact>, jid: string)
    requires UniqueIn(m)
    requires forall c :: was == Some(c) <==> c in m && c.user.jid == jid
    requires now.Some? ==> now.value.user.jid == jid
    requires n + ToMultiset(was) == m + ToMultiset(now)
    ensures UniqueIn(n)
    ensures forall c :: c in n <==> if c.user.jid == jid then now == Some(c) else c in m
  {
    forall c ensures n[c] == if c.user.jid == jid then (if now == Some(c) then 1 else 0) else m[c] {
      assert (n + ToMultiset(was))[c] == n[c] + ToMultiset(was)[c];
      assert (m + ToMultiset(now))[c] == m[c] + ToMultiset(now)[c];
      assert was == Some(c) <==> c in m && c.user.jid == jid;
    }
  }

  lemma SameOption(a: Option<Contact>, b: Option<Contact>)
    requires forall c :: a == Some(c) <==> b == Some(c)
    ensures a == b
  {
    assert a.Some? ==> b == Some(a.value);
    assert b.Some? ==> a == Some(b.value);
  }

  /** The refinement: pushing `jid` sets exactly that entry of the map from JIDs to
      contacts, or removes it; a JID is never listed twice. */
  lemma PushRefinesMap(gs: seq<Group>, jid: string, subscription: Option<string>,
                       name: Option<string>, group: Option<string>)
    requires Unique(gs) && AllBare(gs) && Bare(jid)
    ensures var gs' := UpdateUser(gs, jid, subscription, name, group);
            && Unique(gs') && AllBare(gs')
            && forall j :: Lookup(gs', j)
                           == if j == jid then PushedContact(Lookup(gs, jid), jid, subscription, name, group)
                              else Lookup(gs, j)
  {
    var gs' := UpdateUser(gs, jid, subscription, name, group);
    var was := Lookup(gs, jid);
    var now := PushedContact(was, jid, subscription, name, group);
    SplitRebuilds(jid);
    UpdateUserContacts(gs, jid, subscription, name, group);
    LookupIsMembership(gs, jid);
    UniqueAfterPush(Contacts(gs), Contacts(gs'), was, now, jid);
    forall j ensures Lookup(gs', j) == if j == jid then now else Lookup(gs, j) {
      LookupIsMembership(gs', j);
      LookupIsMembership(gs, j);
      assert forall c :: Lookup(gs', j) == Some(c) <==> (if j == jid then now else Lookup(gs, j)) == Some(c);
      SameOption(Lookup(gs', j), if j == jid then now else Lookup(gs, j));
    }
  }

  lemma PushKeepsUnique(gs: seq<Group>, jid: string, subscription: Option<string>,
                        name: Option<string>, group: Option<string>)
    requires Unique(gs) && Bare(jid)
    ensures Unique(UpdateUser(gs, jid, subscription, name, group))
  {
    SplitRebuilds(jid);
    UpdateUserContacts(gs, jid, subscription, name, group);
    LookupIsMembership(gs, jid);
    UniqueAfterPush(Contacts(gs), Contacts(UpdateUser(gs, jid, subscription, name, group)),
                    Lookup(gs, jid), PushedContact(Lookup(gs, jid), jid, subscription, name, group), jid);
  }

  lemma FoundListed(gs: seq<Group>, jid: string)
    ensures FindUser(gs, jid).Some? ==> exists c :: c in Contacts(gs) && c.user.jid == jid
  {
    var found := FindUser(gs, jid);
    if found.Some? {
      ContactsAt(gs, found.value);
      assert Contact(gs[found.value.0].name, gs[found.value.0].users[found.value.1]).user.jid == jid;
    }
  }

  /** Why the JID must be bare: one with a '/' is not found again. */
  lemma SlashedNotFound(gs: seq<Group>, gs': seq<Group>, jid: string, now: Contact)
    requires FindUser(gs, Strip(jid)).None? && !Bare(jid) && now.user.jid == jid
    requires Contacts(gs') == Contacts(gs) + multiset{now}
    ensures FindUser(gs', Strip(jid)).None?
  {
    FindUserNone(gs, Strip(jid));
    SplitRebuilds(jid);
    FoundListed(gs', Strip(jid));
    assert forall c | c in Contacts(gs') :: c in Contacts(gs) || c == now;
  }

  /** Pushing a new contact twice lists it once exactly when its JID is bare. */
  lemma PushedTwiceExact(gs: seq<Group>, jid: string, subscription: Option<string>,
                         name: Option<string>, group: Option<string>)
    requires Unique(gs) && FindUser(gs, Strip(jid)).None? && !ParseSubscription(subscription).Remove?
    ensures var once := UpdateUser(gs, jid, subscription, name, group);
            Unique(UpdateUser(once, jid, subscription, name, group)) <==> Bare(jid)
  {
    var once := UpdateUser(gs, jid, subscription, name, group);
    if Bare(jid) {
      PushKeepsUnique(gs, jid, subscription, name, group);
      PushKeepsUnique(once, jid, subscription, name, group);
    } else {
      var now := PushedContact(None, jid, subscription, name, group).value;
      NewUserContacts(gs, jid, subscription, name, group);
      SlashedNotFound(gs, once, jid, now);
      NewUserContacts(once, jid, subscription, name, group);
      assert Contacts(UpdateUser(once, jid, subscription, name, group))[now] >= 2;
    }
  }

  lemma SlashedPushDuplicates()
    ensures var once := UpdateUser([], "a/b", None, None, None);
            !Unique(UpdateUser(once, "a/b", None, None, None))
  {
    JoinSplits("a", "b");
    assert "a/b" == FullJid("a", "b");
    PushedTwiceExact([], "a/b", None, None, None);
  }

  // ----- Group order

  lemma {:induction false} InsertGroupSorted(gs: seq<Group>, g: Group)
    requires GroupsSorted(gs) && FindGroup(gs, g.name).None?
    ensures GroupsSorted(InsertGroup(gs, g))
    ensures forall i | 0 <= i < |InsertGroup(gs, g)| ::
              InsertGroup(gs, g)[i] == g || InsertGroup(gs, g)[i] in gs
  {
    if gs == [] {
    } else {
      if GroupCmp(g.name, gs[0].name) <= 0 {
        if g.name.Some? {
          StrCmpAntisymmetric(g.name.value, gs[0].name.value);
        }
        forall j | 0 <= j < |gs| ensures NameBefore(g.name, gs[j].name) {
          if g.name.Some? && j > 0 {
            StrCmpTransitive(g.name.value, gs[0].name.value, gs[j].name.value);
          } else if j > 0 {
            assert NameBefore(gs[0].name, gs[j].name);
          }
        }
      } else {
        InsertGroupSorted(gs[1..], g);
        var rest := InsertGroup(gs[1..], g);
        if gs[0].name.Some? {
          StrCmpAntisymmetric(g.name.value, gs[0].name.value);
        }
        forall j | 0 <= j < |rest| ensures NameBefore(gs[0].name, rest[j].name) {
          if rest[j] != g {
            var k :| 0 <= k < |gs[1..]| && gs[1..][k] == rest[j];
            assert gs[k + 1] == rest[j];
          }
        }
      }
    }
  }

  lemma FindOrAddSorted(gs: seq<Group>, group: Option<string>)
    requires GroupsSorted(gs)
    ensures GroupsSorted(FindOrAddGroup(gs, group))
  {
    if FindGroup(gs, group).None? {
      InsertGroupSorted(gs, Group(group, []));
    }
  }

  lemma SameNames(gs: seq<Group>, hs: seq<Group>)
    requires GroupsSorted(gs) && |hs| == |gs| && forall i | 0 <= i < |gs| :: hs[i].name == gs[i].name
    ensures GroupsSorted(hs)
  {
  }

  lemma MoveUserNames(gs: seq<Group>, at: (nat, nat), group: Option<string>)
    requires UserAt(gs, at) && gs[at.0].name != group
    ensures var gs1 := FindOrAddGroup(gs, group);
            forall i | 0 <= i < |gs1| :: MoveUser(gs, at, group)[i].name == gs1[i].name
  {
  }

  lemma MoveStepSorted(gs: seq<Group>, at: (nat, nat), group: Option<string>)
    requires UserAt(gs, at) && GroupsSorted(gs)
    ensures GroupsSorted(MoveStep(gs, at, group).0)
  {
    FindOrAddSorted(gs, group);
    if gs[at.0].name != group {
      MoveUserNames(gs, at, group);
      SameNames(FindOrAddGroup(gs, group), MoveUser(gs, at, group));
      SameNames(FindOrAddGroup(gs, group), MoveStep(gs, at, group).0);
    }
  }

  lemma UpdateSubscriptionSorted(gs: seq<Group>, at: (nat, nat), change: SubscriptionChange)
    requires UserAt(gs, at) && GroupsSorted(gs)
    ensures GroupsSorted(UpdateSubscription(gs, at, change))
  {
  }

  lemma AddUserSorted(gs: seq<Group>, u: User, group: Option<string>)
    requires GroupsSorted(gs)
    ensures GroupsSorted(AddUser(gs, u, group))
  {
    FindOrAddSorted(gs, group);
  }

  /** Every push keeps the groups strictly sorted. */
  lemma UpdateUserSorted(gs: seq<Group>, jid: string, subscription: Option<string>,
                         name: Option<string>, group: Option<string>)
    requires GroupsSorted(gs)
    ensures GroupsSorted(UpdateUser(gs, jid, subscription, name, group))
  {
    var change := ParseSubscription(subscription);
    match FindUser(gs, Strip(jid))
    case None =>
      var gs1 := AddUser(gs, User(jid, name, SubNone, false, []), group);
      var g := GroupIndex(gs, group);
      AddUserSorted(gs, User(jid, name, SubNone, false, []), group);
      UpdateSubscriptionSorted(gs1, (g, |gs1[g].users| - 1), change);
    case Some(at) =>
      MoveStepSorted(gs, at, group);
      var (gs1, at1) := MoveAndRename(gs, at, name, group);
      UpdateSubscriptionSorted(gs1, at1, change);
  }
}
