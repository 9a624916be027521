/** The lists of users in the groups: what a roster push does to each of them, and that it
    leaves the group of a moved or renamed user in order. */
module RosterGroups {
  import opened Text
  import opened Lists
  import opened Sorting
  import opened Roster
  import opened RosterOrder
  import opened RosterContacts

  /** The users of the group called `name`; none when there is no such group. */
  function UsersIn(gs: seq<Group>, name: Option<string>): seq<User> {
    match FindGroup(gs, name)
    case None => []
    case Some(g) => gs[g].users
  }

  predicate HasGroup(gs: seq<Group>, name: Option<string>) {
    exists g | 0 <= g < |gs| :: gs[g].name == name
  }

  /** All users in roster order. */
  function AllUsers(gs: seq<Group>): seq<User> {
    if gs == [] then [] else AllUsers(gs[..|gs| - 1]) + gs[|gs| - 1].users
  }

  lemma AllUsersMore(gs: seq<Group>, i: nat)
    requires i < |gs|
    ensures AllUsers(gs[..i + 1]) == AllUsers(gs[..i]) + gs[i].users
  {
    assert gs[..i + 1][..i] == gs[..i];
  }

  lemma {:induction false} AllUsersCons(gs: seq<Group>)
    requires gs != []
    ensures AllUsers(gs) == gs[0].users + AllUsers(gs[1..])
  {
    var m := |gs| - 1;
    if m == 0 {
      assert gs[..0] == [] && gs[1..] == [];
      assert [] + gs[0].users == gs[0].users + [];
    } else {
      AllUsersCons(gs[..m]);
      assert gs[..m][1..] == gs[1..][..m - 1];
      assert gs[0].users + AllUsers(gs[1..][..m - 1]) + gs[m].users
             == gs[0].users + (AllUsers(gs[1..][..m - 1]) + gs[m].users);
    }
  }

  lemma {:induction false} AllUsersListed(gs: seq<Group>, u: User)
    requires u in AllUsers(gs)
    ensures exists c :: c in Contacts(gs) && c.user == u
  {
    AllUsersCons(gs);
    if u in gs[0].users {
      GroupMembers(gs, 0, u);
    } else {
      AllUsersListed(gs[1..], u);
      ContactsCons(gs);
    }
  }

  lemma {:induction false} FindGroupExactly(gs: seq<Group>, name: Option<string>)
    ensures FindGroup(gs, name).Some? <==> HasGroup(gs, name)
  {
    if gs == [] {
    } else {
      FindGroupExactly(gs[1..], name);
      if g :| 0 <= g < |gs| && gs[g].name == name {
        if g > 0 {
          assert gs[1..][g - 1].name == name;
        }
      }
    }
  }

  lemma GroupsDiffer(gs: seq<Group>, g: nat, h: nat)
    requires GroupsSorted(gs) && g < |gs| && h < |gs| && g != h
    ensures gs[g].name != gs[h].name
  {
    var name := gs[g].name;
    if name.Some? {
      StrCmpAntisymmetric(name.value, name.value);
    }
    assert g < h ==> NameBefore(gs[g].name, gs[h].name);
    assert h < g ==> NameBefore(gs[h].name, gs[g].name);
  }

  /** In a sorted roster a name finds its one group. */
  lemma GroupAt(gs: seq<Group>, g: nat)
    requires GroupsSorted(gs) && g < |gs|
    ensures HasGroup(gs, gs[g].name) && UsersIn(gs, gs[g].name) == gs[g].users
  {
    FindGroupExactly(gs, gs[g].name);
    var k := FindGroup(gs, gs[g].name).value;
    if k != g {
      GroupsDiffer(gs, k, g);
    }
  }

  lemma SetUsersIn(gs: seq<Group>, g: nat, us: seq<User>, n: Option<string>)
    requires GroupsSorted(gs) && g < |gs|
    ensures GroupsSorted(SetUsers(gs, g, us)) && (HasGroup(SetUsers(gs, g, us), n) <==> HasGroup(gs, n))
    ensures UsersIn(SetUsers(gs, g, us), n) == if n == gs[g].name then us else UsersIn(gs, n)
  {
    var hs := SetUsers(gs, g, us);
    SameNames(gs, hs);
    FindGroupExactly(gs, n);
    FindGroupExactly(hs, n);
    if k :| 0 <= k < |gs| && gs[k].name == n {
      assert hs[k].name == n;
      GroupAt(gs, k);
      GroupAt(hs, k);
      GroupAt(hs, g);
    } else {
      assert forall k | 0 <= k < |hs| :: hs[k].name == gs[k].name;
    }
  }

  lemma SetTwoIn(gs: seq<Group>, g: nat, us: seq<User>, h: nat, vs: seq<User>, n: Option<string>)
    requires GroupsSorted(gs) && g < |gs| && h < |gs| && g != h
    ensures var hs := SetUsers(SetUsers(gs, g, us), h, vs);
            && GroupsSorted(hs) && (HasGroup(hs, n) <==> HasGroup(gs, n))
            && UsersIn(hs, n) == if n == gs[h].name then vs else if n == gs[g].name then us else UsersIn(gs, n)
  {
    SetUsersIn(gs, g, us, n);
    SetUsersIn(SetUsers(gs, g, us), h, vs, n);
  }

  lemma PutAt<T>(s: seq<T>, i: nat, x: T, k: nat)
    requires i <= |s| && k <= |s|
    ensures (s[..i] + [x] + s[i..])[k] == if k < i then s[k] else if k == i then x else s[k - 1]
  {
  }

  lemma InsertedIn(gs: seq<Group>, hs: seq<Group>, i: nat, group: Option<string>, n: Option<string>)
    requires GroupsSorted(gs) && GroupsSorted(hs) && i <= |gs| && !HasGroup(gs, group)
    requires hs == gs[..i] + [Group(group, [])] + gs[i..]
    ensures HasGroup(hs, n) <==> HasGroup(gs, n) || n == group
    ensures UsersIn(hs, n) == UsersIn(gs, n)
  {
    FindGroupExactly(gs, n);
    FindGroupExactly(hs, n);
    if n == group {
      GroupAt(hs, i);
    } else if k: nat :| k < |hs| && hs[k].name == n {
      PutAt(gs, i, Group(group, []), k);
      GroupAt(hs, k);
      GroupAt(gs, if k < i then k else k - 1);
    } else if k: nat :| k < |gs| && gs[k].name == n {
      PutAt(gs, i, Group(group, []), if i <= k then k + 1 else k);
      assert false;
    }
  }

  lemma FindOrAddIn(gs: seq<Group>, group: Option<string>, n: Option<string>)
    requires GroupsSorted(gs)
    ensures var hs := FindOrAddGroup(gs, group);
            && GroupsSorted(hs) && (HasGroup(hs, n) <==> HasGroup(gs, n) || n == group)
            && UsersIn(hs, n) == UsersIn(gs, n)
  {
    FindOrAddSorted(gs, group);
    FindGroupExactly(gs, group);
    if FindGroup(gs, group).None? {
      InsertedIn(gs, FindOrAddGroup(gs, group), GroupIndex(gs, group), group, n);
    }
  }

  // ----- One step of a push

  lemma MoveUserIn(gs: seq<Group>, at: (nat, nat), group: Option<string>, n: Option<string>)
    requires GroupsSorted(gs) && UserAt(gs, at) && gs[at.0].name != group
    ensures var hs, was, u := MoveUser(gs, at, group), gs[at.0].name, gs[at.0].users[at.1];
            && GroupsSorted(hs) && (HasGroup(hs, n) <==> HasGroup(gs, n) || n == group)
            && UsersIn(hs, n) == if n == group then UsersIn(gs, n) + [u]
                                 else if n == was then RemoveAt(gs[at.0].users, at.1)
                                 else UsersIn(gs, n)
  {
    var us := gs[at.0].users;
    var from: nat := if FindGroup(gs, group).None? && GroupIndex(gs, group) <= at.0 then at.0 + 1 else at.0;
    var i := GroupIndex(gs, group);
    var hs := FindOrAddGroup(gs, group);
    MoveUserUnfolds(gs, at, group, from);
    FindOrAddIn(gs, group, n);
    FindOrAddIn(gs, group, group);
    GroupAt(hs, i);
    SetTwoIn(hs, from, RemoveAt(us, at.1), i, hs[i].users + [us[at.1]], n);
  }

  lemma MoveStepIn(gs: seq<Group>, at: (nat, nat), group: Option<string>, n: Option<string>)
    requires GroupsSorted(gs) && UserAt(gs, at)
    ensures var hs, was, u := MoveStep(gs, at, group).0, gs[at.0].name, gs[at.0].users[at.1];
            && GroupsSorted(hs) && (HasGroup(hs, n) <==> HasGroup(gs, n) || n == group)
            && UsersIn(hs, n) == if was == group then UsersIn(gs, n)
                                 else if n == group then SortUsers(UsersIn(gs, n) + [u])
                                 else if n == was then RemoveAt(gs[at.0].users, at.1)
                                 else UsersIn(gs, n)
  {
    if gs[at.0].name == group {
      GroupAt(gs, at.0);
    } else {
      var gs1, i := MoveUser(gs, at, group), GroupIndex(gs, group);
      MoveUserIn(gs, at, group, n);
      MoveUserIn(gs, at, group, group);
      GroupAt(gs1, i);
      SetUsersIn(gs1, i, SortUsers(gs1[i].users), n);
    }
  }

  lemma RenameStepIn(gs: seq<Group>, at: (nat, nat), name: Option<string>, n: Option<string>)
    requires GroupsSorted(gs) && UserAt(gs, at)
    ensures var hs, u := RenameStep(gs, at, name).0, gs[at.0].users[at.1];
            && GroupsSorted(hs) && (HasGroup(hs, n) <==> HasGroup(gs, n))
            && UsersIn(hs, n) == if u.name == name || n != gs[at.0].name then UsersIn(gs, n)
                                 else SortUsers(gs[at.0].users[at.1 := u.(name := name)])
  {
    var u := gs[at.0].users[at.1];
    var us := gs[at.0].users[at.1 := u.(name := name)];
    SetUsersIn(gs, at.0, us, n);
    SetUsersIn(SetUsers(gs, at.0, us), at.0, SortUsers(us), n);
  }

  lemma KeptAt<T>(s: seq<T>, i: nat, k: nat)
    requires i < |s| && k < |s| - 1
    ensures RemoveAt(s, i)[k] == s[if k < i then k else k + 1]
  {
  }

  lemma RemovedSorted(gs: seq<Group>, g: nat)
    requires GroupsSorted(gs) && g < |gs|
    ensures GroupsSorted(RemoveAt(gs, g))
  {
  }

  lemma RemovedNames(gs: seq<Group>, g: nat, n: Option<string>)
    requires GroupsSorted(gs) && g < |gs|
    ensures HasGroup(RemoveAt(gs, g), n) <==> HasGroup(gs, n) && n != gs[g].name
  {
    var hs := RemoveAt(gs, g);
    if j: nat :| j < |hs| && hs[j].name == n {
      KeptAt(gs, g, j);
      GroupsDiffer(gs, g, if j < g then j else j + 1);
    } else if n != gs[g].name {
      if k :| 0 <= k < |gs| && gs[k].name == n {
        KeptAt(gs, g, if k < g then k else k - 1);
        assert false;
      }
    }
  }

  lemma RemoveGroupIn(gs: seq<Group>, g: nat, n: Option<string>)
    requires GroupsSorted(gs) && g < |gs|
    ensures var hs := RemoveAt(gs, g);
            && (HasGroup(hs, n) <==> HasGroup(gs, n) && n != gs[g].name)
            && UsersIn(hs, n) == if n == gs[g].name then [] else UsersIn(gs, n)
  {
    var hs := RemoveAt(gs, g);
    RemovedNames(gs, g, n);
    RemovedSorted(gs, g);
    FindGroupExactly(hs, n);
    FindGroupExactly(gs, n);
    if j: nat :| j < |hs| && hs[j].name == n {
      KeptAt(gs, g, j);
      GroupAt(hs, j);
      GroupAt(gs, if j < g then j else j + 1);
    }
  }

  lemma UpdateSubscriptionIn(gs: seq<Group>, at: (nat, nat), change: SubscriptionChange, n: Option<string>)
    requires GroupsSorted(gs) && UserAt(gs, at)
    ensures var hs, us, name := UpdateSubscription(gs, at, change), gs[at.0].users, gs[at.0].name;
            && (HasGroup(hs, n) <==> HasGroup(gs, n) && !(change.Remove? && n == name && |us| == 1))
            && UsersIn(hs, n) == if n != name || change.Keep? then UsersIn(gs, n)
                                 else if change.Remove? then RemoveAt(us, at.1)
                                 else us[at.1 := us[at.1].(subscription := change.subscription)]
  {
    var us := gs[at.0].users;
    match change
    case Keep =>
    case Become(s) => SetUsersIn(gs, at.0, us[at.1 := us[at.1].(subscription := s)], n);
    case Remove =>
      if |us| == 1 {
        RemoveGroupIn(gs, at.0, n);
      } else {
        SetUsersIn(gs, at.0, RemoveAt(us, at.1), n);
      }
  }

  // ----- The order after a push

  /** The users of the group in which a pushed user ends up, with that user among them: in
      its old place, or at the end when it comes from another group. */
  function Joining(gs: seq<Group>, at: (nat, nat), name: Option<string>, group: Option<string>): seq<User>
    requires UserAt(gs, at)
  {
    var v := gs[at.0].users[at.1].(name := name);
    if gs[at.0].name == group then gs[at.0].users[at.1 := v] else UsersIn(gs, group) + [v]
  }

  /** Does the push change the group of the user, or its name? */
  predicate Changes(gs: seq<Group>, at: (nat, nat), name: Option<string>, group: Option<string>)
    requires UserAt(gs, at)
  {
    gs[at.0].name != group || gs[at.0].users[at.1].name != name
  }

  lemma SwapLast<T>(s: seq<T>, t: seq<T>, i: nat, x: T, y: T)
    requires multiset(t) == multiset(s + [x]) && i < |t| && t[i] == x
    ensures multiset(t[i := y]) == multiset(s + [y])
  {
    UpdateBag(t, i, y);
    assert multiset(t[i := y]) + multiset{x} == multiset(s) + multiset{y} + multiset{x};
  }

  /** Whether the flags fit depends only on which users there are. */
  lemma FlagsFitPermuted(us: seq<User>, vs: seq<User>)
    requires multiset(us) == multiset(vs) && FlagsFit(us)
    ensures FlagsFit(vs)
  {
    PermutationMembers(us, vs);
  }

  lemma MovedAndRenamed(gs: seq<Group>, at: (nat, nat), name: Option<string>, group: Option<string>)
    requires GroupsSorted(gs) && UserAt(gs, at) && gs[at.0].name != group
    ensures var (hs, at') := MoveAndRename(gs, at, name, group);
            var vs := UsersIn(hs, group);
            && hs[at'.0].users == vs && multiset(vs) == multiset(Joining(gs, at, name, group))
            && (FlagsFit(Joining(gs, at, name, group)) ==> Sorted(vs, UserOrder))
  {
    var u, others := gs[at.0].users[at.1], UsersIn(gs, group);
    var (gs1, at1) := MoveStep(gs, at, group);
    var (gs2, at2) := RenameStep(gs1, at1, name);
    var moved := gs1[at1.0].users;
    MoveStepIn(gs, at, group, group);
    GroupAt(gs1, at1.0);
    SortPermutes(others + [u], UserLe);
    RenameStepIn(gs1, at1, name, group);
    GroupAt(gs2, at2.0);
    if u.name == name {
      if FlagsFit(others + [u]) {
        SortUsersOrders(others + [u]);
      }
    } else {
      var v := u.(name := name);
      SwapLast(others, moved, at1.1, u, v);
      SortPermutes(moved[at1.1 := v], UserLe);
      if FlagsFit(others + [v]) {
        FlagsFitPermuted(others + [v], moved[at1.1 := v]);
        SortUsersOrders(moved[at1.1 := v]);
      }
    }
  }

  lemma RenamedInPlace(gs: seq<Group>, at: (nat, nat), name: Option<string>)
    requires GroupsSorted(gs) && UserAt(gs, at)
    ensures var group := gs[at.0].name;
            var (hs, at') := MoveAndRename(gs, at, name, group);
            var us, vs := gs[at.0].users, UsersIn(hs, group);
            && hs[at'.0].users == vs && multiset(vs) == multiset(Joining(gs, at, name, group))
            && (us[at.1].name == name ==> vs == us && at' == at)
            && (us[at.1].name != name && FlagsFit(Joining(gs, at, name, group)) ==> Sorted(vs, UserOrder))
  {
    var group := gs[at.0].name;
    var us := Joining(gs, at, name, group);
    var (hs, at') := RenameStep(gs, at, name);
    RenameStepIn(gs, at, name, group);
    GroupAt(gs, at.0);
    GroupAt(hs, at'.0);
    SortPermutes(us, UserLe);
    if FlagsFit(us) {
      SortUsersOrders(us);
    }
  }

  lemma MoveAndRenameIn(gs: seq<Group>, at: (nat, nat), name: Option<string>, group: Option<string>,
                        n: Option<string>)
    requires GroupsSorted(gs) && UserAt(gs, at)
    ensures var hs := MoveAndRename(gs, at, name, group).0;
            && GroupsSorted(hs) && (HasGroup(hs, n) <==> HasGroup(gs, n) || n == group)
            && (n != group ==> UsersIn(hs, n) == if n == gs[at.0].name then RemoveAt(gs[at.0].users, at.1)
                                                 else UsersIn(gs, n))
  {
    var (gs1, at1) := MoveStep(gs, at, group);
    MoveStepIn(gs, at, group, n);
    RenameStepIn(gs1, at1, name, n);
  }

  lemma RemoveSorted<T>(s: seq<T>, i: nat, le: (T, T) -> bool)
    requires Sorted(s, le) && i < |s|
    ensures Sorted(RemoveAt(s, i), le)
  {
  }

  lemma ResubscribedSorted(us: seq<User>, i: nat, s: Subscription)
    requires Sorted(us, UserOrder) && i < |us|
    ensures Sorted(us[i := us[i].(subscription := s)], UserOrder)
  {
  }

  /** What the last step of a push makes of the group of the pushed user. */
  lemma SubscribedIn(gs: seq<Group>, at: (nat, nat), change: SubscriptionChange)
    requires GroupsSorted(gs) && UserAt(gs, at)
    ensures var hs, us := UpdateSubscription(gs, at, change), gs[at.0].users;
            var u, vs := us[at.1], UsersIn(hs, gs[at.0].name);
            && vs == (if change.Remove? then RemoveAt(us, at.1)
                      else us[at.1 := u.(subscription := PushedSubscription(u.subscription, change))])
            && (HasGroup(hs, gs[at.0].name) <==> !change.Remove? || vs != [])
            && (Sorted(us, UserOrder) ==> Sorted(vs, UserOrder))
  {
    var us := gs[at.0].users;
    GroupAt(gs, at.0);
    UpdateSubscriptionIn(gs, at, change, gs[at.0].name);
    if Sorted(us, UserOrder) {
      RemoveSorted(us, at.1, UserOrder);
      ResubscribedSorted(us, at.1, PushedSubscription(us[at.1].subscription, change));
    }
  }

  lemma SubscribedBag(gs: seq<Group>, at: (nat, nat), change: SubscriptionChange)
    requires GroupsSorted(gs) && UserAt(gs, at)
    ensures var us := gs[at.0].users;
            var u := us[at.1];
            var v := u.(subscription := PushedSubscription(u.subscription, change));
            multiset(UsersIn(UpdateSubscription(gs, at, change), gs[at.0].name)) + multiset{u}
            == multiset(us) + (if change.Remove? then multiset{} else multiset{v})
  {
    var us := gs[at.0].users;
    SubscribedIn(gs, at, change);
    if change.Remove? {
      RemoveBag(us, at.1);
    } else {
      UpdateBag(us, at.1, us[at.1].(subscription := PushedSubscription(us[at.1].subscription, change)));
    }
  }

  /** A push of a known contact: the group it ends in holds the users it had and the pushed
      one, or without it after a removal. When group or name changed and the flags fit, they
      are in the intended order; otherwise every user keeps its place. */
  lemma PushOrdersGroup(gs: seq<Group>, jid: string, subscription: Option<string>,
                        name: Option<string>, group: Option<string>, at: (nat, nat))
    requires GroupsSorted(gs) && FindUser(gs, Strip(jid)) == Some(at)
    ensures var us, u := gs[at.0].users, gs[at.0].users[at.1];
            var joining, v := Joining(gs, at, name, group), u.(name := name);
            var now := PushedContact(Some(Contact(gs[at.0].name, u)), jid, subscription, name, group);
            var vs := UsersIn(UpdateUser(gs, jid, subscription, name, group), group);
            && multiset(vs) + multiset{v}
               == multiset(joining) + (if now.Some? then multiset{now.value.user} else multiset{})
            && (Changes(gs, at, name, group) && FlagsFit(joining) ==> Sorted(vs, UserOrder))
            && (!Changes(gs, at, name, group) ==>
                  && vs == (if now.Some? then us[at.1 := now.value.user] else RemoveAt(us, at.1))
                  && (Sorted(us, UserOrder) ==> Sorted(vs, UserOrder)))
  {
    var (hs, at') := MoveAndRename(gs, at, name, group);
    if gs[at.0].name == group {
      RenamedInPlace(gs, at, name);
    } else {
      MovedAndRenamed(gs, at, name, group);
    }
    MoveAndRenameIn(gs, at, name, group, group);
    SubscribedIn(hs, at', ParseSubscription(subscription));
    SubscribedBag(hs, at', ParseSubscription(subscription));
  }

  lemma SubscribedOthers(gs: seq<Group>, at: (nat, nat), change: SubscriptionChange, n: Option<string>)
    requires GroupsSorted(gs) && UserAt(gs, at)
    ensures var hs := UpdateSubscription(gs, at, change);
            if n == gs[at.0].name then HasGroup(hs, n) <==> !change.Remove? || UsersIn(hs, n) != []
            else UsersIn(hs, n) == UsersIn(gs, n) && (HasGroup(hs, n) <==> HasGroup(gs, n))
  {
    UpdateSubscriptionIn(gs, at, change, n);
    SubscribedIn(gs, at, change);
  }

  /** Every other group keeps its users in their places, except the pushed one. No group comes
      or goes, but for a new group of the pushed user, and a group that a removal empties. */
  lemma PushOtherGroups(gs: seq<Group>, jid: string, subscription: Option<string>,
                        name: Option<string>, group: Option<string>, at: (nat, nat), n: Option<string>)
    requires GroupsSorted(gs) && FindUser(gs, Strip(jid)) == Some(at)
    ensures var gs' := UpdateUser(gs, jid, subscription, name, group);
            if n == group then
              HasGroup(gs', n) <==> !ParseSubscription(subscription).Remove? || UsersIn(gs', n) != []
            else
              && (HasGroup(gs', n) <==> HasGroup(gs, n))
              && UsersIn(gs', n) == if n == gs[at.0].name then RemoveAt(gs[at.0].users, at.1) else UsersIn(gs, n)
  {
    var (hs, at') := MoveAndRename(gs, at, name, group);
    MoveAndRenameIn(gs, at, name, group, n);
    SubscribedOthers(hs, at', ParseSubscription(subscription), n);
  }

  lemma AddUserIn(gs: seq<Group>, u: User, group: Option<string>, n: Option<string>)
    requires GroupsSorted(gs)
    ensures var hs, g := AddUser(gs, u, group), GroupIndex(gs, group);
            && GroupsSorted(hs) && (HasGroup(hs, n) <==> HasGroup(gs, n) || n == group)
            && UsersIn(hs, n) == (if n == group then UsersIn(gs, n) + [u] else UsersIn(gs, n))
            && g < |hs| && hs[g].name == group && hs[g].users == UsersIn(gs, group) + [u]
  {
    var hs, g := FindOrAddGroup(gs, group), GroupIndex(gs, group);
    FindOrAddIn(gs, group, n);
    FindOrAddIn(gs, group, group);
    GroupAt(hs, g);
    SetUsersIn(hs, g, hs[g].users + [u], n);
  }

  lemma AddedThenSubscribed(gs: seq<Group>, hs: seq<Group>, at: (nat, nat), u: User,
                            change: SubscriptionChange, n: Option<string>)
    requires GroupsSorted(hs) && UserAt(hs, at) && at.1 == |hs[at.0].users| - 1
    requires hs[at.0].users == UsersIn(gs, hs[at.0].name) + [u]
    requires n != hs[at.0].name ==> UsersIn(hs, n) == UsersIn(gs, n) && (HasGroup(hs, n) <==> HasGroup(gs, n))
    ensures var gs', group := UpdateSubscription(hs, at, change), hs[at.0].name;
            var v := u.(subscription := PushedSubscription(u.subscription, change));
            if n == group then
              && UsersIn(gs', n) == UsersIn(gs, n) + (if change.Remove? then [] else [v])
              && (HasGroup(gs', n) <==> !change.Remove? || UsersIn(gs, n) != [])
            else UsersIn(gs', n) == UsersIn(gs, n) && (HasGroup(gs', n) <==> HasGroup(gs, n))
  {
    var before := UsersIn(gs, hs[at.0].name);
    SubscribedIn(hs, at, change);
    SubscribedOthers(hs, at, change, n);
    assert RemoveAt(before + [u], |before|) == before && before + [] == before;
    assert (before + [u])[|before| := u.(subscription := PushedSubscription(u.subscription, change))]
           == before + [u.(subscription := PushedSubscription(u.subscription, change))];
  }

  /** A push of an unknown contact appends one user to its group, which is not sorted then;
      a removal changes no list of users, and drops the group exactly if that is empty. */
  lemma PushAppends(gs: seq<Group>, jid: string, subscription: Option<string>,
                    name: Option<string>, group: Option<string>, n: Option<string>)
    requires GroupsSorted(gs) && FindUser(gs, Strip(jid)).None?
    ensures var gs' := UpdateUser(gs, jid, subscription, name, group);
            var now := PushedContact(None, jid, subscription, name, group);
            if n == group then
              && UsersIn(gs', n) == UsersIn(gs, n) + (if now.Some? then [now.value.user] else [])
              && (HasGroup(gs', n) <==> now.Some? || UsersIn(gs, n) != [])
            else UsersIn(gs', n) == UsersIn(gs, n) && (HasGroup(gs', n) <==> HasGroup(gs, n))
  {
    var u := User(jid, name, SubNone, false, []);
    var hs, g := AddUser(gs, u, group), GroupIndex(gs, group);
    AddUserIn(gs, u, group, n);
    var at: (nat, nat) := (g, |hs[g].users| - 1);
    UpdateUserNew(gs, jid, subscription, name, group, hs, at);
    AddedThenSubscribed(gs, hs, at, u, ParseSubscription(subscription), n);
  }

  lemma StepGroupsSorted(a: Account, e: Event)
    requires GroupsSorted(a.groups)
    ensures GroupsSorted(Step(a, e).0.groups)
  {
    if e.Push? && e.jid.Some? {
      UpdateUserSorted(a.groups, e.jid.value, e.subscription, e.name, e.group);
    } else if IsPresence(e) {
      SameNames(a.groups, Step(a, e).0.groups);
    }
  }

  /** So the three hold of every push in every run: the groups are always sorted by name, the
      unnamed one first, whatever is pushed. */
  lemma {:induction false} GroupsAlwaysSorted(jid: string, resource: string, es: seq<Event>)
    ensures GroupsSorted(Run(Fresh(jid, resource), es).0.groups)
  {
    if es == [] {
    } else {
      GroupsAlwaysSorted(jid, resource, es[..|es| - 1]);
      StepGroupsSorted(Run(Fresh(jid, resource), es[..|es| - 1]).0, es[|es| - 1]);
    }
  }
}
