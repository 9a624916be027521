/** The roster of a server record as the client keeps it: groups, users and resources
    are records that the handlers find and change in place. Every handler is proved
    to do exactly what its specification in module Roster says. */
module RosterObjects {
  import opened Text
  import opened Lists
  import opened Sorting
  import opened Roster
  import opened RosterContacts

  class ResourceRec {
    const name: string
    var priority: int
    var show: int
    var status: Option<string>
    /** The user record (or server record) whose list holds this resource. */
    ghost var owner: object?

    /** `create_resource` */
    constructor (name: Option<string>, ghost owner: object)
      ensures View() == Resource(if name.Some? then name.value else "", 0, UNAVAILABLE, None)
      ensures this.owner == owner
    {
      this.name := if name.Some? then name.value else "";
      this.priority := 0;
      this.show := UNAVAILABLE;
      this.status := None;
      this.owner := owner;
    }

    function View(): Resource
      reads this
    {
      Resource(name, priority, show, status)
    }
  }

  /** The resource records of the users. */
  ghost function Held(us: seq<UserRec>): (rs: set<ResourceRec>)
    reads us
    ensures forall u, r | u in us && r in u.resources :: r in rs
  {
    set u, r | u in us && r in u.resources :: r
  }

  function UserViews(us: seq<UserRec>): (vs: seq<User>)
    reads us, Held(us)
    ensures |vs| == |us| && forall i | 0 <= i < |us| :: vs[i] == us[i].View()
  {
    seq(|us|, i requires 0 <= i < |us| reads us, Held(us) => ViewOf(us, us[i]))
  }

  class GroupRec {
    const name: Option<string>
    var users: seq<UserRec>

    /** `create_group` */
    constructor (name: Option<string>)
      ensures this.name == name && users == []
    {
      this.name := name;
      this.users := [];
    }

    function View(): Group
      reads this, users, Held(users)
    {
      Group(name, UserViews(users))
    }

    ghost predicate Ok()
      reads this, users, Held(users)
    {
      NoDup(users) && forall u | u in users :: u.owner == this && u.Ok()
    }

    /** A group that nothing wrote to, its users included, looks as before. */
    twostate lemma Kept()
      requires unchanged(this)
      requires forall u | u in users :: unchanged(u) && forall r | r in u.resources :: unchanged(r)
      ensures View() == old(View()) && Ok() == old(Ok())
    {
      forall k | 0 <= k < |users| ensures users[k].View() == old(users[k].View()) {
        assert users[k] in users;
        users[k].Kept();
      }
      assert UserViews(users) == old(UserViews(users));
      forall u | u in users ensures u.Ok() == old(u.Ok()) {
        u.Kept();
      }
    }
  }

  function ResourceViews(rs: seq<ResourceRec>): (vs: seq<Resource>)
    reads rs
    ensures |vs| == |rs| && forall i | 0 <= i < |rs| :: vs[i] == rs[i].View()
  {
    seq(|rs|, i requires 0 <= i < |rs| reads rs => rs[i].View())
  }

  class UserRec {
    const jid: string
    var name: Option<string>
    var subscription: Subscription
    var error: bool
    var resources: seq<ResourceRec>
    ghost var owner: GroupRec

    /** `create_user` */
    constructor (jid: string, name: Option<string>, ghost owner: GroupRec)
      ensures View() == User(jid, name, SubNone, false, []) && resources == []
      ensures this.owner == owner
    {
      this.jid := jid;
      this.name := name;
      this.subscription := SubNone;
      this.error := false;
      this.resources := [];
      this.owner := owner;
    }

    function View(): User
      reads this, resources
    {
      User(jid, name, subscription, error, ResourceViews(resources))
    }

    ghost predicate Ok()
      reads this, resources
    {
      NoDup(resources) && forall r | r in resources :: r.owner == this
    }

    /** A user record that nothing wrote to looks as before. */
    twostate lemma Kept()
      requires unchanged(this) && forall r | r in resources :: unchanged(r)
      ensures View() == old(View()) && Ok() == old(Ok())
    {
      forall k | 0 <= k < |resources| ensures resources[k].View() == old(resources[k].View()) {
        assert resources[k] in resources;
      }
      assert ResourceViews(resources) == old(ResourceViews(resources));
    }
  }

  function ViewOf(us: seq<UserRec>, u: UserRec): (v: User)
    requires u in us
    reads us, Held(us)
    ensures v == u.View()
  {
    u.View()
  }

  method SortedUserRecs(us: seq<UserRec>, ghost i: nat) returns (sorted: seq<UserRec>, ghost k: nat)
    requires NoDup(us) && i < |us|
    ensures NoDup(sorted) && |sorted| == |us|
    ensures (forall j | 0 <= j < |us| :: us[j] in sorted) && (forall j | 0 <= j < |sorted| :: sorted[j] in us)
    ensures UserViews(sorted) == SortUsers(old(UserViews(us)))
    ensures k == SortedPlace(old(UserViews(us)), i, UserLe) && k < |sorted| && sorted[k] == us[i]
  {
    var seen := map u | u in us :: u.View();
    var view := (u: UserRec) => if u in seen then seen[u] else User("", None, SubNone, false, []);
    var le := (x: UserRec, y: UserRec) => UserLe(view(x), view(y));
    assert Map(us, view) == UserViews(us);
    var result := MergeSort(us, le);
    SortRecords(us, view, le, UserLe);
    k := SortedPlace(UserViews(us), i, UserLe);
    assert UserViews(result) == Map(result, view);
    return result, k;
  }

  twostate lemma UserViewsKept(us: seq<UserRec>)
    requires forall u | u in us :: unchanged(u) && forall r | r in u.resources :: unchanged(r)
    ensures UserViews(us) == old(UserViews(us))
  {
    forall k | 0 <= k < |us| ensures us[k].View() == old(us[k].View()) {
      assert us[k] in us;
      us[k].Kept();
    }
  }

  /** `g_slist_sort(users, func_sort_user)`; `k` is where user `i` goes. */
  method SortUserRecs(g: GroupRec, ghost i: nat) returns (ghost k: nat)
    requires g.Ok() && i < |g.users|
    modifies g
    ensures g.Ok() && forall u :: u in g.users <==> u in old(g.users)
    ensures UserViews(g.users) == SortUsers(old(UserViews(g.users)))
    ensures k == SortedPlace(old(UserViews(g.users)), i, UserLe) && k < |g.users| && g.users[k] == old(g.users)[i]
  {
    var sorted;
    sorted, k := SortedUserRecs(g.users, i);
    label L:
    g.users := sorted;
    UserViewsKept@L(sorted);
  }

  /** `g_slist_sort(resources, func_sort_resource)` */
  method SortResourceRecs(rs: seq<ResourceRec>) returns (sorted: seq<ResourceRec>)
    requires NoDup(rs)
    ensures NoDup(sorted) && multiset(sorted) == multiset(rs)
    ensures forall r :: r in sorted <==> r in rs
    ensures ResourceViews(sorted) == SortResources(old(ResourceViews(rs)))
  {
    var seen := map r | r in rs :: r.View();
    var view := (r: ResourceRec) => if r in seen then seen[r] else Resource("", 0, UNAVAILABLE, None);
    var le := (x: ResourceRec, y: ResourceRec) => ResourceLe(view(x), view(y));
    assert Map(rs, view) == ResourceViews(rs);
    var result := MergeSort(rs, le);
    SortRecords(rs, view, le, ResourceLe);
    PermutationMembers(rs, result);
    assert ResourceViews(result) == Map(result, view);
    return result;
  }

  lemma {:induction false} FindResourceFirst(rs: seq<Resource>, k: nat, name: Option<string>)
    requires k <= |rs| && forall j | 0 <= j < k :: name != Some(rs[j].name)
    ensures k < |rs| && name == Some(rs[k].name) ==> FindResource(rs, name) == Some(k)
    ensures k == |rs| ==> FindResource(rs, name) == None
  {
    if k == 0 {
    } else {
      FindResourceFirst(rs[1..], k - 1, name);
    }
  }

  /** `rosters_find_resource` */
  method FindResourceRec(rs: seq<ResourceRec>, name: Option<string>)
    returns (found: ResourceRec?, ghost at: Option<nat>)
    ensures at == FindResource(ResourceViews(rs), name)
    ensures found == if at.Some? then rs[at.value] else null
  {
    ghost var vs := ResourceViews(rs);
    for k := 0 to |rs|
      invariant forall j | 0 <= j < k :: name != Some(vs[j].name)
    {
      if name.Some? && rs[k].name == name.value {
        FindResourceFirst(vs, k, name);
        return rs[k], Some(k);
      }
    }
    FindResourceFirst(vs, |rs|, name);
    return null, None;
  }

  /** `listed` is the list in which the resource called `res` is at `k`, made if need be. */
  ghost predicate ListedAs(rs: seq<Resource>, res: Option<string>, listed: seq<Resource>, k: nat, isNew: bool) {
    var at := FindResource(rs, res);
    if isNew then
      at.None? && k == 0 && listed == [Resource(if res.Some? then res.value else "", 0, UNAVAILABLE, None)] + rs
    else at == Some(k) && listed == rs
  }

  lemma TouchUnfolds(rs: seq<Resource>, p: Presence, listed: seq<Resource>, k: nat, isNew: bool)
    requires ListedAs(rs, Extract(p.full), listed, k, isNew)
    ensures var r := listed[k];
            var show := GetShow(p.show);
            var priority := if p.priority.Some? then p.priority.value else r.priority;
            var accepted := isNew || PresenceChanged(show, r.show, p.status, r.status, priority, r.priority);
            && Touch(rs, p).accepted == accepted
            && Touch(rs, p).resources ==
               (if accepted then SortResources(listed[k := Resource(r.name, priority, show, p.status)])
                else listed)
            && Touch(rs, p).signals == (if isNew then [Online(p.full, Strip(p.full), Extract(p.full))] else [])
                                       + (if accepted then [Changed(p.full, show, p.status)] else [])
  {
  }

  /** "find resource or create it if it doesn't exist" */
  method FindOrAddResource(rs: seq<ResourceRec>, ghost owner: object, res: Option<string>)
    returns (listed: seq<ResourceRec>, r: ResourceRec, isNew: bool, ghost k: nat)
    requires NoDup(rs) && forall r | r in rs :: r.owner == owner
    ensures NoDup(listed) && k < |listed| && listed[k] == r && r.owner == owner
    ensures if isNew then fresh(r) && listed == [r] + rs else listed == rs
    ensures ListedAs(old(ResourceViews(rs)), res, ResourceViews(listed), k, isNew)
  {
    var found, at := FindResourceRec(rs, res);
    if found == null {
      r := new ResourceRec(res, owner);
      listed, isNew, k := [r] + rs, true, 0;
      assert ResourceViews(listed) == [r.View()] + old(ResourceViews(rs));
    } else {
      listed, r, isNew, k := rs, found, false, at.value;
    }
  }

  /** Sets the fields of one resource in a list, then sorts the list. */
  method SetResource(rs: seq<ResourceRec>, r: ResourceRec, ghost k: nat,
                     show: int, status: Option<string>, priority: int)
    returns (sorted: seq<ResourceRec>)
    requires NoDup(rs) && k < |rs| && rs[k] == r
    modifies r
    ensures NoDup(sorted) && forall x :: x in sorted <==> x in rs
    ensures r.owner == old(r.owner)
    ensures ResourceViews(sorted) ==
            SortResources(old(ResourceViews(rs))[k := Resource(r.name, priority, show, status)])
  {
    r.show := show;
    r.status := status;
    r.priority := priority;
    assert ResourceViews(rs) == old(ResourceViews(rs))[k := Resource(r.name, priority, show, status)];
    sorted := SortResourceRecs(rs);
  }

  /** The part of `update_user_presence` that works on one resource list. */
  method TouchRecs(rs: seq<ResourceRec>, ghost owner: object, p: Presence)
    returns (touched: seq<ResourceRec>, accepted: bool, signals: seq<Signal>)
    requires NoDup(rs) && forall r | r in rs :: r.owner == owner
    modifies rs
    ensures NoDup(touched) && forall r | r in touched :: r.owner == owner && (r in rs || fresh(r))
    ensures forall r | r in rs :: r.owner == old(r.owner)
    ensures ResourceViews(touched) == Touch(old(ResourceViews(rs)), p).resources
    ensures accepted == Touch(old(ResourceViews(rs)), p).accepted
    ensures signals == Touch(old(ResourceViews(rs)), p).signals
  {
    var res := Extract(p.full);
    var listed, r, isNew, k := FindOrAddResource(rs, owner, res);
    TouchUnfolds(old(ResourceViews(rs)), p, ResourceViews(listed), k, isNew);
    assert ResourceViews(listed)[k] == r.View();
    signals := if isNew then [Online(p.full, Strip(p.full), res)] else [];
    var show := GetShow(p.show);
    var priority := if p.priority.Some? then p.priority.value else r.priority;
    accepted := isNew || PresenceChanged(show, r.show, p.status, r.status, priority, r.priority);
    touched := listed;
    if accepted {
      touched := SetResource(listed, r, k, show, p.status, priority);
      signals := signals + [Changed(p.full, show, p.status)];
    }
  }

  ghost function UsersOf(gs: seq<GroupRec>): (us: set<UserRec>)
    reads gs
    ensures forall g, u | g in gs && u in g.users :: u in us
  {
    set g, u | g in gs && u in g.users :: u
  }

  ghost function ResourcesOf(gs: seq<GroupRec>): (rs: set<ResourceRec>)
    reads gs, UsersOf(gs)
    ensures forall g, u, r | g in gs && u in g.users && r in u.resources :: r in rs
  {
    set g, u, r | g in gs && u in g.users && r in u.resources :: r
  }

  ghost function GroupViewOf(gs: seq<GroupRec>, g: GroupRec): (v: Group)
    requires g in gs
    reads gs, UsersOf(gs), ResourcesOf(gs)
    ensures v == g.View()
  {
    g.View()
  }

  ghost function GroupViews(gs: seq<GroupRec>): (vs: seq<Group>)
    reads gs, UsersOf(gs), ResourcesOf(gs)
    ensures |vs| == |gs| && forall i | 0 <= i < |gs| :: vs[i] == gs[i].View()
  {
    seq(|gs|, i requires 0 <= i < |gs| reads gs, UsersOf(gs), ResourcesOf(gs) => GroupViewOf(gs, gs[i]))
  }

  ghost predicate RosterOk(gs: seq<GroupRec>)
    reads gs, UsersOf(gs), ResourcesOf(gs)
  {
    NoDup(gs) && forall g | g in gs :: g.Ok()
  }

  /** A handler works on user `u`, at index `i` of group `g`. */
  datatype Place = Place(g: GroupRec, u: UserRec, i: nat)

  /** Setting the fields of one user changes that entry of the group's view only. */
  twostate lemma OneUserChanged(at: Place)
    requires old(at.g.Ok()) && at.g.users == old(at.g.users) && at.i < |at.g.users| && at.g.users[at.i] == at.u
    requires at.u.Ok() && at.u.owner == at.g
    requires forall x | x in at.g.users && x != at.u ::
               unchanged(x) && forall r | r in x.resources :: r !in old(at.u.resources) ==> unchanged(r)
    ensures at.g.Ok()
    ensures UserViews(at.g.users) == old(UserViews(at.g.users))[at.i := at.u.View()]
  {
    forall x | x in at.g.users && x != at.u ensures x.View() == old(x.View()) && x.Ok() {
      assert old(x.Ok()) && old(at.u.Ok());
      forall r | r in x.resources ensures unchanged(r) {
        assert old(r.owner) == x;
      }
      x.Kept();
    }
  }

  /** The changes of `update_user_presence` to a contact that was found, before its
      group is sorted. */
  method TouchContact(g: GroupRec, u: UserRec, ghost i: nat, p: Presence) returns (accepted: bool, signals: seq<Signal>)
    requires g.Ok() && i < |g.users| && g.users[i] == u
    modifies u, u.resources
    ensures g.Ok() && g.users == old(g.users)
    ensures forall r | r in u.resources :: r in old(u.resources) || fresh(r)
    ensures var v := old(u.View());
            var t := Touch(v.resources, p);
            && UserViews(g.users) == old(UserViews(g.users))[i := v.(error := false, resources := t.resources)]
            && accepted == t.accepted && signals == t.signals
  {
    ghost var was := u.View();
    assert was.resources == ResourceViews(u.resources) && u.Ok();
    u.error := false;
    var rs;
    rs, accepted, signals := TouchRecs(u.resources, u, p);
    u.resources := rs;
    assert u.View() == was.(error := false, resources := Touch(was.resources, p).resources);
    OneUserChanged(Place(g, u, i));
  }

  /** `update_user_presence` for a contact that was found. */
  method ContactAvailable(g: GroupRec, u: UserRec, ghost i: nat, p: Presence) returns (signals: seq<Signal>)
    requires g.Ok() && i < |g.users| && g.users[i] == u
    modifies g, u, u.resources
    ensures g.Ok() && forall x | x in g.users :: x in old(g.users)
    ensures forall r | r in u.resources :: r in old(u.resources) || fresh(r)
    ensures var us := old(UserViews(g.users));
            var t := Touch(us[i].resources, p);
            var us1 := us[i := us[i].(error := false, resources := t.resources)];
            UserViews(g.users) == (if t.accepted then SortUsers(us1) else us1) && signals == t.signals
  {
    var accepted;
    accepted, signals := TouchContact(g, u, i, p);
    if accepted {
      ghost var k := SortUserRecs(g, i);
    }
  }

  lemma ResourceViewsWithout(rs: seq<ResourceRec>, k: nat)
    requires k < |rs|
    ensures ResourceViews(RemoveAt(rs, k)) == RemoveAt(ResourceViews(rs), k)
  {
  }

  lemma UserViewsWithout(us: seq<UserRec>, k: nat)
    requires k < |us|
    ensures UserViews(RemoveAt(us, k)) == RemoveAt(UserViews(us), k)
  {
  }

  /** Finds the resource called `res` and takes it out of the list. */
  method DropRec(rs: seq<ResourceRec>, res: Option<string>) returns (rest: seq<ResourceRec>, found: bool)
    requires NoDup(rs)
    ensures NoDup(rest) && forall r | r in rest :: r in rs
    ensures var views := old(ResourceViews(rs));
            var k := FindResource(views, res);
            found == k.Some? && ResourceViews(rest) == if k.Some? then RemoveAt(views, k.value) else views
  {
    var r, k := FindResourceRec(rs, res);
    if r == null {
      return rs, false;
    }
    RemoveOneFirst(rs, k.value);
    RemoveAtMembers(rs, k.value);
    ResourceViewsWithout(rs, k.value);
    return RemoveOne<ResourceRec>(rs, r), true;
  }

  /** The changes of `user_unavailable` to a contact that was found, before its group
      is sorted. */
  method DropResource(g: GroupRec, u: UserRec, ghost i: nat, full: string) returns (found: bool)
    requires g.Ok() && i < |g.users| && g.users[i] == u
    modifies u
    ensures g.Ok() && g.users == old(g.users)
    ensures forall r | r in u.resources :: r in old(u.resources)
    ensures var v := old(u.View());
            var k := FindResource(v.resources, Extract(full));
            && found == k.Some?
            && UserViews(g.users) == old(UserViews(g.users))[i := v.(error := false,
                 resources := if k.Some? then RemoveAt(v.resources, k.value) else v.resources)]
  {
    ghost var was := u.View();
    assert was.resources == ResourceViews(u.resources) && u.Ok();
    u.error := false;
    var rest;
    rest, found := DropRec(u.resources, Extract(full));
    u.resources := rest;
    OneUserChanged(Place(g, u, i));
  }

  method MarkOne(rs: seq<ResourceRec>, r: ResourceRec, ghost k: nat)
    requires NoDup(rs) && k < |rs| && rs[k] == r
    modifies r`show
    ensures ResourceViews(rs) == old(ResourceViews(rs))[k := old(r.View()).(show := ERROR)]
  {
    r.show := ERROR;
  }

  /** The changes of `user_presence_error` to a contact that was found, before its
      group is sorted. */
  method MarkResource(g: GroupRec, u: UserRec, ghost i: nat, full: string) returns (found: bool)
    requires g.Ok() && i < |g.users| && g.users[i] == u
    modifies u, u.resources
    ensures g.Ok() && g.users == old(g.users) && u.resources == old(u.resources)
    ensures var v := old(u.View());
            var k := FindResource(v.resources, Extract(full));
            && found == k.Some?
            && UserViews(g.users) == old(UserViews(g.users))[i :=
                 if k.Some? then v.(resources := v.resources[k.value := v.resources[k.value].(show := ERROR)])
                 else v.(error := true)]
  {
    ghost var was := u.View();
    assert was.resources == ResourceViews(u.resources) && u.Ok();
    var r, k := FindResourceRec(u.resources, Extract(full));
    found := r != null;
    if found {
      MarkOne(u.resources, r, k.value);
    } else {
      u.error := true;
    }
    assert u.Ok();
    OneUserChanged(Place(g, u, i));
  }

  ghost predicate NotIn(gs: seq<Group>, i: int, jid: string) {
    0 <= i <= |gs| && forall h | 0 <= h < i :: FindInUsers(gs[h].users, jid).None?
  }

  ghost predicate NotBefore(us: seq<User>, k: int, jid: string) {
    0 <= k <= |us| && forall j | 0 <= j < k :: us[j].jid != jid
  }

  lemma {:induction false} FindInUsersFirst(us: seq<User>, k: nat, jid: string)
    requires NotBefore(us, k, jid)
    ensures k < |us| && us[k].jid == jid ==> FindInUsers(us, jid) == Some(k)
    ensures k == |us| ==> FindInUsers(us, jid).None?
  {
    if k == 0 {
    } else {
      FindInUsersFirst(us[1..], k - 1, jid);
    }
  }

  lemma {:induction false} FindUserFirst(gs: seq<Group>, g: nat, k: nat, jid: string)
    requires UserAt(gs, (g, k)) && NotIn(gs, g, jid)
    requires NotBefore(gs[g].users, k, jid) && gs[g].users[k].jid == jid
    ensures FindUser(gs, jid) == Some((g, k))
  {
    if g > 0 {
      FindUserFirst(gs[1..], g - 1, k, jid);
    } else {
      FindInUsersFirst(gs[0].users, k, jid);
    }
  }

  lemma {:induction false} FindUserMissing(gs: seq<Group>, jid: string)
    requires NotIn(gs, |gs|, jid)
    ensures FindUser(gs, jid) == None
  {
    if gs == [] {
    } else {
      FindUserMissing(gs[1..], jid);
    }
  }

  /** The search loop of `rosters_find_user`, for a JID already cut at its '/'. */
  method FindUserRec(groups: seq<GroupRec>, jid: string)
    returns (group: GroupRec?, user: UserRec?, ghost at: Option<(nat, nat)>)
    ensures at == FindUser(GroupViews(groups), jid)
    ensures group == if at.Some? then groups[at.value.0] else null
    ensures user == if at.Some? then groups[at.value.0].users[at.value.1] else null
  {
    ghost var gs := GroupViews(groups);
    for i := 0 to |groups|
      invariant gs == GroupViews(groups) && NotIn(gs, i, jid)
    {
      var us := groups[i].users;
      ghost var vs := gs[i].users;
      assert vs == UserViews(us);
      for k := 0 to |us|
        invariant gs == GroupViews(groups) && NotBefore(vs, k, jid)
      {
        assert vs[k] == us[k].View();
        if us[k].jid == jid {
          FindUserFirst(gs, i, k, jid);
          return groups[i], us[k], Some((i, k));
        }
      }
      FindInUsersFirst(vs, |us|, jid);
    }
    FindUserMissing(gs, jid);
    return null, null, None;
  }

  // ----- One presence in the whole roster

  /** A handler works on user `u` of group `g`, at index `i` of the roster. */
  datatype GroupPlace = GroupPlace(groups: seq<GroupRec>, g: GroupRec, i: nat)

  /** Changing one group changes that entry of the roster's view only. */
  twostate lemma OneGroupChanged(at: GroupPlace)
    requires old(RosterOk(at.groups)) && at.i < |at.groups| && at.groups[at.i] == at.g && at.g.Ok()
    requires forall h | h in at.groups && h != at.g :: unchanged(h) && forall x | x in h.users ::
               unchanged(x) && forall r | r in x.resources :: unchanged(r)
    ensures RosterOk(at.groups)
    ensures GroupViews(at.groups) == old(GroupViews(at.groups))[at.i := at.g.View()]
  {
    forall h | h in at.groups && h != at.g ensures h.View() == old(h.View()) && h.Ok() {
      h.Kept();
    }
    forall j | 0 <= j < |at.groups| && j != at.i ensures at.groups[j].View() == old(at.groups[j].View()) {
      assert at.groups[j] in at.groups && at.groups[j] != at.g;
    }
  }

  /** A roster that nothing wrote to looks as before. */
  twostate lemma RosterKept(gs: seq<GroupRec>)
    requires forall h | h in gs :: unchanged(h) && forall x | x in h.users ::
               unchanged(x) && forall r | r in x.resources :: unchanged(r)
    ensures GroupViews(gs) == old(GroupViews(gs)) && RosterOk(gs) == old(RosterOk(gs))
  {
    forall h | h in gs ensures h.View() == old(h.View()) && h.Ok() == old(h.Ok()) {
      h.Kept();
    }
    assert forall j | 0 <= j < |gs| :: gs[j] in gs;
  }

  twostate lemma ResourcesKept(rs: seq<ResourceRec>)
    requires forall r | r in rs :: unchanged(r)
    ensures ResourceViews(rs) == old(ResourceViews(rs))
  {
    forall k | 0 <= k < |rs| ensures rs[k].View() == old(rs[k].View()) {
      assert rs[k] in rs;
    }
  }

  lemma OwnersApart(gs: seq<GroupRec>, g: GroupRec, u: UserRec)
    requires RosterOk(gs) && g in gs && u in g.users
    ensures g.Ok() && u.Ok()
    ensures forall h, x | h in gs && h != g && x in h.users ::
              x != u && forall r | r in x.resources :: r !in u.resources
  {
    forall h, x | h in gs && h != g && x in h.users ensures x != u && forall r | r in x.resources :: r !in u.resources {
      assert h.Ok() && x.Ok() && g.Ok() && u.Ok();
    }
  }

  ghost predicate IsAt(gs: seq<GroupRec>, g: GroupRec, u: UserRec, at: (nat, nat))
    reads gs
  {
    at.0 < |gs| && gs[at.0] == g && at.1 < |g.users| && g.users[at.1] == u
  }

  method AvailableIn(gs: seq<GroupRec>, g: GroupRec, u: UserRec, ghost at: (nat, nat), p: Presence)
    returns (signals: seq<Signal>)
    requires RosterOk(gs) && IsAt(gs, g, u, at)
    modifies g, u, u.resources
    ensures RosterOk(gs) && forall x | x in g.users :: x in old(g.users)
    ensures forall r | r in u.resources :: r in old(u.resources) || fresh(r)
    ensures var us := old(UserViews(g.users));
            var t := Touch(us[at.1].resources, p);
            var us1 := us[at.1 := us[at.1].(error := false, resources := t.resources)];
            && GroupViews(gs) == SetUsers(old(GroupViews(gs)), at.0, if t.accepted then SortUsers(us1) else us1)
            && signals == t.signals
  {
    OwnersApart(gs, g, u);
    signals := ContactAvailable(g, u, at.1, p);
    OneGroupChanged(GroupPlace(gs, g, at.0));
  }

  method UnavailableIn(gs: seq<GroupRec>, g: GroupRec, u: UserRec, ghost at: (nat, nat), full: string)
    returns (found: bool)
    requires RosterOk(gs) && IsAt(gs, g, u, at)
    modifies g, u
    ensures RosterOk(gs) && forall x | x in g.users :: x in old(g.users)
    ensures forall r | r in u.resources :: r in old(u.resources)
    ensures var us := old(UserViews(g.users));
            var k := FindResource(us[at.1].resources, Extract(full));
            var us1 := us[at.1 := us[at.1].(error := false,
                         resources := if k.Some? then RemoveAt(us[at.1].resources, k.value) else us[at.1].resources)];
            && found == k.Some?
            && GroupViews(gs) == SetUsers(old(GroupViews(gs)), at.0, if found then SortUsers(us1) else us1)
  {
    OwnersApart(gs, g, u);
    found := DropResource(g, u, at.1, full);
    if found {
      ghost var k := SortUserRecs(g, at.1);
    }
    OneGroupChanged(GroupPlace(gs, g, at.0));
  }

  method ErrorIn(gs: seq<GroupRec>, g: GroupRec, u: UserRec, ghost at: (nat, nat), full: string)
    returns (found: bool)
    requires RosterOk(gs) && IsAt(gs, g, u, at)
    modifies g, u, u.resources
    ensures RosterOk(gs) && forall x | x in g.users :: x in old(g.users)
    ensures u.resources == old(u.resources)
    ensures var us := old(UserViews(g.users));
            var rs := us[at.1].resources;
            var k := FindResource(rs, Extract(full));
            var us1 := us[at.1 := if k.Some? then us[at.1].(resources := rs[k.value := rs[k.value].(show := ERROR)])
                                  else us[at.1].(error := true)];
            && found == k.Some?
            && GroupViews(gs) == SetUsers(old(GroupViews(gs)), at.0, if found then SortUsers(us1) else us1)
  {
    OwnersApart(gs, g, u);
    found := MarkResource(g, u, at.1, full);
    if found {
      ghost var k := SortUserRecs(g, at.1);
    }
    OneGroupChanged(GroupPlace(gs, g, at.0));
  }

  // ----- Roster pushes

  lemma {:induction false} InsertGroupAt(gs: seq<Group>, g: Group, k: nat)
    requires k <= |gs|
    requires forall j | 0 <= j < k :: GroupCmp(g.name, gs[j].name) > 0
    requires k < |gs| ==> GroupCmp(g.name, gs[k].name) <= 0
    ensures InsertGroup(gs, g) == gs[..k] + [g] + gs[k..]
  {
    if k == 0 {
    } else {
      InsertGroupAt(gs[1..], g, k - 1);
      assert gs[..k] == [gs[0]] + gs[1..][..k - 1] && gs[1..][k - 1..] == gs[k..];
    }
  }

  lemma {:induction false} FindGroupFirst(gs: seq<Group>, k: nat, name: Option<string>)
    requires k <= |gs| && forall j | 0 <= j < k :: gs[j].name != name
    ensures k < |gs| && gs[k].name == name ==> FindGroup(gs, name) == Some(k)
    ensures k == |gs| ==> FindGroup(gs, name) == None
  {
    if k == 0 {
    } else {
      FindGroupFirst(gs[1..], k - 1, name);
    }
  }

  /** `g_slist_find_custom(groups, name, func_find_group)` */
  method FindGroupRec(gs: seq<GroupRec>, name: Option<string>) returns (g: GroupRec?, ghost at: Option<nat>)
    ensures at == FindGroup(GroupViews(gs), name)
    ensures g == if at.Some? then gs[at.value] else null
  {
    ghost var vs := GroupViews(gs);
    for k := 0 to |gs|
      invariant forall j | 0 <= j < k :: vs[j].name != name
    {
      if gs[k].name == name {
        FindGroupFirst(vs, k, name);
        return gs[k], Some(k);
      }
    }
    FindGroupFirst(vs, |gs|, name);
    return null, None;
  }

  lemma {:induction false} FindGroupMissing(gs: seq<Group>, name: Option<string>)
    requires FindGroup(gs, name).None?
    ensures forall j | 0 <= j < |gs| :: gs[j].name != name
  {
    if gs == [] {
    } else {
      FindGroupMissing(gs[1..], name);
      assert forall j | 0 < j < |gs| :: gs[j] == gs[1..][j - 1];
    }
  }

  lemma UniqueIndex(gs: seq<Group>, name: Option<string>, k: nat)
    requires k <= |gs| && FindGroup(gs, name).None?
    requires FindOrAddGroup(gs, name) == gs[..k] + [Group(name, [])] + gs[k..]
    ensures GroupIndex(gs, name) == k
  {
    var hs := FindOrAddGroup(gs, name);
    FindGroupMissing(gs, name);
    assert forall j | 0 <= j < k :: hs[j] == gs[j];
    FindGroupFirst(hs, k, name);
  }

  /** Links a new, empty group into the list. */
  method AddGroupRec(gs: seq<GroupRec>, name: Option<string>, at: nat)
    returns (gs': seq<GroupRec>, g: GroupRec, ghost i: nat)
    requires RosterOk(gs) && at <= |gs|
    ensures fresh(g) && g.name == name && g.users == [] && i == at && gs' == gs[..at] + [g] + gs[at..]
    ensures RosterOk(gs')
    ensures GroupViews(gs') == old(GroupViews(gs))[..at] + [Group(name, [])] + old(GroupViews(gs))[at..]
  {
    g := new GroupRec(name);
    gs' := gs[..at] + [g] + gs[at..];
    i := at;
    forall h | h in gs ensures h.View() == old(h.View()) && h.Ok() {
      h.Kept();
    }
    assert forall j | 0 <= j < |gs| :: gs[j] in gs;
    assert UserViews(g.users) == [];
  }

  /** `g_slist_insert_sorted(groups, group, func_sort_group)` for a group that is new. */
  method InsertGroupRec(gs: seq<GroupRec>, name: Option<string>)
    returns (gs': seq<GroupRec>, g: GroupRec, ghost i: nat)
    requires RosterOk(gs) && FindGroup(GroupViews(gs), name).None?
    ensures RosterOk(gs') && i < |gs'| && gs'[i] == g && fresh(g) && g.users == []
    ensures i == GroupIndex(old(GroupViews(gs)), name)
    ensures GroupViews(gs') == FindOrAddGroup(old(GroupViews(gs)), name)
    ensures |gs'| == |gs| + 1 && forall k | 0 <= k < |gs| :: gs'[if i <= k then k + 1 else k] == gs[k]
    ensures forall h | h in gs' :: h in gs || h == g
  {
    ghost var vs := GroupViews(gs);
    var at := 0;
    while at < |gs| && GroupCmp(name, gs[at].name) > 0
      invariant at <= |gs| && forall j | 0 <= j < at :: GroupCmp(name, vs[j].name) > 0
    {
      at := at + 1;
    }
    InsertGroupAt(vs, Group(name, []), at);
    gs', g, i := AddGroupRec(gs, name, at);
    InsertedAt(gs, at, g);
    UniqueIndex(vs, name, at);
  }

  /** `find_or_add_group`: the search, and `g_slist_insert_sorted` when it fails. */
  method FindOrAddGroupRec(gs: seq<GroupRec>, name: Option<string>)
    returns (gs': seq<GroupRec>, g: GroupRec, ghost i: nat)
    requires RosterOk(gs)
    ensures RosterOk(gs') && i < |gs'| && gs'[i] == g
    ensures i == GroupIndex(old(GroupViews(gs)), name)
    ensures GroupViews(gs') == FindOrAddGroup(old(GroupViews(gs)), name)
    ensures if FindGroup(old(GroupViews(gs)), name).Some? then gs' == gs
            else fresh(g) && g.users == [] && |gs'| == |gs| + 1
    ensures forall k | 0 <= k < |gs| ::
              gs'[if FindGroup(old(GroupViews(gs)), name).None? && i <= k then k + 1 else k] == gs[k]
    ensures forall h | h in gs' :: h in gs || h == g
  {
    var found;
    ghost var at;
    found, at := FindGroupRec(gs, name);
    RosterKept(gs);
    if found != null {
      return gs, found, at.value;
    }
    gs', g, i := InsertGroupRec(gs, name);
  }

  /** Links user `u`, which is in no group, to the end of group `g`. */
  method AppendUserRec(gs: seq<GroupRec>, g: GroupRec, ghost i: nat, u: UserRec)
    requires RosterOk(gs) && i < |gs| && gs[i] == g && u.Ok()
    requires forall h | h in gs :: u !in h.users
    modifies g, u`owner
    ensures RosterOk(gs) && g.users == old(g.users) + [u] && u.View() == old(u.View())
    ensures GroupViews(gs) == SetUsers(old(GroupViews(gs)), i, old(UserViews(g.users)) + [old(u.View())])
  {
    ghost var before := UserViews(g.users);
    assert g.Ok();
    g.users := g.users + [u];
    u.owner := g;
    assert forall r | r in u.resources :: r.owner == u;
    forall x | x in g.users ensures x.View() == old(x.View()) && x.Ok() && x.owner == g {
      if x != u {
        assert x in old(g.users) && old(g.Ok()) && old(x.Ok());
        x.Kept();
      } else {
        assert ResourceViews(u.resources) == old(ResourceViews(u.resources));
      }
    }
    assert UserViews(g.users) == before + [u.View()];
    OneGroupChanged(GroupPlace(gs, g, i));
  }

  /** Unlinks user `u` from its group. */
  method RemoveUserRec(gs: seq<GroupRec>, g: GroupRec, u: UserRec, ghost at: (nat, nat))
    requires RosterOk(gs) && IsAt(gs, g, u, at)
    modifies g
    ensures RosterOk(gs) && u.Ok() && forall h | h in gs :: u !in h.users
    ensures forall x | x in g.users :: x in old(g.users)
    ensures g.users == RemoveAt(old(g.users), at.1)
    ensures GroupViews(gs) == SetUsers(old(GroupViews(gs)), at.0, RemoveAt(old(UserViews(g.users)), at.1))
  {
    ghost var before := UserViews(g.users);
    OwnersApart(gs, g, u);
    RemoveOneFirst(g.users, at.1);
    RemoveAtMembers(g.users, at.1);
    UserViewsWithout(g.users, at.1);
    g.users := RemoveOne(g.users, u);
    forall x | x in g.users ensures x.View() == old(x.View()) && x.Ok() && x.owner == g {
      assert old(x.Ok());
      x.Kept();
    }
    UserViewsKept(g.users);
    OneGroupChanged(GroupPlace(gs, g, at.0));
  }

  lemma ViewAt(gs: seq<GroupRec>, g: GroupRec, u: UserRec, at: (nat, nat))
    requires IsAt(gs, g, u, at)
    ensures GroupViews(gs)[at.0] == g.View() && GroupViews(gs)[at.0].users == UserViews(g.users)
    ensures GroupViews(gs)[at.0].users[at.1] == u.View()
  {
  }

  /** Sorts one group of the roster, following the user at `at`. */
  method SortGroupIn(gs: seq<GroupRec>, g: GroupRec, u: UserRec, ghost at: (nat, nat)) returns (ghost at': (nat, nat))
    requires RosterOk(gs) && IsAt(gs, g, u, at)
    modifies g
    ensures RosterOk(gs) && IsAt(gs, g, u, at') && u.View() == old(u.View())
    ensures forall h, x | h in gs && x in h.users :: x in old(h.users)
    ensures UserAt(old(GroupViews(gs)), at) && (GroupViews(gs), at') == SortGroup(old(GroupViews(gs)), at)
  {
    ViewAt(gs, g, u, at);
    ghost var k := SortUserRecs(g, at.1);
    OneGroupChanged(GroupPlace(gs, g, at.0));
    at' := (at.0, k);
  }

  /** Takes user `u` from group `g` and links it to the end of group `g'`. */
  method RelinkUserRec(gs: seq<GroupRec>, g: GroupRec, g': GroupRec, u: UserRec, ghost from: (nat, nat), ghost i: nat)
    requires RosterOk(gs) && IsAt(gs, g, u, from) && i < |gs| && gs[i] == g' && i != from.0
    modifies g, g', u`owner
    ensures RosterOk(gs) && g'.users == old(g'.users) + [u] && u.View() == old(u.View())
    ensures forall h, x | h in gs && x in h.users :: x == u || x in old(h.users)
    ensures var vs := old(GroupViews(gs));
            var us := vs[from.0].users;
            GroupViews(gs) == SetUsers(SetUsers(vs, from.0, RemoveAt(us, from.1)), i, vs[i].users + [us[from.1]])
  {
    assert GroupViews(gs)[from.0] == g.View() && GroupViews(gs)[i] == g'.View();
    RemoveUserRec(gs, g, u, from);
    AppendUserRec(gs, g', i, u);
  }

  /** `RelinkUserRec`, once the group is there. */
  method MoveUserInto(gs: seq<GroupRec>, g: GroupRec, g': GroupRec, u: UserRec,
                      ghost vs: seq<Group>, ghost at: (nat, nat), ghost group: Option<string>, ghost from: nat)
    requires RosterOk(gs) && IsAt(gs, g, u, (from, at.1)) && GroupViews(gs) == FindOrAddGroup(vs, group)
    requires gs[GroupIndex(vs, group)] == g' && UserAt(vs, at) && vs[at.0].name != group
    requires from == if FindGroup(vs, group).None? && GroupIndex(vs, group) <= at.0 then at.0 + 1 else at.0
    modifies g, g', u`owner
    ensures RosterOk(gs) && g'.users == old(g'.users) + [u] && u.View() == old(u.View())
    ensures forall h, x | h in gs && x in h.users :: x == u || x in old(h.users)
    ensures GroupViews(gs) == MoveUser(vs, at, group)
  {
    MoveUserUnfolds(vs, at, group, from);
    RelinkUserRec(gs, g, g', u, (from, at.1), GroupIndex(vs, group));
  }

  /** `move_user` */
  method MoveUserRec(gs: seq<GroupRec>, g: GroupRec, u: UserRec, ghost at: (nat, nat), group: Option<string>)
    returns (gs': seq<GroupRec>, g': GroupRec, ghost i: nat)
    requires RosterOk(gs) && IsAt(gs, g, u, at) && g.name != group
    modifies gs, u`owner
    ensures RosterOk(gs') && i < |gs'| && gs'[i] == g' && |g'.users| > 0 && g'.users[|g'.users| - 1] == u
    ensures u.View() == old(u.View())
    ensures i == GroupIndex(old(GroupViews(gs)), group)
    ensures GroupViews(gs') == MoveUser(old(GroupViews(gs)), at, group)
    ensures forall h | h in gs' :: h in gs || fresh(h)
    ensures forall h, x | h in gs' && x in h.users :: x == u || (h in gs && x in old(h.users))
  {
    ghost var vs := GroupViews(gs);
    ViewAt(gs, g, u, at);
    assert UserAt(vs, at) && vs[at.0].name != group;
    gs', g', i := FindOrAddGroupRec(gs, group);
    ghost var from: nat := if FindGroup(vs, group).None? && i <= at.0 then at.0 + 1 else at.0;
    OldGroupPlace(vs, at.0, group, from);
    assert gs'[from] == gs[at.0];
    MoveUserInto(gs', g, g', u, vs, at, group, from);
  }

  /** Sorts the group whose last user is `u`. */
  method SortLastIn(gs: seq<GroupRec>, g: GroupRec, u: UserRec, ghost i: nat) returns (ghost at': (nat, nat))
    requires RosterOk(gs) && i < |gs| && gs[i] == g && |g.users| > 0 && g.users[|g.users| - 1] == u
    modifies g
    ensures RosterOk(gs) && IsAt(gs, g, u, at') && u.View() == old(u.View())
    ensures forall h, x | h in gs && x in h.users :: x in old(h.users)
    ensures UserAt(old(GroupViews(gs)), (i, |old(GroupViews(gs))[i].users| - 1))
            && (GroupViews(gs), at') == SortGroup(old(GroupViews(gs)), (i, |old(GroupViews(gs))[i].users| - 1))
  {
    assert GroupViews(gs)[i] == g.View();
    at' := SortGroupIn(gs, g, u, (i, |g.users| - 1));
  }

  /** The group change of `update_user`: the user is moved and its new group sorted. */
  method MoveStepRec(gs: seq<GroupRec>, g: GroupRec, u: UserRec, ghost at: (nat, nat), group: Option<string>)
    returns (gs': seq<GroupRec>, g': GroupRec, ghost at': (nat, nat))
    requires RosterOk(gs) && IsAt(gs, g, u, at)
    modifies gs, u`owner
    ensures RosterOk(gs') && IsAt(gs', g', u, at') && u.View() == old(u.View())
    ensures (GroupViews(gs'), at') == MoveStep(old(GroupViews(gs)), at, group)
    ensures forall h | h in gs' :: h in gs || fresh(h)
    ensures forall h, x | h in gs' && x in h.users :: x == u || (h in gs && x in old(h.users))
  {
    if g.name == group {
      return gs, g, at;
    }
    ghost var vs := GroupViews(gs);
    ghost var i;
    ViewAt(gs, g, u, at);
    gs', g', i := MoveUserRec(gs, g, u, at, group);
    assert g' in gs';
    at' := SortLastIn(gs', g', u, i);
  }

  /** `name` is set on a user of the roster. */
  method RenameIn(gs: seq<GroupRec>, g: GroupRec, u: UserRec, ghost at: (nat, nat), name: Option<string>)
    requires RosterOk(gs) && IsAt(gs, g, u, at)
    modifies u`name
    ensures RosterOk(gs)
    ensures var us := old(UserViews(g.users))[at.1 := old(u.View()).(name := name)];
            GroupViews(gs) == SetUsers(old(GroupViews(gs)), at.0, us)
  {
    OwnersApart(gs, g, u);
    u.name := name;
    OneUserChanged(Place(g, u, at.1));
    OneGroupChanged(GroupPlace(gs, g, at.0));
  }

  /** The name change of `update_user`: the group is sorted if the name differs. */
  method RenameStepRec(gs: seq<GroupRec>, g: GroupRec, u: UserRec, ghost at: (nat, nat), name: Option<string>)
    returns (ghost at': (nat, nat))
    requires RosterOk(gs) && IsAt(gs, g, u, at)
    modifies g, u`name
    ensures RosterOk(gs) && IsAt(gs, g, u, at')
    ensures forall h, x | h in gs && x in h.users :: x in old(h.users)
    ensures (GroupViews(gs), at') == RenameStep(old(GroupViews(gs)), at, name)
  {
    ViewAt(gs, g, u, at);
    if u.name == name {
      return at;
    }
    RenameIn(gs, g, u, at, name);
    at' := SortGroupIn(gs, g, u, at);
  }

  /** The changes of `update_user` to a contact that was found, but for the subscription. */
  method MoveAndRenameRec(gs: seq<GroupRec>, g: GroupRec, u: UserRec, ghost at: (nat, nat),
                          name: Option<string>, group: Option<string>)
    returns (gs': seq<GroupRec>, g': GroupRec, ghost at': (nat, nat))
    requires RosterOk(gs) && IsAt(gs, g, u, at)
    modifies gs, u`owner, u`name
    ensures RosterOk(gs') && IsAt(gs', g', u, at')
    ensures (GroupViews(gs'), at') == MoveAndRename(old(GroupViews(gs)), at, name, group)
    ensures forall h | h in gs' :: h in gs || fresh(h)
    ensures forall h, x | h in gs' && x in h.users :: x == u || (h in gs && x in old(h.users))
  {
    ViewAt(gs, g, u, at);
    gs', g', at' := MoveStepRec(gs, g, u, at, group);
    assert g' in gs';
    at' := RenameStepRec(gs', g', u, at', name);
  }

  /** `subscription` is set on a user of the roster. */
  method SubscribeIn(gs: seq<GroupRec>, g: GroupRec, u: UserRec, ghost at: (nat, nat), subscription: Subscription)
    requires RosterOk(gs) && IsAt(gs, g, u, at)
    modifies u`subscription
    ensures RosterOk(gs)
    ensures GroupViews(gs) == SetUsers(old(GroupViews(gs)), at.0,
                                old(UserViews(g.users))[at.1 := old(u.View()).(subscription := subscription)])
  {
    OwnersApart(gs, g, u);
    u.subscription := subscription;
    OneUserChanged(Place(g, u, at.1));
    OneGroupChanged(GroupPlace(gs, g, at.0));
  }

  lemma RemoveAtUpdated<T>(s: seq<T>, i: nat, x: T)
    requires i < |s|
    ensures RemoveAt(s[i := x], i) == RemoveAt(s, i)
  {
  }

  /** "remove empty group" */
  method RemoveGroupRec(gs: seq<GroupRec>, g: GroupRec, ghost i: nat) returns (gs': seq<GroupRec>)
    requires RosterOk(gs) && i < |gs| && gs[i] == g
    ensures RosterOk(gs') && GroupViews(gs') == RemoveAt(old(GroupViews(gs)), i)
    ensures forall h | h in gs' :: h in gs
  {
    RemoveOneFirst(gs, i);
    RemoveAtMembers(gs, i);
    gs' := RemoveOne(gs, g);
  }

  /** `update_subscription` */
  method UpdateSubscriptionRec(gs: seq<GroupRec>, g: GroupRec, u: UserRec, ghost at: (nat, nat),
                               subscription: Option<string>)
    returns (gs': seq<GroupRec>)
    requires RosterOk(gs) && IsAt(gs, g, u, at)
    modifies g, u`subscription
    ensures RosterOk(gs')
    ensures GroupViews(gs') == UpdateSubscription(old(GroupViews(gs)), at, ParseSubscription(subscription))
    ensures forall h | h in gs' :: h in gs
    ensures forall h, x | h in gs && x in h.users :: x in old(h.users)
  {
    ghost var vs := GroupViews(gs);
    ViewAt(gs, g, u, at);
    var change := ParseSubscription(subscription);
    gs' := gs;
    if change.Become? {
      SubscribeIn(gs, g, u, at, change.subscription);
    } else if change.Remove? {
      RemoveUserRec(gs, g, u, at);
      if g.users == [] {
        assert |vs[at.0].users| == 1;
        assert RemoveAt(vs[at.0].users, at.1) == [];
        gs' := RemoveGroupRec(gs, g, at.0);
        RemoveAtUpdated(vs, at.0, vs[at.0].(users := []));
      }
    }
  }

  /** A new user at the end of a group that is there. */
  method NewUserIn(gs: seq<GroupRec>, g: GroupRec, jid: string, name: Option<string>,
                   ghost vs: seq<Group>, ghost group: Option<string>)
    returns (u: UserRec)
    requires RosterOk(gs) && GroupViews(gs) == FindOrAddGroup(vs, group) && gs[GroupIndex(vs, group)] == g
    modifies g
    ensures RosterOk(gs) && fresh(u) && u.resources == [] && g.users == old(g.users) + [u]
    ensures forall h, x | h in gs && x in h.users :: x == u || x in old(h.users)
    ensures GroupViews(gs) == AddUser(vs, User(jid, name, SubNone, false, []), group)
    ensures |GroupViews(gs)[GroupIndex(vs, group)].users| == |g.users|
  {
    label L:
    u := new UserRec(jid, name, g);
    RosterKept@L(gs);
    AppendUserRec(gs, g, GroupIndex(vs, group), u);
  }

  /** `add_user` */
  method AddUserRec(gs: seq<GroupRec>, jid: string, name: Option<string>, group: Option<string>)
    returns (gs': seq<GroupRec>, g: GroupRec, u: UserRec, ghost at: (nat, nat))
    requires RosterOk(gs)
    modifies gs
    ensures RosterOk(gs') && IsAt(gs', g, u, at) && fresh(u) && u.resources == []
    ensures GroupViews(gs') == AddUser(old(GroupViews(gs)), User(jid, name, SubNone, false, []), group)
    ensures at == (GroupIndex(old(GroupViews(gs)), group), |GroupViews(gs')[at.0].users| - 1)
    ensures forall h | h in gs' :: h in gs || fresh(h)
    ensures forall h, x | h in gs' && x in h.users :: x == u || (h in gs && x in old(h.users))
  {
    ghost var vs := GroupViews(gs);
    ghost var i;
    gs', g, i := FindOrAddGroupRec(gs, group);
    u := NewUserIn(gs', g, jid, name, vs, group);
    at := (i, |g.users| - 1);
  }

  /** The subscription of a user just added to the roster `vs`. */
  method SubscribeNew(gs: seq<GroupRec>, g: GroupRec, u: UserRec, subscription: Option<string>, ghost at: (nat, nat),
                      ghost vs: seq<Group>, ghost jid: string, ghost name: Option<string>, ghost group: Option<string>)
    returns (gs': seq<GroupRec>)
    requires RosterOk(gs) && IsAt(gs, g, u, at) && FindUser(vs, Strip(jid)).None?
    requires GroupViews(gs) == AddUser(vs, User(jid, name, SubNone, false, []), group)
    requires at == (GroupIndex(vs, group), |GroupViews(gs)[at.0].users| - 1)
    modifies g, u`subscription
    ensures RosterOk(gs') && GroupViews(gs') == UpdateUser(vs, jid, subscription, name, group)
    ensures forall h | h in gs' :: h in gs
    ensures forall h, x | h in gs && x in h.users :: x in old(h.users)
  {
    ViewAt(gs, g, u, at);
    UpdateUserNew(vs, jid, subscription, name, group, GroupViews(gs), at);
    gs' := UpdateSubscriptionRec(gs, g, u, at, subscription);
  }

  /** `update_user` for a JID that is not found. */
  method AddContact(gs: seq<GroupRec>, jid: string, subscription: Option<string>,
                    name: Option<string>, group: Option<string>)
    returns (gs': seq<GroupRec>, u: UserRec)
    requires RosterOk(gs) && FindUser(GroupViews(gs), Strip(jid)).None?
    modifies gs
    ensures RosterOk(gs') && fresh(u) && u.resources == []
    ensures GroupViews(gs') == UpdateUser(old(GroupViews(gs)), jid, subscription, name, group)
    ensures forall h | h in gs' :: h in gs || fresh(h)
    ensures forall h, x | h in gs' && x in h.users :: x == u || (h in gs && x in old(h.users))
  {
    var gs1, g;
    ghost var at;
    ghost var vs := GroupViews(gs);
    gs1, g, u, at := AddUserRec(gs, jid, name, group);
    assert g in gs1;
    gs' := SubscribeNew(gs1, g, u, subscription, at, vs, jid, name, group);
  }

  /** `update_user` for a contact that was found. */
  method ChangeContact(gs: seq<GroupRec>, g: GroupRec, u: UserRec, ghost at: (nat, nat),
                       jid: string, subscription: Option<string>, name: Option<string>, group: Option<string>)
    returns (gs': seq<GroupRec>)
    requires RosterOk(gs) && IsAt(gs, g, u, at) && FindUser(GroupViews(gs), Strip(jid)) == Some(at)
    modifies gs, u`owner, u`name, u`subscription
    ensures RosterOk(gs')
    ensures GroupViews(gs') == UpdateUser(old(GroupViews(gs)), jid, subscription, name, group)
    ensures forall h | h in gs' :: h in gs || fresh(h)
    ensures forall h, x | h in gs' && x in h.users :: x == u || (h in gs && x in old(h.users))
  {
    var gs1, g1;
    ghost var at1;
    gs1, g1, at1 := MoveAndRenameRec(gs, g, u, at, name, group);
    assert g1 in gs1;
    gs' := UpdateSubscriptionRec(gs1, g1, u, at1, subscription);
  }

  /** `update_user` */
  method UpdateUserRec(gs: seq<GroupRec>, jid: string, subscription: Option<string>,
                       name: Option<string>, group: Option<string>)
    returns (gs': seq<GroupRec>)
    requires RosterOk(gs)
    modifies gs, UsersOf(gs)
    ensures RosterOk(gs')
    ensures GroupViews(gs') == UpdateUser(old(GroupViews(gs)), jid, subscription, name, group)
    ensures forall h | h in gs' :: h in gs || fresh(h)
    ensures forall h, x | h in gs' && x in h.users :: x in old(UsersOf(gs)) || (fresh(x) && x.resources == [])
  {
    var g, u, at := FindUserRec(gs, Strip(jid));
    RosterKept(gs);
    if u == null {
      var added;
      gs', added := AddContact(gs, jid, subscription, name, group);
    } else {
      gs' := ChangeContact(gs, g, u, at.value, jid, subscription, name, group);
    }
  }

  lemma RecvAvailableUnfolds(a: Account, p: Presence, at: (nat, nat))
    requires FindUser(a.groups, Strip(p.full)) == Some(at)
    ensures var us := a.groups[at.0].users;
            var t := Touch(us[at.1].resources, p);
            var us1 := us[at.1 := us[at.1].(error := false, resources := t.resources)];
            RecvAvailable(a, p)
            == (a.(groups := SetUsers(a.groups, at.0, if t.accepted then SortUsers(us1) else us1)), t.signals)
  {
  }

  lemma RecvUnavailableUnfolds(a: Account, full: string, status: Option<string>, at: (nat, nat))
    requires FindUser(a.groups, Strip(full)) == Some(at)
    ensures var us := a.groups[at.0].users;
            var rs := us[at.1].resources;
            var k := FindResource(rs, Extract(full));
            var rs1 := if k.Some? then RemoveAt(rs, k.value) else rs;
            var us1 := us[at.1 := us[at.1].(error := false, resources := rs1)];
            RecvUnavailable(a, full, status)
            == (a.(groups := SetUsers(a.groups, at.0, if k.Some? then SortUsers(us1) else us1)),
                if k.Some? then OfflineSignals(full, status) else [])
  {
    var u := a.groups[at.0].users[at.1];
    assert u.(error := false, resources := u.resources) == u.(error := false);
  }

  lemma RecvErrorUnfolds(a: Account, full: string, at: (nat, nat))
    requires FindUser(a.groups, Strip(full)) == Some(at)
    ensures var us := a.groups[at.0].users;
            var rs := us[at.1].resources;
            var k := FindResource(rs, Extract(full));
            var us1 := us[at.1 := if k.Some? then us[at.1].(resources := rs[k.value := rs[k.value].(show := ERROR)])
                                  else us[at.1].(error := true)];
            RecvError(a, full) == (a.(groups := SetUsers(a.groups, at.0, if k.Some? then SortUsers(us1) else us1)),
                                   if k.Some? then [Changed(full, ERROR, None)] else [])
  {
  }

  // ----- The server record

  /** The roster part of a server record. Each handler returns the signals it emits. */
  class ServerRec {
    const jid: string
    const resource: string
    var roster: seq<GroupRec>
    var myResources: seq<ResourceRec>

    constructor (jid: string, resource: string)
      ensures Valid() && View() == Fresh(jid, resource)
    {
      this.jid, this.resource := jid, resource;
      roster, myResources := [], [];
    }

    ghost predicate Valid()
      reads this, roster, UsersOf(roster), ResourcesOf(roster), myResources
    {
      RosterOk(roster) && NoDup(myResources) && forall r | r in myResources :: r.owner == this
    }

    ghost function View(): Account
      reads this, roster, UsersOf(roster), ResourcesOf(roster), myResources
    {
      Account(jid, resource, GroupViews(roster), ResourceViews(myResources))
    }

    /** Our own sessions do not belong to any contact. */
    lemma MineApart()
      requires Valid()
      ensures forall g, u, r | g in roster && u in g.users && r in u.resources :: r !in myResources
    {
      forall g, u, r | g in roster && u in g.users && r in u.resources ensures r !in myResources {
        assert g.Ok() && u.Ok();
      }
    }

    /** `update_user_presence` for another session of our own account. */
    method OwnPresence(p: Presence) returns (signals: seq<Signal>)
      requires Valid()
      modifies this, myResources
      ensures Valid() && View() == old(View()).(mine := Touch(old(View()).mine, p).resources)
      ensures signals == Touch(old(View()).mine, p).signals
    {
      MineApart();
      var rs, accepted;
      rs, accepted, signals := TouchRecs(myResources, this, p);
      myResources := rs;
      RosterKept(roster);
    }

    /** `update_user_presence` for a contact that was found. */
    method ContactPresence(g: GroupRec, u: UserRec, ghost at: (nat, nat), p: Presence) returns (signals: seq<Signal>)
      requires Valid() && IsAt(roster, g, u, at)
      modifies g, u, u.resources
      ensures Valid()
      ensures var us := old(UserViews(g.users));
              var t := Touch(us[at.1].resources, p);
              var us1 := us[at.1 := us[at.1].(error := false, resources := t.resources)];
              && View() == old(View()).(groups := SetUsers(old(View()).groups, at.0,
                                                           if t.accepted then SortUsers(us1) else us1))
              && signals == t.signals
    {
      MineApart();
      OwnersApart(roster, g, u);
      signals := AvailableIn(roster, g, u, at, p);
      ResourcesKept(myResources);
    }

    /** `update_user_presence` */
    method UpdateUserPresence(p: Presence) returns (signals: seq<Signal>)
      requires Valid()
      // Comparing an absent resource with our own one is undefined in the source.
      requires FindUser(View().groups, Strip(p.full)).None? && Strip(p.full) == jid ==> Extract(p.full).Some?
      modifies this, roster, UsersOf(roster), ResourcesOf(roster), myResources
      ensures Valid() && (View(), signals) == RecvAvailable(old(View()), p)
    {
      var g, u, at := FindUserRec(roster, Strip(p.full));
      if u != null {
        RecvAvailableUnfolds(View(), p, at.value);
        ViewAt(roster, g, u, at.value);
        signals := ContactPresence(g, u, at.value, p);
      } else if Strip(p.full) == jid && Extract(p.full) != Some(resource) {
        signals := OwnPresence(p);
      } else {
        signals := [];
      }
    }

    /** `user_unavailable` for another session of our own account. */
    method OwnUnavailable(full: string, status: Option<string>) returns (signals: seq<Signal>)
      requires Valid()
      modifies this
      ensures var mine := old(View()).mine;
              var k := FindResource(mine, Extract(full));
              && Valid()
              && View() == (if k.Some? then old(View()).(mine := RemoveAt(mine, k.value)) else old(View()))
              && signals == (if k.Some? then OfflineSignals(full, status) else [])
    {
      var rest, found := DropRec(myResources, Extract(full));
      myResources := rest;
      RosterKept(roster);
      signals := if found then OfflineSignals(full, status) else [];
    }

    /** `user_unavailable` for a contact that was found. */
    method ContactUnavailable(g: GroupRec, u: UserRec, ghost at: (nat, nat), full: string, status: Option<string>)
      returns (signals: seq<Signal>)
      requires Valid() && IsAt(roster, g, u, at) && FindUser(View().groups, Strip(full)) == Some(at)
      modifies g, u
      ensures Valid() && (View(), signals) == RecvUnavailable(old(View()), full, status)
    {
      MineApart();
      RecvUnavailableUnfolds(View(), full, status, at);
      ViewAt(roster, g, u, at);
      var found := UnavailableIn(roster, g, u, at, full);
      ResourcesKept(myResources);
      signals := if found then OfflineSignals(full, status) else [];
    }

    /** `user_unavailable` */
    method UserUnavailable(full: string, status: Option<string>) returns (signals: seq<Signal>)
      requires Valid()
      modifies this, roster, UsersOf(roster)
      ensures Valid() && (View(), signals) == RecvUnavailable(old(View()), full, status)
    {
      var g, u, at := FindUserRec(roster, Strip(full));
      RosterKept(roster);
      ResourcesKept(myResources);
      if u != null {
        signals := ContactUnavailable(g, u, at.value, full, status);
      } else if Strip(full) == jid {
        signals := OwnUnavailable(full, status);
      } else {
        signals := [];
      }
    }

    /** `user_presence_error` for another session of our own account. */
    method OwnError(full: string) returns (signals: seq<Signal>)
      requires Valid()
      modifies myResources
      ensures var mine := old(View()).mine;
              var k := FindResource(mine, Extract(full));
              && Valid()
              && View() == (if k.Some? then old(View()).(mine := mine[k.value := mine[k.value].(show := ERROR)])
                            else old(View()))
              && signals == (if k.Some? then [Changed(full, ERROR, None)] else [])
    {
      MineApart();
      ghost var mine := ResourceViews(myResources);
      var r, k := FindResourceRec(myResources, Extract(full));
      signals := [];
      if r != null {
        r.show := ERROR;
        signals := [Changed(full, ERROR, None)];
        assert ResourceViews(myResources) == mine[k.value := mine[k.value].(show := ERROR)];
      }
      RosterKept(roster);
    }

    /** `user_presence_error` for a contact that was found. */
    method ContactError(g: GroupRec, u: UserRec, ghost at: (nat, nat), full: string) returns (signals: seq<Signal>)
      requires Valid() && IsAt(roster, g, u, at) && FindUser(View().groups, Strip(full)) == Some(at)
      modifies g, u, u.resources
      ensures Valid() && (View(), signals) == RecvError(old(View()), full)
    {
      MineApart();
      OwnersApart(roster, g, u);
      RecvErrorUnfolds(View(), full, at);
      ViewAt(roster, g, u, at);
      var found := ErrorIn(roster, g, u, at, full);
      ResourcesKept(myResources);
      signals := if found then [Changed(full, ERROR, None)] else [];
    }

    /** `user_presence_error` */
    method UserPresenceError(full: string) returns (signals: seq<Signal>)
      requires Valid()
      modifies this, roster, UsersOf(roster), ResourcesOf(roster), myResources
      ensures Valid() && (View(), signals) == RecvError(old(View()), full)
    {
      var g, u, at := FindUserRec(roster, Strip(full));
      if u != null {
        signals := ContactError(g, u, at.value, full);
      } else if Strip(full) == jid {
        signals := OwnError(full);
      } else {
        signals := [];
      }
    }

    /** `update_user`, for one item of a roster push. */
    method UpdateContact(contact: string, subscription: Option<string>, name: Option<string>, group: Option<string>)
      requires Valid()
      modifies this, roster, UsersOf(roster)
      ensures Valid()
      ensures View() == old(View()).(groups := UpdateUser(old(View()).groups, contact, subscription, name, group))
    {
      var gs := UpdateUserRec(roster, contact, subscription, name, group);
      ResourcesKept(myResources);
      SetRoster(gs);
    }

    /** The list head is a field of the server record. */
    method SetRoster(gs: seq<GroupRec>)
      requires RosterOk(gs) && NoDup(myResources) && forall r | r in myResources :: r.owner == this
      modifies this
      ensures Valid() && View() == old(View()).(groups := old(GroupViews(gs)))
    {
      roster := gs;
      RosterKept(gs);
    }

    /** `roster_cleanup` */
    method Cleanup()
      requires Valid()
      modifies this
      ensures Valid() && View() == Step(old(View()), Disconnected).0
    {
      if roster == [] {
        return;
      }
      roster, myResources := [], [];
    }
  }
}
