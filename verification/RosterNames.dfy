/** Resolving a name to a JID: which user it means, and that a name without a resource goes
    to a resource of maximal priority. */
module RosterNames {
  import opened Text
  import opened Roster
  import opened RosterOrder
  import opened RosterContacts
  import opened RosterGroups
  import opened RosterPriority

  // ----- Resolving a name

  /** The loop of `find_username`: the first user shown under that name. */
  function FindNamed(us: seq<User>, name: string): Option<User> {
    if us == [] then None
    else if us[0].name == Some(name) then Some(us[0])
    else FindNamed(us[1..], name)
  }

  function FindUsername(gs: seq<Group>, name: string): Option<User> {
    if gs == [] then None
    else if FindNamed(gs[0].users, name).Some? then FindNamed(gs[0].users, name)
    else FindUsername(gs[1..], name)
  }

  function ResolvedUser(gs: seq<Group>, name: string): Option<User> {
    if FindUsername(gs, name).Some? then FindUsername(gs, name)
    else if FindUser(gs, Strip(name)).Some? then
      var at := FindUser(gs, Strip(name)).value; Some(gs[at.0].users[at.1])
    else None
  }

  /** `rosters_resolve_name`, for a name without surrounding white space. */
  function ResolveName(gs: seq<Group>, name: string): Option<string> {
    match ResolvedUser(gs, name)
    case None => None
    case Some(u) =>
      if HasResource(name) then Some(FullJid(u.jid, Extract(name).value))
      else if u.resources != [] && u.resources[0].name != "" then Some(FullJid(u.jid, u.resources[0].name))
      else Some(u.jid)
  }

  // ----- The first user in roster order

  /** User `k` is the first one in the list that `p` holds of. */
  ghost predicate FirstUser(us: seq<User>, p: User -> bool, k: int) {
    0 <= k < |us| && p(us[k]) && forall j | 0 <= j < k :: !p(us[j])
  }

  function First(us: seq<User>, p: User -> bool): Option<User> {
    if us == [] then None else if p(us[0]) then Some(us[0]) else First(us[1..], p)
  }

  lemma {:induction false} FirstConcat(us: seq<User>, vs: seq<User>, p: User -> bool)
    ensures First(us + vs, p) == if First(us, p).Some? then First(us, p) else First(vs, p)
  {
    if us == [] {
      assert us + vs == vs;
    } else {
      assert (us + vs)[1..] == us[1..] + vs;
      FirstConcat(us[1..], vs, p);
    }
  }

  lemma {:induction false} FirstExactly(us: seq<User>, p: User -> bool)
    ensures forall k | FirstUser(us, p, k) :: First(us, p) == Some(us[k])
    ensures (forall u | u in us :: !p(u)) ==> First(us, p).None?
  {
    if us == [] {
    } else {
      FirstExactly(us[1..], p);
      forall k | FirstUser(us, p, k) ensures First(us, p) == Some(us[k]) {
        if k > 0 {
          assert forall j | 0 <= j < k - 1 :: us[1..][j] == us[j + 1];
          assert FirstUser(us[1..], p, k - 1);
        }
      }
    }
  }

  function Called(name: string): User -> bool {
    (u: User) => u.name == Some(name)
  }

  function WithJid(jid: string): User -> bool {
    (u: User) => u.jid == jid
  }

  lemma {:induction false} FindNamedIsFirst(us: seq<User>, name: string)
    ensures FindNamed(us, name) == First(us, Called(name))
  {
    if us == [] {
    } else {
      FindNamedIsFirst(us[1..], name);
    }
  }

  lemma {:induction false} FindUsernameIsFirst(gs: seq<Group>, name: string)
    ensures FindUsername(gs, name) == First(AllUsers(gs), Called(name))
  {
    if gs == [] {
    } else {
      AllUsersCons(gs);
      FirstConcat(gs[0].users, AllUsers(gs[1..]), Called(name));
      FindNamedIsFirst(gs[0].users, name);
      FindUsernameIsFirst(gs[1..], name);
    }
  }

  lemma {:induction false} FindInUsersIsFirst(us: seq<User>, jid: string)
    ensures First(us, WithJid(jid)) ==
            match FindInUsers(us, jid)
            case None => None
            case Some(i) => Some(us[i])
  {
    if us == [] {
    } else {
      FindInUsersIsFirst(us[1..], jid);
    }
  }

  lemma {:induction false} FindUserIsFirst(gs: seq<Group>, jid: string)
    ensures First(AllUsers(gs), WithJid(jid)) ==
            match FindUser(gs, jid)
            case None => None
            case Some(at) => Some(gs[at.0].users[at.1])
  {
    if gs == [] {
    } else {
      AllUsersCons(gs);
      FirstConcat(gs[0].users, AllUsers(gs[1..]), WithJid(jid));
      FindInUsersIsFirst(gs[0].users, jid);
      FindUserIsFirst(gs[1..], jid);
    }
  }

  /** `r` is a resource of `u` that no other one exceeds in priority. */
  ghost predicate Highest(u: User, r: Resource) {
    r in u.resources && forall s | s in u.resources :: s.priority <= r.priority
  }

  /** The name is a bare part and, after its first '/', a resource. */
  predicate Slashed(name: string, bare: string, res: string) {
    Bare(bare) && res != "" && name == bare + "/" + res
  }

  lemma SlashedExactly(name: string)
    ensures HasResource(name) <==> exists bare, res :: Slashed(name, bare, res)
    ensures forall bare, res | Slashed(name, bare, res) :: Extract(name) == Some(res)
  {
    SplitRebuilds(name);
    if HasResource(name) {
      assert Slashed(name, Strip(name), Extract(name).value);
    }
    forall bare, res | Slashed(name, bare, res) ensures Extract(name) == Some(res) && HasResource(name) {
      JoinSplits(bare, res);
    }
  }

  /** What the name of user `u` is resolved to: the resource in the name if there is one;
      otherwise a highest resource of the user, or the bare JID exactly if the user has no
      resource or the first one is unnamed. */
  ghost predicate Answers(u: User, name: string, answer: Option<string>) {
    && (forall bare, res | Slashed(name, bare, res) :: answer == Some(u.jid + "/" + res))
    && ((forall bare, res :: !Slashed(name, bare, res)) ==>
          && (answer == Some(u.jid) <==> u.resources == [] || u.resources[0].name == "")
          && (answer != Some(u.jid) ==> exists r :: Highest(u, r) && answer == Some(u.jid + "/" + r.name)))
  }

  lemma ResolvedAnswers(gs: seq<Group>, name: string)
    requires ResolvedUser(gs, name).Some? && ByPriority(ResolvedUser(gs, name).value.resources)
    ensures Answers(ResolvedUser(gs, name).value, name, ResolveName(gs, name))
  {
    var u := ResolvedUser(gs, name).value;
    SlashedExactly(name);
    if !HasResource(name) && u.resources != [] && u.resources[0].name != "" {
      assert Highest(u, u.resources[0]);
      assert |ResolveName(gs, name).value| > |u.jid|;
    }
  }

  lemma UserOrdered(a: Account, lo: string -> int, u: User)
    requires AllOrdered(a, lo) && u in AllUsers(a.groups)
    ensures ByPriority(u.resources)
  {
    AllUsersListed(a.groups, u);
  }

  /** In every reachable state a name means the first user shown under it in roster order, or
      if there is none the first with that JID, and nothing if there is none either. */
  lemma ResolvesExactly(jid: string, resource: string, es: seq<Event>, name: string, lo: string -> int)
    requires forall e | e in es :: PriorityInWindow(e, lo)
    ensures var gs := Run(Fresh(jid, resource), es).0.groups;
            var us, answer := AllUsers(gs), ResolveName(gs, name);
            && (forall k | FirstUser(us, Called(name), k) :: Answers(us[k], name, answer))
            && ((forall u | u in us :: u.name != Some(name)) ==>
                  && (forall k | FirstUser(us, WithJid(Strip(name)), k) :: Answers(us[k], name, answer))
                  && ((forall u | u in us :: u.jid != Strip(name)) ==> answer == None))
  {
    var a := Run(Fresh(jid, resource), es).0;
    var us := AllUsers(a.groups);
    PriorityOrderAlways(jid, resource, es, lo);
    FindUsernameIsFirst(a.groups, name);
    FindUserIsFirst(a.groups, Strip(name));
    FirstExactly(us, Called(name));
    FirstExactly(us, WithJid(Strip(name)));
    if ResolvedUser(a.groups, name).Some? {
      forall k | 0 <= k < |us| && ResolvedUser(a.groups, name) == Some(us[k])
        ensures Answers(us[k], name, ResolveName(a.groups, name))
      {
        UserOrdered(a, lo, us[k]);
        ResolvedAnswers(a.groups, name);
      }
    }
  }
}
