/** Completion of JIDs, `get_jids`. */
module Completion {
  import opened Text
  import opened Roster
  import opened RosterOrder
  import opened RosterGroups
  import opened RosterObjects

  predicate Exact(u: User, prefix: string) {
    prefix <= u.jid
  }

  predicate Matches(u: User, prefix: string) {
    Fold(prefix) <= Fold(u.jid)
  }

  /** The JIDs of the users that `p` selects, in roster order. */
  function Select(us: seq<User>, p: User -> bool): seq<string> {
    if us == [] then []
    else Select(us[..|us| - 1], p) + if p(us[|us| - 1]) then [us[|us| - 1].jid] else []
  }

  /** The four kinds of completions, best first: online or not, exact case or not. */
  function Kind(online: bool, exact: bool, prefix: string): User -> bool {
    (u: User) => IsOnline(u) == online && Exact(u, prefix) == exact && Matches(u, prefix)
  }

  /** The four lists `get_jids` accumulates. */
  datatype Buckets =
    Buckets(online: seq<string>, onlineCase: seq<string>, offline: seq<string>, offlineCase: seq<string>)

  function Collected(us: seq<User>, prefix: string): Buckets {
    Buckets(Select(us, Kind(true, true, prefix)), Select(us, Kind(true, false, prefix)),
            Select(us, Kind(false, true, prefix)), Select(us, Kind(false, false, prefix)))
  }

  function Joined(l: Buckets): seq<string> {
    l.online + l.onlineCase + l.offline + l.offlineCase
  }

  function Completions(us: seq<User>, prefix: string): seq<string> {
    Joined(Collected(us, prefix))
  }

  lemma ExactMatches(u: User, prefix: string)
    ensures Exact(u, prefix) ==> Matches(u, prefix)
  {
    if Exact(u, prefix) {
      assert forall i | 0 <= i < |prefix| :: Fold(prefix)[i] == Fold(u.jid)[i];
    }
  }

  lemma SelectMore(us: seq<User>, u: User, p: User -> bool)
    ensures Select(us + [u], p) == Select(us, p) + if p(u) then [u.jid] else []
  {
    assert (us + [u])[..|us|] == us;
  }

  /** One more user goes to at most one of the lists. */
  lemma CollectMore(us: seq<User>, u: User, prefix: string)
    ensures var l := Collected(us, prefix);
            Collected(us + [u], prefix) ==
              if prefix <= u.jid then
                if IsOnline(u) then l.(online := l.online + [u.jid]) else l.(offline := l.offline + [u.jid])
              else if Fold(prefix) <= Fold(u.jid) then
                if IsOnline(u) then l.(onlineCase := l.onlineCase + [u.jid])
                else l.(offlineCase := l.offlineCase + [u.jid])
              else l
  {
    ExactMatches(u, prefix);
    SelectMore(us, u, Kind(true, true, prefix));
    SelectMore(us, u, Kind(true, false, prefix));
    SelectMore(us, u, Kind(false, true, prefix));
    SelectMore(us, u, Kind(false, false, prefix));
  }

  /** The completions are exactly the users whose JID starts with the prefix up to
      case, each once. */
  lemma {:induction false} CompletionsPermuteMatches(us: seq<User>, prefix: string)
    ensures multiset(Completions(us, prefix)) == multiset(Select(us, u => Matches(u, prefix)))
  {
    if us == [] {
    } else {
      CompletionsPermuteMatches(us[..|us| - 1], prefix);
    }
  }

  // ----- The order of the completions

  /** Better completions have lower ranks: online before offline, and within each the exact
      case before another one. */
  function Rank(u: User, prefix: string): nat {
    (if u.resources != [] then 0 else 2) + (if prefix <= u.jid then 0 else 1)
  }

  predicate Precedes(us: seq<User>, prefix: string, k: nat, l: nat) {
    && k < |us| && l < |us|
    && (Rank(us[k], prefix) < Rank(us[l], prefix) || (Rank(us[k], prefix) == Rank(us[l], prefix) && k < l))
  }

  /** `at` lists the positions of the matching users, each once, by rank and for one rank in
      roster order; `jids` are their JIDs. */
  ghost predicate Arranged(us: seq<User>, prefix: string, at: seq<nat>, jids: seq<string>) {
    && |jids| == |at|
    && (forall i | 0 <= i < |at| :: at[i] < |us| && jids[i] == us[at[i]].jid)
    && (forall k | 0 <= k < |us| :: k in at <==> Fold(prefix) <= Fold(us[k].jid))
    && (forall i, j | 0 <= i < j < |at| :: Precedes(us, prefix, at[i], at[j]))
  }

  /** The positions of the users that `p` selects. */
  function Positions(us: seq<User>, p: User -> bool): seq<nat> {
    if us == [] then []
    else Positions(us[..|us| - 1], p) + if p(us[|us| - 1]) then [|us| - 1] else []
  }

  lemma {:induction false} PositionsSelect(us: seq<User>, p: User -> bool)
    ensures var at := Positions(us, p);
            && |at| == |Select(us, p)|
            && (forall i | 0 <= i < |at| :: at[i] < |us| && p(us[at[i]]) && us[at[i]].jid == Select(us, p)[i])
            && (forall i, j | 0 <= i < j < |at| :: at[i] < at[j])
            && (forall k | 0 <= k < |us| && p(us[k]) :: k in at)
  {
    if us == [] {
    } else {
      var m := |us| - 1;
      var at, before := Positions(us, p), Positions(us[..m], p);
      PositionsSelect(us[..m], p);
      forall k | 0 <= k < |us| && p(us[k]) ensures k in at {
        if k == m {
          assert at[|before|] == m;
        } else {
          assert us[..m][k] == us[k] && k in before;
        }
      }
    }
  }

  /** The same for the completions of rank less than `r`. */
  ghost predicate ArrangedBelow(us: seq<User>, prefix: string, at: seq<nat>, jids: seq<string>, r: nat) {
    && |jids| == |at|
    && (forall i | 0 <= i < |at| :: at[i] < |us| && jids[i] == us[at[i]].jid && Rank(us[at[i]], prefix) < r)
    && (forall k | 0 <= k < |us| :: k in at <==> Matches(us[k], prefix) && Rank(us[k], prefix) < r)
    && (forall i, j | 0 <= i < j < |at| :: Precedes(us, prefix, at[i], at[j]))
  }

  /** The users of one rank are those of one kind. */
  lemma KindIsRank(u: User, prefix: string, r: nat)
    requires r < 4
    ensures Kind(r < 2, r % 2 == 0, prefix)(u) <==> Matches(u, prefix) && Rank(u, prefix) == r
  {
  }

  lemma NextBucket(us: seq<User>, prefix: string, at: seq<nat>, jids: seq<string>, r: nat)
    requires r < 4 && ArrangedBelow(us, prefix, at, jids, r)
    ensures var kind := Kind(r < 2, r % 2 == 0, prefix);
            ArrangedBelow(us, prefix, at + Positions(us, kind), jids + Select(us, kind), r + 1)
  {
    var kind := Kind(r < 2, r % 2 == 0, prefix);
    var more := Positions(us, kind);
    PositionsSelect(us, kind);
    forall k | 0 <= k < |us|
      ensures kind(us[k]) <==> Matches(us[k], prefix) && Rank(us[k], prefix) == r
      ensures k in more <==> Matches(us[k], prefix) && Rank(us[k], prefix) == r
    {
      KindIsRank(us[k], prefix, r);
    }
    forall i, j | 0 <= i < j < |at + more| ensures Precedes(us, prefix, (at + more)[i], (at + more)[j]) {
    }
  }

  lemma BelowFour(us: seq<User>, prefix: string, at: seq<nat>, jids: seq<string>)
    requires ArrangedBelow(us, prefix, at, jids, 4)
    ensures Arranged(us, prefix, at, jids)
  {
  }

  lemma NoneYet(us: seq<User>, prefix: string)
    ensures ArrangedBelow(us, prefix, [], [], 0)
  {
  }

  function FirstPositions(us: seq<User>, prefix: string, r: nat): seq<nat> {
    if r == 0 then [] else FirstPositions(us, prefix, r - 1) + Positions(us, Kind(r - 1 < 2, (r - 1) % 2 == 0, prefix))
  }

  function FirstBuckets(us: seq<User>, prefix: string, r: nat): seq<string> {
    if r == 0 then [] else FirstBuckets(us, prefix, r - 1) + Select(us, Kind(r - 1 < 2, (r - 1) % 2 == 0, prefix))
  }

  lemma {:induction false} BucketsArranged(us: seq<User>, prefix: string, r: nat)
    requires r <= 4
    ensures ArrangedBelow(us, prefix, FirstPositions(us, prefix, r), FirstBuckets(us, prefix, r), r)
  {
    if r == 0 {
      NoneYet(us, prefix);
    } else {
      BucketsArranged(us, prefix, r - 1);
      NextBucket(us, prefix, FirstPositions(us, prefix, r - 1), FirstBuckets(us, prefix, r - 1), r - 1);
    }
  }

  lemma AllBuckets(us: seq<User>, prefix: string)
    ensures FirstBuckets(us, prefix, 4) == Completions(us, prefix)
  {
    var k := Kind(true, true, prefix);
    assert FirstBuckets(us, prefix, 0) == [];
    assert FirstBuckets(us, prefix, 1) == [] + Select(us, k) == Select(us, k);
    assert FirstBuckets(us, prefix, 2) == Select(us, k) + Select(us, Kind(true, false, prefix));
    assert FirstBuckets(us, prefix, 3) == FirstBuckets(us, prefix, 2) + Select(us, Kind(false, true, prefix));
  }

  /** The completions are the JIDs of the matching users, best rank first, and in roster order
      within a rank. */
  lemma CompletionsArranged(us: seq<User>, prefix: string)
    ensures exists at :: Arranged(us, prefix, at, Completions(us, prefix))
  {
    BucketsArranged(us, prefix, 4);
    AllBuckets(us, prefix);
    BelowFour(us, prefix, FirstPositions(us, prefix, 4), Completions(us, prefix));
  }

  lemma PlaceOfPosition(us: seq<User>, prefix: string, at: seq<nat>, jids: seq<string>, k: nat) returns (i: nat)
    requires Arranged(us, prefix, at, jids) && k < |us| && Matches(us[k], prefix)
    ensures i < |at| && at[i] == k
  {
    assert k in at;
    i :| i < |at| && at[i] == k;
  }

  lemma PositionMatches(us: seq<User>, prefix: string, at: seq<nat>, jids: seq<string>, i: nat)
    requires Arranged(us, prefix, at, jids) && i < |at|
    ensures at[i] < |us| && Matches(us[at[i]], prefix)
  {
    assert at[i] in at;
  }

  lemma Later(us: seq<User>, prefix: string, at: seq<nat>, jids: seq<string>, i: nat, j: nat)
    requires Arranged(us, prefix, at, jids) && i < j < |at|
    ensures Precedes(us, prefix, at[i], at[j]) && !Precedes(us, prefix, at[j], at[i]) && at[i] != at[j]
  {
  }

  lemma NextPosition(us: seq<User>, prefix: string, at: seq<nat>, jids: seq<string>,
                     at': seq<nat>, jids': seq<string>, n: nat, i: nat, j: nat)
    requires Arranged(us, prefix, at, jids) && Arranged(us, prefix, at', jids')
    requires n < |at| && n < |at'| && i < |at'| && j < |at|
    requires at'[i] == at[n] && at[j] == at'[n]
    requires (i < n ==> at[i] == at'[i]) && (j < n ==> at[j] == at'[j])
    ensures at[n] == at'[n]
  {
    if i < n {
      Later(us, prefix, at, jids, i, n);
    } else if j < n {
      Later(us, prefix, at', jids', j, n);
    } else if n < i && n < j {
      Later(us, prefix, at', jids', n, i);
      Later(us, prefix, at, jids, n, j);
    }
  }

  lemma {:induction false} SamePositions(us: seq<User>, prefix: string, at: seq<nat>, jids: seq<string>,
                                         at': seq<nat>, jids': seq<string>, n: nat)
    requires Arranged(us, prefix, at, jids) && Arranged(us, prefix, at', jids')
    requires n <= |at| && n <= |at'|
    ensures at[..n] == at'[..n]
  {
    if n == 0 {
    } else {
      var m := n - 1;
      SamePositions(us, prefix, at, jids, at', jids', m);
      PositionMatches(us, prefix, at, jids, m);
      PositionMatches(us, prefix, at', jids', m);
      var i := PlaceOfPosition(us, prefix, at', jids', at[m]);
      var j := PlaceOfPosition(us, prefix, at, jids, at'[m]);
      assert i < m ==> at[..m][i] == at'[..m][i];
      assert j < m ==> at[..m][j] == at'[..m][j];
      NextPosition(us, prefix, at, jids, at', jids', m, i, j);
      assert at[..n] == at[..m] + [at[m]] && at'[..n] == at'[..m] + [at'[m]];
    }
  }

  lemma NotLonger(us: seq<User>, prefix: string, at: seq<nat>, jids: seq<string>,
                  at': seq<nat>, jids': seq<string>)
    requires Arranged(us, prefix, at, jids) && Arranged(us, prefix, at', jids')
    ensures |at'| <= |at|
  {
    var n := |at|;
    if n < |at'| {
      SamePositions(us, prefix, at, jids, at', jids', n);
      PositionMatches(us, prefix, at', jids', n);
      var i := PlaceOfPosition(us, prefix, at, jids, at'[n]);
      assert at[..n][i] == at'[..n][i];
      Later(us, prefix, at', jids', i, n);
    }
  }

  /** There is only one such arrangement. */
  lemma ArrangedOnce(us: seq<User>, prefix: string, at: seq<nat>, jids: seq<string>,
                     at': seq<nat>, jids': seq<string>)
    requires Arranged(us, prefix, at, jids) && Arranged(us, prefix, at', jids')
    ensures at == at' && jids == jids'
  {
    NotLonger(us, prefix, at, jids, at', jids');
    NotLonger(us, prefix, at', jids', at, jids);
    SamePositions(us, prefix, at, jids, at', jids', |at|);
    assert at[..|at|] == at && at'[..|at|] == at';
  }

  // ----- The loops

  lemma PrefixMore<T>(s: seq<T>, t: seq<T>, k: nat)
    requires k < |t|
    ensures s + t[..k] + [t[k]] == s + t[..k + 1]
  {
    assert t[..k + 1] == t[..k] + [t[k]];
  }

  /** The inner loop of `get_jids`, over the users of one group. */
  method CollectGroup(us: seq<UserRec>, jid: string, l: Buckets, ghost before: seq<User>) returns (l': Buckets)
    requires l == Collected(before, jid)
    ensures l' == Collected(before + old(UserViews(us)), jid)
  {
    ghost var vs := UserViews(us);
    l' := l;
    assert before + vs[..0] == before;
    for k := 0 to |us|
      invariant l' == Collected(before + vs[..k], jid)
    {
      var user := us[k];
      assert vs[k] == user.View() && |vs[k].resources| == |user.resources|;
      CollectMore(before + vs[..k], vs[k], jid);
      PrefixMore(before, vs, k);
      if jid <= user.jid {
        if |user.resources| != 0 {
          l' := l'.(online := l'.online + [user.jid]);
        } else {
          l' := l'.(offline := l'.offline + [user.jid]);
        }
      } else if Fold(jid) <= Fold(user.jid) {
        if |user.resources| != 0 {
          l' := l'.(onlineCase := l'.onlineCase + [user.jid]);
        } else {
          l' := l'.(offlineCase := l'.offlineCase + [user.jid]);
        }
      }
    }
    assert vs[..|us|] == vs;
  }

  /** `get_jids` */
  method GetJids(groups: seq<GroupRec>, jid: string) returns (jids: seq<string>)
    ensures jids == Completions(AllUsers(GroupViews(groups)), jid)
    ensures exists at :: Arranged(AllUsers(GroupViews(groups)), jid, at, jids)
  {
    ghost var gs := GroupViews(groups);
    var l := Buckets([], [], [], []);
    for i := 0 to |groups|
      invariant gs == GroupViews(groups) && l == Collected(AllUsers(gs[..i]), jid)
    {
      assert gs[i] == groups[i].View();
      l := CollectGroup(groups[i].users, jid, l, AllUsers(gs[..i]));
      RosterKept(groups);
      AllUsersMore(gs, i);
    }
    assert gs[..|groups|] == gs;
    jids := l.online + l.onlineCase + l.offline + l.offlineCase;
    CompletionsArranged(AllUsers(gs), jid);
  }
}
