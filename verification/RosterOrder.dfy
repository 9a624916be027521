/** When the roster comparators order anything: the exact conditions under which
    they agree with the intended orders, and what sorting with them achieves. */
module RosterOrder {
  import opened Text
  import opened Lists
  import opened Sorting
  import opened Roster

  // ----- Resources

  /** The intended order: priority descending, show descending, name ascending. */
  predicate ResourceOrder(a: Resource, b: Resource) {
    || a.priority > b.priority
    || (a.priority == b.priority && a.show > b.show)
    || (a.priority == b.priority && a.show == b.show && StrCmp(a.name, b.name) <= 0)
  }

  predicate Int32(n: int) {
    -0x8000_0000 <= n < 0x8000_0000
  }

  /** A range of 2^31 consecutive priorities starting at `lo`. The priorities of
      section 4.7.2.3 of RFC 6121, -128 to 127, are inside such a range. */
  predicate InWindow(n: int, lo: int) {
    lo <= n < lo + 0x8000_0000
  }

  /** The comparator orders two resources as intended exactly when the difference
      of their priorities is representable; otherwise it orders them backwards. */
  lemma ResourceCmpExact(a: Resource, b: Resource)
    requires Int32(a.priority) && Int32(b.priority)
    ensures (ResourceLe(a, b) <==> ResourceOrder(a, b)) <==> Int32(b.priority - a.priority)
  {
  }

  lemma ResourceOrderTransitive(a: Resource, b: Resource, c: Resource)
    requires ResourceOrder(a, b) && ResourceOrder(b, c)
    ensures ResourceOrder(a, c)
  {
    if a.priority == b.priority == c.priority && a.show == b.show == c.show {
      StrCmpTransitive(a.name, b.name, c.name);
    }
  }

  ghost predicate PrioritiesIn(rs: seq<Resource>, lo: int) {
    forall r | r in rs :: InWindow(r.priority, lo)
  }

  ghost predicate ByPriority(rs: seq<Resource>) {
    forall i, j | 0 <= i < j < |rs| :: rs[i].priority >= rs[j].priority
  }

  lemma ResourcePreorder(rs: seq<Resource>, lo: int)
    requires PrioritiesIn(rs, lo)
    ensures TotalPreorderOn(rs, ResourceLe)
    ensures forall a, b | a in rs && b in rs :: ResourceLe(a, b) <==> ResourceOrder(a, b)
  {
    forall a, b | a in rs && b in rs
      ensures ResourceLe(a, b) <==> ResourceOrder(a, b)
      ensures ResourceLe(a, b) || ResourceLe(b, a)
    {
      StrCmpAntisymmetric(a.name, b.name);
    }
    forall a, b, c | a in rs && b in rs && c in rs && ResourceLe(a, b) && ResourceLe(b, c)
      ensures ResourceLe(a, c)
    {
      ResourceOrderTransitive(a, b, c);
    }
  }

  lemma {:induction false} LowestPriority(rs: seq<Resource>) returns (lowest: Resource)
    requires rs != []
    ensures lowest in rs && forall r | r in rs :: lowest.priority <= r.priority
  {
    if |rs| == 1 {
      lowest := rs[0];
    } else {
      var other := LowestPriority(rs[1..]);
      lowest := if rs[0].priority <= other.priority then rs[0] else other;
    }
  }

  /** The comparator means the intended order on a whole list exactly when one window holds
      all its priorities. */
  lemma WindowExact(rs: seq<Resource>)
    requires forall r | r in rs :: Int32(r.priority)
    ensures (forall a, b | a in rs && b in rs :: ResourceLe(a, b) <==> ResourceOrder(a, b))
            <==> exists lo :: PrioritiesIn(rs, lo)
  {
    if lo :| PrioritiesIn(rs, lo) {
      ResourcePreorder(rs, lo);
    }
    if forall a, b | a in rs && b in rs :: ResourceLe(a, b) <==> ResourceOrder(a, b) {
      if rs == [] {
        assert PrioritiesIn(rs, 0);
      } else {
        var lowest := LowestPriority(rs);
        forall r | r in rs ensures InWindow(r.priority, lowest.priority) {
          ResourceCmpExact(lowest, r);
        }
        assert PrioritiesIn(rs, lowest.priority);
      }
    }
  }

  /** Sorting resources whose priorities lie in one window gives the intended order. */
  lemma SortResourcesOrders(rs: seq<Resource>, lo: int)
    requires PrioritiesIn(rs, lo)
    ensures Sorted(SortResources(rs), ResourceOrder)
    ensures ByPriority(SortResources(rs)) && PrioritiesIn(SortResources(rs), lo)
    ensures multiset(SortResources(rs)) == multiset(rs)
  {
    var sorted := SortResources(rs);
    ResourcePreorder(rs, lo);
    SortSorts(rs, ResourceLe);
    SortPermutes(rs, ResourceLe);
    PermutationMembers(rs, sorted);
    assert forall i | 0 <= i < |sorted| :: sorted[i] in sorted;
  }

  /** Two resources whose priorities are 2^31 or more apart, put last, come out the wrong
      way round. */
  lemma FarApartMisorders(rs: seq<Resource>, low: Resource, high: Resource) returns (t: seq<Resource>)
    requires low in rs && high in rs && Int32(low.priority) && Int32(high.priority)
    requires high.priority - low.priority >= 0x8000_0000
    ensures multiset(t) == multiset(rs) && !ByPriority(SortResources(t))
  {
    var rest := RemoveOne(rs, high);
    RemoveOneBag(rs, high);
    assert low in multiset(rest) by {
      assert low in multiset(rs);
    }
    RemoveOneBag(rest, low);
    t := RemoveOne(rest, low) + [low, high];
    LastTwoStay(t, ResourceLe);
  }

  /** Sorting puts every arrangement of the resources in priority order exactly when one
      window holds all their priorities. */
  lemma SortingExact(rs: seq<Resource>)
    requires forall r | r in rs :: Int32(r.priority)
    ensures (forall t: seq<Resource> | multiset(t) == multiset(rs) :: ByPriority(SortResources(t)))
            <==> exists lo :: PrioritiesIn(rs, lo)
  {
    if lo :| PrioritiesIn(rs, lo) {
      forall t: seq<Resource> | multiset(t) == multiset(rs) ensures ByPriority(SortResources(t)) {
        PermutationMembers(t, rs);
        SortResourcesOrders(t, lo);
      }
    } else {
      assert rs == [] ==> PrioritiesIn(rs, 0);
      var low := LowestPriority(rs);
      assert !PrioritiesIn(rs, low.priority);
      var high :| high in rs && !InWindow(high.priority, low.priority);
      var t := FarApartMisorders(rs, low, high);
    }
  }

  // ----- Users

  function DisplayName(u: User): string {
    if u.name.Some? then u.name.value else u.jid
  }

  predicate IsOnline(u: User) {
    u.resources != []
  }

  /** The intended order: online first, then show descending, then display name ascending. */
  predicate UserOrder(a: User, b: User) {
    if IsOnline(a) != IsOnline(b) then IsOnline(a)
    else if IsOnline(a) && a.resources[0].show != b.resources[0].show then
      a.resources[0].show > b.resources[0].show
    else StrCmp(DisplayName(a), DisplayName(b)) <= 0
  }

  /** No online user carries the error flag, and the offline ones all do or all do not. */
  ghost predicate FlagsFit(us: seq<User>) {
    && (forall u | u in us && IsOnline(u) :: !u.error)
    && (forall u, v | u in us && v in us && !IsOnline(u) && !IsOnline(v) :: u.error == v.error)
  }

  /** Two users are comparable in some direction exactly when one of them is online
      without error, or both are offline with the same error flag. So one user with
      the error flag is enough for the comparator to be no total preorder. */
  lemma UserCmpTotalExact(a: User, b: User)
    ensures UserLe(a, b) || UserLe(b, a) <==>
            || (IsOnline(a) && !a.error)
            || (IsOnline(b) && !b.error)
            || (!IsOnline(a) && !IsOnline(b) && a.error == b.error)
  {
    StrCmpAntisymmetric(DisplayName(a), DisplayName(b));
  }

  lemma UserOrderTransitive(a: User, b: User, c: User)
    requires UserOrder(a, b) && UserOrder(b, c)
    ensures UserOrder(a, c)
  {
    if StrCmp(DisplayName(a), DisplayName(b)) <= 0 && StrCmp(DisplayName(b), DisplayName(c)) <= 0 {
      StrCmpTransitive(DisplayName(a), DisplayName(b), DisplayName(c));
    }
  }

  lemma FlagsFitPreorder(us: seq<User>)
    requires FlagsFit(us)
    ensures TotalPreorderOn(us, UserLe)
    ensures forall a, b | a in us && b in us :: UserLe(a, b) <==> UserOrder(a, b)
  {
    forall a, b | a in us && b in us
      ensures UserLe(a, b) <==> UserOrder(a, b)
      ensures UserLe(a, b) || UserLe(b, a)
    {
      UserCmpTotalExact(a, b);
    }
    forall a, b, c | a in us && b in us && c in us && UserLe(a, b) && UserLe(b, c)
      ensures UserLe(a, c)
    {
      UserOrderTransitive(a, b, c);
    }
  }

  /** The comparator is a total preorder on a group exactly when the flags fit. */
  lemma UserPreorderExact(us: seq<User>)
    ensures TotalPreorderOn(us, UserLe) <==> FlagsFit(us)
  {
    if FlagsFit(us) {
      FlagsFitPreorder(us);
    }
    if TotalPreorderOn(us, UserLe) {
      forall a, b | a in us && b in us
        ensures IsOnline(a) ==> !a.error
        ensures !IsOnline(a) && !IsOnline(b) ==> a.error == b.error
      {
        UserCmpTotalExact(a, a);
        UserCmpTotalExact(a, b);
      }
    }
  }

  /** Sorting a group whose flags fit gives the intended order of its users. */
  lemma SortUsersOrders(us: seq<User>)
    requires FlagsFit(us)
    ensures Sorted(SortUsers(us), UserOrder)
    ensures multiset(SortUsers(us)) == multiset(us)
  {
    var sorted := SortUsers(us);
    FlagsFitPreorder(us);
    SortSorts(us, UserLe);
    SortPermutes(us, UserLe);
    PermutationMembers(us, sorted);
    assert forall i | 0 <= i < |sorted| :: sorted[i] in sorted;
  }

  /** An unreachable domain: users who are all offline and all flagged are sorted by name. */
  lemma FlaggedGroupSorts(us: seq<User>)
    requires forall u | u in us :: u.error && !IsOnline(u)
    ensures FlagsFit(us) && Sorted(SortUsers(us), UserOrder)
  {
    SortUsersOrders(us);
  }

  /** One flagged contact can leave the others out of order, although the group was
      just sorted: here "a" ends up behind "b". */
  lemma ErrorFlagBreaksOrder()
    ensures var a := User("a", None, SubNone, false, []);
            var b := User("b", None, SubNone, false, []);
            var c := User("c", None, SubNone, false, []);
            var flagged := User("f", None, SubNone, true, []);
            SortUsers([a, flagged, b, c]) == [b, c, flagged, a] && !UserOrder(b, a)
  {
    var a, b := User("a", None, SubNone, false, []), User("b", None, SubNone, false, []);
    var c, f := User("c", None, SubNone, false, []), User("f", None, SubNone, true, []);
    var us := [a, f, b, c];
    assert us[..2] == [a, f] && us[2..] == [b, c];
    assert [a, f][..1] == [a] && [a, f][1..] == [f];
    assert [b, c][..1] == [b] && [b, c][1..] == [c];
    assert MergeSort([a], UserLe) == [a] && MergeSort([f], UserLe) == [f];
    assert SortUsers([a, f]) == Merge([a], [f], UserLe) == [f, a];
    assert MergeSort([b], UserLe) == [b] && MergeSort([c], UserLe) == [c];
    assert SortUsers([b, c]) == Merge([b], [c], UserLe) == [b, c];
    assert [b, c][1..] == [c] && [c][1..] == [];
    assert Merge([f, a], [c], UserLe) == [c] + Merge([f, a], [], UserLe) == [c, f, a];
  }
}
