/** Sequences as the client's linked lists: taking links out, and lists without duplicates. */
module Lists {
  ghost predicate NoDup<T>(s: seq<T>) {
    forall i, j | 0 <= i < j < |s| :: s[i] != s[j]
  }

  function RemoveAt<T>(s: seq<T>, i: nat): seq<T>
    requires i < |s|
  {
    s[..i] + s[i + 1..]
  }

  /** `g_slist_remove`: the first link that holds `x` goes. */
  function RemoveOne<T(==)>(s: seq<T>, x: T): seq<T> {
    if |s| == 0 then [] else if s[0] == x then s[1..] else [s[0]] + RemoveOne(s[1..], x)
  }

  lemma {:induction false} RemoveOneFirst<T>(s: seq<T>, k: nat)
    requires k < |s| && forall j | 0 <= j < k :: s[j] != s[k]
    ensures RemoveOne(s, s[k]) == RemoveAt(s, k)
  {
    if k == 0 {
    } else {
      var tail := s[1..];
      assert s[0] != s[k] && tail[k - 1] == s[k];
      RemoveOneFirst(tail, k - 1);
      assert [s[0]] + (tail[..k - 1] + tail[k..]) == s[..k] + s[k + 1..];
    }
  }

  lemma {:induction false} RemoveOneAt<T>(s: seq<T>, r: T, rest: seq<T>)
    requires NoDup(s) && rest == RemoveOne(s, r)
    ensures NoDup(rest) && forall x :: x in rest <==> x in s && x != r
    ensures r !in s ==> rest == s
    ensures r in s ==> |rest| == |s| - 1
  {
    if |s| == 0 {
    } else {
      var tail := s[1..];
      var less := RemoveOne(tail, r);
      assert s == [s[0]] + tail;
      RemoveOneAt(tail, r, less);
      assert s[0] !in tail;
      assert rest == if s[0] == r then tail else [s[0]] + less;
    }
  }

  lemma {:induction false} RemoveOneAfter<T>(front: seq<T>, rest: seq<T>, x: T)
    requires x !in front && rest != [] && rest[0] == x
    ensures RemoveOne(front + rest, x) == front + rest[1..]
  {
    if front == [] {
      assert front + rest == rest;
    } else {
      RemoveOneAfter(front[1..], rest, x);
      assert (front + rest)[1..] == front[1..] + rest;
    }
  }

  lemma {:induction false} RemoveOneBag<T>(s: seq<T>, x: T)
    requires x in s
    ensures multiset(RemoveOne(s, x)) + multiset{x} == multiset(s)
  {
    assert s == [s[0]] + s[1..];
    if s[0] == x {
    } else {
      RemoveOneBag(s[1..], x);
    }
  }

  lemma UpdateBag<T>(s: seq<T>, i: nat, x: T)
    requires i < |s|
    ensures multiset(s[i := x]) + multiset{s[i]} == multiset(s) + multiset{x}
  {
    assert multiset(s[i := x]) == multiset(s)[s[i] := multiset(s)[s[i]] - 1] + multiset{x};
  }

  lemma RemoveBag<T>(s: seq<T>, i: nat)
    requires i < |s|
    ensures multiset(RemoveAt(s, i)) + multiset{s[i]} == multiset(s)
  {
    assert s == s[..i] + [s[i]] + s[i + 1..];
    assert multiset(s) == multiset(s[..i]) + multiset{s[i]} + multiset(s[i + 1..]);
  }

  lemma RemoveAtMembers<T>(s: seq<T>, k: nat)
    requires NoDup(s) && k < |s|
    ensures NoDup(RemoveAt(s, k)) && forall x | x in RemoveAt(s, k) :: x in s && x != s[k]
  {
    var rest := RemoveAt(s, k);
    assert forall i | 0 <= i < |rest| :: rest[i] == s[if i < k then i else i + 1];
  }

  lemma {:induction false} NoDupCount<T>(s: seq<T>, x: T)
    requires NoDup(s)
    ensures multiset(s)[x] <= 1
  {
    if s == [] {
    } else {
      assert s == [s[0]] + s[1..];
      NoDupCount(s[1..], x);
    }
  }

  lemma NoDupPermutation<T>(s: seq<T>, t: seq<T>)
    requires NoDup(s) && multiset(s) == multiset(t)
    ensures NoDup(t)
  {
    forall i, j | 0 <= i < j < |t| ensures t[i] != t[j] {
      if t[i] == t[j] {
        assert t == t[..j] + [t[j]] + t[j + 1..];
        assert multiset(t)[t[i]] >= 2;
        NoDupCount(s, t[i]);
      }
    }
  }
}
