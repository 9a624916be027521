/** GLib's `g_slist_sort`: a merge sort that halves the list and, when merging,
    takes from the left half unless the comparator says "greater". A comparator
    `cmp` appears here as `le(x, y) == (cmp(x, y) <= 0)`. */
module Sorting {
  import opened Lists

  function Merge<T>(a: seq<T>, b: seq<T>, le: (T, T) -> bool): seq<T>
    decreases |a| + |b|
  {
    if |a| == 0 then b
    else if |b| == 0 then a
    else if le(a[0], b[0]) then [a[0]] + Merge(a[1..], b, le)
    else [b[0]] + Merge(a, b[1..], le)
  }

  function MergeSort<T>(s: seq<T>, le: (T, T) -> bool): seq<T>
    decreases |s|
  {
    if |s| <= 1 then s
    else Merge(MergeSort(s[..|s| / 2], le), MergeSort(s[|s| / 2..], le), le)
  }

  ghost predicate Sorted<T>(s: seq<T>, le: (T, T) -> bool) {
    forall i, j | 0 <= i < j < |s| :: le(s[i], s[j])
  }

  /** `le` is total and transitive on the elements of `s`. */
  ghost predicate TotalPreorderOn<T>(s: seq<T>, le: (T, T) -> bool) {
    && (forall x, y | x in s && y in s :: le(x, y) || le(y, x))
    && (forall x, y, z | x in s && y in s && z in s && le(x, y) && le(y, z) :: le(x, z))
  }

  lemma {:induction false} MergePermutes<T>(a: seq<T>, b: seq<T>, le: (T, T) -> bool)
    ensures multiset(Merge(a, b, le)) == multiset(a) + multiset(b)
    decreases |a| + |b|
  {
    if |a| != 0 && |b| != 0 {
      assert a == [a[0]] + a[1..] && b == [b[0]] + b[1..];
      if le(a[0], b[0]) {
        MergePermutes(a[1..], b, le);
      } else {
        MergePermutes(a, b[1..], le);
      }
    }
  }

  lemma SplitMultiset<T>(s: seq<T>, h: nat)
    requires h <= |s|
    ensures multiset(s) == multiset(s[..h]) + multiset(s[h..])
  {
    assert s == s[..h] + s[h..];
  }

  lemma SameSize<T>(s: seq<T>, t: seq<T>)
    requires multiset(s) == multiset(t)
    ensures |s| == |t|
  {
    assert |multiset(s)| == |s| && |multiset(t)| == |t|;
  }

  /** Whatever the comparator, sorting permutes the list. */
  lemma {:induction false} SortPermutes<T>(s: seq<T>, le: (T, T) -> bool)
    ensures multiset(MergeSort(s, le)) == multiset(s)
    ensures |MergeSort(s, le)| == |s|
    decreases |s|
  {
    if |s| <= 1 {
    } else {
      var h := |s| / 2;
      SortPermutes(s[..h], le);
      SortPermutes(s[h..], le);
      MergePermutes(MergeSort(s[..h], le), MergeSort(s[h..], le), le);
      SplitMultiset(s, h);
      SameSize(MergeSort(s, le), s);
    }
  }

  lemma PermutationMembers<T>(s: seq<T>, t: seq<T>)
    requires multiset(s) == multiset(t)
    ensures forall x :: x in s <==> x in t
  {
    forall x ensures x in s <==> x in t {
      assert x in s <==> x in multiset(s);
      assert x in t <==> x in multiset(t);
    }
  }

  lemma MergeMembers<T>(a: seq<T>, b: seq<T>, le: (T, T) -> bool, merged: seq<T>)
    requires merged == Merge(a, b, le)
    ensures forall i | 0 <= i < |merged| :: merged[i] in a || merged[i] in b
  {
    MergePermutes(a, b, le);
    PermutationMembers(merged, a + b);
    forall i | 0 <= i < |merged| ensures merged[i] in a || merged[i] in b {
      assert merged[i] in merged && merged[i] in a + b;
    }
  }

  lemma {:induction false} MergeSorts<T>(a: seq<T>, b: seq<T>, le: (T, T) -> bool)
    requires Sorted(a, le) && Sorted(b, le) && TotalPreorderOn(a + b, le)
    ensures Sorted(Merge(a, b, le), le)
    decreases |a| + |b|
  {
    if |a| != 0 && |b| != 0 {
      var first, rest;
      if le(a[0], b[0]) {
        first, rest := a[0], Merge(a[1..], b, le);
        assert forall x :: x in a[1..] + b ==> x in a + b;
        MergeSorts(a[1..], b, le);
        MergeMembers(a[1..], b, le, rest);
      } else {
        first, rest := b[0], Merge(a, b[1..], le);
        assert forall x :: x in a + b[1..] ==> x in a + b;
        MergeSorts(a, b[1..], le);
        MergeMembers(a, b[1..], le, rest);
      }
      forall j | 0 <= j < |rest| ensures le(first, rest[j]) {
        var x := rest[j];
        assert x in a || x in b;
        assert a[0] in a + b && b[0] in a + b && x in a + b;
        if x in a {
          var k :| 0 <= k < |a| && a[k] == x;
          assert k == 0 || le(a[0], a[k]);
          assert le(x, x);
        } else {
          var k :| 0 <= k < |b| && b[k] == x;
          assert k == 0 || le(b[0], b[k]);
          assert le(x, x);
        }
      }
    }
  }

  lemma PreorderOnPart<T>(s: seq<T>, t: seq<T>, le: (T, T) -> bool)
    requires TotalPreorderOn(s, le)
    requires forall x | x in t :: x in s
    ensures TotalPreorderOn(t, le)
  {
  }

  lemma SortMembers<T>(s: seq<T>, h: nat, le: (T, T) -> bool)
    requires h <= |s|
    ensures forall x :: x in MergeSort(s[..h], le) + MergeSort(s[h..], le) <==> x in s
  {
    var a, b := MergeSort(s[..h], le), MergeSort(s[h..], le);
    SortPermutes(s[..h], le);
    SortPermutes(s[h..], le);
    assert s == s[..h] + s[h..];
    assert multiset(a + b) == multiset(s);
    PermutationMembers(a + b, s);
  }

  /** On a list whose elements the comparator totally preorders, the result is sorted. */
  lemma {:induction false} SortSorts<T>(s: seq<T>, le: (T, T) -> bool)
    requires TotalPreorderOn(s, le)
    ensures Sorted(MergeSort(s, le), le)
    decreases |s|
  {
    if |s| <= 1 {
    } else {
      var h := |s| / 2;
      var a, b := MergeSort(s[..h], le), MergeSort(s[h..], le);
      assert Sorted(a, le) by {
        PreorderOnPart(s, s[..h], le);
        SortSorts(s[..h], le);
      }
      assert Sorted(b, le) by {
        PreorderOnPart(s, s[h..], le);
        SortSorts(s[h..], le);
      }
      assert TotalPreorderOn(a + b, le) by {
        SortMembers(s, h, le);
        PreorderOnPart(s, a + b, le);
      }
      MergeSorts(a, b, le);
    }
  }

  // ----- Two elements followed through the merges

  ghost predicate Before<T>(s: seq<T>, x: T, y: T) {
    exists i, j | 0 <= i < j < |s| :: s[i] == x && s[j] == y
  }

  lemma BeforeTail<T>(s: seq<T>, x: T, y: T)
    requires s != [] && Before(s[1..], x, y)
    ensures Before(s, x, y)
  {
    var i, j :| 0 <= i < j < |s[1..]| && s[1..][i] == x && s[1..][j] == y;
    assert s[i + 1] == x && s[j + 1] == y;
  }

  /** Merging keeps the order of the right list, whatever the comparator. */
  lemma {:induction false} MergeKeepsBefore<T>(a: seq<T>, b: seq<T>, le: (T, T) -> bool, i: nat, j: nat)
    requires i < j < |b|
    ensures Before(Merge(a, b, le), b[i], b[j])
    decreases |a| + |b|
  {
    if |a| == 0 {
      assert Merge(a, b, le)[i] == b[i] && Merge(a, b, le)[j] == b[j];
    } else if le(a[0], b[0]) {
      MergeKeepsBefore(a[1..], b, le, i, j);
      BeforeTail(Merge(a, b, le), b[i], b[j]);
    } else if i > 0 {
      MergeKeepsBefore(a, b[1..], le, i - 1, j - 1);
      BeforeTail(Merge(a, b, le), b[i], b[j]);
    } else {
      var rest := Merge(a, b[1..], le);
      MergePermutes(a, b[1..], le);
      assert b[1..][j - 1] in multiset(b[1..]) && b[j] in multiset(rest);
      var k :| 0 <= k < |rest| && rest[k] == b[j];
      assert Merge(a, b, le)[0] == b[0] && Merge(a, b, le)[k + 1] == b[j];
    }
  }

  /** The last two elements, once in order for the comparator, stay so to the end. */
  lemma {:induction false} LastTwoStay<T>(s: seq<T>, le: (T, T) -> bool)
    requires |s| >= 2 && le(s[|s| - 2], s[|s| - 1])
    ensures Before(MergeSort(s, le), s[|s| - 2], s[|s| - 1])
    decreases |s|
  {
    var h := |s| / 2;
    var a, b := MergeSort(s[..h], le), MergeSort(s[h..], le);
    if |s| == 2 {
      assert a == [s[0]] && b == [s[1]] && a[1..] == [];
      assert MergeSort(s, le) == Merge(a, b, le) == [s[0]] + [s[1]];
      assert MergeSort(s, le)[0] == s[0] && MergeSort(s, le)[1] == s[1];
    } else {
      LastTwoStay(s[h..], le);
      var i, j :| 0 <= i < j < |b| && b[i] == s[|s| - 2] && b[j] == s[|s| - 1];
      MergeKeepsBefore(a, b, le, i, j);
    }
  }

  // ----- Comparators that agree on the list in its order

  lemma {:induction false} MergeSame<T>(a: seq<T>, b: seq<T>, le1: (T, T) -> bool, le2: (T, T) -> bool)
    requires forall x, y | x in a && y in b :: le1(x, y) == le2(x, y)
    ensures Merge(a, b, le1) == Merge(a, b, le2)
    decreases |a| + |b|
  {
    if |a| != 0 && |b| != 0 {
      assert a[0] in a && b[0] in b;
      if le1(a[0], b[0]) {
        MergeSame(a[1..], b, le1, le2);
      } else {
        MergeSame(a, b[1..], le1, le2);
      }
    }
  }

  lemma HalvesSame<T>(s: seq<T>, h: nat, a: seq<T>, b: seq<T>, le1: (T, T) -> bool, le2: (T, T) -> bool)
    requires h <= |s| && forall i, j | 0 <= i < j < |s| :: le1(s[i], s[j]) == le2(s[i], s[j])
    requires (forall x :: x in a <==> x in s[..h]) && (forall y :: y in b <==> y in s[h..])
    ensures forall x, y | x in a && y in b :: le1(x, y) == le2(x, y)
  {
    forall x, y | x in a && y in b ensures le1(x, y) == le2(x, y) {
      var i :| 0 <= i < |s[..h]| && s[..h][i] == x;
      var j :| 0 <= j < |s[h..]| && s[h..][j] == y;
      assert s[i] == x && s[h + j] == y;
    }
  }

  /** Sorting asks the comparator only about an element and a later one. */
  lemma {:induction false} SortSame<T>(s: seq<T>, le1: (T, T) -> bool, le2: (T, T) -> bool)
    requires forall i, j | 0 <= i < j < |s| :: le1(s[i], s[j]) == le2(s[i], s[j])
    ensures MergeSort(s, le1) == MergeSort(s, le2)
    decreases |s|
  {
    if |s| <= 1 {
    } else {
      var h := |s| / 2;
      SortSame(s[..h], le1, le2);
      SortSame(s[h..], le1, le2);
      var a, b := MergeSort(s[..h], le1), MergeSort(s[h..], le1);
      SortPermutes(s[..h], le1);
      SortPermutes(s[h..], le1);
      PermutationMembers(a, s[..h]);
      PermutationMembers(b, s[h..]);
      HalvesSame(s, h, a, b, le1, le2);
      MergeSame(a, b, le1, le2);
    }
  }

  // ----- Sorting records by what they show

  function Map<A, B>(s: seq<A>, f: A -> B): (r: seq<B>)
    ensures |r| == |s|
    ensures forall i | 0 <= i < |s| :: r[i] == f(s[i])
  {
    seq(|s|, i requires 0 <= i < |s| => f(s[i]))
  }

  ghost predicate Agree<A, B>(s: seq<A>, f: A -> B, le: (A, A) -> bool, leB: (B, B) -> bool) {
    forall x, y | x in s && y in s :: le(x, y) == leB(f(x), f(y))
  }

  lemma MapTail<A, B>(s: seq<A>, f: A -> B)
    requires |s| > 0
    ensures Map(s, f)[1..] == Map(s[1..], f) && Map(s, f)[0] == f(s[0])
  {
  }

  lemma MapCons<A, B>(x: A, s: seq<A>, f: A -> B)
    ensures Map([x] + s, f) == [f(x)] + Map(s, f)
  {
  }

  lemma {:induction false} MergeMap<A, B>(a: seq<A>, b: seq<A>, f: A -> B,
                                          le: (A, A) -> bool, leB: (B, B) -> bool)
    requires Agree(a + b, f, le, leB)
    ensures Map(Merge(a, b, le), f) == Merge(Map(a, f), Map(b, f), leB)
    decreases |a| + |b|
  {
    if |a| != 0 && |b| != 0 {
      assert a[0] in a + b && b[0] in a + b;
      if le(a[0], b[0]) {
        assert forall x :: x in a[1..] + b ==> x in a + b;
        MergeMap(a[1..], b, f, le, leB);
        MapTail(a, f);
        MapCons(a[0], Merge(a[1..], b, le), f);
      } else {
        assert forall x :: x in a + b[1..] ==> x in a + b;
        MergeMap(a, b[1..], f, le, leB);
        MapTail(b, f);
        MapCons(b[0], Merge(a, b[1..], le), f);
      }
    }
  }

  lemma AgreeOnPart<A, B>(s: seq<A>, t: seq<A>, f: A -> B, le: (A, A) -> bool, leB: (B, B) -> bool)
    requires Agree(s, f, le, leB)
    requires forall x | x in t :: x in s
    ensures Agree(t, f, le, leB)
  {
  }

  /** Sorting records and then looking at them is looking first and then sorting. */
  lemma {:induction false} SortMap<A, B>(s: seq<A>, f: A -> B,
                                         le: (A, A) -> bool, leB: (B, B) -> bool)
    requires Agree(s, f, le, leB)
    ensures Map(MergeSort(s, le), f) == MergeSort(Map(s, f), leB)
    decreases |s|
  {
    if |s| <= 1 {
    } else {
      var h := |s| / 2;
      var a, b := MergeSort(s[..h], le), MergeSort(s[h..], le);
      assert Map(a, f) == MergeSort(Map(s, f)[..h], leB) by {
        AgreeOnPart(s, s[..h], f, le, leB);
        SortMap(s[..h], f, le, leB);
        assert Map(s, f)[..h] == Map(s[..h], f);
      }
      assert Map(b, f) == MergeSort(Map(s, f)[h..], leB) by {
        AgreeOnPart(s, s[h..], f, le, leB);
        SortMap(s[h..], f, le, leB);
        assert Map(s, f)[h..] == Map(s[h..], f);
      }
      assert Agree(a + b, f, le, leB) by {
        SortMembers(s, h, le);
        AgreeOnPart(s, a + b, f, le, leB);
      }
      MergeMap(a, b, f, le, leB);
    }
  }

  // ----- Where an element goes

  function Numbered<T>(s: seq<T>): (t: seq<(T, nat)>)
    ensures |t| == |s| && forall i | 0 <= i < |s| :: t[i] == (s[i], i)
  {
    seq(|s|, i requires 0 <= i < |s| => (s[i], i))
  }

  /** The comparator on the first components. */
  function LeFirst<T>(le: (T, T) -> bool): ((T, nat), (T, nat)) -> bool {
    (x: (T, nat), y: (T, nat)) => le(x.0, y.0)
  }

  function First<T>(): ((T, nat)) -> T {
    (x: (T, nat)) => x.0
  }

  function PlaceOf<T>(t: seq<(T, nat)>, i: nat): nat {
    if |t| == 0 || t[0].1 == i then 0 else 1 + PlaceOf(t[1..], i)
  }

  lemma {:induction false} PlaceFound<T>(t: seq<(T, nat)>, i: nat, k: nat)
    requires k < |t| && t[k].1 == i
    ensures PlaceOf(t, i) <= k && t[PlaceOf(t, i)].1 == i
  {
    if t[0].1 != i {
      PlaceFound(t[1..], i, k - 1);
    }
  }

  lemma SortNumbered<T>(s: seq<T>, le: (T, T) -> bool)
    ensures Map(MergeSort(Numbered(s), LeFirst(le)), First()) == MergeSort(s, le)
  {
    assert Map(Numbered(s), First()) == s;
    SortMap(Numbered(s), First(), LeFirst(le), le);
  }

  lemma SortedHas<T>(s: seq<T>, i: nat, le: (T, T) -> bool)
    requires i < |s|
    ensures var t := MergeSort(Numbered(s), LeFirst(le));
            var k := PlaceOf(t, i);
            k < |t| == |MergeSort(s, le)| && t[k] == (s[i], i) && MergeSort(s, le)[k] == s[i]
  {
    var n, t := Numbered(s), MergeSort(Numbered(s), LeFirst(le));
    SortPermutes(n, LeFirst(le));
    PermutationMembers(n, t);
    assert n[i] in n;
    var k :| 0 <= k < |t| && t[k] == n[i];
    PlaceFound(t, i, k);
    assert t[PlaceOf(t, i)] in multiset(t) && t[PlaceOf(t, i)] in multiset(n);
    SortNumbered(s, le);
  }

  /** Where sorting puts the element at `i`. */
  function SortedPlace<T>(s: seq<T>, i: nat, le: (T, T) -> bool): (k: nat)
    requires i < |s|
    ensures k < |MergeSort(s, le)| && MergeSort(s, le)[k] == s[i]
  {
    SortedHas(s, i, le);
    PlaceOf(MergeSort(Numbered(s), LeFirst(le)), i)
  }

  /** Nothing else goes there. */
  lemma PlaceIsUnique<T>(s: seq<T>, i: nat, le: (T, T) -> bool, k: nat)
    requires i < |s| && k < |MergeSort(Numbered(s), LeFirst(le))| && MergeSort(Numbered(s), LeFirst(le))[k].1 == i
    ensures k == SortedPlace(s, i, le)
  {
    var n, t := Numbered(s), MergeSort(Numbered(s), LeFirst(le));
    SortPermutes(n, LeFirst(le));
    PermutationMembers(n, t);
    NoDupPermutation(n, t);
    SortedHas(s, i, le);
    assert t[k] in multiset(t) && t[k] in multiset(n) && t[k] in n;
  }

  /** The comparator, and for elements that it puts either way the order they had. */
  function LeThenNumber<T>(le: (T, T) -> bool): ((T, nat), (T, nat)) -> bool {
    (x: (T, nat), y: (T, nat)) => le(x.0, y.0) && (!le(y.0, x.0) || x.1 <= y.1)
  }

  lemma NumberedPreorder<T>(s: seq<T>, le: (T, T) -> bool)
    requires TotalPreorderOn(s, le)
    ensures TotalPreorderOn(Numbered(s), LeThenNumber(le))
  {
    forall x | x in Numbered(s) ensures x.0 in s {
      var i :| 0 <= i < |s| && Numbered(s)[i] == x;
    }
  }

  /** The sort is stable: of two elements that it may put either way, the one in front stays
      in front. */
  lemma SortIsStable<T>(s: seq<T>, le: (T, T) -> bool, i: nat, j: nat)
    requires TotalPreorderOn(s, le) && i < j < |s| && le(s[i], s[j])
    ensures SortedPlace(s, i, le) < SortedPlace(s, j, le)
  {
    var n, k, l := Numbered(s), SortedPlace(s, i, le), SortedPlace(s, j, le);
    NumberedPreorder(s, le);
    SortSame(n, LeFirst(le), LeThenNumber(le));
    SortSorts(n, LeThenNumber(le));
    SortedHas(s, i, le);
    SortedHas(s, j, le);
    var t := MergeSort(n, LeFirst(le));
    assert t[k] == (s[i], i) && t[l] == (s[j], j);
    assert !LeThenNumber(le)((s[j], j), (s[i], i));
  }

  function IndexIn<A(==)>(s: seq<A>, x: A): nat {
    if |s| == 0 || s[0] == x then 0 else 1 + IndexIn(s[1..], x)
  }

  lemma {:induction false} IndexInFirst<A>(s: seq<A>, i: nat)
    requires i < |s| && forall j | 0 <= j < i :: s[j] != s[i]
    ensures IndexIn(s, s[i]) == i
  {
    if i == 0 {
    } else {
      IndexInFirst(s[1..], i - 1);
    }
  }

  /** Sorting distinct records puts each where sorting their views puts its view. */
  lemma SortMapPlace<A, B>(s: seq<A>, f: A -> B, le: (A, A) -> bool, leB: (B, B) -> bool, i: nat, k: nat)
    requires NoDup(s) && Agree(s, f, le, leB)
    requires i < |s| && k < |MergeSort(s, le)| && MergeSort(s, le)[k] == s[i]
    ensures k == SortedPlace(Map(s, f), i, leB)
  {
    var num := (x: A) => (f(x), IndexIn(s, x));
    forall j | 0 <= j < |s| ensures num(s[j]) == (f(s[j]), j) {
      IndexInFirst(s, j);
    }
    assert Map(s, num) == Numbered(Map(s, f));
    SortMap(s, num, le, LeFirst(leB));
    assert Map(MergeSort(s, le), num)[k] == num(s[i]);
    PlaceIsUnique(Map(s, f), i, leB, k);
  }

  /** Sorting distinct records gives the same records, distinct; their views are sorted, and
      each record goes where its view goes. */
  lemma SortRecords<A, B>(s: seq<A>, f: A -> B, le: (A, A) -> bool, leB: (B, B) -> bool)
    requires NoDup(s) && Agree(s, f, le, leB)
    ensures var t := MergeSort(s, le);
            && multiset(t) == multiset(s) && |t| == |s| && NoDup(t)
            && (forall i | 0 <= i < |t| :: t[i] in s) && (forall i | 0 <= i < |s| :: s[i] in t)
            && Map(t, f) == MergeSort(Map(s, f), leB)
            && forall i | 0 <= i < |s| ::
                 SortedPlace(Map(s, f), i, leB) < |t| && t[SortedPlace(Map(s, f), i, leB)] == s[i]
  {
    var t := MergeSort(s, le);
    SortMap(s, f, le, leB);
    SortPermutes(s, le);
    NoDupPermutation(s, t);
    forall i | 0 <= i < |t| ensures t[i] in s {
      assert t[i] in multiset(t) && t[i] in multiset(s);
    }
    forall i | 0 <= i < |s|
      ensures s[i] in t && SortedPlace(Map(s, f), i, leB) < |t| && t[SortedPlace(Map(s, f), i, leB)] == s[i]
    {
      assert s[i] in multiset(s) && s[i] in multiset(t);
      var k :| 0 <= k < |t| && t[k] == s[i];
      SortMapPlace(s, f, le, leB, i, k);
    }
  }
}
