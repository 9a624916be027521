/** The association list of per-contact data, `tool_datalist`: it refines a map keyed by
    server and JID, and every datum put in is either still in it or was freed once. */
module DataList {
  import opened Text
  import opened Lists

  /** A server record, by its identity. */
  type Server = nat

  datatype Key = Key(server: Server, jid: string)

  /** One record as a value: its key and its datum. */
  datatype Item<D> = Item(key: Key, data: D)

  // ----- Specification

  ghost predicate DistinctKeys<D>(items: seq<Item<D>>) {
    forall i, j | 0 <= i < j < |items| :: items[i].key != items[j].key
  }

  /** The first record with the key, the one `datalist_find` returns. */
  function Find<D>(items: seq<Item<D>>, key: Key): (r: Option<nat>)
    ensures r.Some? ==> r.value < |items| && items[r.value].key == key
  {
    if |items| == 0 then None
    else if items[0].key == key then Some(0)
    else
      match Find(items[1..], key)
      case None => None
      case Some(i) => Some(i + 1)
  }

  function Lookup<D>(items: seq<Item<D>>, key: Key): Option<D> {
    match Find(items, key)
    case None => None
    case Some(i) => Some(items[i].data)
  }

  /** The map the list stands for. */
  function ToMap<D>(items: seq<Item<D>>): map<Key, D> {
    if |items| == 0 then map[] else ToMap(items[1..])[items[0].key := items[0].data]
  }

  /** Does a cleanup for this server (or for all, when there is none) drop the record? */
  predicate Doomed<D>(item: Item<D>, server: Option<Server>) {
    server.None? || item.key.server == server.value
  }

  function Remaining<D>(items: seq<Item<D>>, server: Option<Server>): seq<Item<D>> {
    if |items| == 0 then []
    else (if Doomed(items[0], server) then [] else [items[0]]) + Remaining(items[1..], server)
  }

  function DataOf<D>(items: seq<Item<D>>): (r: seq<D>)
    ensures |r| == |items|
  {
    seq(|items|, i requires 0 <= i < |items| => items[i].data)
  }

  lemma {:induction false} FindExactly<D>(items: seq<Item<D>>, key: Key)
    requires DistinctKeys(items)
    ensures key in ToMap(items) <==> Find(items, key).Some?
    ensures Find(items, key).Some? ==> ToMap(items)[key] == items[Find(items, key).value].data
    ensures forall i | 0 <= i < |items| && items[i].key == key :: Find(items, key) == Some(i)
  {
    if |items| == 0 {
    } else {
      FindExactly(items[1..], key);
      if items[0].key == key {
        assert forall i | 0 < i < |items| :: items[i].key != items[0].key;
      } else {
        forall i | 0 <= i < |items| && items[i].key == key ensures Find(items, key) == Some(i) {
          assert items[1..][i - 1] == items[i];
        }
      }
    }
  }

  lemma HasItem<D>(items: seq<Item<D>>, x: Item<D>)
    requires DistinctKeys(items) && x in items
    ensures x.key in ToMap(items) && ToMap(items)[x.key] == x.data
  {
    var k :| 0 <= k < |items| && items[k] == x;
    FindExactly(items, x.key);
  }

  /** `datalist_find` is the lookup of the map. */
  lemma LookupIsMap<D>(items: seq<Item<D>>, key: Key)
    requires DistinctKeys(items)
    ensures Lookup(items, key) == if key in ToMap(items) then Some(ToMap(items)[key]) else None
  {
    FindExactly(items, key);
  }

  lemma SameMap<K, V>(m: map<K, V>, n: map<K, V>)
    requires forall k :: k in m <==> k in n
    requires forall k | k in m :: m[k] == n[k]
    ensures m == n
  {
  }

  lemma MapOfUpdate<D>(items: seq<Item<D>>, i: nat, data: D)
    requires DistinctKeys(items) && i < |items|
    ensures var updated := items[i := items[i].(data := data)];
            DistinctKeys(updated) && ToMap(updated) == ToMap(items)[items[i].key := data]
  {
    var updated := items[i := items[i].(data := data)];
    var m, n := ToMap(updated), ToMap(items)[items[i].key := data];
    forall key: Key ensures key in m <==> key in n ensures key in m ==> m[key] == n[key] {
      FindExactly(items, key);
      FindExactly(updated, key);
      if Find(items, key).Some? {
        assert updated[Find(items, key).value].key == key;
      }
    }
    SameMap(m, n);
  }

  lemma MissingKey<D>(items: seq<Item<D>>, key: Key)
    requires DistinctKeys(items) && Find(items, key).None?
    ensures ToMap(items) - {key} == ToMap(items)
  {
    FindExactly(items, key);
  }

  lemma Prepended<D>(items: seq<Item<D>>, item: Item<D>)
    requires DistinctKeys(items) && Find(items, item.key).None?
    ensures var more := [item] + items;
            && DistinctKeys(more) && ToMap(more) == ToMap(items)[item.key := item.data]
            && multiset(DataOf(more)) == multiset(DataOf(items)) + multiset{item.data}
  {
    var more := [item] + items;
    FindExactly(items, item.key);
    assert more[1..] == items;
    assert DataOf(more) == [item.data] + DataOf(items);
  }

  lemma KeysWithout<D>(items: seq<Item<D>>, i: nat)
    requires DistinctKeys(items) && i < |items|
    ensures DistinctKeys(items[..i] + items[i + 1..])
  {
    var rest := items[..i] + items[i + 1..];
    assert forall k | 0 <= k < |rest| :: rest[k] == items[if k < i then k else k + 1];
  }

  lemma RemovedKey<D>(items: seq<Item<D>>, i: nat, rest: seq<Item<D>>, key: Key)
    requires DistinctKeys(items) && DistinctKeys(rest) && i < |items| && |rest| == |items| - 1
    requires forall k | 0 <= k < |rest| :: rest[k] == items[if k < i then k else k + 1]
    ensures key in ToMap(rest) <==> key in ToMap(items) && key != items[i].key
    ensures key in ToMap(rest) ==> ToMap(rest)[key] == ToMap(items)[key]
  {
    FindExactly(items, key);
    FindExactly(rest, key);
    if Find(rest, key).Some? {
      var k := Find(rest, key).value;
      assert rest[k] == items[if k < i then k else k + 1];
      HasItem(items, rest[k]);
    }
    if Find(items, key).Some? && key != items[i].key {
      var k := Find(items, key).value;
      assert rest[if k < i then k else k - 1] == items[k];
      HasItem(rest, items[k]);
    }
  }

  lemma MapOfRemoval<D>(items: seq<Item<D>>, i: nat)
    requires DistinctKeys(items) && i < |items|
    ensures var rest := items[..i] + items[i + 1..];
            DistinctKeys(rest) && ToMap(rest) == ToMap(items) - {items[i].key}
  {
    var rest := items[..i] + items[i + 1..];
    KeysWithout(items, i);
    assert forall k | 0 <= k < |rest| :: rest[k] == items[if k < i then k else k + 1];
    var m, n := ToMap(rest), ToMap(items) - {items[i].key};
    forall key: Key ensures key in m <==> key in n ensures key in m ==> m[key] == n[key] {
      RemovedKey(items, i, rest, key);
    }
    SameMap(m, n);
  }

  lemma {:induction false} RemainingKeys<D>(items: seq<Item<D>>, server: Option<Server>, kept: seq<Item<D>>)
    requires DistinctKeys(items) && kept == Remaining(items, server)
    ensures DistinctKeys(kept)
    ensures forall k | 0 <= k < |kept| :: kept[k] in items && !Doomed(kept[k], server)
    ensures forall i | 0 <= i < |items| && !Doomed(items[i], server) :: items[i] in kept
  {
    if |items| == 0 {
    } else {
      var rest := items[1..];
      var more := Remaining(rest, server);
      RemainingKeys(rest, server, more);
      forall k | 0 <= k < |more| ensures more[k].key != items[0].key && more[k] in items {
        var j :| 0 <= j < |rest| && rest[j] == more[k];
        assert items[j + 1] == more[k];
      }
      forall i | 0 <= i < |items| && !Doomed(items[i], server) ensures items[i] in kept {
        if i > 0 {
          assert rest[i - 1] in more;
        }
      }
    }
  }

  /** Cleaning up removes exactly one server's keys from the map, or all of them. */
  lemma RemainingKey<D>(items: seq<Item<D>>, server: Option<Server>, kept: seq<Item<D>>, key: Key)
    requires DistinctKeys(items) && DistinctKeys(kept)
    requires forall k | 0 <= k < |kept| :: kept[k] in items && !Doomed(kept[k], server)
    requires forall i | 0 <= i < |items| && !Doomed(items[i], server) :: items[i] in kept
    ensures key in ToMap(kept) <==> key in ToMap(items) && server.Some? && key.server != server.value
    ensures key in ToMap(kept) ==> ToMap(kept)[key] == ToMap(items)[key]
  {
    FindExactly(items, key);
    FindExactly(kept, key);
    if Find(kept, key).Some? {
      HasItem(items, kept[Find(kept, key).value]);
    }
    if Find(items, key).Some? && server.Some? && key.server != server.value {
      HasItem(kept, items[Find(items, key).value]);
    }
  }

  lemma MapOfRemaining<D>(items: seq<Item<D>>, server: Option<Server>)
    requires DistinctKeys(items)
    ensures DistinctKeys(Remaining(items, server))
    ensures ToMap(Remaining(items, server))
            == map k | k in ToMap(items) && server.Some? && k.server != server.value :: ToMap(items)[k]
  {
    var kept := Remaining(items, server);
    var expected := map k | k in ToMap(items) && server.Some? && k.server != server.value :: ToMap(items)[k];
    RemainingKeys(items, server, kept);
    var m := ToMap(kept);
    forall key: Key ensures key in m <==> key in expected ensures key in m ==> m[key] == expected[key] {
      RemainingKey(items, server, kept, key);
    }
    SameMap(m, expected);
  }

  lemma Assoc<T>(a: seq<T>, b: seq<T>, c: seq<T>)
    ensures a + (b + c) == (a + b) + c
  {
  }

  lemma {:induction false} RemainingConcat<D>(s: seq<Item<D>>, t: seq<Item<D>>, server: Option<Server>)
    ensures Remaining(s + t, server) == Remaining(s, server) + Remaining(t, server)
  {
    if |s| == 0 {
      assert s + t == t;
    } else {
      var all, tail := s + t, s[1..];
      RemainingConcat(tail, t, server);
      assert all[0] == s[0] && all[1..] == tail + t;
      var head := if Doomed(s[0], server) then [] else [s[0]];
      Assoc(head, Remaining(tail, server), Remaining(t, server));
    }
  }

  lemma RemainingNext<D>(items: seq<Item<D>>, k: nat, server: Option<Server>)
    requires k < |items|
    ensures Remaining(items[..k + 1], server)
            == Remaining(items[..k], server) + if Doomed(items[k], server) then [] else [items[k]]
  {
    assert items[..k + 1] == items[..k] + [items[k]];
    RemainingConcat(items[..k], [items[k]], server);
  }

  // ----- The list

  class DataRec<D> {
    const server: Server
    const jid: string
    var data: D

    constructor (server: Server, jid: string, data: D)
      ensures View() == Item(Key(server, jid), data)
    {
      this.server, this.jid, this.data := server, jid, data;
    }

    function View(): Item<D>
      reads this
    {
      Item(Key(server, jid), data)
    }
  }

  function ViewsOf<D>(list: seq<DataRec<D>>): (items: seq<Item<D>>)
    reads list
    ensures |items| == |list| && forall i | 0 <= i < |list| :: items[i] == list[i].View()
  {
    seq(|list|, i requires 0 <= i < |list| reads list => list[i].View())
  }

  lemma ViewsWithout<D>(list: seq<DataRec<D>>, i: nat)
    requires i < |list|
    ensures ViewsOf(list[..i] + list[i + 1..]) == ViewsOf(list)[..i] + ViewsOf(list)[i + 1..]
  {
  }

  /** A sequence around one of its places. */
  lemma Parts<T>(s: seq<T>, k: nat)
    requires k < |s|
    ensures s[k..][0] == s[k] && s[k..][1..] == s[k + 1..] && s[..k + 1] == s[..k] + [s[k]]
    ensures var rest := s[..k] + s[k + 1..]; rest[..k] == s[..k] && rest[k..] == s[k + 1..]
  {
  }

  lemma DataUpdated<D>(items: seq<Item<D>>, i: nat, data: D)
    requires i < |items|
    ensures multiset(DataOf(items[i := items[i].(data := data)])) + multiset{items[i].data}
            == multiset(DataOf(items)) + multiset{data}
  {
    var all := DataOf(items);
    assert DataOf(items[i := items[i].(data := data)]) == all[i := data];
    assert all == all[..i] + [all[i]] + all[i + 1..];
    assert all[i := data] == all[..i] + [data] + all[i + 1..];
  }

  lemma Exchange<T>(m: multiset<T>, n: multiset<T>, f: multiset<T>, added: T, dropped: T)
    requires n + multiset{dropped} == m + multiset{added}
    ensures n + (f + multiset{dropped}) == m + f + multiset{added}
  {
    assert n + (f + multiset{dropped}) == (n + multiset{dropped}) + f;
  }

  lemma DataRemoved<D>(items: seq<Item<D>>, i: nat)
    requires i < |items|
    ensures multiset(DataOf(items[..i] + items[i + 1..])) + multiset{items[i].data} == multiset(DataOf(items))
  {
    var all := DataOf(items);
    assert DataOf(items[..i] + items[i + 1..]) == all[..i] + all[i + 1..];
    assert all == all[..i] + [all[i]] + all[i + 1..];
  }

  class DataList<D> {
    var list: seq<DataRec<D>>
    /** All data handed to `freedata_func`, oldest first. */
    var freed: seq<D>

    /** `datalist_new` */
    constructor ()
      ensures Valid() && list == [] && Items() == [] && freed == []
    {
      list, freed := [], [];
    }

    ghost predicate Valid()
      reads this, list
    {
      DistinctKeys(Items())
    }

    function Items(): (items: seq<Item<D>>)
      reads this, list
      ensures |items| == |list| && forall i | 0 <= i < |list| :: items[i] == list[i].View()
    {
      ViewsOf(list)
    }

    /** Every datum ever put in: the live ones and the freed ones. */
    ghost function Data(): multiset<D>
      reads this, list
    {
      multiset(DataOf(Items())) + multiset(freed)
    }

    /** `datalist_find` */
    method FindRec(server: Server, jid: string) returns (rec: DataRec?<D>, ghost at: Option<nat>)
      requires Valid()
      ensures at == Find(Items(), Key(server, jid))
      ensures rec == if at.Some? then list[at.value] else null
    {
      ghost var items := Items();
      for k := 0 to |list|
        invariant items == Items() && forall i | 0 <= i < k :: items[i].key != Key(server, jid)
      {
        if list[k].server == server && list[k].jid == jid {
          FindExactly(items, Key(server, jid));
          assert items[k].key == Key(server, jid);
          return list[k], Some(k);
        }
      }
      return null, None;
    }

    /** The branch of `datalist_add` for a key that is present. */
    method Replace(rec: DataRec<D>, ghost i: nat, data: D)
      requires Valid() && i < |list| && list[i] == rec
      modifies this, list
      ensures Valid() && ToMap(Items()) == old(ToMap(Items()))[old(rec.View()).key := data]
      ensures freed == old(freed) + [old(rec.data)] && Data() == old(Data()) + multiset{data}
    {
      ghost var items := Items();
      freed := freed + [rec.data];
      rec.data := data;
      assert forall k | 0 <= k < |list| && k != i :: list[k] != rec by {
        assert forall k | 0 <= k < |list| && k != i :: items[k].key != items[i].key;
      }
      assert Items() == items[i := items[i].(data := data)];
      MapOfUpdate(items, i, data);
      DataUpdated(items, i, data);
      Exchange(multiset(DataOf(items)), multiset(DataOf(Items())), multiset(old(freed)), data, old(rec.data));
    }

    /** The branch of `datalist_add` for a new key. */
    method Prepend(server: Server, jid: string, data: D)
      requires Valid() && Find(Items(), Key(server, jid)).None?
      modifies this
      ensures Valid() && ToMap(Items()) == old(ToMap(Items()))[Key(server, jid) := data]
      ensures freed == old(freed) && Data() == old(Data()) + multiset{data}
    {
      ghost var items := Items();
      var rec := new DataRec(server, jid, data);
      list := [rec] + list;
      assert Items() == [rec.View()] + items;
      Prepended(items, rec.View());
    }

    /** `datalist_add`: an old datum of the key is freed, then replaced. */
    method Add(server: Server, jid: string, data: D)
      requires Valid()
      modifies this, list
      ensures Valid() && ToMap(Items()) == old(ToMap(Items()))[Key(server, jid) := data]
      ensures Data() == old(Data()) + multiset{data}
      ensures freed == old(freed) + match old(Lookup(Items(), Key(server, jid))) case None => [] case Some(d) => [d]
    {
      var rec, at := FindRec(server, jid);
      if rec != null {
        Replace(rec, at.value, data);
      } else {
        Prepend(server, jid, data);
      }
    }

    /** `datalist_free`: the record is unlinked and its datum freed. */
    method Free(rec: DataRec<D>, ghost i: nat)
      requires Valid() && i < |list| && list[i] == rec
      modifies this
      ensures Valid() && list == old(list)[..i] + old(list)[i + 1..]
      ensures Items() == old(Items())[..i] + old(Items())[i + 1..]
      ensures freed == old(freed) + [rec.data] && Data() == old(Data())
    {
      ghost var items := Items();
      ListWithout(i);
      ViewsWithout(list, i);
      list := RemoveOne(list, rec);
      freed := freed + [rec.data];
      assert Items() == ViewsOf(list);
      KeysWithout(items, i);
      DataRemoved(items, i);
    }

    lemma ListWithout(i: nat)
      requires Valid() && i < |list|
      ensures RemoveOne(list, list[i]) == list[..i] + list[i + 1..]
    {
      assert forall k | 0 <= k < i :: list[k] != list[i] by {
        forall k | 0 <= k < i ensures list[k] != list[i] {
          assert Items()[k].key != Items()[i].key;
        }
      }
      RemoveOneFirst(list, i);
    }

    /** `datalist_remove` */
    method RemoveKey(server: Server, jid: string)
      requires Valid()
      modifies this
      ensures Valid() && ToMap(Items()) == old(ToMap(Items())) - {Key(server, jid)}
      ensures Data() == old(Data())
    {
      ghost var items := Items();
      var rec, at := FindRec(server, jid);
      if rec != null {
        MapOfRemoval(items, at.value);
        Free(rec, at.value);
      } else {
        MissingKey(items, Key(server, jid));
      }
    }

    /** A walk over `items` has visited `done` records, kept `kept` of them in front, and
        has still to visit `rest`. */
    ghost predicate Walking(items: seq<Item<D>>, server: Option<Server>, done: nat, kept: nat, rest: seq<DataRec<D>>)
      reads this, list
    {
      && Valid() && kept <= |list| && list[kept..] == rest
      && done <= |items| && Items()[kept..] == items[done..]
      && Items()[..kept] == Remaining(items[..done], server)
    }

    /** One round of the loop of `datalist_cleanup`. */
    method Visit(rec: DataRec<D>, server: Option<Server>, ghost items: seq<Item<D>>, ghost done: nat, ghost kept: nat,
                 ghost rest: seq<DataRec<D>>)
      returns (ghost kept': nat)
      requires rest != [] && rec == rest[0] && Walking(items, server, done, kept, rest)
      modifies this
      ensures Walking(items, server, done + 1, kept', rest[1..])
      ensures Data() == old(Data())
    {
      ghost var here := Items();
      Parts(here, kept);
      Parts(list, kept);
      assert here[kept] == items[done..][0];
      Parts(items, done);
      RemainingNext(items, done, server);
      if server.None? || rec.server == server.value {
        Free(rec, kept);
        kept' := kept;
      } else {
        kept' := kept + 1;
      }
    }

    lemma WalkDone(items: seq<Item<D>>, server: Option<Server>, done: nat, kept: nat)
      requires Walking(items, server, done, kept, [])
      ensures Items() == Remaining(items, server)
    {
      assert |Items()[kept..]| == |list[kept..]| == 0 && |items[done..]| == 0;
      assert Items()[..kept] == Items() && items[..done] == items;
    }

    /** `datalist_cleanup`: the records of one server, or all, are freed while the list is
        walked; `rest` is what the walk has still to visit when a record is unlinked. */
    method Cleanup(server: Option<Server>)
      requires Valid()
      modifies this
      ensures Valid() && Items() == Remaining(old(Items()), server)
      ensures ToMap(Items()) ==
              map k | k in old(ToMap(Items())) && server.Some? && k.server != server.value :: old(ToMap(Items()))[k]
      ensures Data() == old(Data())
    {
      ghost var items := Items();
      ghost var kept: nat, done: nat := 0, 0;
      var rest := list;
      while rest != []
        invariant Walking(items, server, done, kept, rest)
        invariant Data() == old(Data())
        decreases |rest|
      {
        var next := rest[1..];
        kept := Visit(rest[0], server, items, done, kept, rest);
        done := done + 1;
        rest := next;
      }
      WalkDone(items, server, done, kept);
      MapOfRemaining(items, server);
    }
  }
}
