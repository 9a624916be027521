/** The nick table of a room as it is kept: a hash table of chains of occupant records
    linked by `next`, with our own record at the head of its chain. The handlers are
    proved to do exactly what module Muc says. */
module MucObjects {
  import opened Text
  import opened Lists
  import opened Muc

  class NickRec {
    var nick: string
    var next: NickRec?

    constructor (nick: string)
      ensures this.nick == nick && next == null
    {
      this.nick, this.next := nick, null;
    }
  }

  lemma OwnJoinUnfolds(room: Room<NickRec>, name: string, rec: NickRec)
    requires Inv(room) && !Listed(room.chains, rec) && !room.joined && Find(room.chains, Some(name)).None?
    ensures var room1 := room.(chains := ToHead(Added(room.chains, name, rec, room.own), name, rec),
                               own := Some(rec), joined := true, namesGot := true);
            && OwnJoin(room, name, false, rec).0 == room1 && Inv(room1)
            && forall forced :: OwnJoin(room, name, forced, rec) ==
                 if forced then
                   var (room2, more) := NickChanged(room1, Some(room.nick), Some(name)); (room2, [Join(name)] + more)
                 else (room1, [Join(name)])
  {
    OwnJoinInv(room, name, false, rec);
    assert [Join(name)] + [] == [Join(name)];
  }

  ghost function RecordsOf(chains: map<string, seq<NickRec>>): (rs: set<NickRec>)
    ensures forall n, r | n in chains && r in chains[n] :: r in rs
    ensures forall r | r in rs :: Listed(chains, r)
  {
    set n, r | n in chains && r in chains[n] :: r
  }

  lemma OwnJoinRecords(room: Room<NickRec>, name: string, rec: NickRec)
    requires Inv(room) && !Listed(room.chains, rec) && !room.joined && Find(room.chains, Some(name)).None?
    ensures RecordsOf(OwnJoin(room, name, false, rec).0.chains) <= RecordsOf(room.chains) + {rec}
  {
    var after := ToHead(Added(room.chains, name, rec, room.own), name, rec);
    AddedThenOwn(room.chains, name, rec, room.own);
    assert OwnJoin(room, name, false, rec).0.chains == after;
    forall m, r | m in after && r in after[m] ensures r in RecordsOf(room.chains) + {rec} {
      assert after[m] == Chain(after, m) && (r == rec || r in Chain(room.chains, m));
    }
  }

  lemma RenameUnfolds(room: Room<NickRec>, rec: NickRec, oldNick: string, newNick: string,
                      chains: map<string, seq<NickRec>>)
    requires chains == Added(Dropped(room.chains, oldNick, rec), newNick, rec, room.own)
    ensures Rename(room, rec, oldNick, newNick) ==
            if oldNick == room.nick then
              room.(chains := ToHead(chains, newNick, rec), own := Some(rec), nick := newNick)
            else room.(chains := chains)
  {
  }

  lemma DroppedRecords(chains: map<string, seq<NickRec>>, n: string, rec: NickRec)
    requires Table(chains) && rec in Chain(chains, n)
    ensures RecordsOf(Dropped(chains, n, rec)) <= RecordsOf(chains)
  {
    var after := Dropped(chains, n, rec);
    DroppedChains(chains, n, rec);
    RemoveOneAt(chains[n], rec, RemoveOne(chains[n], rec));
    forall m, r | m in after && r in after[m] ensures r in RecordsOf(chains) {
      assert after[m] == Chain(after, m) && r in Chain(chains, m);
    }
  }

  lemma AddedRecords(chains: map<string, seq<NickRec>>, n: string, rec: NickRec, own: Option<NickRec>)
    requires Table(chains) && !Listed(chains, rec)
    ensures RecordsOf(Added(chains, n, rec, own)) <= RecordsOf(chains) + {rec}
    ensures rec in Chain(Added(chains, n, rec, own), n)
  {
    var after := Added(chains, n, rec, own);
    AddedChains(chains, n, rec, own);
    forall m, r | m in after && r in after[m] ensures r in RecordsOf(chains) + {rec} {
      assert after[m] == Chain(after, m) && (r == rec || r in Chain(chains, m));
    }
  }

  /** A chain with its nick. */
  datatype Link = Link(chain: seq<NickRec>, nick: string)

  function At(chain: seq<NickRec>, i: int): NickRec? {
    if 0 <= i < |chain| then chain[i] else null
  }

  ghost predicate SpelledAt(chain: seq<NickRec>, n: string, i: int)
    requires 0 <= i < |chain|
    reads chain
  {
    chain[i].nick == n && chain[i].next == At(chain, i + 1)
  }

  /** The records of `chain` are linked in this order, end with null, and are all called `n`. */
  ghost predicate Spelled(chain: seq<NickRec>, n: string)
    reads chain
  {
    forall i | 0 <= i < |chain| :: SpelledAt(chain, n, i)
  }

  /** A chain that nothing wrote to is linked as before. */
  twostate lemma SpelledKept(l: Link)
    requires forall x | x in l.chain :: unchanged(x)
    ensures Spelled(l.chain, l.nick) == old(Spelled(l.chain, l.nick))
  {
    forall i | 0 <= i < |l.chain| ensures SpelledAt(l.chain, l.nick, i) == old(SpelledAt(l.chain, l.nick, i)) {
      assert l.chain[i] in l.chain;
    }
  }

  lemma SpelledTail(chain: seq<NickRec>, n: string)
    requires Spelled(chain, n) && |chain| > 0
    ensures Spelled(chain[1..], n)
  {
    var rest := chain[1..];
    forall i | 0 <= i < |rest| ensures SpelledAt(rest, n, i) {
      assert SpelledAt(chain, n, i + 1);
    }
  }

  /** The walk to the end of a chain. */
  method LastOf(head: NickRec, ghost chain: seq<NickRec>, ghost n: string) returns (last: NickRec)
    requires |chain| > 0 && chain[0] == head && Spelled(chain, n)
    ensures last == chain[|chain| - 1]
  {
    last := head;
    ghost var i := 0;
    assert SpelledAt(chain, n, i);
    while last.next != null
      invariant 0 <= i < |chain| && last == chain[i] && SpelledAt(chain, n, i)
      decreases |chain| - i
    {
      last := last.next;
      i := i + 1;
    }
  }

  // ----- One chain

  /** Links `rec` behind the last record. */
  method Append(head: NickRec, rec: NickRec, ghost chain: seq<NickRec>, ghost n: string)
    requires |chain| > 0 && chain[0] == head && Spelled(chain, n) && NoDup(chain)
    requires rec !in chain && rec.nick == n && rec.next == null
    modifies chain`next
    ensures Spelled(chain + [rec], n) && NoDup(chain + [rec])
  {
    var last := LastOf(head, chain, n);
    last.next := rec;
    ghost var longer := chain + [rec];
    forall i | 0 <= i < |longer| ensures SpelledAt(longer, n, i) {
      if i < |chain| {
        assert old(SpelledAt(chain, n, i));
      }
    }
  }

  /** The walk to the record in front of `r`, which is not the head. */
  method Before(head: NickRec, r: NickRec, ghost chain: seq<NickRec>, ghost n: string, ghost k: nat)
    returns (prev: NickRec)
    requires 0 < k < |chain| && chain[0] == head && chain[k] == r && Spelled(chain, n) && NoDup(chain)
    ensures prev == chain[k - 1]
  {
    prev := head;
    ghost var i := 0;
    assert SpelledAt(chain, n, i);
    while prev.next != r
      invariant 0 <= i < k && prev == chain[i] && SpelledAt(chain, n, i)
      decreases k - i
    {
      prev := prev.next;
      i := i + 1;
      assert SpelledAt(chain, n, i);
    }
    assert chain[i + 1] == chain[k];
  }

  /** Takes a record that is not the head out of its chain. */
  method Unlink(head: NickRec, rec: NickRec, ghost chain: seq<NickRec>, ghost n: string, ghost k: nat)
    requires 0 < k < |chain| && chain[0] == head && chain[k] == rec && Spelled(chain, n) && NoDup(chain)
    modifies chain`next
    ensures Spelled(chain[..k] + chain[k + 1..], n)
  {
    var prev := Before(head, rec, chain, n, k);
    prev.next := rec.next;
    ghost var rest := chain[..k] + chain[k + 1..];
    assert old(SpelledAt(chain, n, k));
    forall i | 0 <= i < |rest| ensures SpelledAt(rest, n, i) {
      assert old(SpelledAt(chain, n, if i < k then i else i + 1));
    }
  }

  /** The links of record `j` when record `k` is put in front. */
  ghost predicate FrontAt(chain: seq<NickRec>, n: string, k: nat, j: int)
    requires k < |chain| && 0 <= j < |chain|
    reads chain
  {
    && chain[j].nick == n
    && chain[j].next == At(chain, if j == k then (if k == 0 then 1 else 0) else if j == k - 1 then k + 1 else j + 1)
  }

  lemma FrontSpelled(chain: seq<NickRec>, n: string, k: nat)
    requires k < |chain| && forall j | 0 <= j < |chain| :: FrontAt(chain, n, k, j)
    ensures Spelled([chain[k]] + (chain[..k] + chain[k + 1..]), n)
  {
    var front := [chain[k]] + (chain[..k] + chain[k + 1..]);
    forall j | 0 <= j < |front| ensures SpelledAt(front, n, j) {
      assert FrontAt(chain, n, k, if j == 0 then k else if j <= k then j - 1 else j);
    }
  }

  /** The links that `nicklist_set_own` changes: `rec` is put in front of its chain. */
  method ToFront(head: NickRec, rec: NickRec, ghost chain: seq<NickRec>, ghost n: string, ghost k: nat)
    requires k < |chain| && chain[0] == head && chain[k] == rec && Spelled(chain, n) && NoDup(chain)
    modifies chain`next
    ensures Spelled([rec] + (chain[..k] + chain[k + 1..]), n)
  {
    var next := rec.next;
    rec.next := head;
    var first := head;
    ghost var i := 0;
    while first.next != rec
      invariant 0 <= i <= k && first == chain[i] && (k > 0 ==> i < k)
      invariant rec.next == head
      decreases k - i
    {
      assert i != k && old(SpelledAt(chain, n, i)) && old(SpelledAt(chain, n, i + 1));
      first := first.next;
      i := i + 1;
    }
    assert k > 0 ==> old(SpelledAt(chain, n, i)) && i == k - 1;
    assert old(SpelledAt(chain, n, k));
    first.next := next;
    forall j | 0 <= j < |chain| ensures FrontAt(chain, n, k, j) {
      assert old(SpelledAt(chain, n, j));
    }
    FrontSpelled(chain, n, k);
  }

  /** `nicks` maps each nick to the head of its chain; `chains` is what the links spell out. */
  class MucRec {
    var nicks: map<string, NickRec>
    var ownnick: NickRec?
    var nick: string
    var joined: bool
    var namesGot: bool
    var left: bool
    var kicked: bool
    var destroyed: bool
    ghost var chains: map<string, seq<NickRec>>

    constructor (nick: string)
      ensures Valid() && View() == Created(nick)
    {
      this.nicks, this.chains := map[], map[];
      this.ownnick, this.nick := null, nick;
      joined, namesGot, left, kicked, destroyed := false, false, false, false, false;
    }

    ghost function Records(): set<NickRec>
      reads this
    {
      RecordsOf(chains)
    }

    /** The links are those of the chains, each of which is found under its nick and ends. */
    ghost predicate Linked()
      reads this, Records()
    {
      && nicks.Keys == chains.Keys
      && forall n | n in chains :: |chains[n]| > 0 && nicks[n] == chains[n][0] && Spelled(chains[n], n)
    }

    ghost predicate Valid()
      reads this, Records()
    {
      Linked() && Inv(View())
    }

    function Own(): Option<NickRec>
      reads this
    {
      if ownnick == null then None else var r: NickRec := ownnick; Some(r)
    }

    ghost function View(): Room<NickRec>
      reads this
    {
      Room(chains, Own(), nick, joined, namesGot, left, kicked, destroyed)
    }

    /** The chains of two nicks share no record. */
    lemma ChainsApart(n: string)
      requires Table(chains)
      ensures forall m, x | m in chains && m != n && x in chains[m] :: x !in Chain(chains, n)
    {
    }

    /** The links after the chain of `n` alone was changed, to `chain`. */
    method Relink(ghost n: string, ghost chain: seq<NickRec>)
      requires forall m | m != n :: m in nicks <==> m in chains
      requires forall m | m in chains && m != n :: |chains[m]| > 0 && nicks[m] == chains[m][0] && Spelled(chains[m], m)
      requires if |chain| == 0 then n !in nicks else n in nicks && nicks[n] == chain[0] && Spelled(chain, n)
      modifies this`chains
      ensures Linked() && chains == if |chain| == 0 then old(chains) - {n} else old(chains)[n := chain]
    {
      chains := if |chain| == 0 then chains - {n} else chains[n := chain];
    }

    /** Puts a record in front of its chain, which has others. */
    method PutFirst(rec: NickRec, ghost k: nat)
      requires Linked() && Table(chains) && rec.nick in chains
      requires k < |chains[rec.nick]| && chains[rec.nick][k] == rec
      modifies this`nicks, this`chains, chains[rec.nick]`next
      ensures var chain := old(chains)[rec.nick];
              Linked() && chains == old(chains)[rec.nick := [rec] + (chain[..k] + chain[k + 1..])]
    {
      var n := rec.nick;
      ghost var chain := chains[n];
      ChainsApart(n);
      ToFront(nicks[n], rec, chain, n, k);
      nicks := nicks[n := rec];
      forall m | m in chains && m != n ensures Spelled(chains[m], m) {
        SpelledKept(Link(chains[m], m));
      }
      ghost var front := [rec] + (chain[..k] + chain[k + 1..]);
      assert Spelled(front, n);
      Relink(n, front);
    }

    /** `nicklist_set_own`: our record, which is listed, goes to the head of its chain. */
    method SetOwn(rec: NickRec)
      requires Linked() && Table(chains) && rec in Chain(chains, rec.nick)
      modifies this`nicks, this`ownnick, this`chains, Records()`next
      ensures Linked() && Own() == Some(rec)
      ensures chains == ToHead(old(chains), rec.nick, rec)
    {
      var n := rec.nick;
      ghost var chain := chains[n];
      ghost var k: nat :| k < |chain| && chain[k] == rec;
      RemoveOneFirst(chain, k);
      ownnick := rec;
      assert SpelledAt(chain, n, 0);
      if nicks[n].next == null {
        assert |chain| == 1 && [rec] + (chain[..k] + chain[k + 1..]) == chain;
        assert chains == chains[n := chain];
      } else {
        PutFirst(rec, k);
      }
    }

    /** The links of `nick_hash_add`: the record goes behind the last one of its nick. */
    method LinkLast(rec: NickRec)
      requires Linked() && Table(chains) && !Listed(chains, rec)
      modifies this`nicks, this`chains, Records()`next, rec`next
      ensures Linked()
      ensures chains == old(chains)[rec.nick := Chain(old(chains), rec.nick) + [rec]]
    {
      var n := rec.nick;
      ghost var chain := Chain(chains, n);
      ChainsApart(n);
      assert forall m | m in chains :: rec !in chains[m];
      rec.next := null;
      if n !in nicks {
        nicks := nicks[n := rec];
      } else {
        SpelledKept(Link(chain, n));
        Append(nicks[n], rec, chain, n);
      }
      forall m | m in chains && m != n ensures Spelled(chains[m], m) {
        SpelledKept(Link(chains[m], m));
      }
      Relink(n, chain + [rec]);
    }

    /** `nick_hash_add` */
    method HashAdd(rec: NickRec)
      requires Linked() && Table(chains) && !Listed(chains, rec)
      modifies this`nicks, this`ownnick, this`chains, Records()`next, rec`next
      ensures Linked() && Own() == old(Own())
      ensures chains == Added(old(chains), rec.nick, rec, Own())
    {
      ghost var longer := Added(chains, rec.nick, rec, None);
      AddedChains(chains, rec.nick, rec, None);
      LinkLast(rec);
      assert chains == longer && rec in Chain(longer, rec.nick);
      if rec == ownnick {
        SetOwn(rec);
      }
    }

    /** `nick_hash_remove` for the head of a chain: its successor is entered instead. */
    method UnlinkHead(rec: NickRec)
      requires Linked() && Table(chains) && rec.nick in chains && chains[rec.nick][0] == rec
      modifies this`nicks, this`chains
      ensures var rest := old(chains)[rec.nick][1..];
              Linked() && chains == if |rest| == 0 then old(chains) - {rec.nick} else old(chains)[rec.nick := rest]
    {
      var n := rec.nick;
      ghost var chain := chains[n];
      assert Spelled(chain, n) && SpelledAt(chain, n, 0);
      nicks := nicks - {n};
      if rec.next != null {
        assert SpelledAt(chain, n, 1);
        nicks := nicks[rec.next.nick := rec.next];
      }
      SpelledTail(chain, n);
      Relink(n, chain[1..]);
    }

    /** `nick_hash_remove` for another record of a chain. */
    method UnlinkInner(rec: NickRec, ghost k: nat)
      requires Linked() && Table(chains) && rec.nick in chains
      requires 0 < k < |chains[rec.nick]| && chains[rec.nick][k] == rec
      modifies this`chains, chains[rec.nick]`next
      ensures var chain := old(chains)[rec.nick];
              Linked() && chains == old(chains)[rec.nick := chain[..k] + chain[k + 1..]]
    {
      var n := rec.nick;
      ghost var chain := chains[n];
      ghost var rest := chain[..k] + chain[k + 1..];
      ChainsApart(n);
      Unlink(nicks[n], rec, chain, n, k);
      forall m | m in chains && m != n ensures Spelled(chains[m], m) {
        SpelledKept(Link(chains[m], m));
      }
      assert rest[0] == chain[0] && Spelled(rest, n);
      Relink(n, rest);
    }

    /** `nick_hash_remove` */
    method HashRemove(rec: NickRec)
      requires Linked() && Table(chains) && rec in Chain(chains, rec.nick)
      modifies this`nicks, this`chains, Records()`next
      ensures Linked() && chains == Dropped(old(chains), rec.nick, rec)
    {
      ghost var chain := chains[rec.nick];
      ghost var k: nat :| k < |chain| && chain[k] == rec;
      RemoveOneFirst(chain, k);
      var list := nicks[rec.nick];
      assert SpelledAt(chain, rec.nick, 0);
      if list == rec || list.next == null {
        assert k == 0 && chain[..0] + chain[1..] == chain[1..];
        UnlinkHead(rec);
      } else {
        UnlinkInner(rec, k);
      }
    }

    /** A record that is in no chain may be called anything. */
    method SetNick(rec: NickRec, newNick: string)
      requires Linked() && !Listed(chains, rec)
      modifies rec`nick
      ensures Linked() && rec.nick == newNick
    {
      assert forall m | m in chains :: rec !in chains[m];
      rec.nick := newNick;
      forall m | m in chains ensures Spelled(chains[m], m) {
        SpelledKept(Link(chains[m], m));
      }
    }

    // ----- The handlers

    /** `nicklist_find` */
    method FindRec(name: Option<string>) returns (rec: NickRec?)
      requires Linked()
      ensures rec == match Find(chains, name) case None => null case Some(r) => r
      ensures rec != null ==> name == Some(rec.nick)
    {
      if name.None? || name.value !in nicks {
        return null;
      }
      assert SpelledAt(chains[name.value], name.value, 0);
      return nicks[name.value];
    }

    /** `xmpp_nicklist_insert` */
    method Insert(name: string) returns (rec: NickRec)
      requires Linked() && Table(chains)
      modifies this`nicks, this`ownnick, this`chains, Records()`next
      ensures fresh(rec) && rec.nick == name && !Listed(old(chains), rec)
      ensures Linked() && chains == Added(old(chains), name, rec, old(Own())) && Own() == old(Own())
    {
      ghost var recs := Records();
      rec := new NickRec(name);
      assert !Listed(chains, rec) by {
        assert rec !in recs;
      }
      HashAdd(rec);
    }

    /** The record leaves the chain of its old nick and enters that of its new one. */
    method Reenter(rec: NickRec, newNick: string)
      requires Linked() && Table(chains) && rec in Chain(chains, rec.nick)
      modifies this`nicks, this`ownnick, this`chains, Records()`next, rec
      ensures Linked() && rec.nick == newNick && Own() == old(Own())
      ensures chains == Added(Dropped(old(chains), old(rec.nick), rec), newNick, rec, old(Own()))
      ensures Table(chains) && rec in Chain(chains, newNick) && RecordsOf(chains) <= old(Records())
    {
      var oldNick := rec.nick;
      DroppedChains(chains, oldNick, rec);
      DroppedRecords(chains, oldNick, rec);
      HashRemove(rec);
      SetNick(rec, newNick);
      AddedChains(chains, newNick, rec, Own());
      AddedRecords(chains, newNick, rec, Own());
      HashAdd(rec);
    }

    /** Our own nick changed: the record becomes ours, at the head of its chain. */
    method Adopt(rec: NickRec)
      requires Linked() && Table(chains) && rec in Chain(chains, rec.nick)
      modifies this`nicks, this`ownnick, this`chains, this`nick, Records()`next
      ensures Linked()
      ensures View() == old(View()).(chains := ToHead(old(chains), rec.nick, rec), own := Some(rec), nick := rec.nick)
    {
      SetOwn(rec);
      nick := rec.nick;
    }

    /** `xmpp_nicklist_rename` */
    method RenameRec(rec: NickRec, newNick: string)
      requires Linked() && Table(chains) && rec in Chain(chains, rec.nick)
      modifies this`nicks, this`ownnick, this`chains, this`nick, Records()`next, rec
      ensures Linked() && rec.nick == newNick
      ensures View() == Rename(old(View()), rec, old(rec.nick), newNick)
    {
      var oldNick := rec.nick;
      ghost var room := View();
      Reenter(rec, newNick);
      RenameUnfolds(room, rec, oldNick, newNick, chains);
      if oldNick == nick {
        Adopt(rec);
      }
    }

    lemma FoundListed(name: Option<string>)
      requires Valid() && Find(chains, name).Some?
      ensures Table(chains) && Find(chains, name).value in Chain(chains, name.value)
    {
    }

    /** `nick_changed` */
    method ChangeNick(oldNick: Option<string>, newNick: Option<string>) returns (signals: seq<Signal>)
      requires Valid()
      modifies this, Records()
      ensures Valid() && (View(), signals) == NickChanged(old(View()), oldNick, newNick)
    {
      NickChangedInv(View(), oldNick, newNick);
      var rec := FindRec(oldNick);
      if rec == null {
        return [];
      }
      FoundListed(oldNick);
      if newNick.Some? {
        RenameRec(rec, newNick.value);
      }
      var shown := rec.nick;
      signals := [if ownnick == rec then OwnNickChange(oldNick.value, shown) else NickChange(oldNick.value, shown)];
    }

    /** The record that `own_join` makes for us, alone under its nick. */
    method InsertOwn(name: string) returns (rec: NickRec)
      requires Linked() && Table(chains) && Find(chains, Some(name)).None?
      modifies this`nicks, this`ownnick, this`chains, Records()`next
      ensures Linked() && fresh(rec) && !Listed(old(chains), rec) && Own() == Some(rec)
      ensures chains == ToHead(Added(old(chains), name, rec, old(Own())), name, rec)
    {
      ghost var before, own := chains, Own();
      rec := Insert(name);
      AddedChains(before, name, rec, own);
      AddedRecords(before, name, rec, own);
      SetOwn(rec);
    }

    /** `own_join`, up to the renaming that a forced nick brings. */
    method JoinAsOwn(name: string) returns (rec: NickRec)
      requires Valid() && !joined && Find(chains, Some(name)).None?
      modifies this`nicks, this`ownnick, this`chains, this`joined, this`namesGot, Records()`next
      ensures Valid() && fresh(rec) && !Listed(old(chains), rec)
      ensures View() == OwnJoin(old(View()), name, false, rec).0
    {
      ghost var room := View();
      rec := InsertOwn(name);
      namesGot := true;
      joined := true;
      OwnJoinUnfolds(room, name, rec);
      assert View() == OwnJoin(room, name, false, rec).0;
    }

    /** `own_join` */
    method JoinOwn(name: string, forced: bool) returns (signals: seq<Signal>, ghost rec: NickRec?)
      requires Valid()
      modifies this, Records()
      ensures Valid() && (rec != null ==> fresh(rec) && !Listed(old(chains), rec))
      ensures if rec != null then (View(), signals) == OwnJoin(old(View()), name, forced, rec)
              else forall r: NickRec :: (View(), signals) == OwnJoin(old(View()), name, forced, r)
    {
      ghost var room := View();
      if joined {
        return [], null;
      }
      var present := FindRec(Some(name));
      if present != null {
        return [], null;
      }
      var requested := nick;
      rec := JoinAsOwn(name);
      OwnJoinUnfolds(room, name, rec);
      OwnJoinRecords(room, name, rec);
      signals := [Join(name)];
      if forced {
        var more := ChangeNick(Some(requested), Some(name));
        signals := signals + more;
      }
    }

    /** `available`, for a presence with an item: `own_event` or `nick_event`. */
    method RecvAvailable(from: Option<string>, itemNick: Option<string>, own: bool, forced: bool)
      returns (signals: seq<Signal>, ghost rec: NickRec?)
      requires Valid() && !destroyed
      modifies this, Records()
      ensures Valid() && (rec != null ==> fresh(rec) && !Listed(old(chains), rec))
      ensures var e := Available(from, itemNick, own, forced);
              if rec != null then (View(), signals) == Step(old(View()), e, rec)
              else forall r: NickRec :: (View(), signals) == Step(old(View()), e, r)
    {
      var name := if itemNick.Some? then itemNick else from;
      if name.None? {
        return [], null;
      }
      var present := FindRec(name);
      if present != null {
        return [], null;
      }
      if own || name.value == nick {
        signals, rec := JoinOwn(name.value, forced);
      } else {
        signals, rec := JoinAsOther(name.value);
      }
    }

    /** `unavailable` */
    method RecvUnavailable(from: Option<string>, code: Option<int>, itemNick: Option<string>)
      returns (signals: seq<Signal>)
      requires Valid() && !destroyed
      modifies this, Records()
      ensures Valid()
      ensures forall r: NickRec :: (View(), signals) == Step(old(View()), Unavailable(from, code, itemNick), r)
    {
      if code.Some? {
        match code.value
        case 303 => signals := ChangeNick(from, itemNick);
        case 307 => signals := KickRec(from);
        case 301 => signals := KickRec(from);
        case _ => signals := [];
      } else {
        signals := PartRec(from);
      }
    }

    /** The error branch of `sig_recv_presence`. */
    method RecvError(from: Option<string>, code: Option<int>, alternate: Option<string>) returns (signals: seq<Signal>)
      requires Valid() && !destroyed
      modifies this`nick, this`destroyed
      ensures Valid()
      ensures forall r: NickRec :: (View(), signals) == Step(old(View()), Error(from, code, alternate), r)
    {
      if !joined {
        signals := JoinRefused(code, from, alternate);
      } else {
        signals := if code == Some(NICK_IN_USE) then [NickInUse(from)] else [];
      }
    }

    /** `nick_join` */
    method JoinAsOther(name: string) returns (signals: seq<Signal>, ghost rec: NickRec)
      requires Valid()
      modifies this`nicks, this`ownnick, this`chains, Records()`next
      ensures Valid() && fresh(rec) && !Listed(old(chains), rec)
      ensures (View(), signals) == NickJoin(old(View()), name, rec)
    {
      ghost var room := View();
      rec := Insert(name);
      NickJoinInv(room, name, rec);
      signals := if namesGot then [Join(name)] else [];
      assert View() == NickJoin(room, name, rec).0;
    }

    /** `nicklist_remove` of somebody else's record. */
    method Remove(rec: NickRec)
      requires Valid() && rec in Chain(chains, rec.nick) && ownnick != rec
      modifies this`nicks, this`chains, Records()`next
      ensures Valid() && View() == old(View()).(chains := Dropped(old(chains), rec.nick, rec))
    {
      DroppedInv(View(), rec.nick, rec);
      HashRemove(rec);
    }

    /** `nick_part` */
    method PartRec(name: Option<string>) returns (signals: seq<Signal>)
      requires Valid()
      modifies this, Records()
      ensures Valid() && (View(), signals) == NickPart(old(View()), name)
    {
      var rec := FindRec(name);
      if rec == null {
        return [];
      }
      FoundListed(name);
      signals := [Part(rec.nick)];
      if ownnick == rec {
        left := true;
        destroyed := true;
      } else {
        Remove(rec);
      }
    }

    /** `nick_kicked` */
    method KickRec(name: Option<string>) returns (signals: seq<Signal>)
      requires Valid()
      modifies this, Records()
      ensures Valid() && (View(), signals) == NickKicked(old(View()), name)
    {
      var rec := FindRec(name);
      if rec == null {
        return [];
      }
      FoundListed(name);
      signals := [Kick(rec.nick)];
      if ownnick == rec {
        kicked := true;
        destroyed := true;
      } else {
        Remove(rec);
      }
    }

    /** `error_join` */
    method JoinRefused(code: Option<int>, name: Option<string>, alternate: Option<string>)
      returns (signals: seq<Signal>)
      requires Valid()
      modifies this`nick, this`destroyed
      ensures Valid() && (View(), signals) == ErrorJoin(old(View()), code, name, alternate)
    {
      if name.Some? && name.value != nick {
        return [];
      }
      signals := [JoinError(if code.Some? then code.value else 0)];
      if code == Some(USE_RESERVED_NICK) || code == Some(NICK_IN_USE) {
        if alternate.Some? && alternate.value != "" && nick != alternate.value {
          nick := alternate.value;
        } else {
          nick := nick + "_";
        }
        signals := signals + [SendJoin(nick)];
        assert signals == [signals[0], SendJoin(nick)];
      } else {
        destroyed := true;
      }
    }
  }
}
