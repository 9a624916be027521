/** The occupant machine of a room (XEP-0045) on values: the nick table as chains of
    records with the same nick, and what each presence does to it and shows of it.
    `R` is the type of occupant records; module MucObjects uses object references. */
module Muc {
  import opened Text
  import opened Lists

  datatype Signal =
    | Join(nick: string)
    | Part(nick: string)
    | Kick(nick: string)
    | NickChange(oldNick: string, newNick: string)
    | OwnNickChange(oldNick: string, newNick: string)
    | JoinError(code: int)
    | NickInUse(wanted: Option<string>)
    | SendJoin(nick: string)

  datatype Room<R> = Room(chains: map<string, seq<R>>, own: Option<R>, nick: string,
                          joined: bool, namesGot: bool, left: bool, kicked: bool, destroyed: bool)

  // ----- The nick table

  function Chain<R>(chains: map<string, seq<R>>, nick: string): seq<R> {
    if nick in chains then chains[nick] else []
  }

  /** `nicklist_find`: the record at the head of the chain. No nick finds nothing. */
  function Find<R>(chains: map<string, seq<R>>, nick: Option<string>): Option<R> {
    if nick.Some? && |Chain(chains, nick.value)| > 0 then Some(chains[nick.value][0]) else None
  }

  /** `nick_hash_remove` */
  function Dropped<R(==)>(chains: map<string, seq<R>>, nick: string, r: R): map<string, seq<R>> {
    var rest := RemoveOne(Chain(chains, nick), r);
    if |rest| == 0 then chains - {nick} else chains[nick := rest]
  }

  /** `nicklist_set_own` moves our record to the head of its chain. */
  function ToHead<R(==)>(chains: map<string, seq<R>>, nick: string, r: R): map<string, seq<R>> {
    chains[nick := [r] + RemoveOne(Chain(chains, nick), r)]
  }

  /** `nick_hash_add` */
  function Added<R(==)>(chains: map<string, seq<R>>, nick: string, r: R, own: Option<R>): map<string, seq<R>> {
    var longer := chains[nick := Chain(chains, nick) + [r]];
    if own == Some(r) then ToHead(longer, nick, r) else longer
  }

  /** `xmpp_nicklist_rename` */
  function Rename<R(==)>(room: Room<R>, r: R, oldNick: string, newNick: string): Room<R> {
    var chains := Added(Dropped(room.chains, oldNick, r), newNick, r, room.own);
    if oldNick == room.nick then room.(chains := ToHead(chains, newNick, r), own := Some(r), nick := newNick)
    else room.(chains := chains)
  }

  // ----- Occupant presences

  function NickChanged<R(==)>(room: Room<R>, oldNick: Option<string>, newNick: Option<string>): (Room<R>, seq<Signal>) {
    match Find(room.chains, oldNick)
    case None => (room, [])
    case Some(r) =>
      var room1 := if newNick.Some? then Rename(room, r, oldNick.value, newNick.value) else room;
      var shown := if newNick.Some? then newNick.value else oldNick.value;
      (room1, [if room1.own == Some(r) then OwnNickChange(oldNick.value, shown) else NickChange(oldNick.value, shown)])
  }

  /** `own_join`; `r` is the record made for us. */
  function OwnJoin<R(==)>(room: Room<R>, nick: string, forced: bool, r: R): (Room<R>, seq<Signal>) {
    if room.joined || Find(room.chains, Some(nick)).Some? then (room, [])
    else
      var chains := ToHead(Added(room.chains, nick, r, room.own), nick, r);
      var room1 := room.(chains := chains, own := Some(r), joined := true, namesGot := true);
      var (room2, more) := if forced then NickChanged(room1, Some(room.nick), Some(nick)) else (room1, []);
      (room2, [Join(nick)] + more)
  }

  function NickJoin<R(==)>(room: Room<R>, nick: string, r: R): (Room<R>, seq<Signal>) {
    (room.(chains := Added(room.chains, nick, r, room.own)), if room.namesGot then [Join(nick)] else [])
  }

  function NickPart<R(==)>(room: Room<R>, nick: Option<string>): (Room<R>, seq<Signal>) {
    match Find(room.chains, nick)
    case None => (room, [])
    case Some(r) =>
      if room.own == Some(r) then (room.(left := true, destroyed := true), [Part(nick.value)])
      else (room.(chains := Dropped(room.chains, nick.value, r)), [Part(nick.value)])
  }

  function NickKicked<R(==)>(room: Room<R>, nick: Option<string>): (Room<R>, seq<Signal>) {
    match Find(room.chains, nick)
    case None => (room, [])
    case Some(r) =>
      if room.own == Some(r) then (room.(kicked := true, destroyed := true), [Kick(nick.value)])
      else (room.(chains := Dropped(room.chains, nick.value, r)), [Kick(nick.value)])
  }

  const USE_RESERVED_NICK := 406
  const NICK_IN_USE := 409

  predicate IsConflict(code: Option<int>) {
    code == Some(USE_RESERVED_NICK) || code == Some(NICK_IN_USE)
  }

  /** The nick `error_join` tries next. */
  function NextNick(nick: string, alternate: Option<string>): string {
    if alternate.Some? && alternate.value != "" && nick != alternate.value then alternate.value else nick + "_"
  }

  function ErrorJoin<R>(room: Room<R>, code: Option<int>, nick: Option<string>, alternate: Option<string>)
    : (Room<R>, seq<Signal>)
  {
    if nick.Some? && nick.value != room.nick then (room, [])
    else
      var error := JoinError(if code.Some? then code.value else 0);
      if IsConflict(code) then
        var next := NextNick(room.nick, alternate);
        (room.(nick := next), [error, SendJoin(next)])
      else (room.(destroyed := true), [error])
  }

  /** A parsed presence from the room. `from` is the nick in the sender's address.
      `Available` is one with a `muc#user` element and an item in it; `code` of
      `Unavailable` is its first status code and of `Error` the error's code. */
  datatype Event =
    | Available(from: Option<string>, itemNick: Option<string>, own: bool, forced: bool)
    | Unavailable(from: Option<string>, code: Option<int>, itemNick: Option<string>)
    | Error(from: Option<string>, code: Option<int>, alternate: Option<string>)

  /** `sig_recv_presence`; `r` is the record to use should one be made. */
  function Step<R(==)>(room: Room<R>, e: Event, r: R): (Room<R>, seq<Signal>) {
    if room.destroyed then (room, [])
    else
      match e
      case Available(from, itemNick, own, forced) =>
        var nick := if itemNick.Some? then itemNick else from;
        if nick.None? then (room, [])
        else if own || nick.value == room.nick then
          if Find(room.chains, nick).None? then OwnJoin(room, nick.value, forced, r) else (room, [])
        else
          if Find(room.chains, nick).None? then NickJoin(room, nick.value, r) else (room, [])
      case Unavailable(from, code, itemNick) =>
        if code.None? then NickPart(room, from)
        else if code.value == 303 then NickChanged(room, from, itemNick)
        else if code.value == 307 || code.value == 301 then NickKicked(room, from)
        else (room, [])
      case Error(from, code, alternate) =>
        if !room.joined then ErrorJoin(room, code, from, alternate)
        else if code == Some(NICK_IN_USE) then (room, [NickInUse(from)])
        else (room, [])
  }

  // ----- What every step keeps

  /** No empty chain, and every record in one place only. */
  ghost predicate Table<R>(chains: map<string, seq<R>>) {
    && (forall n | n in chains :: |chains[n]| > 0 && NoDup(chains[n]))
    && (forall n, m, r | n in chains && m in chains && r in chains[n] && r in chains[m] :: n == m)
  }

  ghost predicate Listed<R>(chains: map<string, seq<R>>, r: R) {
    exists n :: n in chains && r in chains[n]
  }

  ghost predicate Heads<R>(chains: map<string, seq<R>>, r: R, nick: string) {
    |Chain(chains, nick)| > 0 && Chain(chains, nick)[0] == r
  }

  ghost predicate Inv<R>(room: Room<R>) {
    && Table(room.chains)
    && (room.own.Some? ==> exists n :: Heads(room.chains, room.own.value, n))
    && (room.joined ==> room.own.Some?)
    && (room.namesGot <==> room.joined)
  }

  lemma {:induction false} RemoveLast<R>(s: seq<R>, r: R)
    requires r !in s
    ensures RemoveOne(s + [r], r) == s
  {
    if |s| == 0 {
    } else {
      assert (s + [r])[1..] == s[1..] + [r];
      RemoveLast(s[1..], r);
    }
  }

  /** Every chain after `nick_hash_remove`. */
  lemma DroppedChains<R>(chains: map<string, seq<R>>, nick: string, r: R)
    requires Table(chains) && r in Chain(chains, nick)
    ensures Table(Dropped(chains, nick, r)) && !Listed(Dropped(chains, nick, r), r)
    ensures forall n :: Chain(Dropped(chains, nick, r), n)
                        == if n == nick then RemoveOne(Chain(chains, nick), r) else Chain(chains, n)
  {
    var s := chains[nick];
    var rest := RemoveOne(s, r);
    RemoveOneAt(s, r, rest);
    var after := Dropped(chains, nick, r);
    assert forall n | n != nick :: Chain(after, n) == Chain(chains, n);
    assert Chain(after, nick) == rest;
    forall n, x | n in after && x in after[n] ensures x in Chain(chains, n) && x != r {
      if n == nick {
        assert after[n] == rest;
        assert x in rest;
        assert x in s;
      } else {
        assert after[n] == Chain(chains, n);
        assert x in chains[n] && r !in chains[n];
      }
    }
  }

  /** Every chain after `nick_hash_add`: the record is last, or first if it is our own. */
  lemma AddedChains<R>(chains: map<string, seq<R>>, nick: string, r: R, own: Option<R>)
    requires Table(chains) && !Listed(chains, r)
    ensures Table(Added(chains, nick, r, own))
    ensures forall n :: Chain(Added(chains, nick, r, own), n)
                        == if n != nick then Chain(chains, n)
                           else if own == Some(r) then [r] + Chain(chains, n) else Chain(chains, n) + [r]
  {
    var c := Chain(chains, nick);
    assert r !in c;
    RemoveLast(c, r);
    var after := Added(chains, nick, r, own);
    assert after[nick] == if own == Some(r) then [r] + c else c + [r];
    assert forall x :: x in after[nick] <==> x == r || x in c;
    forall n | n in after && n != nick ensures n in chains && after[n] == chains[n] && r !in after[n] {
    }
  }

  /** Every chain after a record was moved to the head of its chain. */
  lemma ToHeadChains<R>(chains: map<string, seq<R>>, nick: string, r: R)
    requires Table(chains) && r in Chain(chains, nick)
    ensures Table(ToHead(chains, nick, r))
    ensures forall n :: Chain(ToHead(chains, nick, r), n)
                        == if n == nick then [r] + RemoveOne(Chain(chains, nick), r) else Chain(chains, n)
  {
    var c := chains[nick];
    RemoveOneAt(c, r, RemoveOne(c, r));
    var after := ToHead(chains, nick, r);
    assert forall x :: x in after[nick] <==> x in c;
    assert forall n | n in after && n != nick :: n in chains && after[n] == chains[n];
  }

  // ----- Renaming

  /** The chains a rename leaves: the record leaves one chain and joins another, last,
      or first if it is our own; every other record keeps its place among the rest. */
  function Renamed<R(==)>(chains: map<string, seq<R>>, r: R, oldNick: string, newNick: string,
                          first: bool, n: string): seq<R>
  {
    var base := if n == oldNick then RemoveOne(Chain(chains, n), r) else Chain(chains, n);
    if n != newNick then base else if first then [r] + base else base + [r]
  }

  lemma AddedThenOwn<R>(chains: map<string, seq<R>>, nick: string, r: R, own: Option<R>)
    requires Table(chains) && !Listed(chains, r)
    ensures var after := ToHead(Added(chains, nick, r, own), nick, r);
            && Table(after)
            && forall n :: Chain(after, n) == if n == nick then [r] + Chain(chains, n) else Chain(chains, n)
  {
    var c := Chain(chains, nick);
    var longer := Added(chains, nick, r, own);
    assert r !in c;
    RemoveLast(c, r);
    assert ([r] + c)[1..] == c;
    AddedChains(chains, nick, r, own);
    assert r in Chain(longer, nick);
    ToHeadChains(longer, nick, r);
  }

  /** Every chain after a record has entered another one, and perhaps become our own. */
  lemma ReenteredChains<R>(chains: map<string, seq<R>>, nick: string, r: R, own: Option<R>, adopt: bool)
    requires Table(chains) && !Listed(chains, r)
    ensures var added := Added(chains, nick, r, own);
            var after := if adopt then ToHead(added, nick, r) else added;
            && Table(after)
            && forall n :: Chain(after, n) == if n != nick then Chain(chains, n)
                                              else if adopt || own == Some(r) then [r] + Chain(chains, n)
                                              else Chain(chains, n) + [r]
  {
    if adopt {
      AddedThenOwn(chains, nick, r, own);
    } else {
      AddedChains(chains, nick, r, own);
    }
  }

  /** Renaming the record that `nick` finds keeps the table well formed, and changes the
      chains in exactly this way. */
  lemma RenameChains<R>(room: Room<R>, r: R, oldNick: string, newNick: string)
    requires Table(room.chains) && r in Chain(room.chains, oldNick)
    ensures var room' := Rename(room, r, oldNick, newNick);
            && Table(room'.chains) && room'.own == (if oldNick == room.nick then Some(r) else room.own)
            && forall n :: Chain(room'.chains, n)
                           == Renamed(room.chains, r, oldNick, newNick, room'.own == Some(r), n)
  {
    var c1 := Dropped(room.chains, oldNick, r);
    var first := oldNick == room.nick || room.own == Some(r);
    DroppedChains(room.chains, oldNick, r);
    ReenteredChains(c1, newNick, r, room.own, oldNick == room.nick);
    forall n ensures Chain(Rename(room, r, oldNick, newNick).chains, n)
                     == Renamed(room.chains, r, oldNick, newNick, first, n)
    {
      assert Chain(c1, n) == if n == oldNick then RemoveOne(Chain(room.chains, n), r) else Chain(room.chains, n);
    }
  }

  // ----- Steps keep the invariant

  lemma FindsHead<R>(chains: map<string, seq<R>>, nick: string)
    requires Table(chains) && Find(chains, Some(nick)).Some?
    ensures Find(chains, Some(nick)).value in Chain(chains, nick)
  {
  }

  /** Our record still heads its chain when another record is dropped. */
  lemma DroppedHeads<R>(chains: map<string, seq<R>>, nick: string, r: R, own: R, n: string)
    requires Table(chains) && r in Chain(chains, nick) && own != r && Heads(chains, own, n)
    ensures Heads(Dropped(chains, nick, r), own, n)
  {
    DroppedChains(chains, nick, r);
  }

  lemma NickChangedInv<R>(room: Room<R>, oldNick: Option<string>, newNick: Option<string>)
    requires Inv(room)
    ensures Inv(NickChanged(room, oldNick, newNick).0)
  {
    var found := Find(room.chains, oldNick);
    if found.Some? && newNick.Some? {
      var r := found.value;
      FindsHead(room.chains, oldNick.value);
      RenameChains(room, r, oldNick.value, newNick.value);
      var room' := Rename(room, r, oldNick.value, newNick.value);
      if room'.own == Some(r) {
        assert Heads(room'.chains, r, newNick.value);
      } else if room'.own.Some? {
        var n :| Heads(room.chains, room.own.value, n);
        assert Heads(room'.chains, room.own.value, n);
      }
    }
  }

  lemma OwnJoinInv<R>(room: Room<R>, nick: string, forced: bool, r: R)
    requires Inv(room) && !Listed(room.chains, r)
    ensures Inv(OwnJoin(room, nick, forced, r).0)
  {
    if !room.joined && Find(room.chains, Some(nick)).None? {
      AddedChains(room.chains, nick, r, room.own);
      var c1 := Added(room.chains, nick, r, room.own);
      assert r in Chain(c1, nick);
      ToHeadChains(c1, nick, r);
      var chains := ToHead(c1, nick, r);
      assert Heads(chains, r, nick);
      var room1 := room.(chains := chains, own := Some(r), joined := true, namesGot := true);
      assert Inv(room1);
      NickChangedInv(room1, Some(room.nick), Some(nick));
    }
  }

  lemma NickJoinInv<R>(room: Room<R>, nick: string, r: R)
    requires Inv(room) && !Listed(room.chains, r)
    ensures Inv(NickJoin(room, nick, r).0)
  {
    AddedChains(room.chains, nick, r, room.own);
    if room.own.Some? {
      var n :| Heads(room.chains, room.own.value, n);
      assert room.own != Some(r) && Heads(NickJoin(room, nick, r).0.chains, room.own.value, n);
    }
  }

  lemma DroppedInv<R>(room: Room<R>, nick: string, r: R)
    requires Inv(room) && r in Chain(room.chains, nick) && room.own != Some(r)
    ensures Inv(room.(chains := Dropped(room.chains, nick, r)))
  {
    DroppedChains(room.chains, nick, r);
    if room.own.Some? {
      var n :| Heads(room.chains, room.own.value, n);
      DroppedHeads(room.chains, nick, r, room.own.value, n);
    }
  }

  lemma LeavingInv<R>(room: Room<R>, nick: Option<string>)
    requires Inv(room)
    ensures Inv(NickPart(room, nick).0) && Inv(NickKicked(room, nick).0)
  {
    var found := Find(room.chains, nick);
    if found.Some? && room.own != found {
      FindsHead(room.chains, nick.value);
      DroppedInv(room, nick.value, found.value);
    }
  }

  lemma AvailableInv<R>(room: Room<R>, e: Event, r: R)
    requires Inv(room) && !Listed(room.chains, r) && e.Available? && !room.destroyed
    ensures Inv(Step(room, e, r).0)
    ensures room.joined ==> Step(room, e, r).0.joined
  {
    var nick := if e.itemNick.Some? then e.itemNick else e.from;
    if nick.Some? && Find(room.chains, nick).None? {
      if e.own || nick.value == room.nick {
        OwnJoinInv(room, nick.value, e.forced, r);
      } else {
        NickJoinInv(room, nick.value, r);
      }
    }
  }

  lemma UnavailableInv<R>(room: Room<R>, e: Event, r: R)
    requires Inv(room) && e.Unavailable? && !room.destroyed
    ensures Inv(Step(room, e, r).0)
    ensures room.joined ==> Step(room, e, r).0.joined
  {
    if e.code == Some(303) {
      NickChangedInv(room, e.from, e.itemNick);
    } else {
      LeavingInv(room, e.from);
    }
  }

  /** Every presence keeps the table well formed; while joined, our own record is set,
      listed, and heads its chain; and once joined we stay joined. */
  lemma StepInv<R>(room: Room<R>, e: Event, r: R)
    requires Inv(room) && !Listed(room.chains, r)
    ensures Inv(Step(room, e, r).0)
    ensures room.joined ==> Step(room, e, r).0.joined
  {
    if room.destroyed {
    } else if e.Available? {
      AvailableInv(room, e, r);
    } else if e.Unavailable? {
      UnavailableInv(room, e, r);
    }
  }

  // ----- Runs

  /** A presence, with the record to make if it brings a new occupant. */
  datatype Input<R> = Input(event: Event, rec: R)

  function Run<R(==)>(room: Room<R>, ins: seq<Input<R>>): (Room<R>, seq<Signal>) {
    if |ins| == 0 then (room, [])
    else
      var (room1, signals) := Run(room, ins[..|ins| - 1]);
      var last := ins[|ins| - 1];
      var (room2, more) := Step(room1, last.event, last.rec);
      (room2, signals + more)
  }

  /** Every record offered is a new one. */
  ghost predicate NewRecords<R>(room: Room<R>, ins: seq<Input<R>>) {
    |ins| == 0 || (NewRecords(room, ins[..|ins| - 1])
                   && !Listed(Run(room, ins[..|ins| - 1]).0.chains, ins[|ins| - 1].rec))
  }

  lemma {:induction false} RunInv<R>(room: Room<R>, ins: seq<Input<R>>)
    requires Inv(room) && NewRecords(room, ins)
    ensures Inv(Run(room, ins).0)
    ensures room.joined ==> Run(room, ins).0.joined
  {
    if |ins| == 0 {
    } else {
      var init, last := ins[..|ins| - 1], ins[|ins| - 1];
      RunInv(room, init);
      StepInv(Run(room, init).0, last.event, last.rec);
    }
  }

  /** A room that was just created. */
  function Created<R>(nick: string): (room: Room<R>)
    ensures Inv(room)
  {
    Room(map[], None, nick, false, false, false, false, false)
  }

  /** Input `i` of the run takes the room from not joined to joined. */
  ghost predicate JoinsAt<R>(room: Room<R>, ins: seq<Input<R>>, i: nat)
    requires i < |ins|
  {
    !Run(room, ins[..i]).0.joined && Run(room, ins[..i + 1]).0.joined
  }

  lemma {:induction false} NewPrefix<R>(room: Room<R>, ins: seq<Input<R>>, n: nat)
    requires NewRecords(room, ins) && n <= |ins|
    ensures NewRecords(room, ins[..n])
  {
    if n == |ins| {
      assert ins[..n] == ins;
    } else {
      NewPrefix(room, ins[..|ins| - 1], n);
      assert ins[..|ins| - 1][..n] == ins[..n];
    }
  }

  /** A run is its first part and then the next step. */
  lemma RunNext<R>(room: Room<R>, ins: seq<Input<R>>, n: nat)
    requires n < |ins|
    ensures var (room1, signals) := Run(room, ins[..n]);
            var (room2, more) := Step(room1, ins[n].event, ins[n].rec);
            Run(room, ins[..n + 1]) == (room2, signals + more)
    ensures NewRecords(room, ins[..n + 1]) ==> !Listed(Run(room, ins[..n]).0.chains, ins[n].rec)
  {
    assert ins[..n + 1][..n] == ins[..n];
  }

  lemma {:induction false} StaysJoined<R>(room: Room<R>, ins: seq<Input<R>>, i: nat, j: nat)
    requires Inv(room) && NewRecords(room, ins) && i <= j <= |ins| && Run(room, ins[..i]).0.joined
    ensures Run(room, ins[..j]).0.joined
  {
    if i < j {
      StaysJoined(room, ins, i, j - 1);
      NewPrefix(room, ins, j - 1);
      NewPrefix(room, ins, j);
      RunInv(room, ins[..j - 1]);
      RunNext(room, ins, j - 1);
      StepInv(Run(room, ins[..j - 1]).0, ins[j - 1].event, ins[j - 1].rec);
    }
  }

  /** In no run does joining take effect twice. */
  lemma JoinsOnce<R>(room: Room<R>, ins: seq<Input<R>>, i: nat, j: nat)
    requires Inv(room) && NewRecords(room, ins) && i < |ins| && j < |ins|
    requires JoinsAt(room, ins, i) && JoinsAt(room, ins, j)
    ensures i == j
  {
    if i < j {
      StaysJoined(room, ins, i + 1, j);
    } else if j < i {
      StaysJoined(room, ins, j + 1, i);
    }
  }

  // ----- The user interface sees the nick list

  /** What a reader of the signals makes of the nicks shown so far. */
  function Shown(nicks: multiset<string>, s: Signal): multiset<string> {
    match s
    case Join(n) => nicks + multiset{n}
    case Part(n) => nicks - multiset{n}
    case Kick(n) => nicks - multiset{n}
    case NickChange(o, n) => nicks - multiset{o} + multiset{n}
    case OwnNickChange(o, n) => nicks - multiset{o} + multiset{n}
    case _ => nicks
  }

  function Replay(nicks: multiset<string>, signals: seq<Signal>): multiset<string> {
    if signals == [] then nicks else Shown(Replay(nicks, signals[..|signals| - 1]), signals[|signals| - 1])
  }

  lemma {:induction false} ReplayConcat(nicks: multiset<string>, s: seq<Signal>, t: seq<Signal>)
    ensures Replay(nicks, s + t) == Replay(Replay(nicks, s), t)
  {
    if t == [] {
      assert s + t == s;
    } else {
      assert (s + t)[..|s + t| - 1] == s + t[..|t| - 1];
      ReplayConcat(nicks, s, t[..|t| - 1]);
    }
  }

  lemma ReplayOne(nicks: multiset<string>, s: Signal)
    ensures Replay(nicks, [s]) == Shown(nicks, s)
  {
    assert [s][..0] == [];
  }

  /** `nicks` holds each nick as often as the table has records under it. */
  ghost predicate Agrees<R>(nicks: multiset<string>, chains: map<string, seq<R>>) {
    forall n :: nicks[n] == |Chain(chains, n)|
  }

  lemma RenamedSize<R>(chains: map<string, seq<R>>, r: R, oldNick: string, newNick: string, first: bool, n: string)
    requires Table(chains) && r in Chain(chains, oldNick)
    ensures |Renamed(chains, r, oldNick, newNick, first, n)|
            == |Chain(chains, n)| - (if n == oldNick then 1 else 0) + if n == newNick then 1 else 0
  {
    RemoveOneAt(chains[oldNick], r, RemoveOne(chains[oldNick], r));
  }

  lemma RenameAgrees<R>(room: Room<R>, r: R, oldNick: string, newNick: string, nicks: multiset<string>)
    requires Table(room.chains) && Agrees(nicks, room.chains) && r in Chain(room.chains, oldNick)
    ensures Agrees(nicks - multiset{oldNick} + multiset{newNick}, Rename(room, r, oldNick, newNick).chains)
  {
    var room' := Rename(room, r, oldNick, newNick);
    RenameChains(room, r, oldNick, newNick);
    forall n ensures (nicks - multiset{oldNick} + multiset{newNick})[n] == |Chain(room'.chains, n)| {
      RenamedSize(room.chains, r, oldNick, newNick, room'.own == Some(r), n);
    }
  }

  lemma NickChangedAgrees<R>(room: Room<R>, oldNick: Option<string>, newNick: Option<string>, nicks: multiset<string>)
    requires Inv(room) && Agrees(nicks, room.chains)
    ensures var (room', signals) := NickChanged(room, oldNick, newNick);
            Agrees(Replay(nicks, signals), room'.chains)
  {
    var (room', signals) := NickChanged(room, oldNick, newNick);
    if found: R :| Find(room.chains, oldNick) == Some(found) {
      ReplayOne(nicks, signals[0]);
      assert signals == [signals[0]];
      FindsHead(room.chains, oldNick.value);
      if newNick.Some? {
        RenameAgrees(room, found, oldNick.value, newNick.value, nicks);
      }
    } else {
      assert signals == [];
    }
  }

  lemma DroppedAgrees<R>(room: Room<R>, nick: string, r: R, nicks: multiset<string>)
    requires Inv(room) && Agrees(nicks, room.chains) && r in Chain(room.chains, nick)
    ensures Agrees(nicks - multiset{nick}, Dropped(room.chains, nick, r))
  {
    DroppedChains(room.chains, nick, r);
    RemoveOneAt(Chain(room.chains, nick), r, RemoveOne(Chain(room.chains, nick), r));
  }

  lemma OwnJoinAgrees<R>(room: Room<R>, nick: string, forced: bool, r: R, nicks: multiset<string>)
    requires Inv(room) && !Listed(room.chains, r) && Agrees(nicks, room.chains)
    ensures var (room', signals) := OwnJoin(room, nick, forced, r);
            Agrees(Replay(nicks, signals), room'.chains)
  {
    var (room', signals) := OwnJoin(room, nick, forced, r);
    if !room.joined && Find(room.chains, Some(nick)).None? {
      AddedThenOwn(room.chains, nick, r, room.own);
      var room1 := room.(chains := ToHead(Added(room.chains, nick, r, room.own), nick, r),
                         own := Some(r), joined := true, namesGot := true);
      OwnJoinInv(room, nick, false, r);
      assert OwnJoin(room, nick, false, r).0 == room1;
      ReplayOne(nicks, Join(nick));
      assert Agrees(nicks + multiset{nick}, room1.chains);
      var more := if forced then NickChanged(room1, Some(room.nick), Some(nick)).1 else [];
      ReplayConcat(nicks, [Join(nick)], more);
      NickChangedAgrees(room1, Some(room.nick), Some(nick), nicks + multiset{nick});
    }
  }

  lemma NickJoinAgrees<R>(room: Room<R>, nick: string, r: R, nicks: multiset<string>)
    requires Inv(room) && !Listed(room.chains, r) && Agrees(nicks, room.chains) && room.namesGot
    ensures var (room', signals) := NickJoin(room, nick, r);
            Agrees(Replay(nicks, signals), room'.chains)
  {
    AddedChains(room.chains, nick, r, room.own);
    ReplayOne(nicks, Join(nick));
  }

  lemma LeavingAgrees<R>(room: Room<R>, nick: Option<string>, nicks: multiset<string>)
    requires Inv(room) && Agrees(nicks, room.chains)
    ensures var (room', signals) := NickPart(room, nick);
            !room'.destroyed ==> Agrees(Replay(nicks, signals), room'.chains)
    ensures var (room', signals) := NickKicked(room, nick);
            !room'.destroyed ==> Agrees(Replay(nicks, signals), room'.chains)
  {
    if found: R :| Find(room.chains, nick) == Some(found) {
      FindsHead(room.chains, nick.value);
      DroppedAgrees(room, nick.value, found, nicks);
      ReplayOne(nicks, Part(nick.value));
      ReplayOne(nicks, Kick(nick.value));
    }
  }

  lemma AvailableAgrees<R>(room: Room<R>, e: Event, r: R, nicks: multiset<string>)
    requires Inv(room) && !Listed(room.chains, r) && Agrees(nicks, room.chains) && e.Available?
    requires !room.destroyed && (room.joined || Step(room, e, r).0.joined)
    ensures Agrees(Replay(nicks, Step(room, e, r).1), Step(room, e, r).0.chains)
  {
    var nick := if e.itemNick.Some? then e.itemNick else e.from;
    if nick.Some? && Find(room.chains, nick).None? {
      if e.own || nick.value == room.nick {
        OwnJoinAgrees(room, nick.value, e.forced, r, nicks);
      } else {
        assert room.namesGot;
        NickJoinAgrees(room, nick.value, r, nicks);
      }
    } else {
      assert Step(room, e, r) == (room, []);
    }
  }

  lemma UnavailableAgrees<R>(room: Room<R>, e: Event, r: R, nicks: multiset<string>)
    requires Inv(room) && Agrees(nicks, room.chains) && e.Unavailable? && !room.destroyed
    ensures !Step(room, e, r).0.destroyed ==> Agrees(Replay(nicks, Step(room, e, r).1), Step(room, e, r).0.chains)
  {
    if e.code.None? || e.code.value == 307 || e.code.value == 301 {
      LeavingAgrees(room, e.from, nicks);
    } else if e.code.value == 303 {
      NickChangedAgrees(room, e.from, e.itemNick, nicks);
    } else {
      assert Step(room, e, r) == (room, []);
    }
  }

  lemma ErrorAgrees<R>(room: Room<R>, e: Event, r: R, nicks: multiset<string>)
    requires Agrees(nicks, room.chains) && e.Error? && room.joined && !room.destroyed
    ensures Agrees(Replay(nicks, Step(room, e, r).1), Step(room, e, r).0.chains)
  {
    ReplayOne(nicks, NickInUse(e.from));
  }

  /** From the presence that joins us on, each presence shows exactly the change it
      makes to the nick list. */
  lemma StepAgrees<R>(room: Room<R>, e: Event, r: R, nicks: multiset<string>)
    requires Inv(room) && !Listed(room.chains, r) && Agrees(nicks, room.chains)
    requires !room.destroyed && (room.joined || Step(room, e, r).0.joined)
    ensures !Step(room, e, r).0.destroyed ==> Agrees(Replay(nicks, Step(room, e, r).1), Step(room, e, r).0.chains)
  {
    if e.Available? {
      AvailableAgrees(room, e, r, nicks);
    } else if e.Unavailable? {
      UnavailableAgrees(room, e, r, nicks);
    } else {
      ErrorAgrees(room, e, r, nicks);
    }
  }

  /** From the presence that joins us until the room is destroyed, replaying the signals
      over the nicks held just before gives exactly the nick list, whatever arrives. */
  lemma {:induction false} SignalsReplayNickList<R>(room: Room<R>, ins: seq<Input<R>>, nicks: multiset<string>)
    requires Inv(room) && NewRecords(room, ins) && Agrees(nicks, room.chains)
    requires |ins| > 0 && (room.joined || Run(room, ins[..1]).0.joined)
    ensures Run(room, ins).0.joined
    ensures !Run(room, ins).0.destroyed ==> Agrees(Replay(nicks, Run(room, ins).1), Run(room, ins).0.chains)
  {
    var init, last := ins[..|ins| - 1], ins[|ins| - 1];
    var (room1, signals) := Run(room, init);
    RunInv(room, init);
    if |ins| > 1 {
      assert init[..1] == ins[..1] && NewRecords(room, init);
      SignalsReplayNickList(room, init, nicks);
    } else {
      assert ins[..1] == ins;
      assert Replay(nicks, []) == nicks;
    }
    StepInv(room1, last.event, last.rec);
    if !room1.destroyed {
      StepAgrees(room1, last.event, last.rec, Replay(nicks, signals));
    }
    ReplayConcat(nicks, signals, Step(room1, last.event, last.rec).1);
  }

  // ----- Our own nick

  /** Our record heads the chain of the nick the room thinks we have. */
  ghost predicate OwnNickRight<R>(room: Room<R>) {
    room.own.Some? && Heads(room.chains, room.own.value, room.nick)
  }

  /** When the service admits us, the two agree exactly if it kept the nick we asked for. */
  lemma OwnNickAtJoin<R>(room: Room<R>, nick: string, r: R)
    requires Inv(room) && !Listed(room.chains, r) && !room.joined && Find(room.chains, Some(nick)).None?
    ensures OwnNickRight(OwnJoin(room, nick, false, r).0) <==> nick == room.nick
  {
    AddedThenOwn(room.chains, nick, r, room.own);
    var room1 := OwnJoin(room, nick, false, r).0;
    if nick != room.nick && |Chain(room1.chains, room.nick)| > 0 {
      assert Chain(room1.chains, room.nick)[0] in Chain(room.chains, room.nick);
    }
  }

  /** When the service admits us under a nick of its own choice (status 210), our own
      record heads the chain of the room's nick exactly if that choice is no change: the
      rename looks for the nick we asked for, and finds nobody or somebody else. */
  lemma ForcedJoinExact<R>(room: Room<R>, nick: string, r: R)
    requires Inv(room) && !Listed(room.chains, r) && !room.joined && Find(room.chains, Some(nick)).None?
    ensures var room' := OwnJoin(room, nick, true, r).0;
            room'.joined && (room'.own == Some(r) && OwnNickRight(room') <==> nick == room.nick)
  {
    var room1 := OwnJoin(room, nick, false, r).0;
    AddedThenOwn(room.chains, nick, r, room.own);
    OwnJoinInv(room, nick, false, r);
    assert Chain(room1.chains, nick) == [r] + Chain(room.chains, nick);
    if found: R :| Find(room1.chains, Some(room.nick)) == Some(found) {
      FindsHead(room1.chains, room.nick);
      RenameChains(room1, found, room.nick, nick);
    }
  }

  /** A rename keeps them in agreement, even when two occupants end up with one nick. */
  lemma OwnNickAfterRename<R>(room: Room<R>, oldNick: Option<string>, newNick: Option<string>)
    requires Inv(room) && OwnNickRight(room)
    ensures OwnNickRight(NickChanged(room, oldNick, newNick).0)
  {
    var found := Find(room.chains, oldNick);
    if found.Some? && newNick.Some? {
      var r := found.value;
      FindsHead(room.chains, oldNick.value);
      RenameChains(room, r, oldNick.value, newNick.value);
      var room' := Rename(room, r, oldNick.value, newNick.value);
      if oldNick.value != room.nick {
        assert room.own != Some(r);
        assert room'.own == room.own && room'.nick == room.nick;
      }
    }
  }

  lemma OwnNickAfterUnavailable<R>(room: Room<R>, e: Event, r: R)
    requires Inv(room) && room.joined && OwnNickRight(room) && !room.destroyed && e.Unavailable?
    ensures OwnNickRight(Step(room, e, r).0)
  {
    OwnNickAfterRename(room, e.from, e.itemNick);
    var found := Find(room.chains, e.from);
    if found.Some? && room.own != found {
      FindsHead(room.chains, e.from.value);
      DroppedHeads(room.chains, e.from.value, found.value, room.own.value, room.nick);
    }
  }

  lemma OwnNickAfterStep<R>(room: Room<R>, e: Event, r: R)
    requires Inv(room) && !Listed(room.chains, r) && room.joined && OwnNickRight(room)
    ensures OwnNickRight(Step(room, e, r).0)
  {
    if !room.destroyed {
      if e.Available? {
        var nick := if e.itemNick.Some? then e.itemNick else e.from;
        if nick.Some? && Find(room.chains, nick).None? && nick.value != room.nick {
          AddedChains(room.chains, nick.value, r, room.own);
        }
      } else if e.Unavailable? {
        OwnNickAfterUnavailable(room, e, r);
      }
    }
  }

  /** From a join under the requested nick on, our record's nick equals the room's idea of
      it, after any number of presences and renames. */
  lemma {:induction false} OwnNickAlways<R>(room: Room<R>, ins: seq<Input<R>>)
    requires Inv(room) && NewRecords(room, ins) && room.joined && OwnNickRight(room)
    ensures OwnNickRight(Run(room, ins).0)
  {
    if |ins| == 0 {
    } else {
      var init, last := ins[..|ins| - 1], ins[|ins| - 1];
      OwnNickAlways(room, init);
      RunInv(room, init);
      OwnNickAfterStep(Run(room, init).0, last.event, last.rec);
    }
  }

  /** A rename away from the nick the room thinks is ours, of a record that is not ours. */
  predicate Adopts<R(==)>(room: Room<R>, e: Event) {
    && !room.destroyed && e.Unavailable? && e.code == Some(303) && e.from == Some(room.nick) && e.itemNick.Some?
    && Find(room.chains, Some(room.nick)).Some? && Find(room.chains, Some(room.nick)) != room.own
  }

  /** While joined, our own record is exchanged exactly by such a rename: the record of the
      other occupant is taken for ours, and from then on the room's nick is its nick. */
  lemma OwnRecordExchanged<R>(room: Room<R>, e: Event, r: R)
    requires Inv(room) && room.joined
    ensures var room' := Step(room, e, r).0;
            && (room'.own != room.own <==> Adopts(room, e))
            && (Adopts(room, e) ==> room'.own == Find(room.chains, Some(room.nick)) && OwnNickRight(room'))
  {
    if Adopts(room, e) {
      var found := Find(room.chains, e.from).value;
      FindsHead(room.chains, room.nick);
      RenameChains(room, found, room.nick, e.itemNick.value);
    }
  }

  /** That never happens after a join under the requested nick: our record stays the same
      one, after any number of presences and renames. */
  lemma {:induction false} OwnRecordAlways<R>(room: Room<R>, ins: seq<Input<R>>)
    requires Inv(room) && NewRecords(room, ins) && room.joined && OwnNickRight(room)
    ensures Run(room, ins).0.own == room.own
  {
    if |ins| == 0 {
    } else {
      var init, last := ins[..|ins| - 1], ins[|ins| - 1];
      OwnRecordAlways(room, init);
      OwnNickAlways(room, init);
      RunInv(room, init);
      OwnRecordExchanged(Run(room, init).0, last.event, last.rec);
    }
  }

  /** A rename of our own record to the nick the room thinks is ours. */
  predicate Returns<R(==)>(room: Room<R>, e: Event) {
    && !room.destroyed && e.Unavailable? && e.code == Some(303) && e.itemNick == Some(room.nick)
    && room.own.Some? && Find(room.chains, e.from) == room.own
  }

  /** Our record is in no chain but the one it heads. */
  lemma OwnElsewhere<R>(room: Room<R>)
    requires Inv(room) && room.joined && !OwnNickRight(room)
    ensures room.own.value !in Chain(room.chains, room.nick)
  {
    var n :| Heads(room.chains, room.own.value, n);
    assert room.own.value in Chain(room.chains, n);
  }

  lemma OwnNickAfterMove<R>(room: Room<R>, oldNick: Option<string>, newNick: Option<string>)
    requires Inv(room) && room.joined && !OwnNickRight(room) && Find(room.chains, oldNick).Some? && newNick.Some?
    requires oldNick != Some(room.nick)
    ensures OwnNickRight(NickChanged(room, oldNick, newNick).0)
            <==> newNick == Some(room.nick) && Find(room.chains, oldNick) == room.own
  {
    var r := Find(room.chains, oldNick).value;
    FindsHead(room.chains, oldNick.value);
    RenameChains(room, r, oldNick.value, newNick.value);
    OwnElsewhere(room);
  }

  lemma StaysWrongAvailable<R>(room: Room<R>, e: Event, r: R)
    requires Inv(room) && !Listed(room.chains, r) && room.joined && !OwnNickRight(room)
    requires !room.destroyed && e.Available?
    ensures !OwnNickRight(Step(room, e, r).0)
  {
    var nick := if e.itemNick.Some? then e.itemNick else e.from;
    OwnElsewhere(room);
    if nick.Some? {
      AddedChains(room.chains, nick.value, r, room.own);
    }
  }

  lemma StaysWrongLeaving<R>(room: Room<R>, e: Event, r: R)
    requires Inv(room) && room.joined && !OwnNickRight(room)
    requires !room.destroyed && e.Unavailable? && e.code != Some(303)
    ensures !OwnNickRight(Step(room, e, r).0)
  {
    OwnElsewhere(room);
    if Find(room.chains, e.from).Some? {
      FindsHead(room.chains, e.from.value);
      DroppedChains(room.chains, e.from.value, Find(room.chains, e.from).value);
    }
  }

  /** Once lost, the agreement comes back exactly by a rename away from the room's nick, with
      the record of another occupant, or by a rename of our own record to it. */
  lemma OwnNickRegained<R>(room: Room<R>, e: Event, r: R)
    requires Inv(room) && !Listed(room.chains, r) && room.joined && !OwnNickRight(room)
    ensures OwnNickRight(Step(room, e, r).0) <==> Adopts(room, e) || Returns(room, e)
  {
    OwnRecordExchanged(room, e, r);
    if !room.destroyed && !Adopts(room, e) {
      if e.Available? {
        StaysWrongAvailable(room, e, r);
      } else if e.Unavailable? && e.code == Some(303) {
        if Find(room.chains, e.from).Some? && e.itemNick.Some? {
          OwnNickAfterMove(room, e.from, e.itemNick);
        }
      } else if e.Unavailable? {
        StaysWrongLeaving(room, e, r);
      }
    }
  }

  // ----- Nick conflicts

  /** The nick after `k` conflicts. */
  function Retry(nick: string, alternate: Option<string>, k: nat): string {
    if k == 0 then nick else NextNick(Retry(nick, alternate, k - 1), alternate)
  }

  function Underscores(k: nat): string {
    seq(k, i => '_')
  }

  /** Without an alternate nick the `k`-th retry appends `k` underscores. */
  lemma {:induction false} RetryAppends(nick: string, alternate: Option<string>, k: nat)
    requires alternate.None? || alternate.value == ""
    ensures Retry(nick, alternate, k) == nick + Underscores(k)
  {
    if k == 0 {
    } else {
      RetryAppends(nick, alternate, k - 1);
      assert Underscores(k) == Underscores(k - 1) + "_";
      assert nick + Underscores(k - 1) + "_" == nick + Underscores(k);
    }
  }

  /** So no nick is tried twice. */
  lemma RetriesDiffer(nick: string, alternate: Option<string>, j: nat, k: nat)
    requires (alternate.None? || alternate.value == "") && j != k
    ensures Retry(nick, alternate, j) != Retry(nick, alternate, k)
  {
    RetryAppends(nick, alternate, j);
    RetryAppends(nick, alternate, k);
    assert |Retry(nick, alternate, j)| == |nick| + j && |Retry(nick, alternate, k)| == |nick| + k;
  }

  /** With alternate nick `a` the retries alternate between `a` and `a_`, starting with
      `a` unless that was the nick refused. */
  lemma {:induction false} RetryAlternates(nick: string, a: string, k: nat)
    requires a != "" && k > 0
    ensures Retry(nick, Some(a), k) == if (k % 2 == 1) == (nick != a) then a else a + "_"
  {
    assert |a + "_"| == |a| + 1;
    if k > 1 {
      RetryAlternates(nick, a, k - 1);
    } else {
      assert Retry(nick, Some(a), 0) == nick;
    }
  }

  /** A conflict error about the nick last tried, or naming none. */
  predicate Conflict<R>(room: Room<R>, e: Event) {
    e.Error? && IsConflict(e.code) && (e.from.None? || e.from.value == room.nick)
  }

  /** A presence that is about others: an error naming another nick, an occupant who comes,
      goes or is renamed without having the nick we try. */
  predicate Aside<R>(room: Room<R>, e: Event) {
    match e
    case Available(from, itemNick, own, _) =>
      var nick := if itemNick.Some? then itemNick else from;
      nick.None? || (!own && nick.value != room.nick)
    case Unavailable(from, code, _) => code != Some(303) || from != Some(room.nick)
    case Error(from, _, _) => from.Some? && from.value != room.nick
  }

  /** Every presence is one of these, where it arrives. */
  ghost predicate OnlyConflicts<R>(room: Room<R>, alternate: Option<string>, ins: seq<Input<R>>) {
    |ins| == 0 ||
      var room1 := Run(room, ins[..|ins| - 1]).0;
      var e := ins[|ins| - 1].event;
      && OnlyConflicts(room, alternate, ins[..|ins| - 1])
      && (Aside(room1, e) || (Conflict(room1, e) && e.alternate == alternate))
  }

  ghost function Conflicts<R>(room: Room<R>, ins: seq<Input<R>>): nat {
    if |ins| == 0 then 0
    else
      Conflicts(room, ins[..|ins| - 1])
      + if Conflict(Run(room, ins[..|ins| - 1]).0, ins[|ins| - 1].event) then 1 else 0
  }

  /** The nicks with which joining was tried. */
  function Tried(signals: seq<Signal>): seq<string> {
    if |signals| == 0 then []
    else
      var last := signals[|signals| - 1];
      Tried(signals[..|signals| - 1]) + if last.SendJoin? then [last.nick] else []
  }

  function Retries(nick: string, alternate: Option<string>, n: nat): (nicks: seq<string>)
    ensures |nicks| == n && forall k | 0 <= k < n :: nicks[k] == Retry(nick, alternate, k + 1)
  {
    if n == 0 then [] else Retries(nick, alternate, n - 1) + [Retry(nick, alternate, n)]
  }

  lemma {:induction false} TriedConcat(s: seq<Signal>, t: seq<Signal>)
    ensures Tried(s + t) == Tried(s) + Tried(t)
  {
    if |t| == 0 {
      assert s + t == s;
    } else {
      TriedConcat(s, t[..|t| - 1]);
      assert (s + t)[..|s + t| - 1] == s + t[..|t| - 1];
    }
  }

  ghost predicate Waiting<R>(room: Room<R>) {
    !room.joined && !room.destroyed && room.own.None?
  }

  /** A presence about others tries no join and leaves our nick alone. */
  lemma AsideChangesNothing<R>(room: Room<R>, e: Event, r: R)
    requires Waiting(room) && Aside(room, e)
    ensures var (room', signals) := Step(room, e, r);
            Waiting(room') && room'.nick == room.nick && Tried(signals) == []
  {
    var signals := Step(room, e, r).1;
    assert |signals| <= 1;
    assert |signals| == 1 ==> signals[..0] == [];
  }

  lemma ConflictTries<R>(room: Room<R>, e: Event, r: R)
    requires Waiting(room) && Conflict(room, e)
    ensures var (room', signals) := Step(room, e, r);
            && Waiting(room') && room'.nick == NextNick(room.nick, e.alternate)
            && Tried(signals) == [room'.nick]
  {
    var error := JoinError(e.code.value);
    var next := NextNick(room.nick, e.alternate);
    assert Step(room, e, r).1 == [error] + [SendJoin(next)];
    TriedConcat([error], [SendJoin(next)]);
    assert [error][..0] == [] && [SendJoin(next)][..0] == [];
  }

  lemma PresenceTries<R>(room: Room<R>, e: Event, r: R)
    requires Waiting(room) && (Aside(room, e) || Conflict(room, e))
    ensures var (room', signals) := Step(room, e, r);
            && Waiting(room')
            && room'.nick == (if Conflict(room, e) then NextNick(room.nick, e.alternate) else room.nick)
            && Tried(signals) == if Conflict(room, e) then [room'.nick] else []
  {
    if Conflict(room, e) {
      ConflictTries(room, e, r);
    } else {
      AsideChangesNothing(room, e, r);
    }
  }

  /** The last presence of such a run: what it makes of the nick, the conflicts and the tries. */
  lemma LastTries<R>(room: Room<R>, alternate: Option<string>, ins: seq<Input<R>>)
    requires |ins| > 0 && OnlyConflicts(room, alternate, ins) && Waiting(Run(room, ins[..|ins| - 1]).0)
    ensures var init := ins[..|ins| - 1];
            var (room1, signals) := Run(room, init);
            var (room2, all) := Run(room, ins);
            var more := Conflicts(room, ins) - Conflicts(room, init);
            && OnlyConflicts(room, alternate, init) && Waiting(room2) && 0 <= more <= 1
            && room2.nick == (if more == 1 then NextNick(room1.nick, alternate) else room1.nick)
            && Tried(all) == Tried(signals) + if more == 1 then [room2.nick] else []
  {
    var init, last := ins[..|ins| - 1], ins[|ins| - 1];
    var (room1, signals) := Run(room, init);
    PresenceTries(room1, last.event, last.rec);
    TriedConcat(signals, Step(room1, last.event, last.rec).1);
  }

  /** Until we are joined, and whatever arrives in between about others, the n-th conflict
      makes us try the n-th retry, no other nick is tried, and the room is not given up. */
  lemma {:induction false} ConflictsRetry<R>(room: Room<R>, alternate: Option<string>, ins: seq<Input<R>>)
    requires Waiting(room) && OnlyConflicts(room, alternate, ins)
    ensures var (room', signals) := Run(room, ins);
            var n := Conflicts(room, ins);
            && Waiting(room') && room'.nick == Retry(room.nick, alternate, n)
            && Tried(signals) == Retries(room.nick, alternate, n)
  {
    if |ins| == 0 {
    } else {
      assert OnlyConflicts(room, alternate, ins[..|ins| - 1]);
      ConflictsRetry(room, alternate, ins[..|ins| - 1]);
      LastTries(room, alternate, ins);
    }
  }
}
