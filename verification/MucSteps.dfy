/** What each presence does to a room, read off the presence and the room before it: who
    joins, how many occupants bear each nick, what is shown, and how the room ends. */
module MucSteps {
  import opened Text
  import opened Lists
  import opened Muc

  /** The nick an available presence is about: the item's, or else the sender's. */
  function Named(e: Event): Option<string>
    requires e.Available?
  {
    if e.itemNick.Some? then e.itemNick else e.from
  }

  function Bearers<R>(room: Room<R>, nick: string): nat {
    |Chain(room.chains, nick)|
  }

  // ----- Joining

  /** The service lets us in: an available presence with status 110, or under the nick we
      asked for, and no occupant bears its nick. */
  predicate Admits<R>(room: Room<R>, e: Event) {
    && !room.destroyed && !room.joined && e.Available? && Named(e).Some?
    && (e.own || Named(e).value == room.nick) && Bearers(room, Named(e).value) == 0
  }

  lemma OwnJoinHeads<R>(room: Room<R>, nick: string, r: R)
    requires Inv(room) && !Listed(room.chains, r) && !room.joined && Bearers(room, nick) == 0
    ensures var room' := OwnJoin(room, nick, false, r).0;
            && room'.joined && room'.own == Some(r) && Heads(room'.chains, r, nick) && Inv(room')
            && room'.nick == room.nick && room'.destroyed == room.destroyed
            && forall n | n != nick :: Chain(room'.chains, n) == Chain(room.chains, n)
  {
    AddedThenOwn(room.chains, nick, r, room.own);
    OwnJoinInv(room, nick, false, r);
  }

  /** The rename that status 210 brings, from the nick we asked for. */
  lemma ForcedRename<R>(room: Room<R>, nick: string, r: R)
    requires Inv(room) && room.own == Some(r) && Heads(room.chains, r, nick)
    ensures var room' := NickChanged(room, Some(room.nick), Some(nick)).0;
            && room'.joined == room.joined && room'.destroyed == room.destroyed
            && if nick != room.nick && Bearers(room, room.nick) > 0
               then room'.own == Some(Chain(room.chains, room.nick)[0])
               else room'.own == Some(r) && Heads(room'.chains, r, nick)
  {
    if Bearers(room, room.nick) > 0 {
      FindsHead(room.chains, room.nick);
      RenameChains(room, Chain(room.chains, room.nick)[0], room.nick, nick);
    }
  }

  /** A room is joined afterwards exactly if it was joined or the presence lets us in. Then
      joining is shown first, and our new record is ours and heads the chain of that nick;
      only status 210 can exchange it, for an occupant with the nick we asked for. */
  lemma JoinsExactly<R>(room: Room<R>, e: Event, r: R)
    requires Inv(room) && !Listed(room.chains, r)
    ensures var (room', signals) := Step(room, e, r);
            && (room'.joined <==> room.joined || Admits(room, e))
            && (Admits(room, e) ==>
                  var nick := Named(e).value;
                  && !room'.destroyed && |signals| > 0 && signals[0] == Join(nick)
                  && (!e.forced ==> signals == [Join(nick)])
                  && (if e.forced && nick != room.nick && Bearers(room, room.nick) > 0
                      then room'.own == Some(Chain(room.chains, room.nick)[0])
                      else room'.own == Some(r) && Heads(room'.chains, r, nick)))
  {
    if Admits(room, e) {
      var nick := Named(e).value;
      OwnJoinHeads(room, nick, r);
      ForcedRename(OwnJoin(room, nick, false, r).0, nick, r);
    }
  }

  /** Presence `i` of the run lets us in. */
  ghost predicate AdmitsAt<R>(room: Room<R>, ins: seq<Input<R>>, i: int) {
    0 <= i < |ins| && Admits(Run(room, ins[..i]).0, ins[i].event)
  }

  lemma AdmitsAtLast<R>(room: Room<R>, ins: seq<Input<R>>, i: nat)
    requires i < |ins|
    ensures AdmitsAt(room, ins, i) <==>
            if i == |ins| - 1 then Admits(Run(room, ins[..i]).0, ins[i].event) else AdmitsAt(room, ins[..|ins| - 1], i)
  {
    if i < |ins| - 1 {
      assert ins[..|ins| - 1][..i] == ins[..i];
    }
  }

  /** A new room is joined exactly once one of its presences lets us in. */
  lemma {:induction false} JoinedExactly<R>(nick: string, ins: seq<Input<R>>)
    requires NewRecords(Created(nick), ins)
    ensures Run(Created(nick), ins).0.joined <==> exists i :: AdmitsAt(Created(nick), ins, i)
  {
    if |ins| == 0 {
    } else {
      var m := |ins| - 1;
      var init, last := ins[..m], ins[m];
      JoinedExactly(nick, init);
      RunInv(Created(nick), init);
      JoinsExactly(Run(Created(nick), init).0, last.event, last.rec);
      AdmitsAtLast(Created(nick), ins, m);
      if i: int :| AdmitsAt(Created(nick), init, i) {
        AdmitsAtLast(Created(nick), ins, i);
      } else if i: int :| AdmitsAt(Created(nick), ins, i) {
        AdmitsAtLast(Created(nick), ins, i);
      }
    }
  }

  // ----- Occupants

  /** An available presence brings a new occupant, or lets us in. */
  predicate Arrives<R>(room: Room<R>, e: Event) {
    && !room.destroyed && e.Available? && Named(e).Some? && Bearers(room, Named(e).value) == 0
    && (e.own || Named(e).value == room.nick ==> !room.joined)
  }

  /** It lets us in under a nick of the service's choice, and an occupant bears the one we
      asked for: that occupant is renamed as well. */
  predicate Displaces<R>(room: Room<R>, e: Event) {
    Admits(room, e) && e.forced && Named(e).value != room.nick && Bearers(room, room.nick) > 0
  }

  /** The occupant found under the sender's nick leaves, is kicked or is banned. */
  predicate Departs<R>(room: Room<R>, e: Event) {
    && !room.destroyed && e.Unavailable? && e.from.Some? && Bearers(room, e.from.value) > 0
    && e.code in {None, Some(301), Some(307)}
  }

  predicate Renames<R>(room: Room<R>, e: Event) {
    && !room.destroyed && e.Unavailable? && e.from.Some? && Bearers(room, e.from.value) > 0
    && e.code == Some(303) && e.itemNick.Some?
  }

  /** The occupant found under the sender's nick is ours. */
  predicate IsOurs<R(==)>(room: Room<R>, e: Event)
    requires Departs(room, e) || Renames(room, e)
  {
    room.own == Some(Chain(room.chains, e.from.value)[0])
  }

  function One(b: bool): int {
    if b then 1 else 0
  }

  lemma OwnJoinSize<R>(room: Room<R>, nick: string, r: R, n: string)
    requires Inv(room) && !Listed(room.chains, r) && !room.joined && Bearers(room, nick) == 0
    ensures var room' := OwnJoin(room, nick, false, r).0;
            Inv(room') && room'.nick == room.nick && Bearers(room', n) == Bearers(room, n) + One(n == nick)
  {
    AddedThenOwn(room.chains, nick, r, room.own);
    OwnJoinHeads(room, nick, r);
  }

  lemma ForcedSize<R>(room: Room<R>, nick: string, n: string)
    requires Inv(room)
    ensures Bearers(NickChanged(room, Some(room.nick), Some(nick)).0, n)
            == Bearers(room, n) + if Bearers(room, room.nick) > 0 then One(n == nick) - One(n == room.nick) else 0
  {
    if Bearers(room, room.nick) > 0 {
      var found := Chain(room.chains, room.nick)[0];
      FindsHead(room.chains, room.nick);
      RenameChains(room, found, room.nick, nick);
      RenamedSize(room.chains, found, room.nick, nick, true, n);
    }
  }

  lemma ArrivesSize<R>(room: Room<R>, e: Event, r: R, n: string)
    requires Inv(room) && !Listed(room.chains, r) && Arrives(room, e)
    ensures Bearers(Step(room, e, r).0, n)
            == Bearers(room, n) + One(n == Named(e).value)
               + if Displaces(room, e) then One(n == Named(e).value) - One(n == room.nick) else 0
  {
    var nick := Named(e).value;
    if Admits(room, e) {
      OwnJoinSize(room, nick, r, n);
      if e.forced {
        ForcedSize(OwnJoin(room, nick, false, r).0, nick, n);
        OwnJoinSize(room, nick, r, room.nick);
      }
    } else {
      AddedChains(room.chains, nick, r, room.own);
    }
  }

  lemma DroppedSize<R>(chains: map<string, seq<R>>, nick: string, n: string)
    requires Table(chains) && |Chain(chains, nick)| > 0
    ensures |Chain(Dropped(chains, nick, Chain(chains, nick)[0]), n)| == |Chain(chains, n)| - One(n == nick)
  {
    var found := Chain(chains, nick)[0];
    DroppedChains(chains, nick, found);
    RemoveOneAt(Chain(chains, nick), found, RemoveOne(Chain(chains, nick), found));
  }

  lemma RenamesSize<R>(room: Room<R>, e: Event, r: R, n: string)
    requires Inv(room) && Renames(room, e)
    ensures Bearers(Step(room, e, r).0, n)
            == Bearers(room, n) + One(n == e.itemNick.value) - One(n == e.from.value)
  {
    var nick := e.from.value;
    var found := Chain(room.chains, nick)[0];
    FindsHead(room.chains, nick);
    RenameChains(room, found, nick, e.itemNick.value);
    RenamedSize(room.chains, found, nick, e.itemNick.value, Step(room, e, r).0.own == Some(found), n);
  }

  lemma LeavesSize<R>(room: Room<R>, e: Event, r: R, n: string)
    requires Inv(room) && (Departs(room, e) || Renames(room, e))
    ensures Bearers(Step(room, e, r).0, n)
            == Bearers(room, n)
               + if Renames(room, e) then One(n == e.itemNick.value) - One(n == e.from.value)
                 else -One(n == e.from.value && !IsOurs(room, e))
  {
    if Renames(room, e) {
      RenamesSize(room, e, r, n);
    } else {
      DroppedSize(room.chains, e.from.value, n);
    }
  }

  /** How many occupants bear each nick after a presence. When the occupant that leaves is
      ours, the room ends as it is. */
  lemma BearersExactly<R>(room: Room<R>, e: Event, r: R, n: string)
    requires Inv(room) && !Listed(room.chains, r)
    ensures Bearers(Step(room, e, r).0, n)
            == Bearers(room, n)
               + (if Arrives(room, e) then One(n == Named(e).value) else 0)
               + (if Displaces(room, e) then One(n == Named(e).value) - One(n == room.nick) else 0)
               + (if Renames(room, e) then One(n == e.itemNick.value) - One(n == e.from.value) else 0)
               - (if Departs(room, e) && !IsOurs(room, e) then One(n == e.from.value) else 0)
  {
    if Arrives(room, e) {
      ArrivesSize(room, e, r, n);
    } else if Departs(room, e) || Renames(room, e) {
      LeavesSize(room, e, r, n);
    }
  }

  // ----- What is shown

  /** What an available presence shows: whoever arrives, once we are joined; and our own nick
      when the service changed it. */
  lemma ArrivalsShown<R>(room: Room<R>, e: Event, r: R)
    requires Inv(room) && !Listed(room.chains, r) && !room.destroyed && e.Available?
    ensures Step(room, e, r).1 ==
            if !Arrives(room, e) then []
            else if !Admits(room, e) then (if room.joined then [Join(Named(e).value)] else [])
            else if e.forced && (Displaces(room, e) || Named(e).value == room.nick)
            then [Join(Named(e).value), OwnNickChange(room.nick, Named(e).value)]
            else [Join(Named(e).value)]
  {
    if Admits(room, e) {
      AddedThenOwn(room.chains, Named(e).value, r, room.own);
    }
  }

  /** What an unavailable presence shows of the occupant it is about: a part, a kick, or a
      change of nick, which is our own if the record is, or if the room takes the nick for ours. */
  lemma DeparturesShown<R>(room: Room<R>, e: Event, r: R)
    requires !room.destroyed && e.Unavailable?
    ensures var signals := Step(room, e, r).1;
            if Departs(room, e) then signals == [if e.code.None? then Part(e.from.value) else Kick(e.from.value)]
            else if Renames(room, e) then
              signals == [if IsOurs(room, e) || e.from.value == room.nick
                          then OwnNickChange(e.from.value, e.itemNick.value)
                          else NickChange(e.from.value, e.itemNick.value)]
            else if e.code == Some(303) && e.from.Some? && Bearers(room, e.from.value) > 0 then
              signals == [if room.own == Some(Chain(room.chains, e.from.value)[0])
                          then OwnNickChange(e.from.value, e.from.value) else NickChange(e.from.value, e.from.value)]
            else signals == []
  {
  }

  /** What an error shows before we are joined: that joining failed, if it names us or nobody,
      and another try when the nick was the reason. */
  lemma RefusalsShown<R>(room: Room<R>, e: Event, r: R)
    requires !room.destroyed && !room.joined && e.Error?
    ensures var (room', signals) := Step(room, e, r);
            var error := JoinError(if e.code.Some? then e.code.value else 0);
            if e.from.Some? && e.from.value != room.nick then signals == []
            else if e.code == Some(406) || e.code == Some(409) then signals == [error, SendJoin(room'.nick)]
            else signals == [error]
  {
  }

  /** Once we are joined, it shows only that a nick is in use. */
  lemma ErrorsShown<R>(room: Room<R>, e: Event, r: R)
    requires !room.destroyed && room.joined && e.Error?
    ensures Step(room, e, r) == (room, if e.code == Some(409) then [NickInUse(e.from)] else [])
  {
  }

  lemma AvailableEndsNothing<R>(room: Room<R>, e: Event, r: R)
    requires !room.destroyed && e.Available?
    ensures var room' := Step(room, e, r).0;
            !room'.destroyed && room'.left == room.left && room'.kicked == room.kicked
  {
  }

  lemma UnavailableEnds<R>(room: Room<R>, e: Event, r: R)
    requires !room.destroyed && e.Unavailable?
    ensures var room', own := Step(room, e, r).0, Departs(room, e) && IsOurs(room, e);
            && room'.destroyed == own && (room'.left <==> room.left || (own && e.code.None?))
            && (room'.kicked <==> room.kicked || (own && e.code.Some?))
  {
  }

  /** A room ends exactly by our own leaving, kick or ban, or when joining is refused for
      another reason than the nick; and it remembers which. */
  lemma EndsExactly<R>(room: Room<R>, e: Event, r: R)
    requires Inv(room) && !room.destroyed
    ensures var room' := Step(room, e, r).0;
            && (room'.destroyed <==>
                  || (Departs(room, e) && IsOurs(room, e))
                  || (&& e.Error? && !room.joined
                      && e.from in {None, Some(room.nick)} && e.code !in {Some(406), Some(409)}))
            && (room'.left <==> room.left || (Departs(room, e) && IsOurs(room, e) && e.code.None?))
            && (room'.kicked <==> room.kicked || (Departs(room, e) && IsOurs(room, e) && e.code.Some?))
  {
    if e.Available? {
      AvailableEndsNothing(room, e, r);
    } else if e.Unavailable? {
      UnavailableEnds(room, e, r);
    }
  }
}
