/** The roster engine on values: what one roster push or presence stanza does to
    the groups, users and resources, and which signals it emits.
    The classes of module RosterObjects are proved to do exactly this in place. */
module Roster {
  import opened Text
  import opened Lists
  import opened Sorting

  // ----- Data

  const UNAVAILABLE := 0
  const ERROR := 1
  const XA := 2
  const DND := 3
  const AWAY := 4
  const AVAILABLE := 5
  const CHAT := 6

  datatype Resource = Resource(name: string, priority: int, show: int, status: Option<string>)

  datatype Subscription = SubNone | SubTo | SubFrom | SubBoth

  datatype User = User(jid: string, name: Option<string>, subscription: Subscription,
                       error: bool, resources: seq<Resource>)

  datatype Group = Group(name: Option<string>, users: seq<User>)

  /** The part of a server record the roster engine works on. */
  datatype Account = Account(jid: string, resource: string,
                             groups: seq<Group>, mine: seq<Resource>)

  datatype Signal =
    | Online(full: string, jid: string, res: Option<string>)
    | Offline(full: string, jid: string, res: Option<string>)
    | Changed(full: string, show: int, status: Option<string>)

  // ----- Comparators

  /** Subtraction of two C `int`s that wraps around at 32 bits. */
  function Sub32(a: int, b: int): int {
    (a - b + 0x8000_0000) % 0x1_0000_0000 - 0x8000_0000
  }

  function ResourceCmp(a: Resource, b: Resource): int {
    var byPriority := Sub32(b.priority, a.priority);
    if byPriority != 0 then byPriority
    else if b.show - a.show != 0 then b.show - a.show
    else StrCmp(a.name, b.name)
  }

  predicate ResourceLe(a: Resource, b: Resource) {
    ResourceCmp(a, b) <= 0
  }

  function UserCmpByName(a: User, b: User): int {
    if a.name.None? && b.name.Some? then StrCmp(a.jid, b.name.value)
    else if a.name.Some? && b.name.None? then StrCmp(a.name.value, b.jid)
    else if a.name.Some? && b.name.Some? then StrCmp(a.name.value, b.name.value)
    else StrCmp(a.jid, b.jid)
  }

  function UserCmp(a: User, b: User): int {
    if a.resources == [] && b.resources == [] && a.error == b.error then UserCmpByName(a, b)
    else if a.error || a.resources == [] then 1
    else if b.error || b.resources == [] then -1
    else if a.resources[0].show == b.resources[0].show then UserCmpByName(a, b)
    else b.resources[0].show - a.resources[0].show
  }

  predicate UserLe(a: User, b: User) {
    UserCmp(a, b) <= 0
  }

  function SortResources(rs: seq<Resource>): seq<Resource> {
    MergeSort(rs, ResourceLe)
  }

  function SortUsers(us: seq<User>): seq<User> {
    MergeSort(us, UserLe)
  }

  function GroupCmp(a: Option<string>, b: Option<string>): int {
    if a.None? then -1
    else if b.None? then 1
    else StrCmp(a.value, b.value)
  }

  // ----- Lookups

  /** `g_slist_find_custom(resources, name, find_resource_func)`: a NULL name
      equals no resource, since every record is given a name. */
  function FindResource(rs: seq<Resource>, name: Option<string>): (r: Option<nat>)
    ensures r.Some? ==> r.value < |rs| && name == Some(rs[r.value].name)
  {
    if name.None? || rs == [] then None
    else if rs[0].name == name.value then Some(0)
    else
      match FindResource(rs[1..], name)
      case None => None
      case Some(i) => Some(i + 1)
  }

  function FindInUsers(us: seq<User>, jid: string): (r: Option<nat>)
    ensures r.Some? ==> r.value < |us| && us[r.value].jid == jid
  {
    if us == [] then None
    else if us[0].jid == jid then Some(0)
    else
      match FindInUsers(us[1..], jid)
      case None => None
      case Some(i) => Some(i + 1)
  }

  predicate UserAt(gs: seq<Group>, at: (nat, nat)) {
    at.0 < |gs| && at.1 < |gs[at.0].users|
  }

  /** The two loops of `rosters_find_user`, given the part of the JID before the
      cut: positions of the first group that holds the user, and of the user. */
  function FindUser(gs: seq<Group>, jid: string): (r: Option<(nat, nat)>)
    ensures r.Some? ==> UserAt(gs, r.value) && gs[r.value.0].users[r.value.1].jid == jid
  {
    if gs == [] then None
    else
      match FindInUsers(gs[0].users, jid)
      case Some(i) => Some((0, i))
      case None =>
        match FindUser(gs[1..], jid)
        case None => None
        case Some((g, i)) => Some((g + 1, i))
  }

  function FindGroup(gs: seq<Group>, name: Option<string>): (r: Option<nat>)
    ensures r.Some? ==> r.value < |gs| && gs[r.value].name == name
  {
    if gs == [] then None
    else if gs[0].name == name then Some(0)
    else
      match FindGroup(gs[1..], name)
      case None => None
      case Some(i) => Some(i + 1)
  }

  // ----- Roster pushes

  /** `g_slist_insert_sorted(roster, group, func_sort_group)`. */
  function InsertGroup(gs: seq<Group>, g: Group): seq<Group> {
    if gs == [] then [g]
    else if GroupCmp(g.name, gs[0].name) <= 0 then [g] + gs
    else [gs[0]] + InsertGroup(gs[1..], g)
  }

  function FindOrAddGroup(gs: seq<Group>, name: Option<string>): seq<Group> {
    if FindGroup(gs, name).Some? then gs else InsertGroup(gs, Group(name, []))
  }

  function SetUsers(gs: seq<Group>, g: nat, us: seq<User>): seq<Group>
    requires g < |gs|
  {
    gs[g := gs[g].(users := us)]
  }

  lemma {:induction false} InsertGroupFinds(gs: seq<Group>, g: Group)
    requires FindGroup(gs, g.name).None?
    ensures FindGroup(InsertGroup(gs, g), g.name).Some?
    ensures InsertGroup(gs, g)[FindGroup(InsertGroup(gs, g), g.name).value] == g
    ensures var i := FindGroup(InsertGroup(gs, g), g.name).value;
            i <= |gs| && InsertGroup(gs, g) == gs[..i] + [g] + gs[i..]
  {
    if gs != [] && GroupCmp(g.name, gs[0].name) > 0 {
      InsertGroupFinds(gs[1..], g);
      var i := FindGroup(InsertGroup(gs[1..], g), g.name).value;
      assert InsertGroup(gs, g)[1..] == InsertGroup(gs[1..], g);
      assert gs[..i + 1] + [g] + gs[i + 1..] == [gs[0]] + (gs[1..][..i] + [g] + gs[1..][i..]);
    }
  }

  /** Where the group called `name` is after `FindOrAddGroup`. */
  function GroupIndex(gs: seq<Group>, name: Option<string>): (i: nat)
    ensures i < |FindOrAddGroup(gs, name)|
    ensures FindOrAddGroup(gs, name)[i].name == name
    ensures FindGroup(gs, name).None? ==>
              i <= |gs| && FindOrAddGroup(gs, name) == gs[..i] + [Group(name, [])] + gs[i..]
    ensures FindGroup(gs, name).Some? ==> FindGroup(gs, name) == Some(i)
  {
    if FindGroup(gs, name).None? then
      InsertGroupFinds(gs, Group(name, [])); FindGroup(FindOrAddGroup(gs, name), name).value
    else FindGroup(gs, name).value
  }

  function AddUser(gs: seq<Group>, u: User, group: Option<string>): seq<Group> {
    var g := GroupIndex(gs, group);
    var gs1 := FindOrAddGroup(gs, group);
    SetUsers(gs1, g, gs1[g].users + [u])
  }

  /** `move_user`: the new group is found or made first, then the user is taken
      out of the old one, which stays even when that empties it. */
  function MoveUser(gs: seq<Group>, at: (nat, nat), group: Option<string>): (r: seq<Group>)
    requires UserAt(gs, at) && gs[at.0].name != group
    ensures |r| == |FindOrAddGroup(gs, group)|
    ensures r[GroupIndex(gs, group)].name == group
    ensures r[GroupIndex(gs, group)].users ==
            FindOrAddGroup(gs, group)[GroupIndex(gs, group)].users + [gs[at.0].users[at.1]]
  {
    var g := GroupIndex(gs, group);
    var gs1 := FindOrAddGroup(gs, group);
    var from: nat := if FindGroup(gs, group).None? && g <= at.0 then at.0 + 1 else at.0;
    var gs2 := SetUsers(gs1, from, RemoveAt(gs[at.0].users, at.1));
    SetUsers(gs2, g, gs2[g].users + [gs[at.0].users[at.1]])
  }

  datatype SubscriptionChange = Keep | Remove | Become(subscription: Subscription)

  /** What the subscription string of a push asks for; an unknown one keeps the old value. */
  function ParseSubscription(s: Option<string>): SubscriptionChange {
    if s.None? || CaseEq(s.value, "none") then Become(SubNone)
    else if CaseEq(s.value, "from") then Become(SubFrom)
    else if CaseEq(s.value, "to") then Become(SubTo)
    else if CaseEq(s.value, "both") then Become(SubBoth)
    else if CaseEq(s.value, "remove") then Remove
    else Keep
  }

  /** The texts of the subscriptions, as `xmpp_subscription` lists them. */
  const SUBSCRIPTION_TEXTS := ["remove", "none", "to", "from", "both"]

  /** A push is read by this table, in any case; no text means "none", an unknown one nothing. */
  lemma SubscriptionsRead(s: Option<string>)
    ensures var change := ParseSubscription(s);
            && (change == Remove <==> s.Some? && CaseEq(s.value, SUBSCRIPTION_TEXTS[0]))
            && (change == Become(SubNone) <==> s.None? || CaseEq(s.value, SUBSCRIPTION_TEXTS[1]))
            && (change == Become(SubTo) <==> s.Some? && CaseEq(s.value, SUBSCRIPTION_TEXTS[2]))
            && (change == Become(SubFrom) <==> s.Some? && CaseEq(s.value, SUBSCRIPTION_TEXTS[3]))
            && (change == Become(SubBoth) <==> s.Some? && CaseEq(s.value, SUBSCRIPTION_TEXTS[4]))
            && (change == Keep <==> s.Some? && forall i | 0 <= i < 5 :: !CaseEq(s.value, SUBSCRIPTION_TEXTS[i]))
  {
    assert |Fold("remove")| == 6 && |Fold("to")| == 2;
    assert Fold("none")[0] == 'n' && Fold("from")[0] == 'f' && Fold("both")[0] == 'b';
    assert forall i | 0 <= i < 5 :: SUBSCRIPTION_TEXTS[i] in {"remove", "none", "to", "from", "both"};
  }

  /** `update_subscription`: removing the last user of a group removes the group. */
  function UpdateSubscription(gs: seq<Group>, at: (nat, nat), change: SubscriptionChange): seq<Group>
    requires UserAt(gs, at)
  {
    var us := gs[at.0].users;
    match change
    case Keep => gs
    case Become(s) => SetUsers(gs, at.0, us[at.1 := us[at.1].(subscription := s)])
    case Remove =>
      if |us| == 1 then RemoveAt(gs, at.0) else SetUsers(gs, at.0, RemoveAt(us, at.1))
  }

  /** Sorts the group of a user; also where the user is afterwards. */
  function SortGroup(gs: seq<Group>, at: (nat, nat)): (r: (seq<Group>, (nat, nat)))
    requires UserAt(gs, at)
    ensures UserAt(r.0, r.1) && r.0[r.1.0].name == gs[at.0].name
    ensures r.0[r.1.0].users[r.1.1] == gs[at.0].users[at.1]
  {
    var us := gs[at.0].users;
    (SetUsers(gs, at.0, SortUsers(us)), (at.0, SortedPlace(us, at.1, UserLe)))
  }

  /** The group change of `update_user`, with the sort it brings; also where the user is
      afterwards. */
  function MoveStep(gs: seq<Group>, at: (nat, nat), group: Option<string>): (r: (seq<Group>, (nat, nat)))
    requires UserAt(gs, at)
    ensures UserAt(r.0, r.1) && r.0[r.1.0].name == group
    ensures r.0[r.1.0].users[r.1.1] == gs[at.0].users[at.1]
  {
    if gs[at.0].name == group then (gs, at)
    else
      var gs1 := MoveUser(gs, at, group);
      var g := GroupIndex(gs, group);
      SortGroup(gs1, (g, |gs1[g].users| - 1))
  }

  /** The name change of `update_user`, likewise. */
  function RenameStep(gs: seq<Group>, at: (nat, nat), name: Option<string>): (r: (seq<Group>, (nat, nat)))
    requires UserAt(gs, at)
    ensures UserAt(r.0, r.1) && r.0[r.1.0].name == gs[at.0].name
    ensures r.0[r.1.0].users[r.1.1] == gs[at.0].users[at.1].(name := name)
  {
    var u := gs[at.0].users[at.1];
    if u.name == name then (gs, at)
    else SortGroup(SetUsers(gs, at.0, gs[at.0].users[at.1 := u.(name := name)]), at)
  }

  function MoveAndRename(gs: seq<Group>, at: (nat, nat), name: Option<string>, group: Option<string>)
    : (r: (seq<Group>, (nat, nat)))
    requires UserAt(gs, at)
    ensures UserAt(r.0, r.1) && r.0[r.1.0].name == group
    ensures r.0[r.1.0].users[r.1.1] == gs[at.0].users[at.1].(name := name)
  {
    var (gs1, at1) := MoveStep(gs, at, group);
    RenameStep(gs1, at1, name)
  }

  /** `update_user`: one item of a roster push. */
  function UpdateUser(gs: seq<Group>, jid: string, subscription: Option<string>,
                      name: Option<string>, group: Option<string>): seq<Group>
  {
    match FindUser(gs, Strip(jid))
    case None =>
      var gs1 := AddUser(gs, User(jid, name, SubNone, false, []), group);
      var g := GroupIndex(gs, group);
      UpdateSubscription(gs1, (g, |gs1[g].users| - 1), ParseSubscription(subscription))
    case Some(at) =>
      var (gs1, at1) := MoveAndRename(gs, at, name, group);
      UpdateSubscription(gs1, at1, ParseSubscription(subscription))
  }

  // ----- Presence

  /** `xmpp_get_show`: an absent or unknown show means available. */
  function GetShow(s: Option<string>): (r: int)
    ensures XA <= r <= CHAT
  {
    if s.Some? && s.value != "" then
      if CaseEq(s.value, "chat") then CHAT
      else if CaseEq(s.value, "dnd") then DND
      else if CaseEq(s.value, "xa") then XA
      else if CaseEq(s.value, "away") then AWAY
      else AVAILABLE
    else AVAILABLE
  }

  /** The texts of the shows, as `xmpp_presence_show` lists them; the last one stands for
      available, too. */
  const SHOW_TEXTS := ["-", "X", "xa", "dnd", "away", "+", "chat", "online"]

  /** A show is read by this table, in any case; everything else means available. */
  lemma ShowsRead(s: Option<string>)
    ensures forall show | show in {XA, DND, AWAY, CHAT} ::
              GetShow(s) == show <==> s.Some? && CaseEq(s.value, SHOW_TEXTS[show])
    ensures GetShow(s) !in {XA, DND, AWAY, CHAT} ==> GetShow(s) == AVAILABLE
  {
    assert |Fold("xa")| == 2 && |Fold("dnd")| == 3;
    assert Fold("away")[0] == 'a' && Fold("chat")[0] == 'c';
  }

  /** What is sent is read back, but for the texts of unavailable and error. */
  lemma ShowReadBack(show: nat)
    requires show <= CHAT
    ensures GetShow(Some(SHOW_TEXTS[show])) == show <==> show !in {UNAVAILABLE, ERROR}
  {
    ShowsRead(Some(SHOW_TEXTS[show]));
    assert |Fold("xa")| == 2 && |Fold("dnd")| == 3 && |Fold("+")| == 1 && |Fold("-")| == 1;
    assert |Fold("away")| == 4 && |Fold("chat")| == 4;
  }

  /** `xmpp_presence_changed`. */
  predicate PresenceChanged(show: int, oldShow: int, status: Option<string>, oldStatus: Option<string>,
                            priority: int, oldPriority: int)
  {
    show != oldShow || status != oldStatus || priority != oldPriority
  }

  /** An available presence: `full` is the sender; `priority` is what `atoi` made
      of the priority element, if there was one. */
  datatype Presence = Presence(full: string, show: Option<string>, status: Option<string>, priority: Option<int>)

  datatype Touched = Touched(resources: seq<Resource>, accepted: bool, signals: seq<Signal>)

  /** What an available presence does to the resource list it belongs to. */
  function Touch(rs: seq<Resource>, p: Presence): Touched {
    var res := Extract(p.full);
    var at := FindResource(rs, res);
    var rs1 := if at.Some? then rs
               else [Resource(if res.Some? then res.value else "", 0, UNAVAILABLE, None)] + rs;
    var i := if at.Some? then at.value else 0;
    var was := rs1[i];
    var show := GetShow(p.show);
    var priority := if p.priority.Some? then p.priority.value else was.priority;
    var online := if at.Some? then [] else [Online(p.full, Strip(p.full), res)];
    if at.None? || PresenceChanged(show, was.show, p.status, was.status, priority, was.priority) then
      Touched(SortResources(rs1[i := Resource(was.name, priority, show, p.status)]), true,
              online + [Changed(p.full, show, p.status)])
    else
      Touched(rs1, false, online)
  }

  /** Does a presence from `full` concern another session of our own account?
      (Asked only when no contact has that JID.) */
  predicate OwnSession(a: Account, full: string) {
    Strip(full) == a.jid && Extract(full).Some? && Extract(full).value != a.resource
  }

  /** `update_user_presence`. */
  function RecvAvailable(a: Account, p: Presence): (Account, seq<Signal>) {
    match FindUser(a.groups, Strip(p.full))
    case None =>
      if OwnSession(a, p.full) then
        var t := Touch(a.mine, p);
        (a.(mine := t.resources), t.signals)
      else (a, [])
    case Some((g, i)) =>
      var us := a.groups[g].users;
      var t := Touch(us[i].resources, p);
      var us1 := us[i := us[i].(error := false, resources := t.resources)];
      (a.(groups := SetUsers(a.groups, g, if t.accepted then SortUsers(us1) else us1)), t.signals)
  }

  function OfflineSignals(full: string, status: Option<string>): seq<Signal> {
    [Offline(full, Strip(full), Extract(full)), Changed(full, UNAVAILABLE, status)]
  }

  /** `user_unavailable`. */
  function RecvUnavailable(a: Account, full: string, status: Option<string>): (Account, seq<Signal>) {
    match FindUser(a.groups, Strip(full))
    case None =>
      (match FindResource(a.mine, Extract(full))
       case Some(k) =>
         if Strip(full) == a.jid then (a.(mine := RemoveAt(a.mine, k)), OfflineSignals(full, status))
         else (a, [])
       case None => (a, []))
    case Some((g, i)) =>
      var us := a.groups[g].users;
      var rs := us[i].resources;
      match FindResource(rs, Extract(full))
      case None =>
        (a.(groups := SetUsers(a.groups, g, us[i := us[i].(error := false)])), [])
      case Some(k) =>
        var us1 := us[i := us[i].(error := false, resources := RemoveAt(rs, k))];
        (a.(groups := SetUsers(a.groups, g, SortUsers(us1))), OfflineSignals(full, status))
  }

  /** `user_presence_error`: only the show of the resource changes, and the
      resources are not sorted again. */
  function RecvError(a: Account, full: string): (Account, seq<Signal>) {
    match FindUser(a.groups, Strip(full))
    case None =>
      (match FindResource(a.mine, Extract(full))
       case Some(k) =>
         if Strip(full) == a.jid then
           (a.(mine := a.mine[k := a.mine[k].(show := ERROR)]), [Changed(full, ERROR, None)])
         else (a, [])
       case None => (a, []))
    case Some((g, i)) =>
      var us := a.groups[g].users;
      var rs := us[i].resources;
      match FindResource(rs, Extract(full))
      case None =>
        (a.(groups := SetUsers(a.groups, g, us[i := us[i].(error := true)])), [])
      case Some(k) =>
        var us1 := us[i := us[i].(resources := rs[k := rs[k].(show := ERROR)])];
        (a.(groups := SetUsers(a.groups, g, SortUsers(us1))), [Changed(full, ERROR, None)])
  }

  // ----- Runs

  datatype Event =
    | Push(jid: Option<string>, subscription: Option<string>, name: Option<string>, group: Option<string>)
    | Available(presence: Presence)
    | Unavailable(from: string, status: Option<string>)
    | PresenceError(from: string)
    | Disconnected

  predicate IsPresence(e: Event) {
    e.Available? || e.Unavailable? || e.PresenceError?
  }

  function Sender(e: Event): string
    requires IsPresence(e)
  {
    if e.Available? then e.presence.full else e.from
  }

  /** What a presence from a contact makes of the contact's resources. */
  function ResourcesAfter(rs: seq<Resource>, e: Event): seq<Resource> {
    match e
    case Available(p) => Touch(rs, p).resources
    case Unavailable(from, _) =>
      var k := FindResource(rs, Extract(from)); if k.Some? then RemoveAt(rs, k.value) else rs
    case PresenceError(from) =>
      var k := FindResource(rs, Extract(from));
      if k.Some? then rs[k.value := rs[k.value].(show := ERROR)] else rs
    case _ => rs
  }

  function Step(a: Account, e: Event): (Account, seq<Signal>) {
    match e
    case Push(jid, subscription, name, group) =>
      if jid.None? then (a, [])
      else (a.(groups := UpdateUser(a.groups, jid.value, subscription, name, group)), [])
    case Available(p) => RecvAvailable(a, p)
    case Unavailable(from, status) => RecvUnavailable(a, from, status)
    case PresenceError(from) => RecvError(a, from)
    case Disconnected => (if a.groups == [] then a else a.(groups := [], mine := []), [])
  }

  /** The account and all signals after the events, in order. */
  function Run(a: Account, es: seq<Event>): (Account, seq<Signal>) {
    if es == [] then (a, [])
    else
      var (a1, signals) := Run(a, es[..|es| - 1]);
      var (a2, more) := Step(a1, es[|es| - 1]);
      (a2, signals + more)
  }

  /** The account of a new connection. */
  function Fresh(jid: string, resource: string): Account {
    Account(jid, resource, [], [])
  }
}
