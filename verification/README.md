# irssi-xmpp, proved

This project models the stateful core of irssi-xmpp, the XMPP plugin of the irssi chat
client, and proves what its data structures and protocols keep. Every handler is a step of
a state machine: the stanzas arrive parsed, and the signals and stanzas it emits are its
output.

Where the program changes records, lists and links in place, so do the classes here. Each
such method is proved to do exactly what a function on values says, and the properties,
mostly over whole runs, are proved of those functions.

| part | modules |
|---|---|
| strings, JIDs, lists and their sort | `Text`, `Lists`, `Sorting` |
| roster: what one push or presence does | `Roster` (values), `RosterObjects`, `RosterLookup` (records), `Completion` |
| roster: what always holds | `RosterOrder`, `RosterContacts`, `RosterGroups`, `RosterRuns`, `RosterHistory`, `RosterSignals`, `RosterTold`, `RosterPriority`, `RosterNames` |
| occupants of a room (XEP-0045) | `Muc` (values), `MucSteps`, `MucObjects` (chained hash table) |
| typing notifications | `Typing`, `TypingObjects`, `Composing` (XEP-0022) |
| linked structures | `DataList`, `Oob` |
| presence across connects, lag meter (XEP-0199) | `Connect`, `Ping`, `PingObjects` |

## What holds, and what does not

- The grouped roster lists refine a map from JIDs to contacts, under any interleaving of
  pushes and presences. A pushed JID must be bare: one with a '/' is never found again
  (`PushedTwiceExact` is an if and only if).
- What is shown of a full JID is what the list of events says, except that a presence from
  a bare JID adds a resource each time (`BareTouchAdds`): an absent resource never equals
  the empty name that was stored for it.
- The online and offline signals of a full JID alternate as long as pushes and
  disconnections do not change unheard whether it is listed; `StepAlternates` is an if and
  only if. They do so when a listed contact goes, and for our own JID: pushed while another
  session of ours is listed, the new contact hides that session, whose next presence is
  announced a second time (`OwnPushRepeatsOnline`); a removal may uncover it again.
- Resources stay in priority order for ever, even though a presence error changes a show
  without sorting again; `ErrorKeepsOrderExactly` says when the full order survives, and it
  returns with the next accepted presence. The comparator subtracts C integers, so this
  needs the priorities of each list to lie within one range of 2^31 values, as those of
  RFC 6121 (section 4.7.2.3: -128 to 127) do; without one, some arrangement of the list is
  sorted wrongly (`SortingExact` is an if and only if).
- The user comparator is a total preorder exactly while no online user carries the error
  flag and the offline users of the group all do or all do not. A push that moves or renames a
  contact, and a presence that changes one, leave its group in order under this condition; a
  new contact is appended without sorting.
- A new room is joined exactly by the presence that admits us, and how many occupants bear
  each nick is a sum of what arrived, left and was renamed (`JoinsExactly`, `BearersExactly`).
- Whatever the occupants of a room do, the emitted signals tell exactly the nick list. After
  a join under the nick we asked for, the room's own idea of our nick and our record agree
  for ever, and our record stays the same one. After a join under another nick they disagree
  until our record is renamed to the nick we asked for, or a rename away from that nick
  makes the record of whoever bore it ours (`OwnNickRegained` and `OwnRecordExchanged` are
  if and only ifs). Nicks are the same here when they are equal character by character; the
  equality of irssi's own nick table is not part of this model, and one that folded case
  would merge chains.
- One presence is broadcast per connect with the two handlers of "server connected" in the
  order in which they are added (`src/core/xmpp-core.c:105-106`). Both ask to be last, and
  which then comes first is irssi's choice, so the order is a parameter of every connect:
  in the other one a plain greeting can follow the presence that was restored, and mislead.
- Setting a presence with a priority out of bounds keeps the old priority, and setting it
  again broadcasts again (`SetTwiceExactly` is an if and only if).

One of the program's own comments differs from what it does; the model follows what it does.
The comment "remove empty group" (`src/core/rosters.c:299`) is true of removals only: a move
may leave an empty group.

## Model

| member | source | states |
|---|---|---|
| Text.SplitRebuilds | src/core/tools.c:78-102 | bare part and resource of a JID put together again give the JID; the bare part is bare |
| Text.JoinSplits | src/core/tools.c:78-102 | splitting a full JID gives back exactly the parts it was made of, so equal full JIDs have equal parts |
| Text.StrCmpTransitive | src/core/rosters.c:76-76 | `strcmp` orders transitively, which the group and user orders rest on |
| Text.StrCmpExactly | src/core/rosters.c:76-76 | `strcmp` is negative exactly if the first string ends or is smaller where the two first differ |
| Text.CaseEqExactly | src/core/rosters.c:282-298 | texts compare equal without case exactly if they are the same letters, ASCII letters in either form |
| Sorting.SortPermutes | src/core/rosters.c:390-396 | the list sort only permutes, whatever the comparator |
| Sorting.SortSorts | src/core/rosters.c:390-396 | with a comparator that is a total preorder on the list, the result is sorted by it |
| Sorting.SortIsStable | src/core/rosters.c:390-396 | and it is stable: of two elements that it may put either way, the one in front stays in front |
| RosterOrder.ResourceCmpExact | src/core/rosters.c:79-92 | the resource comparator means "priority descending, show descending, name ascending" exactly when the priority difference fits 32 bits |
| RosterOrder.WindowExact | src/core/rosters.c:87-87 | it means that on a whole list exactly if one window of 2^31 values holds all its priorities |
| RosterOrder.SortResourcesOrders | src/core/rosters.c:390-391 | resources whose priorities lie in one window of 2^31 values come out in that order, and are the same resources |
| RosterOrder.SortingExact | src/core/rosters.c:390-391 | the sort puts every arrangement of the same resources in priority order exactly if one window of 2^31 values holds their priorities |
| RosterOrder.UserPreorderExact | src/core/rosters.c:106-129 | the user comparator is a total preorder on a group exactly if no online user is flagged and the offline ones all carry the same error flag |
| RosterOrder.SortUsersOrders | src/core/rosters.c:392-393 | a group whose flags fit in this way is sorted online first, show descending, display name ascending, by a permutation |
| RosterOrder.FlaggedGroupSorts | src/core/rosters.c:117-119 | so a group of flagged offline users, an unreachable domain, is sorted by name |
| RosterOrder.ErrorFlagBreaksOrder | src/core/rosters.c:120-123 | concrete case: one flag that does not fit leaves other users out of order |
| RosterContacts.LookupIsMembership | src/core/rosters-tools.c:76-105 | in a roster without duplicates the search finds the one contact with the JID, and fails only when there is none |
| RosterContacts.PushRefinesMap | src/core/rosters.c:307-341 | a push of a bare JID sets or removes exactly that entry of the map from JIDs to (group, user with resources); no JID is ever listed twice |
| RosterContacts.UpdateUserContacts | src/core/rosters.c:307-341 | any push, on any roster, as a bag of contacts: the contact found is exchanged for the pushed one, everything else stays, however often it is listed |
| RosterContacts.NewUserContacts | src/core/rosters.c:316-318 | a push whose JID finds no user adds one contact and no more, or nothing when it is a removal |
| RosterContacts.MoveUserContacts | src/core/rosters.c:262-274 | moving a user changes its group and nothing else about any contact |
| RosterContacts.UpdateSubscriptionContacts | src/core/rosters.c:276-305 | "remove" takes exactly that contact, an unknown string changes nothing, any other sets its subscription |
| Roster.SubscriptionsRead | src/core/rosters.c:43-50 | each subscription of a push is read by the table of the five texts, in any case; nothing means "none", an unknown text no change |
| RosterGroups.PushOrdersGroup | src/core/rosters.c:319-339 | a push of a known contact that changes its group or name leaves the group it ends in in the intended order if the flags fit, with the right users; one that changes neither leaves every user in place, so an ordered group ordered |
| RosterGroups.PushOtherGroups | src/core/rosters.c:276-305 | all other groups keep their users in place but for the one that moved; a group goes exactly if a removal empties it |
| RosterGroups.PushAppends | src/core/rosters.c:245-260 | an unknown contact is appended to its group, unless it is removed at once; then no list of users changes |
| RosterGroups.GroupsAlwaysSorted | src/core/rosters.c:227-242 | in every reachable state the groups are sorted by name, so these three hold of every push in every run |
| RosterContacts.UpdateUserSorted | src/core/rosters.c:65-77 | every push keeps the groups strictly ascending by name, the unnamed one first |
| RosterContacts.PushedTwiceExact | src/core/rosters.c:316-318 | pushing a new contact twice lists it once if and only if its JID is bare |
| RosterContacts.SlashedPushDuplicates | src/core/rosters.c:316-318 | concrete case: the JID "a/b" pushed twice is listed twice |
| RosterRuns.StepContact | src/core/rosters.c:343-480 | one event of any kind changes the contact of each JID as the one-contact reference says |
| RosterRuns.RunRefinesMap | src/core/rosters.c:227-480 | over any interleaving of bare pushes and presences the grouped lists refine the map from JIDs to contacts |
| RosterHistory.PresenceHistory | src/core/rosters.c:343-480 | after any events resource n of contact u is listed at most once and shows what the events about that full JID say |
| RosterHistory.RosterTellsHistory | src/core/rosters.c:343-480 | read off the list of events since the connection began: u is listed iff added and not dropped since; n at most once, and iff an available presence still counts, of which there is then a last one; status and priority are the last ones given, and the show too unless an error came later |
| RosterHistory.BareTouchAdds | src/core/rosters-tools.c:47-59 | a presence from a bare JID always adds one more resource with the empty name |
| RosterHistory.TouchUniqueExactly | src/core/rosters-tools.c:47-59 | a presence keeps the empty name unique exactly if its JID has a resource or nothing is listed under that name yet |
| RosterHistory.BarePresenceDuplicates | src/core/rosters-tools.c:47-59 | concrete case: two bare presences list that name twice |
| RosterSignals.StepSwitches | src/core/rosters.c:378-379 | what one event signals about a full JID depends only on whether it was listed |
| RosterSignals.StepListed | src/core/rosters.c:307-480 | whether a full JID is listed after an event: yes after an available presence that reaches a list, no after an unavailable one, otherwise as before unless a push or disconnection changes it |
| RosterSignals.StepAlternates | src/core/rosters.c:343-446 | the online and offline signals of an event tell whether a full JID is listed before and after it, if and only if the event is no push or disconnection that changes this unheard |
| RosterSignals.OnlineOfflineAlternate | src/core/rosters.c:343-446 | over any run without such an event, "presence online" and "presence offline" strictly alternate for each full JID, from whether it was listed to whether it is |
| RosterSignals.HeardBetweenRemovals | src/core/rosters.c:307-341 | between two removals there is no such event for a contact other than our own account, nor for our own JID once it is a contact |
| RosterSignals.OwnPushRepeatsOnline | src/core/rosters.c:359-379 | concrete case: our own JID is pushed while another session of ours is listed, and two onlines follow each other |
| RosterTold.StepTells | src/core/rosters.c:384-401 | "presence changed" is emitted for a full JID exactly when a presence from it reaches a list: an available one if the entry differs afterwards, and with its show and status; an unavailable one or an error if it was listed |
| RosterTold.ToldIsShown | src/core/rosters.c:343-480 | after any events of a connection, the last such signal of a listed resource tells the show that is listed, and the status too unless it is an error |
| RosterTold.OwnNeverListed | src/core/rosters.c:359-361 | the session by which we are connected is never among our own resources |
| Roster.ShowsRead | src/core/rosters-tools.c:209-230 | each show is read by the table of texts, in any case; everything else means available |
| Roster.ShowReadBack | src/core/protocol.c:44-46 | the text sent for a show is read back as that show, exactly except for unavailable and error |
| RosterPriority.TouchOrders | src/core/rosters.c:384-396 | an accepted presence leaves the full order; one that changes nothing keeps at least the priority order |
| RosterPriority.ErrorOrders | src/core/rosters.c:467-468 | a presence error keeps the priority order although nothing is sorted again |
| RosterPriority.ErrorKeepsOrderExactly | src/core/rosters.c:467-468 | it keeps the full order exactly if the resource, shown as an error, still belongs between its two neighbours |
| RosterPriority.ErrorLosesFullOrder | src/core/rosters.c:467-468 | concrete case: a list whose full order is lost |
| RosterPriority.PriorityOrderAlways | src/core/rosters.c:343-480 | after any events of a connection every resource list is in non-increasing priority order, each in the window of its own JID |
| RosterPriority.WrappedPrioritiesMisorder | src/core/rosters.c:87-87 | outside a window of 2^31 priorities the difference wraps and the order is lost |
| RosterPriority.PresenceOrdersGroup | src/core/rosters.c:389-393 | after a presence that sorts it, a group whose error flags then fit is in the intended order and holds the same users but for the one concerned |
| RosterNames.ResolvesExactly | src/core/rosters-tools.c:150-181 | in every reachable state a name means the first user shown under it, else the first with its JID, else nothing; a resource in the name is taken, otherwise a resource of maximal priority, and the bare JID exactly if there is no resource or the first is unnamed |
| RosterObjects.SortUserRecs | src/core/rosters.c:392-393 | sorting the record list in place equals sorting the values, and each record goes where its value goes |
| RosterObjects.SortResourceRecs | src/core/rosters.c:390-391 | the same for resource records |
| RosterObjects.FindResourceRec | src/core/rosters-tools.c:126-136 | the first record with the name; NULL never matches |
| RosterObjects.FindUserRec | src/core/rosters-tools.c:91-99 | the first user with the JID in roster order, with its group |
| RosterObjects.TouchRecs | src/core/rosters.c:366-399 | find or create, overwrite, sort: the list, the acceptance and the signals are those of the specification |
| RosterObjects.ContactAvailable | src/core/rosters.c:389-393 | the same for a contact, with its group sorted when the presence is accepted |
| RosterObjects.DropResource | src/core/rosters.c:426-438 | an unavailable presence takes out exactly the named resource |
| RosterObjects.MarkResource | src/core/rosters.c:465-475 | an error marks the named resource, or the contact when there is none |
| RosterObjects.FindGroupRec | src/core/rosters.c:234-235 | the search for a group, NULL name included |
| RosterObjects.InsertGroupRec | src/core/rosters.c:237-239 | the new group is entered in front of the first one that does not sort before it |
| RosterObjects.FindOrAddGroupRec | src/core/rosters.c:227-243 | the roster afterwards, the position of the group, and that all other groups stay |
| RosterObjects.AddUserRec | src/core/rosters.c:245-260 | the new user is last in its group |
| RosterObjects.MoveUserRec | src/core/rosters.c:262-274 | the user leaves its group, which may stay empty, and is last in the other |
| RosterObjects.MoveStepRec | src/core/rosters.c:320-328 | the group change of a push, with the sort it brings, and where the user is afterwards |
| RosterObjects.RenameStepRec | src/core/rosters.c:329-338 | the name change of a push, with the sort it brings, and where the user is afterwards |
| RosterObjects.UpdateSubscriptionRec | src/core/rosters.c:276-305 | subscription or removal, a group left empty by it being removed |
| RosterObjects.UpdateUserRec | src/core/rosters.c:307-341 | a whole push: the user found is moved, renamed, sorted and updated where it is, or a new one is added |
| RosterObjects.OneUserChanged | src/core/rosters.c:365-393 | writing to one user leaves the view of all others as it was |
| RosterObjects.OneGroupChanged | src/core/rosters.c:365-393 | writing to one group leaves the view of all others as it was |
| RosterObjects.ServerRec.UpdateUserPresence | src/core/rosters.c:343-404 | the whole new state and the signals of an available presence |
| RosterObjects.ServerRec.UserUnavailable | src/core/rosters.c:406-446 | the whole new state and the signals of an unavailable presence |
| RosterObjects.ServerRec.UserPresenceError | src/core/rosters.c:448-480 | the whole new state and the signals of a presence error |
| RosterObjects.ServerRec.UpdateContact | src/core/rosters.c:307-341 | the whole new state after a roster push |
| RosterObjects.ServerRec.Cleanup | src/core/rosters.c:214-225 | roster and own sessions are emptied with the connection, both only if there was a roster |
| RosterLookup.CutSplits | src/core/rosters-tools.c:83-89 | a NUL written over the first '/' cuts the buffer into the bare JID and the resource |
| RosterLookup.FindUserInBuffer | src/core/rosters-tools.c:76-105 | user, group and resource named by the suffix; the JID buffer is afterwards exactly as received |
| RosterLookup.BareAndFullAgree | src/core/rosters-tools.c:76-105 | the bare form and every full form of a JID find the same user |
| RosterLookup.FindUsernameRec | src/core/rosters-tools.c:107-124 | the first user shown under that name |
| RosterLookup.ChugInPlace | src/core/rosters-tools.c:159-159 | the leading half of the strip: the string moves to the front of its buffer |
| RosterLookup.ChompInPlace | src/core/rosters-tools.c:159-159 | the trailing half: white space at the end becomes NULs |
| RosterLookup.TrimExactly | src/core/rosters-tools.c:159-159 | together they take off the white space at both ends, all of it and nothing else |
| RosterLookup.ResolveNameRec | src/core/rosters-tools.c:150-181 | the name is stripped in its buffer, then found by name first, then by JID; the resource given, else the first non-empty one, else the bare JID |
| Completion.GetJids | src/fe-common/xmpp-completion.c:73-109 | online exact case, online other case, offline exact case, offline other case, each in roster order |
| Completion.CompletionsPermuteMatches | src/fe-common/xmpp-completion.c:73-109 | these are exactly the contacts whose JID starts with the prefix up to case, each once |
| Completion.CompletionsArranged | src/fe-common/xmpp-completion.c:80-108 | read over positions in the roster: online before offline, within each the exact case first, and roster order within one rank |
| Completion.ArrangedOnce | src/fe-common/xmpp-completion.c:80-108 | only one list of JIDs is arranged so |
| Muc.DroppedChains | src/core/xep/muc-nicklist.c:68-86 | removing a record keeps the table well formed and changes its own chain only, which is deleted when it becomes empty |
| Muc.AddedChains | src/core/xep/muc-nicklist.c:48-66 | adding a record keeps the table well formed; it is last in its chain, or first when it is our own |
| Muc.RenameChains | src/core/xep/muc-nicklist.c:88-109 | exactly one record leaves its chain and joins the new one, last, or first if it is ours; all others keep their place |
| Muc.StepInv | src/core/xep/muc-events.c:297-428 | every presence keeps the table well formed and, while joined, our record set, listed and heading its chain |
| Muc.RunInv | src/core/xep/muc-events.c:571-605 | so it is in every reachable state, and once joined we stay joined |
| Muc.Created | src/core/xep/muc-events.c:571-605 | a new room satisfies the invariant |
| Muc.JoinsOnce | src/core/xep/muc-events.c:85-93 | in no run does joining take effect twice |
| Muc.StepAgrees | src/core/xep/muc-events.c:297-428 | each presence shows exactly the change it makes to the nicks |
| Muc.SignalsReplayNickList | src/core/xep/muc-events.c:69-226 | from our join to the end of the room, replaying join/part/kick/nick signals gives exactly the nick list |
| Muc.OwnNickAtJoin | src/core/xep/muc-events.c:94-113 | our record heads the chain of the room's nick exactly if we were admitted under the nick we asked for |
| Muc.ForcedJoinExact | src/core/xep/muc-events.c:110-113 | with status 210 it does so exactly if the imposed nick is the one we asked for |
| Muc.OwnNickAfterRename | src/core/xep/muc-nicklist.c:88-109 | a rename keeps that agreement, even when two occupants end up with one nick |
| Muc.OwnNickAlways | src/core/xep/muc-events.c:69-226 | so it holds after any number of presences |
| Muc.OwnRecordAlways | src/core/xep/muc-events.c:69-226 | and our record stays the same one |
| Muc.OwnRecordExchanged | src/core/xep/muc-nicklist.c:105-109 | while joined, our record is exchanged if and only if a record that is not ours is renamed away from the room's nick; that one becomes ours, and the agreement is there |
| Muc.OwnNickRegained | src/core/xep/muc-nicklist.c:88-109 | once lost, the agreement comes back exactly by such a rename or by a rename of our own record to the room's nick |
| Muc.RetryAppends | src/core/xep/muc-events.c:249-261 | without an alternate nick the k-th retry is the nick followed by k underscores |
| Muc.RetriesDiffer | src/core/xep/muc-events.c:249-261 | so no nick is tried twice |
| Muc.RetryAlternates | src/core/xep/muc-events.c:249-261 | with alternate nick a the retries alternate between a and a_ |
| Muc.ConflictsRetry | src/core/xep/muc-events.c:241-269 | until we are joined, whatever arrives in between about others and errors naming other nicks included, the nicks tried are exactly these retries, one per conflict, and the room is not given up |
| MucSteps.JoinsExactly | src/core/xep/muc-events.c:85-113 | a presence makes the room joined exactly if it is an available one with status 110 or the nick we asked for, of a nick nobody bears; then the join is shown first, and our new record is ours and heads that chain, unless status 210 renames somebody else |
| MucSteps.JoinedExactly | src/core/xep/muc-events.c:571-605 | a new room is joined after a run exactly if one of its presences did so |
| MucSteps.BearersExactly | src/core/xep/muc-events.c:297-428 | how many occupants bear each nick after each presence |
| MucSteps.ArrivalsShown | src/core/xep/muc-events.c:85-137 | what an available presence shows: who arrives, once we are joined, and our own nick if the service changed it |
| MucSteps.DeparturesShown | src/core/xep/muc-events.c:69-84 | what an unavailable presence shows: a part, a kick or ban, or a change of nick, ours exactly if the record is or becomes ours |
| MucSteps.EndsExactly | src/core/xep/muc-events.c:175-225 | a room ends exactly by our own leaving, kick or ban, or a refusal for another reason than the nick, and remembers which |
| MucSteps.RefusalsShown | src/core/xep/muc-events.c:241-269 | before we are joined, an error about us is shown, and joining is tried again exactly for the two codes that concern the nick |
| MucSteps.ErrorsShown | src/core/xep/muc-events.c:582-592 | afterwards an error changes nothing and shows at most that a nick is in use |
| MucObjects.MucRec.SetOwn | src/core/xep/muc-nicklist.c:106-107 | contract of `nicklist_set_own`: our record is unlinked and put in front of its chain |
| MucObjects.MucRec.HashAdd | src/core/xep/muc-nicklist.c:48-66 | the links written are those of the chains after an addition; the walk to the end terminates |
| MucObjects.MucRec.HashRemove | src/core/xep/muc-nicklist.c:68-86 | head, inner and last record: the links are those of the chains after a removal |
| MucObjects.MucRec.RenameRec | src/core/xep/muc-nicklist.c:88-109 | removal, new nick, addition, and adoption when it was our nick: the whole new table |
| MucObjects.MucRec.FindRec | src/core/xep/muc-events.c:76-76 | the head of the chain of the nick |
| MucObjects.MucRec.RecvAvailable | src/core/xep/muc-events.c:297-370 | state and signals of an available presence: our own join, another occupant, or nothing |
| MucObjects.MucRec.RecvUnavailable | src/core/xep/muc-events.c:372-428 | state and signals of a leave, rename, kick or ban, by the status code; ours ends the room |
| MucObjects.MucRec.RecvError | src/core/xep/muc-events.c:593-601 | state and signals of an error, before and after joining: retry, end of the room, or a message |
| MucObjects.LastOf | src/core/xep/muc-nicklist.c:57-60 | the walk to the last record of a chain |
| MucObjects.Before | src/core/xep/muc-nicklist.c:76-83 | the walk to the record in front of one that is to go |
| MucObjects.Unlink | src/core/xep/muc-nicklist.c:76-83 | unlinking an inner record leaves the chain linked without it |
| MucObjects.ToFront | src/core/xep/muc-nicklist.c:106-107 | the links of a chain whose k-th record was put in front |
| Typing.StepInv | src/fe-common/xep/fe-composing.c:47-104 | every key, timer, tick, and closing of a query keeps: a query that is composing has a live timer that fires in time |
| Typing.ComposingIsWatched | src/fe-common/xep/fe-composing.c:47-61 | in every reachable state a composing query was refreshed less than ten seconds ago and has a live timer |
| Typing.StopsInTime | src/fe-common/xep/fe-composing.c:52-60 | a stop is sent only while composing, less than ten seconds after the last refresh, by a timer only after five quiet ones |
| Typing.EndsOnlyByMark | src/fe-common/xep/fe-composing.c:81-101 | composing ends only by a stop or by RETURN; a key refreshes it only within four seconds |
| Typing.KeyExactly | src/fe-common/xep/fe-composing.c:63-104 | a key starts composing, with a timer for five seconds later, exactly if it writes text into a line that is no command while the query is idle; it refreshes composing exactly within four seconds; RETURN ends it; nothing else changes |
| Typing.FiredExactly | src/fe-common/xep/fe-composing.c:47-61 | a timer is armed again exactly if its query was refreshed less than five seconds ago; otherwise it goes, with a stop exactly if the query was composing |
| Typing.SteadyTypingGoesOn | src/fe-common/xep/fe-composing.c:47-104 | whoever keeps typing, less than four seconds apart, gets no stop and no second start in any run |
| Typing.StepFollows | src/fe-common/xep/fe-composing.c:47-104 | each step emits a start only when idle and a stop only when composing |
| Typing.StartsAndStopsAlternate | src/fe-common/xep/fe-composing.c:47-147 | no run has two starts of a query without a stop or a RETURN between them |
| Typing.TimersCoexist | src/fe-common/xep/fe-composing.c:86-91 | typing, RETURN and typing again leaves two timers of one query |
| TypingObjects.KeyLogger.KeyPressed | src/fe-common/xep/fe-composing.c:63-104 | the query, the timers, the last key and the signals after a key press |
| TypingObjects.KeyLogger.RunTimer | src/fe-common/xep/fe-composing.c:47-61 | what the main loop makes of that answer |
| Composing.NotifiedExactly | src/core/xep/composing.c:104-168 | after any history a peer is notified exactly when its last content message with an event element asked for composing and it has not gone since |
| Composing.SentOnlyOnRequest | src/core/xep/composing.c:64-84 | a stanza goes out exactly in that case and carries the id of that message |
| Composing.Composings.RecvMessage | src/core/xep/composing.c:104-134 | a request is recorded or withdrawn in the association list |
| DataList.LookupIsMap | src/core/xep/tool_datalist.c:24-36 | the search is the lookup of the map the list stands for |
| DataList.MapOfRemaining | src/core/xep/tool_datalist.c:75-87 | dropping one server's records (or all) drops exactly its keys from the map |
| DataList.DataList.FindRec | src/core/xep/tool_datalist.c:24-36 | the first record with the key |
| DataList.DataList.Add | src/core/xep/tool_datalist.c:38-55 | the map gains or changes one key; the datum replaced is freed; every datum put in is live or freed once |
| DataList.DataList.RemoveKey | src/core/xep/tool_datalist.c:66-73 | the map loses one key; data are conserved |
| DataList.DataList.Visit | src/core/xep/tool_datalist.c:81-86 | one round of the walk, which may unlink the record it stands at |
| DataList.DataList.Cleanup | src/core/xep/tool_datalist.c:75-87 | removal during the walk leaves exactly the other servers' records, in order; data are conserved |
| Oob.OneChildList | src/core/xep/oob.c:39-39 | a parent has one list of children: the links determine it |
| Oob.Unlink | src/core/xep/oob.c:41-53 | first, middle, last and only child: prev and next stay mutually inverse, the head is right, the node is detached |
| Oob.DeleteChild | src/core/xep/oob.c:33-58 | the children are the old ones without that child, in order; the walk terminates |
| Connect.ConnectAnnouncesOnce | src/core/xmpp-servers.c:526-545 | fresh or reconnecting, changed or not: exactly one broadcast, of the presence due |
| Connect.ConnectExact | src/core/xmpp-servers-reconnect.c:52-67 | with the two handlers in either order: the record gets the presence due; when there is one broadcast, and when the last one is right |
| Connect.AnnouncedExactly | src/core/protocol.c:25-56 | in every reachable state, either order at each connect: priorities lie in -128..127, and the last broadcast is the presence the record holds exactly unless a greeting has misled the others and nothing was broadcast since |
| Connect.AnnouncedIsCurrent | src/core/protocol.c:25-56 | so it always is with the handlers in the order in which they are added |
| Connect.EveryConnectOnce | src/core/xmpp-servers.c:526-545 | every connect of every run broadcasts exactly once, unless the order is swapped and a changed presence without a status was saved |
| Connect.ReconnectRestores | src/core/xmpp-servers-reconnect.c:42-60 | after any history, a loss, any number of failed attempts and a reconnect restore the show, priority and status that were saved; when this takes one broadcast, and when the last one tells it |
| Connect.SetExactly | src/core/protocol.c:25-56 | setting a presence that differs broadcasts it once and holds it, but for a priority outside -128..127, which keeps the old one |
| Connect.SetTwiceExactly | src/core/protocol.c:33-42 | setting the same presence again broadcasts again exactly if its priority is out of bounds |
| Connect.ServerRec.FinishConnect | src/core/xmpp-servers.c:254-279 | both handlers, in either order |
| Connect.OpenConnection | src/core/xmpp-servers.c:133-200 | connecting with a connection record, from initialisation to the broadcasts |
| Ping.StepInv | src/core/xep/ping.c:48-186 | every event keeps: the meter shows the outstanding ping of the log, other pings were sent as recorded, ids are unique |
| Ping.MeterShowsOutstanding | src/core/xep/ping.c:62-67 | ping_id is set exactly when lag_sent is, and exactly while a ping to the server is outstanding |
| Ping.AnswerMeasuresLag | src/core/xep/ping.c:104-114 | the server's answer to the outstanding ping, and nothing else, measures the lag and clears the meter |
| Ping.ReportsMatchingPing | src/core/xep/ping.c:104-123 | every lag reported is the time since the one ping that bears the id of the reply |
| Ping.PongExactly | src/core/xep/ping.c:115-122 | a reply is reported exactly if it is empty and bears the id of the last ping to its sender, who is not the server |
| Ping.AskedThenAnswered | src/core/xep/ping.c:48-123 | a ping that the user asks for is sent, and its answer reports the time since, whatever happens in between short of another ping to the same entity |
| Ping.ServersExactly | src/core/xep/ping.c:135-152 | the timer checks exactly the servers that announced the feature since they are there, each once |
| Ping.TimerPings | src/core/xep/ping.c:179-183 | the timer pings exactly if none is outstanding, the last is more than lag_check_time seconds old, and the server is connected |
| Ping.TimerDrops | src/core/xep/ping.c:169-178 | it disconnects exactly if a ping has been outstanding for more than max_lag seconds |
| PingObjects.Pings.RecvResult | src/core/xep/ping.c:95-123 | the meter and the report after a reply |
| PingObjects.Pings.CheckPing | src/core/xep/ping.c:154-186 | a whole round: every server's meter, everything sent, the servers and pings left |
| PingObjects.RoundIsChecks | src/core/xep/ping.c:154-186 | such a round is a run of checks of one server after the other, so what is proved of runs holds of it |

## Left out

- RosterObjects.ServerRec.UpdateUserPresence: requires a resource in a presence from our own bare JID when that JID is no contact; the source compares an absent resource with ours there, which has no defined result.
- RosterHistory.RosterTellsHistory: for the empty resource name, presences from the bare JID are excluded; `TouchUniqueExactly` says when they do harm.
- Muc.ForcedJoinExact: names are copied values here; when the imposed nick is the one asked for, the source renames the record to its own nick string, and the lifetime of that string is not modelled.
- RosterPriority.PriorityOrderAlways: assumes that the priorities that each JID sends lie in one range of 2^31 values, which may differ from JID to JID; `SortingExact` says when such a range is needed.
- Typing.StepInv: the server stays connected throughout; after a drop the source leaves composing_time set with no timer, and `sig_disconnected` only removes timers.
- Typing.ComposingIsWatched: the timer of a query that was destroyed is not run.
- Muc.SignalsReplayNickList: nick lists are compared as bags of nicks; modes, affiliations, show, status and the topic of occupants are not part of it.
- Connect.ReconnectRestores: the status that irssi saves with the connection record is a parameter, since irssi decides when it saves one.
- Ping.ReportsMatchingPing: stanza ids are taken to be unique, as Loudmouth makes them.
- PingObjects.Pings.CheckPing: walks the list as it was when the round began; the lifetime of the list node of a server that the round itself disconnects is not modelled.
- Lists are sequences of records in the roster, the datalist and the timers; only the occupant chains and the child list are linked node by node.
- GLib and irssi (hash table, list functions, timers, `nicklist_set_own`, `nicklist_insert`, `channel_destroy`, signals) appear by their documented effect; handlers that a signal re-enters are not modelled.
- Freeing and the lifetime of pointers, except that the datalist frees every datum once; the hash table keeps the nick of a record as its key, here a copy.
- Building and sending of XML, TLS, proxy, passwords, charset conversion and `atoi`: stanzas are parsed values.
- Windows, formats, status bar and printing; `sig_window_changed` and with it `composing_visible`.
- `find_group_from_user`: its loop never runs as written.
- `get_nicks`: prepending reverses the order its comment states.
- `parse_timezone` and `restore_channels`: unsigned arithmetic and a reversed guard leave nothing to prove of them.
- Re-parting a room on "channel destroyed", room messages, invitations and `admin` queries.
- Answering the pings of others: a request is answered with a result of the same id.
- Registration, vCard, version, delay, discovery, and the mode and affiliation tables: tables and requests without state of their own.
