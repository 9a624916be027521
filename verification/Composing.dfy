/** Message events (XEP-0022): which peers asked to be told that we are composing, and
    what is therefore sent to them. */
module Composing {
  import opened Text
  import opened DataList

  /** An incoming message, as far as the handler looks at it. `relevant` says that its
      type is a content type and that it is not from a channel; `event` is the event
      element, with whether it holds a composing element. */
  datatype Message = Message(from: string, id: string, relevant: bool, event: Option<bool>, content: bool)

  datatype Event =
    | Received(server: Server, message: Message)
    | Offline(server: Server, full: string)
    | Disconnected(server: Server)

  /** A composing event sent to a peer, with the id of the message it answers. */
  datatype Stanza = Stanza(server: Server, to: string, id: string, composing: bool)

  // ----- Specification

  /** The event is a content message of the peer with an event element. */
  predicate Decides(e: Event, key: Key) {
    && e.Received? && Key(e.server, e.message.from) == key
    && e.message.relevant && e.message.event.Some? && e.message.content
  }

  predicate Requests(e: Event, key: Key) {
    Decides(e, key) && e.message.event.value
  }

  predicate Ends(e: Event, key: Key) {
    (e.Offline? && Key(e.server, e.full) == key) || (e.Disconnected? && e.server == key.server)
  }

  /** The peers to notify, each with the id of its last request. */
  function Step(peers: map<Key, string>, e: Event): map<Key, string> {
    match e
    case Received(server, m) =>
      var key := Key(server, m.from);
      if !m.relevant || m.event.None? || !m.content then peers
      else if m.event.value then peers[key := m.id]
      else peers - {key}
    case Offline(server, full) => peers - {Key(server, full)}
    case Disconnected(server) => map k | k in peers && k.server != server :: peers[k]
  }

  function Run(es: seq<Event>): map<Key, string> {
    if es == [] then map[] else Step(Run(es[..|es| - 1]), es[|es| - 1])
  }

  /** What is sent when composing starts (or stops) in the query with `key`. */
  function Notification(peers: map<Key, string>, key: Key, composing: bool): seq<Stanza> {
    if key in peers then [Stanza(key.server, key.jid, peers[key], composing)] else []
  }

  // ----- What the promise means

  /** Message `i` is the last content message of the peer with an event element, it asked
      for composing, and the peer has been neither offline nor disconnected since. */
  ghost predicate StandingRequest(es: seq<Event>, i: int, key: Key) {
    && 0 <= i < |es| && Requests(es[i], key)
    && forall j | i < j < |es| :: !Decides(es[j], key) && !Ends(es[j], key)
  }

  lemma StandingLast(es: seq<Event>, i: nat, key: Key)
    requires i < |es|
    ensures var m := |es| - 1;
            StandingRequest(es, i, key) <==>
              if i == m then Requests(es[m], key)
              else StandingRequest(es[..m], i, key) && !Decides(es[m], key) && !Ends(es[m], key)
  {
    assert forall j | 0 <= j < |es| - 1 :: es[..|es| - 1][j] == es[j];
  }

  lemma StepAt(peers: map<Key, string>, e: Event, key: Key)
    ensures Requests(e, key) ==> key in Step(peers, e) && Step(peers, e)[key] == e.message.id
    ensures Ends(e, key) || (Decides(e, key) && !Requests(e, key)) ==> key !in Step(peers, e)
    ensures !Decides(e, key) && !Ends(e, key) ==>
              (key in Step(peers, e) <==> key in peers) && (key in peers ==> Step(peers, e)[key] == peers[key])
  {
  }

  /** After any history, a peer is to be notified exactly when it has a standing request,
      and with the id of that message. */
  lemma {:induction false} NotifiedExactly(es: seq<Event>, key: Key)
    ensures key in Run(es) <==> exists i :: StandingRequest(es, i, key)
    ensures forall i :: StandingRequest(es, i, key) ==> key in Run(es) && Run(es)[key] == es[i].message.id
  {
    if es == [] {
    } else {
      var m := |es| - 1;
      var init, e := es[..m], es[m];
      NotifiedExactly(init, key);
      StepAt(Run(init), e, key);
      forall i ensures StandingRequest(es, i, key) ==> key in Run(es) && Run(es)[key] == es[i].message.id {
        if 0 <= i < |es| {
          StandingLast(es, i, key);
          if StandingRequest(es, i, key) && i < m {
            assert StandingRequest(init, i, key) && init[i] == es[i];
          }
        }
      }
      if key in Run(es) {
        if Requests(e, key) {
          StandingLast(es, m, key);
        } else {
          var i :| StandingRequest(init, i, key);
          StandingLast(es, i, key);
        }
      }
    }
  }

  /** A stanza goes out only to a peer with a standing request, and names that message. */
  lemma SentOnlyOnRequest(es: seq<Event>, key: Key, composing: bool)
    ensures Notification(Run(es), key, composing) != [] <==> exists i :: StandingRequest(es, i, key)
    ensures forall i :: StandingRequest(es, i, key) ==>
              Notification(Run(es), key, composing) == [Stanza(key.server, key.jid, es[i].message.id, composing)]
  {
    NotifiedExactly(es, key);
  }

  // ----- The handlers

  class Composings {
    const composings: DataList<string>

    /** `composing_init` */
    constructor ()
      ensures Valid() && Peers() == Run([]) && fresh(composings)
    {
      composings := new DataList();
    }

    ghost predicate Valid()
      reads composings, composings.list
    {
      composings.Valid()
    }

    ghost function Peers(): map<Key, string>
      reads composings, composings.list
    {
      ToMap(composings.Items())
    }

    /** `sig_recv_message` */
    method RecvMessage(server: Server, m: Message)
      requires Valid()
      modifies composings, composings.list
      ensures Valid() && Peers() == Step(old(Peers()), Received(server, m))
    {
      if !m.relevant || m.event.None? {
        return;
      }
      if m.content {
        if m.event.value {
          composings.Add(server, m.from, m.id);
        } else {
          composings.RemoveKey(server, m.from);
        }
      }
    }

    /** `sig_offline` */
    method PeerOffline(server: Server, full: string)
      requires Valid()
      modifies composings
      ensures Valid() && Peers() == Step(old(Peers()), Offline(server, full))
    {
      composings.RemoveKey(server, full);
    }

    /** `sig_disconnected` */
    method ServerDisconnected(server: Server)
      requires Valid()
      modifies composings
      ensures Valid() && Peers() == Step(old(Peers()), Disconnected(server))
    {
      composings.Cleanup(Some(server));
    }

    /** `sig_composing_start` and `sig_composing_stop` */
    method Notify(server: Server, dest: string, composing: bool) returns (sent: seq<Stanza>)
      requires Valid()
      ensures sent == Notification(Peers(), Key(server, dest), composing)
    {
      var rec, at := composings.FindRec(server, dest);
      FindExactly(composings.Items(), Key(server, dest));
      sent := if rec != null then [Stanza(server, dest, rec.data, composing)] else [];
    }
  }
}
