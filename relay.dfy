/**
 * The relay's message handlers. Each connection's `message`, `close` and
 * `error` events run to completion one at a time, so each handler is one
 * atomic step on the shared registry `allSockets`. A chat is fanned out to
 * every registry entry, in the registry's iteration order, that is in the
 * sender's room and whose socket is OPEN; the sender is one of them.
 */
module Relay {
  import opened Registry

  /** A socket's `readyState` (CONNECTING, OPEN, CLOSING, CLOSED). */
  datatype ReadyState = Connecting | Open | Closing | Closed

  /** An inbound envelope once parsed: `join`, `chat`, or any other `type`. */
  datatype Inbound = Join(roomId: string, name: string) | Chat(message: string) | Other

  /** The outbound `newMessage` envelope and its payload. */
  datatype Envelope = NewMessage(id: string, text: string, sender: string, timestamp: string)

  /** One `send` of an envelope to a socket. */
  type Send = (Socket, Envelope)

  /**
   * The sends of one broadcast: the entries of `e`, in order, whose room is
   * `room` and whose socket is open, each sent `env`.
   */
  function Fanout(e: Entries, room: string, state: Socket -> ReadyState, env: Envelope): (r: seq<Send>)
    ensures |r| <= |e|
    ensures forall k :: 0 <= k < |r| ==> state(r[k].0) == Open
  {
    if e == [] then []
    else
      (if e[0].1.room == room && state(e[0].0) == Open then [(e[0].0, env)] else [])
      + Fanout(e[1..], room, state, env)
  }

  /** What a chat with text `text` from socket `s` sends, given the registry `e`. */
  function ChatOutbox(e: Entries, s: Socket, text: string, state: Socket -> ReadyState,
                      id: string, timestamp: string): (r: seq<Send>)
    ensures |r| <= |e|
    ensures forall k :: 0 <= k < |r| ==> state(r[k].0) == Open
  {
    match Get(e, s)
    case None => []
    case Some(user) => Fanout(e, user.room, state, NewMessage(id, text, user.username, timestamp))
  }

  /** A broadcast over a registry split in two is the two broadcasts one after the other. */
  lemma {:induction false} FanoutAppend(a: Entries, b: Entries, room: string,
                                        state: Socket -> ReadyState, env: Envelope)
    ensures Fanout(a + b, room, state, env) == Fanout(a, room, state, env) + Fanout(b, room, state, env)
  {
    if a == [] {
      assert a + b == b;
    } else {
      assert (a + b)[0] == a[0] && (a + b)[1..] == a[1..] + b;
      FanoutAppend(a[1..], b, room, state, env);
    }
  }

  /** Every send of a broadcast carries the same envelope. */
  lemma {:induction false} FanoutEnvelope(e: Entries, room: string, state: Socket -> ReadyState, env: Envelope)
    ensures forall k :: 0 <= k < |Fanout(e, room, state, env)| ==> Fanout(e, room, state, env)[k].1 == env
  {
    if e != [] {
      FanoutEnvelope(e[1..], room, state, env);
    }
  }

  /**
   * A socket receives a broadcast exactly when it has a registry entry in the
   * room and it is open, and then it receives the broadcast's envelope.
   */
  lemma {:induction false} FanoutMember(e: Entries, room: string, state: Socket -> ReadyState,
                                        env: Envelope, c: Socket, x: Envelope)
    requires NoDupKeys(e)
    ensures (c, x) in Fanout(e, room, state, env) <==>
      x == env && state(c) == Open && Get(e, c).Some? && Get(e, c).value.room == room
  {
    if e != [] {
      assert NoDupKeys(e[1..]);
      FanoutMember(e[1..], room, state, env, c, x);
      if e[0].0 == c {
        assert forall k :: 0 <= k < |e[1..]| ==> e[1..][k].0 != c;
        KeysTail(e);
        GetNoneIff(e[1..], c);
      }
    }
  }

  /** Every recipient of a broadcast has a registry entry. */
  lemma {:induction false} FanoutRecipientsJoined(e: Entries, room: string, state: Socket -> ReadyState,
                                                  env: Envelope, c: Socket, x: Envelope)
    ensures (c, x) in Fanout(e, room, state, env) ==> c in Keys(e)
  {
    if e != [] {
      KeysTail(e);
      FanoutRecipientsJoined(e[1..], room, state, env, c, x);
    }
  }

  /** With distinct keys, no socket receives a broadcast twice. */
  lemma {:induction false} FanoutDistinct(e: Entries, room: string, state: Socket -> ReadyState, env: Envelope)
    requires NoDupKeys(e)
    ensures forall j, k :: 0 <= j < k < |Fanout(e, room, state, env)| ==>
      Fanout(e, room, state, env)[j].0 != Fanout(e, room, state, env)[k].0
  {
    if e != [] {
      assert NoDupKeys(e[1..]);
      FanoutDistinct(e[1..], room, state, env);
      var rest := Fanout(e[1..], room, state, env);
      if e[0].1.room == room && state(e[0].0) == Open {
        KeysTail(e);
        forall k | 0 <= k < |rest| ensures rest[k].0 != e[0].0 {
          assert rest[k] in rest;
          FanoutRecipientsJoined(e[1..], room, state, env, rest[k].0, rest[k].1);
          var m :| 0 <= m < |e[1..]| && Keys(e[1..])[m] == rest[k].0;
          assert e[m + 1].0 == rest[k].0;
        }
      }
    }
  }

  /**
   * A re-join into the same room, under any name, leaves every broadcast as
   * it was: the entry keeps its place, so the recipients and their order are
   * the same.
   */
  lemma {:induction false} RejoinSameRoomKeepsFanout(e: Entries, s: Socket, info: Info, room: string,
                                                     state: Socket -> ReadyState, env: Envelope)
    requires Get(e, s).Some? && Get(e, s).value.room == info.room
    ensures Fanout(Set(e, s, info), room, state, env) == Fanout(e, room, state, env)
  {
    if e[0].0 != s {
      RejoinSameRoomKeepsFanout(e[1..], s, info, room, state, env);
    }
  }

  /**
   * A re-join leaves the broadcasts to every room other than the old and the
   * new one as they were.
   */
  lemma {:induction false} RejoinOtherRoomsUnaffected(e: Entries, s: Socket, info: Info, room: string,
                                                      state: Socket -> ReadyState, env: Envelope)
    requires Get(e, s).Some? && room != Get(e, s).value.room && room != info.room
    ensures Fanout(Set(e, s, info), room, state, env) == Fanout(e, room, state, env)
  {
    if e[0].0 != s {
      RejoinOtherRoomsUnaffected(e[1..], s, info, room, state, env);
    }
  }

  /**
   * What one chat sends: nothing from a socket without an entry; otherwise one
   * `newMessage` with the chat's text, the sender's recorded name and the
   * given id and timestamp, to each open socket in the sender's room, once.
   */
  lemma ChatOutboxSpec(e: Entries, s: Socket, text: string, state: Socket -> ReadyState,
                       id: string, timestamp: string)
    requires NoDupKeys(e)
    ensures Get(e, s).None? ==> ChatOutbox(e, s, text, state, id, timestamp) == []
    ensures Get(e, s).Some? ==>
      forall k :: 0 <= k < |ChatOutbox(e, s, text, state, id, timestamp)| ==>
        ChatOutbox(e, s, text, state, id, timestamp)[k].1
          == NewMessage(id, text, Get(e, s).value.username, timestamp)
    ensures forall c, x :: (c, x) in ChatOutbox(e, s, text, state, id, timestamp) <==>
      Get(e, s).Some? && x == NewMessage(id, text, Get(e, s).value.username, timestamp)
      && state(c) == Open && Get(e, c).Some? && Get(e, c).value.room == Get(e, s).value.room
    ensures forall j, k :: 0 <= j < k < |ChatOutbox(e, s, text, state, id, timestamp)| ==>
      ChatOutbox(e, s, text, state, id, timestamp)[j].0 != ChatOutbox(e, s, text, state, id, timestamp)[k].0
  {
    if Get(e, s).Some? {
      var user := Get(e, s).value;
      var env := NewMessage(id, text, user.username, timestamp);
      FanoutEnvelope(e, user.room, state, env);
      FanoutDistinct(e, user.room, state, env);
      forall c, x ensures (c, x) in Fanout(e, user.room, state, env) <==>
        x == env && state(c) == Open && Get(e, c).Some? && Get(e, c).value.room == user.room
      {
        FanoutMember(e, user.room, state, env, c, x);
      }
    }
  }

  /**
   * One event on one connection, as the transport delivers it. A `message`
   * event carries what the handler reads besides the registry: every
   * socket's `readyState` at that moment, and the id and timestamp the chat
   * would stamp on its envelope.
   */
  datatype Event =
    | MessageEvent(from: Socket, msg: Inbound, state: Socket -> ReadyState, id: string, timestamp: string)
    | CloseEvent(sock: Socket)
    | ErrorEvent(sock: Socket)

  /** The registry after one event, and the sends the event performs. */
  function Step(e: Entries, ev: Event): (r: (Entries, seq<Send>))
    ensures ev.MessageEvent? && ev.msg.Chat? ==> r.0 == e
    ensures !(ev.MessageEvent? && ev.msg.Chat?) ==> r.1 == []
    ensures |r.0| <= |e| + 1
  {
    match ev
    case MessageEvent(s, msg, state, id, timestamp) =>
      (match msg
       case Join(roomId, name) => (Set(e, s, Info(roomId, name)), [])
       case Chat(text) => (e, ChatOutbox(e, s, text, state, id, timestamp))
       case Other => (e, []))
    case CloseEvent(s) => (Delete(e, s), [])
    case ErrorEvent(_) => (e, [])
  }

  /** Every event keeps the registry's keys distinct. */
  lemma StepKeepsNoDupKeys(e: Entries, ev: Event)
    requires NoDupKeys(e)
    ensures NoDupKeys(Step(e, ev).0)
  {
    match ev
    case MessageEvent(s, msg, _, _, _) =>
      if msg.Join? {
        SetNoDupKeys(e, s, Info(msg.roomId, msg.name));
      }
    case CloseEvent(s) =>
      DeleteNoDupKeys(e, s);
    case ErrorEvent(_) =>
  }

  /** The relay server: the registry every connection's handlers share. */
  class Server {
    var allSockets: Entries

    ghost predicate Valid()
      reads this
    {
      NoDupKeys(allSockets)
    }

    /** The server starts with an empty registry. */
    constructor ()
      ensures Valid() && allSockets == []
    {
      allSockets := [];
    }

    /**
     * `join`: store `{room: roomId, username: name}` for the socket,
     * overwriting an earlier entry in its place; nothing else changes.
     */
    method Join(s: Socket, roomId: string, name: string)
      requires Valid()
      modifies this
      ensures Valid()
      ensures allSockets == Set(old(allSockets), s, Info(roomId, name))
      ensures forall t :: Get(allSockets, t) == if t == s then Some(Info(roomId, name)) else old(Get(allSockets, t))
      ensures Keys(allSockets) == if s in Keys(old(allSockets)) then Keys(old(allSockets))
                                  else Keys(old(allSockets)) + [s]
    {
      SetNoDupKeys(allSockets, s, Info(roomId, name));
      SetKeys(allSockets, s, Info(roomId, name));
      forall t ensures Get(Set(allSockets, s, Info(roomId, name)), t)
                       == if t == s then Some(Info(roomId, name)) else Get(allSockets, t)
      {
        SetGet(allSockets, s, Info(roomId, name), t);
      }
      allSockets := Set(allSockets, s, Info(roomId, name));
    }

    /**
     * `chat`: look the sender up, and if it has an entry send one envelope to
     * every entry of its room whose socket is open, walking the registry in
     * order. Reads the registry and changes nothing.
     */
    method Chat(s: Socket, text: string, state: Socket -> ReadyState, id: string, timestamp: string)
      returns (outbox: seq<Send>)
      requires Valid()
      ensures outbox == ChatOutbox(allSockets, s, text, state, id, timestamp)
      ensures Get(allSockets, s).None? ==> outbox == []
      ensures Get(allSockets, s).Some? ==> forall k :: 0 <= k < |outbox| ==>
        outbox[k].1 == NewMessage(id, text, Get(allSockets, s).value.username, timestamp)
      ensures forall c, x :: (c, x) in outbox <==>
        Get(allSockets, s).Some? && x == NewMessage(id, text, Get(allSockets, s).value.username, timestamp)
        && state(c) == Open && Get(allSockets, c).Some?
        && Get(allSockets, c).value.room == Get(allSockets, s).value.room
      ensures forall j, k :: 0 <= j < k < |outbox| ==> outbox[j].0 != outbox[k].0
    {
      ChatOutboxSpec(allSockets, s, text, state, id, timestamp);
      var currentUser := Get(allSockets, s);
      if currentUser.None? {
        return [];
      }
      var currentRoom := currentUser.value.room;
      var broadcastMessage := NewMessage(id, text, currentUser.value.username, timestamp);
      outbox := [];
      var i := 0;
      while i < |allSockets|
        invariant 0 <= i <= |allSockets|
        invariant outbox == Fanout(allSockets[..i], currentRoom, state, broadcastMessage)
      {
        var (clientSocket, clientInfo) := allSockets[i];
        FanoutAppend(allSockets[..i], [allSockets[i]], currentRoom, state, broadcastMessage);
        assert allSockets[..i + 1] == allSockets[..i] + [allSockets[i]];
        if clientInfo.room == currentRoom && state(clientSocket) == Open {
          outbox := outbox + [(clientSocket, broadcastMessage)];
        }
        i := i + 1;
      }
      assert allSockets[..i] == allSockets;
    }

    /**
     * The `message` handler: a `join` updates the registry and sends nothing;
     * a `chat` sends and leaves the registry as it was; any other type does
     * nothing.
     */
    method OnMessage(s: Socket, msg: Inbound, state: Socket -> ReadyState, id: string, timestamp: string)
      returns (outbox: seq<Send>)
      requires Valid()
      modifies this
      ensures Valid()
      ensures msg.Join? ==> allSockets == Set(old(allSockets), s, Info(msg.roomId, msg.name)) && outbox == []
      ensures msg.Chat? ==> allSockets == old(allSockets)
                            && outbox == ChatOutbox(allSockets, s, msg.message, state, id, timestamp)
      ensures msg.Other? ==> allSockets == old(allSockets) && outbox == []
    {
      outbox := [];
      match msg
      case Join(roomId, name) =>
        Join(s, roomId, name);
      case Chat(message) =>
        outbox := Chat(s, message, state, id, timestamp);
      case Other =>
    }

    /**
     * The `close` handler: drop the socket's entry if it has one. Every other
     * entry keeps its value and its place; closing an unknown socket, or
     * closing twice, changes nothing.
     */
    method Close(s: Socket)
      requires Valid()
      modifies this
      ensures Valid()
      ensures allSockets == Delete(old(allSockets), s)
      ensures forall t :: Get(allSockets, t) == if t == s then None else old(Get(allSockets, t))
      ensures old(Get(allSockets, s)).None? ==> allSockets == old(allSockets)
    {
      forall t ensures Get(Delete(allSockets, s), t) == if t == s then None else Get(allSockets, t) {
        DeleteGet(allSockets, s, t);
      }
      DeleteNoDupKeys(allSockets, s);
      var user := Get(allSockets, s);
      if user.Some? {
        allSockets := Delete(allSockets, s);
      } else {
        DeleteAbsent(allSockets, s);
      }
    }

    /** The `error` handler only logs: the registry is left as it is. */
    method Error(s: Socket)
      requires Valid()
      modifies this
      ensures Valid() && allSockets == old(allSockets)
    {
    }

    /** Dispatch one event on a connection to its handler. */
    method Handle(ev: Event) returns (outbox: seq<Send>)
      requires Valid()
      modifies this
      ensures Valid()
      ensures (allSockets, outbox) == Step(old(allSockets), ev)
    {
      match ev
      case MessageEvent(s, msg, state, id, timestamp) =>
        outbox := OnMessage(s, msg, state, id, timestamp);
      case CloseEvent(s) =>
        Close(s);
        outbox := [];
      case ErrorEvent(s) =>
        Error(s);
        outbox := [];
    }
  }
}
