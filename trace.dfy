/**
 * Runs of the relay: a sequence of events handled one after another, each to
 * completion, as Node's single thread handles them. Properties that span
 * several events (a socket that has left hears nothing more) are stated here.
 */
module Trace {
  import opened Registry
  import opened Relay

  /** The registry after the events `evs`, and every send they perform, in order. */
  function Run(e: Entries, evs: seq<Event>): (r: (Entries, seq<Send>))
    ensures |r.0| <= |e| + |evs|
    decreases |evs|
  {
    if evs == [] then (e, [])
    else
      var (e1, out1) := Step(e, evs[0]);
      var (e2, out2) := Run(e1, evs[1..]);
      (e2, out1 + out2)
  }

  /** No event of `evs` is a `join` sent on socket `s`. */
  predicate NoJoinFrom(evs: seq<Event>, s: Socket)
  {
    forall k :: 0 <= k < |evs| ==> !(evs[k].MessageEvent? && evs[k].from == s && evs[k].msg.Join?)
  }

  /** Every run keeps the registry's keys distinct. */
  lemma {:induction false} RunKeepsNoDupKeys(e: Entries, evs: seq<Event>)
    requires NoDupKeys(e)
    ensures NoDupKeys(Run(e, evs).0)
    decreases |evs|
  {
    if evs != [] {
      StepKeepsNoDupKeys(e, evs[0]);
      RunKeepsNoDupKeys(Step(e, evs[0]).0, evs[1..]);
    }
  }

  /**
   * One event leaves a socket without an entry still without one, unless it
   * is that socket's own join, and sends it nothing.
   */
  lemma StepAbsentStaysSilent(e: Entries, ev: Event, s: Socket)
    requires NoDupKeys(e) && Get(e, s) == None
    requires !(ev.MessageEvent? && ev.from == s && ev.msg.Join?)
    ensures Get(Step(e, ev).0, s) == None
    ensures forall k :: 0 <= k < |Step(e, ev).1| ==> Step(e, ev).1[k].0 != s
  {
    match ev
    case MessageEvent(from, msg, state, id, timestamp) =>
      match msg {
        case Join(roomId, name) =>
          SetGet(e, from, Info(roomId, name), s);
        case Chat(text) =>
          ChatOutboxSpec(e, from, text, state, id, timestamp);
          var out := ChatOutbox(e, from, text, state, id, timestamp);
          forall k | 0 <= k < |out| ensures out[k].0 != s {
            assert (out[k].0, out[k].1) in out;
          }
        case Other =>
      }
    case CloseEvent(t) =>
      DeleteGet(e, t, s);
    case ErrorEvent(_) =>
  }

  /**
   * A socket with no entry (never joined, or closed) receives nothing, and
   * stays without an entry, for as long as it sends no `join`.
   */
  lemma {:induction false} AbsentStaysSilent(e: Entries, evs: seq<Event>, s: Socket)
    requires NoDupKeys(e) && Get(e, s) == None
    requires NoJoinFrom(evs, s)
    ensures Get(Run(e, evs).0, s) == None
    ensures forall k :: 0 <= k < |Run(e, evs).1| ==> Run(e, evs).1[k].0 != s
    decreases |evs|
  {
    if evs != [] {
      StepAbsentStaysSilent(e, evs[0], s);
      StepKeepsNoDupKeys(e, evs[0]);
      assert NoJoinFrom(evs[1..], s) by {
        forall k | 0 <= k < |evs[1..]| ensures !(evs[1..][k].MessageEvent? && evs[1..][k].from == s && evs[1..][k].msg.Join?) {
          assert evs[1..][k] == evs[k + 1];
        }
      }
      AbsentStaysSilent(Step(e, evs[0]).0, evs[1..], s);
    }
  }

  /**
   * After a socket's `close`, it receives no broadcast from any later events
   * that do not include a `join` on it.
   */
  lemma ClosedStaysSilent(e: Entries, s: Socket, evs: seq<Event>)
    requires NoDupKeys(e)
    requires NoJoinFrom(evs, s)
    ensures Get(Run(e, [CloseEvent(s)] + evs).0, s) == None
    ensures forall k :: 0 <= k < |Run(e, [CloseEvent(s)] + evs).1| ==> Run(e, [CloseEvent(s)] + evs).1[k].0 != s
  {
    var all := [CloseEvent(s)] + evs;
    assert all[0] == CloseEvent(s) && all[1..] == evs;
    DeleteGet(e, s, s);
    DeleteNoDupKeys(e, s);
    AbsentStaysSilent(Delete(e, s), evs, s);
  }

  /** A second `close` of a socket, or an `error` after its `close`, changes nothing. */
  lemma LateTeardownHarmless(e: Entries, s: Socket)
    requires NoDupKeys(e)
    ensures Run(e, [CloseEvent(s), CloseEvent(s)]) == Run(e, [CloseEvent(s)])
    ensures Run(e, [CloseEvent(s), ErrorEvent(s)]) == Run(e, [CloseEvent(s)])
  {
    var d := Delete(e, s);
    var one, twice, late := [CloseEvent(s)], [CloseEvent(s), CloseEvent(s)], [CloseEvent(s), ErrorEvent(s)];
    assert one[1..] == [] && twice[1..] == one && late[1..] == [ErrorEvent(s)] && late[1..][1..] == [];
    RunUnfold(e, one);
    RunUnfold(e, twice);
    RunUnfold(d, one);
    RunUnfold(e, late);
    RunUnfold(d, late[1..]);
    DeleteIdempotent(e, s);
  }

  /** Everyone open: the state of every socket in the scenarios below. */
  function AllOpen(c: Socket): ReadyState { Open }

  /** The sockets of Alice, Bob and Carol in the two-room scenario. */
  const Alice := Socket(1)
  const Bob := Socket(2)
  const Carol := Socket(3)

  /** The three joins of the two-room scenario: Alice and Bob to "abc123", Carol to "xyz". */
  function TwoRoomJoins(): seq<Event>
  {
    [MessageEvent(Alice, Join("abc123", "Alice"), AllOpen, "", ""),
     MessageEvent(Bob, Join("abc123", "Bob"), AllOpen, "", ""),
     MessageEvent(Carol, Join("xyz", "Carol"), AllOpen, "", "")]
  }

  /** The registry after those joins, in join order. */
  function TwoRoomRegistry(): Entries
  {
    [(Alice, Info("abc123", "Alice")), (Bob, Info("abc123", "Bob")), (Carol, Info("xyz", "Carol"))]
  }

  lemma TwoRoomJoinsRun()
    ensures Run([], TwoRoomJoins()) == (TwoRoomRegistry(), [])
  {
    var j0, j1, j2 := TwoRoomJoins()[0], TwoRoomJoins()[1], TwoRoomJoins()[2];
    var e1 := [(Alice, Info("abc123", "Alice"))];
    var e2 := e1 + [(Bob, Info("abc123", "Bob"))];
    var e3 := e2 + [(Carol, Info("xyz", "Carol"))];
    assert e3 == TwoRoomRegistry();
    assert TwoRoomJoins() == [j0] + ([j1] + [j2]);
    assert Step([], j0) == (e1, []);
    assert Step(e1, j1) == (e2, []) by {
      assert Get(e1, Bob) == None;
      SetInPlace(e1, Bob, Info("abc123", "Bob"));
    }
    assert Step(e2, j2) == (e3, []) by {
      assert Get(e2, Carol) == None by {
        assert e2[0] == (Alice, Info("abc123", "Alice")) && e2[1..] == [(Bob, Info("abc123", "Bob"))];
        assert e2[1..][1..] == [];
        assert Get(e2[1..][1..], Carol) == None;
        assert Get(e2[1..], Carol) == None;
      }
      SetInPlace(e2, Carol, Info("xyz", "Carol"));
    }
    RunSingle(e2, j2);
    RunCons(e1, j1, [j2]);
    RunCons([], j0, [j1] + [j2]);
  }

  /** In that registry, a chat from Alice or Bob goes to Alice, then Bob, and not to Carol. */
  lemma TwoRoomChatStep(sender: Socket, name: string, text: string, id: string, timestamp: string)
    requires (sender == Alice && name == "Alice") || (sender == Bob && name == "Bob")
    ensures Step(TwoRoomRegistry(), MessageEvent(sender, Chat(text), AllOpen, id, timestamp))
      == (TwoRoomRegistry(), [(Alice, NewMessage(id, text, name, timestamp)), (Bob, NewMessage(id, text, name, timestamp))])
  {
    var e := TwoRoomRegistry();
    var env := NewMessage(id, text, name, timestamp);
    var ea, eb, ec := [(Alice, Info("abc123", "Alice"))], [(Bob, Info("abc123", "Bob"))], [(Carol, Info("xyz", "Carol"))];
    assert e == (ea + eb) + ec;
    assert Get(e, sender) == Some(Info("abc123", name)) by {
      assert e[0] == ea[0] && e[1..] == eb + ec && (eb + ec)[0] == eb[0];
    }
    assert ea[1..] == [] && eb[1..] == [] && ec[1..] == [];
    assert Fanout(ea, "abc123", AllOpen, env) == [(Alice, env)];
    assert Fanout(eb, "abc123", AllOpen, env) == [(Bob, env)];
    assert Fanout(ec, "abc123", AllOpen, env) == [];
    FanoutAppend(ea + eb, ec, "abc123", AllOpen, env);
    FanoutAppend(ea, eb, "abc123", AllOpen, env);
    assert ChatOutbox(e, sender, text, AllOpen, id, timestamp) == [(Alice, env), (Bob, env)];
  }

  /**
   * Alice and Bob join room "abc123", Carol joins "xyz". Alice's "hello"
   * reaches Alice and Bob with sender "Alice"; Bob's "hi Alice" then reaches
   * both with sender "Bob"; Carol hears neither.
   */
  lemma ScenarioSameRoom()
    ensures
      var run := Run([], TwoRoomJoins() + TwoRoomChats());
      run.1 == [(Alice, NewMessage("m1", "hello", "Alice", "t1")), (Bob, NewMessage("m1", "hello", "Alice", "t1")),
                (Alice, NewMessage("m2", "hi Alice", "Bob", "t2")), (Bob, NewMessage("m2", "hi Alice", "Bob", "t2"))]
  {
    TwoRoomJoinsRun();
    TwoRoomChatsRun();
    RunAppend([], TwoRoomJoins(), TwoRoomChats());
  }

  /** Alice's "hello", then Bob's "hi Alice". */
  function TwoRoomChats(): seq<Event>
  {
    [MessageEvent(Alice, Chat("hello"), AllOpen, "m1", "t1"),
     MessageEvent(Bob, Chat("hi Alice"), AllOpen, "m2", "t2")]
  }

  lemma TwoRoomChatsRun()
    ensures Run(TwoRoomRegistry(), TwoRoomChats())
      == (TwoRoomRegistry(),
          [(Alice, NewMessage("m1", "hello", "Alice", "t1")), (Bob, NewMessage("m1", "hello", "Alice", "t1")),
           (Alice, NewMessage("m2", "hi Alice", "Bob", "t2")), (Bob, NewMessage("m2", "hi Alice", "Bob", "t2"))])
  {
    var e := TwoRoomRegistry();
    var c0, c1 := TwoRoomChats()[0], TwoRoomChats()[1];
    assert TwoRoomChats() == [c0] + [c1];
    TwoRoomChatStep(Alice, "Alice", "hello", "m1", "t1");
    TwoRoomChatStep(Bob, "Bob", "hi Alice", "m2", "t2");
    var m1, m2 := NewMessage("m1", "hello", "Alice", "t1"), NewMessage("m2", "hi Alice", "Bob", "t2");
    assert c0 == MessageEvent(Alice, Chat("hello"), AllOpen, "m1", "t1");
    assert c1 == MessageEvent(Bob, Chat("hi Alice"), AllOpen, "m2", "t2");
    assert Step(e, c0) == (e, [(Alice, m1), (Bob, m1)]);
    RunSingle(e, c1);
    assert Run(e, [c1]) == (e, [(Alice, m2), (Bob, m2)]);
    RunCons(e, c0, [c1]);
    assert [(Alice, m1), (Bob, m1)] + [(Alice, m2), (Bob, m2)] == [(Alice, m1), (Bob, m1), (Alice, m2), (Bob, m2)];
  }

  /** Alice's socket after her disconnect: closed; every other socket open. */
  function AliceGone(c: Socket): ReadyState { if c == Socket(1) then Closed else Open }

  /**
   * Bob and Alice are in room "r1"; Alice disconnects; Bob's chat still comes
   * back to Bob, and to no one else.
   */
  lemma ScenarioPeerLeft()
    ensures
      var a, b := Socket(1), Socket(2);
      var run := Run([], [MessageEvent(b, Join("r1", "Bob"), AllOpen, "", ""),
                          MessageEvent(a, Join("r1", "Alice"), AllOpen, "", ""),
                          CloseEvent(a),
                          MessageEvent(b, Chat("anyone?"), AliceGone, "m2", "t2")]);
      run.1 == [(b, NewMessage("m2", "anyone?", "Bob", "t2"))]
  {
    var a, b := Socket(1), Socket(2);
    var evs := [MessageEvent(b, Join("r1", "Bob"), AllOpen, "", ""),
                MessageEvent(a, Join("r1", "Alice"), AllOpen, "", ""),
                CloseEvent(a),
                MessageEvent(b, Chat("anyone?"), AliceGone, "m2", "t2")];
    var e1 := [(b, Info("r1", "Bob"))];
    var e2 := e1 + [(a, Info("r1", "Alice"))];
    var env := NewMessage("m2", "anyone?", "Bob", "t2");
    SetInPlace([], b, Info("r1", "Bob"));
    SetInPlace(e1, a, Info("r1", "Alice"));
    assert Step(e2, evs[2]).0 == e1 by {
      assert e2[0] == (b, Info("r1", "Bob")) && e2[1..] == [(a, Info("r1", "Alice"))];
      assert Delete(e2[1..], a) == [];
      assert Delete(e2, a) == [e2[0]] + Delete(e2[1..], a);
    }
    assert Step(e1, evs[3]).1 == [(b, env)] by {
      assert Get(e1, b) == Some(Info("r1", "Bob"));
      assert AliceGone(b) == Open;
      assert e1[1..] == [];
      assert Fanout(e1, "r1", AliceGone, env) == [(b, env)] + Fanout(e1[1..], "r1", AliceGone, env);
    }
    RunUnfold(e1, evs[3..]);
    RunUnfold(e2, evs[2..]);
    RunUnfold(e1, evs[1..]);
    RunUnfold([], evs);
    assert evs[3..][1..] == [] && evs[2..][1..] == evs[3..] && evs[1..][1..] == evs[2..];
  }

  /** A run of `a` then `b` is the run of `a` followed by the run of `b` from where it ended. */
  lemma {:induction false} RunAppend(e: Entries, a: seq<Event>, b: seq<Event>)
    ensures Run(e, a + b) == (Run(Run(e, a).0, b).0, Run(e, a).1 + Run(Run(e, a).0, b).1)
    decreases |a|
  {
    if a == [] {
      assert a + b == b;
      assert Run(e, a) == (e, []);
      assert [] + Run(e, b).1 == Run(e, b).1;
    } else {
      assert (a + b)[0] == a[0] && (a + b)[1..] == a[1..] + b;
      var (e1, out1) := Step(e, a[0]);
      RunAppend(e1, a[1..], b);
      RunUnfold(e, a + b);
      RunUnfold(e, a);
      var mid := Run(e1, a[1..]);
      var tail := Run(mid.0, b);
      assert out1 + (mid.1 + tail.1) == (out1 + mid.1) + tail.1;
    }
  }

  /** A run of one event is that event's step. */
  lemma RunSingle(e: Entries, ev: Event)
    ensures Run(e, [ev]) == Step(e, ev)
  {
    assert [ev][1..] == [];
    assert Run(Step(e, ev).0, []) == (Step(e, ev).0, []);
    assert Step(e, ev).1 + [] == Step(e, ev).1;
  }

  /** A run that starts with `ev` is `ev`'s step followed by the rest of the run. */
  lemma RunCons(e: Entries, ev: Event, rest: seq<Event>)
    ensures Run(e, [ev] + rest) == (Run(Step(e, ev).0, rest).0, Step(e, ev).1 + Run(Step(e, ev).0, rest).1)
  {
    assert ([ev] + rest)[0] == ev && ([ev] + rest)[1..] == rest;
  }

  /** One step of a run. */
  lemma RunUnfold(e: Entries, evs: seq<Event>)
    requires evs != []
    ensures Run(e, evs) == (Run(Step(e, evs[0]).0, evs[1..]).0, Step(e, evs[0]).1 + Run(Step(e, evs[0]).0, evs[1..]).1)
  {
  }
}
