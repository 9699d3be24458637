/** OutputMessagePool as a program: every method carries out steps of Lifetime. */
module Pool {
  import C = Connection
  import opened Lifetime
  import opened Wrappers

  lemma ReleaseEnabled(s: State, m: MsgId)
    requires Inv(s) && m in s.releases
    ensures Enabled(s, InternalRelease(m))
  {
    assert m in s.msgs && Placed(s, m);
    var p, c := s.msgs[m].protocol.value, s.msgs[m].connection.value;
    assert m in OfProtocol(s, p) && m in OfConnection(s, c);
  }

  lemma GetEnabled(s: State, p: C.ProtocolId, m: MsgId, autosend: bool)
    requires Inv(s) && p in s.protos && s.protos[p].connection.Some? && Available(s, m)
    ensures Enabled(s, Get(p, m, autosend))
  {
    assert ProtocolLinked(s, p);
  }

  /** A message with a handle has a connection to be sent on. */
  lemma HandledHasConnection(s: State, m: MsgId)
    requires Inv(s) && m in s.msgs && Handles(s, m) > 0
    ensures s.msgs[m].connection.Some? && s.msgs[m].connection.value in s.conns
  {
    assert Placed(s, m);
  }

  // ---------- What sendAll does with its messages ----------

  /** Every message has a connection to be sent on. */
  ghost predicate Routed(messages: map<MsgId, Msg>, connections: map<ConnId, C.Conn>, q: seq<MsgId>) {
    forall m :: m in q ==> m in messages && messages[m].connection.Some? && messages[m].connection.value in connections
  }

  /** The deferred messages that are tried again. */
  function Young(q: seq<MsgId>, tooOld: MsgId -> bool): seq<MsgId> {
    if q == [] then []
    else if tooOld(q[0]) then Young(q[1..], tooOld)
    else [q[0]] + Young(q[1..], tooOld)
  }

  /** The connections after a queue has been sent, and where its messages went: written to a socket, deferred
      behind a pending write, or refused by a connection that no longer sends. */
  datatype Drained =
    Drained(connections: map<ConnId, C.Conn>, written: seq<MsgId>, deferred: seq<MsgId>, refused: seq<MsgId>)

  ghost function Drain(messages: map<MsgId, Msg>, connections: map<ConnId, C.Conn>, q: seq<MsgId>,
                       outcome: MsgId -> C.WriteResult): Drained
    requires Routed(messages, connections, q)
    decreases |q|
  {
    if q == [] then Drained(connections, [], [], [])
    else
      var m := q[0];
      var c := messages[m].connection.value;
      if !C.CanSend(connections[c]) then
        var d := Drain(messages, connections, q[1..], outcome);
        d.(refused := [m] + d.refused)
      else if connections[c].pendingWrite != 0 then
        var d := Drain(messages, connections, q[1..], outcome);
        d.(deferred := [m] + d.deferred)
      else
        var d := Drain(messages, connections[c := C.WriteF(connections[c], outcome(m))], q[1..], outcome);
        d.(written := [m] + d.written)
  }

  /** Every message goes exactly one of the three ways, as often as it was queued. */
  lemma {:induction false} DrainSortsOut(messages: map<MsgId, Msg>, connections: map<ConnId, C.Conn>, q: seq<MsgId>,
                                         outcome: MsgId -> C.WriteResult)
    requires Routed(messages, connections, q)
    ensures var d := Drain(messages, connections, q, outcome);
            multiset(q) == multiset(d.written) + multiset(d.deferred) + multiset(d.refused)
    decreases |q|
  {
    hide C.CanSend, C.WriteF;
    if q != [] {
      assert q == [q[0]] + q[1..];
      var c := messages[q[0]].connection.value;
      if C.CanSend(connections[c]) && connections[c].pendingWrite == 0 {
        DrainSortsOut(messages, connections[c := C.WriteF(connections[c], outcome(q[0]))], q[1..], outcome);
      } else {
        DrainSortsOut(messages, connections, q[1..], outcome);
      }
    }
  }

  /** The messages of a queue that go to one connection, in order. */
  ghost function Of(messages: map<MsgId, Msg>, c: ConnId, q: seq<MsgId>): seq<MsgId> {
    if q == [] then []
    else if q[0] in messages && messages[q[0]].connection == Some(c) then [q[0]] + Of(messages, c, q[1..])
    else Of(messages, c, q[1..])
  }

  lemma OfFront(messages: map<MsgId, Msg>, c: ConnId, m: MsgId, q: seq<MsgId>)
    requires m in messages && messages[m].connection.Some?
    ensures Of(messages, c, [m] + q) == (if messages[m].connection.value == c then [m] else []) + Of(messages, c, q)
  {
    assert ([m] + q)[1..] == q;
  }

  /** What a pass does with the messages of one connection. */
  datatype Ways = Ways(queued: seq<MsgId>, written: seq<MsgId>, deferred: seq<MsgId>, refused: seq<MsgId>)

  ghost function WaysOf(messages: map<MsgId, Msg>, connections: map<ConnId, C.Conn>, q: seq<MsgId>,
                        outcome: MsgId -> C.WriteResult, c: ConnId): Ways
    requires Routed(messages, connections, q)
  {
    var d := Drain(messages, connections, q, outcome);
    Ways(Of(messages, c, q), Of(messages, c, d.written), Of(messages, c, d.deferred), Of(messages, c, d.refused))
  }

  /** The first message is added to one of the ways of its own connection and changes no other's. */
  lemma WaysFront(messages: map<MsgId, Msg>, connections: map<ConnId, C.Conn>, q: seq<MsgId>,
                  outcome: MsgId -> C.WriteResult, c: ConnId)
    requires q != [] && Routed(messages, connections, q)
    ensures var k := messages[q[0]].connection.value;
            var conn, mine := connections[k], if k == c then [q[0]] else [];
            var writes := C.CanSend(conn) && conn.pendingWrite == 0;
            var after := if writes then connections[k := C.WriteF(conn, outcome(q[0]))] else connections;
            var w, w' := WaysOf(messages, connections, q, outcome, c), WaysOf(messages, after, q[1..], outcome, c);
            && w.queued == mine + w'.queued
            && w.written == (if writes then mine else []) + w'.written
            && w.deferred == (if C.CanSend(conn) && !writes then mine else []) + w'.deferred
            && w.refused == (if C.CanSend(conn) then [] else mine) + w'.refused
  {
    hide C.CanSend, C.WriteF, Of;
    var m, k := q[0], messages[q[0]].connection.value;
    var conn := connections[k];
    assert q == [m] + q[1..];
    OfFront(messages, c, m, q[1..]);
    var after :=
      if C.CanSend(conn) && conn.pendingWrite == 0 then connections[k := C.WriteF(conn, outcome(m))] else connections;
    var d' := Drain(messages, after, q[1..], outcome);
    OfFront(messages, c, m, d'.written);
    OfFront(messages, c, m, d'.deferred);
    OfFront(messages, c, m, d'.refused);
  }

  /** On a connection behind a pending write everything is deferred, on one that no longer sends everything refused. */
  lemma {:induction false} DrainStuck(messages: map<MsgId, Msg>, connections: map<ConnId, C.Conn>, q: seq<MsgId>,
                                      outcome: MsgId -> C.WriteResult, c: ConnId)
    requires Routed(messages, connections, q)
    requires c in connections && (C.CanSend(connections[c]) ==> connections[c].pendingWrite != 0)
    ensures var w := WaysOf(messages, connections, q, outcome, c);
            w == if C.CanSend(connections[c]) then Ways(w.queued, [], w.queued, [])
                 else Ways(w.queued, [], [], w.queued)
    decreases |q|
  {
    hide C.CanSend, C.WriteF;
    if q != [] {
      WaysFront(messages, connections, q, outcome, c);
      hide WaysOf;
      var k := messages[q[0]].connection.value;
      if C.CanSend(connections[k]) && connections[k].pendingWrite == 0 {
        DrainStuck(messages, connections[k := C.WriteF(connections[k], outcome(q[0]))], q[1..], outcome, c);
      } else {
        DrainStuck(messages, connections, q[1..], outcome, c);
      }
    }
  }

  lemma WrittenFirst(w: Ways, w': Ways, mine: seq<MsgId>)
    requires w'.queued == w'.written + w'.deferred + w'.refused
    requires w == Ways(mine + w'.queued, mine + w'.written, w'.deferred, w'.refused)
    ensures w.queued == w.written + w.deferred + w.refused
  {
  }

  /** No overtaking within one pass: the messages queued for a connection are written in order, and from the
      first that is not, all are deferred, or all refused, in order. */
  lemma {:induction false} DrainInOrder(messages: map<MsgId, Msg>, connections: map<ConnId, C.Conn>, q: seq<MsgId>,
                                        outcome: MsgId -> C.WriteResult, c: ConnId)
    requires Routed(messages, connections, q) && c in connections
    ensures var w := WaysOf(messages, connections, q, outcome, c);
            w.queued == w.written + w.deferred + w.refused && (w.deferred == [] || w.refused == [])
    decreases |q|
  {
    hide C.CanSend, C.WriteF;
    if q != [] {
      WaysFront(messages, connections, q, outcome, c);
      hide WaysOf, Routed;
      var k := messages[q[0]].connection.value;
      var w := WaysOf(messages, connections, q, outcome, c);
      if C.CanSend(connections[k]) && connections[k].pendingWrite == 0 {
        var after := connections[k := C.WriteF(connections[k], outcome(q[0]))];
        DrainInOrder(messages, after, q[1..], outcome, c);
        WrittenFirst(w, WaysOf(messages, after, q[1..], outcome, c), if k == c then [q[0]] else []);
      } else {
        var w' := WaysOf(messages, connections, q[1..], outcome, c);
        if k == c {
          DrainStuck(messages, connections, q, outcome, c);
          assert w.written == [];
        } else {
          DrainInOrder(messages, connections, q[1..], outcome, c);
          assert w == w';
        }
      }
    }
  }

  /** The connection a message is to be sent on. */
  ghost predicate Goes(messages: map<MsgId, Msg>, connections: map<ConnId, C.Conn>, m: MsgId) {
    m in messages && messages[m].connection.Some? && messages[m].connection.value in connections
  }

  ghost predicate OnStuck(messages: map<MsgId, Msg>, connections: map<ConnId, C.Conn>, m: MsgId) {
    Goes(messages, connections, m) && C.Stuck(connections[messages[m].connection.value])
  }

  /** A pass leaves connections alone on which nothing can be written, writes nothing on them, and what it defers is on
      such a connection afterwards. */
  lemma {:induction false} DrainStalls(messages: map<MsgId, Msg>, connections: map<ConnId, C.Conn>, q: seq<MsgId>,
                                       outcome: MsgId -> C.WriteResult)
    requires Routed(messages, connections, q)
    ensures var d := Drain(messages, connections, q, outcome);
            && (forall c :: c in connections ==> c in d.connections)
            && (forall c :: c in connections && C.Stuck(connections[c]) ==> d.connections[c] == connections[c])
            && (forall m :: m in d.deferred ==> OnStuck(messages, d.connections, m))
            && (forall m :: m in d.written ==> !OnStuck(messages, connections, m))
    decreases |q|
  {
    hide C.CanSend, C.WriteF;
    if q != [] {
      var c := messages[q[0]].connection.value;
      if C.CanSend(connections[c]) && connections[c].pendingWrite == 0 {
        DrainStalls(messages, connections[c := C.WriteF(connections[c], outcome(q[0]))], q[1..], outcome);
      } else {
        DrainStalls(messages, connections, q[1..], outcome);
      }
    }
  }

  /** What is refused goes to a connection that does not send when the pass ends, and nothing but the queue is sent. */
  lemma {:induction false} DrainRefuses(messages: map<MsgId, Msg>, connections: map<ConnId, C.Conn>, q: seq<MsgId>,
                                        outcome: MsgId -> C.WriteResult)
    requires Routed(messages, connections, q)
    ensures var d := Drain(messages, connections, q, outcome);
            && (forall m :: m in d.refused ==>
                  Goes(messages, d.connections, m) && !C.CanSend(d.connections[messages[m].connection.value]))
            && (forall m :: m in d.written || m in d.deferred || m in d.refused ==> m in q)
    decreases |q|
  {
    hide C.CanSend, C.WriteF;
    if q != [] {
      var c := messages[q[0]].connection.value;
      if C.CanSend(connections[c]) && connections[c].pendingWrite == 0 {
        DrainRefuses(messages, connections[c := C.WriteF(connections[c], outcome(q[0]))], q[1..], outcome);
      } else {
        DrainRefuses(messages, connections, q[1..], outcome);
        DrainStalls(messages, connections, q[1..], outcome);
      }
    }
  }

  /** The first message of a queue to a connection that sends with nothing pending is written. */
  lemma {:induction false} FirstIsWritten(messages: map<MsgId, Msg>, connections: map<ConnId, C.Conn>, q: seq<MsgId>,
                                          outcome: MsgId -> C.WriteResult, i: nat)
    requires Routed(messages, connections, q) && i < |q|
    requires var c := connections[messages[q[i]].connection.value]; C.CanSend(c) && c.pendingWrite == 0
    requires forall j :: 0 <= j < i ==> messages[q[j]].connection != messages[q[i]].connection
    ensures q[i] in Drain(messages, connections, q, outcome).written
    decreases |q|
  {
    hide C.CanSend, C.WriteF;
    if i > 0 {
      var k := messages[q[0]].connection.value;
      assert q[1..][i - 1] == q[i];
      if C.CanSend(connections[k]) && connections[k].pendingWrite == 0 {
        FirstIsWritten(messages, connections[k := C.WriteF(connections[k], outcome(q[0]))], q[1..], outcome, i - 1);
      } else {
        FirstIsWritten(messages, connections, q[1..], outcome, i - 1);
      }
    }
  }

  /** What a pass tries again: every deferred message that is not too old, as often as it was deferred. */
  lemma {:induction false} YoungIs(q: seq<MsgId>, tooOld: MsgId -> bool, m: MsgId)
    ensures multiset(Young(q, tooOld))[m] == if tooOld(m) then 0 else multiset(q)[m]
  {
    if q != [] {
      assert q == [q[0]] + q[1..];
      YoungIs(q[1..], tooOld, m);
    }
  }

  // ---------- The program ----------

  /** One more message points at the protocol and at its connection, and nothing else is counted. */
  ghost predicate GetCounted(s: State, s': State, p: C.ProtocolId)
    requires p in s.protos && s.protos[p].connection.Some?
  {
    var c := s.protos[p].connection.value;
    && c in s.conns
    && s'.protos == s.protos[p := s.protos[p].(refCount := s.protos[p].refCount + 1)]
    && s'.conns == s.conns[c := s.conns[c].(refCount := s.conns[c].refCount + 1)]
  }

  /** One handle less on the message, and a release task exactly if it was the last. */
  ghost predicate DropCounted(s: State, s': State, m: MsgId) {
    && m in s.msgs && s.msgs[m].locals > 0
    && s' == s.(msgs := s.msgs[m := s.msgs[m].(locals := s.msgs[m].locals - 1)],
                releases := if s.msgs[m].locals == 1 && m !in s.autoSend && m !in s.toAdd then s.releases + multiset{m}
                            else s.releases)
  }

  /** One message less points at the protocol and the connection it had. */
  ghost predicate ReleaseCounted(s: State, s': State, m: MsgId) {
    && m in s.msgs && s.msgs[m].protocol.Some? && s.msgs[m].connection.Some?
    && var p, c := s.msgs[m].protocol.value, s.msgs[m].connection.value;
       && p in s.protos && p in s'.protos && c in s.conns && c in s'.conns
       && s'.protos == s.protos[p := s.protos[p].(refCount := s'.protos[p].refCount)]
       && s'.protos[p].refCount + 1 == s.protos[p].refCount
       && s'.conns == s.conns[c := s.conns[c].(refCount := s'.conns[c].refCount)]
       && s'.conns[c].refCount + 1 == s.conns[c].refCount
  }

  class OutputMessagePool {
    var m_outputMessages: seq<MsgId>
    var m_autoSendOutputMessages: seq<MsgId>
    var m_toAddQueue: seq<MsgId>
    var m_isOpen: bool
    // the message, protocol and connection objects, and the dispatcher's release tasks
    var messages: map<MsgId, Msg>
    var protocols: map<C.ProtocolId, Proto>
    var connections: map<ConnId, C.Conn>
    var releases: multiset<MsgId>
    ghost var wire: seq<MsgId>        // the messages written to sockets, in order

    ghost function View(): State
      reads this
    {
      State(connections, protocols, messages, m_outputMessages, m_autoSendOutputMessages, m_toAddQueue, releases)
    }

    constructor ()
      ensures View() == INITIAL && !m_isOpen
    {
      m_outputMessages, m_autoSendOutputMessages, m_toAddQueue, m_isOpen := [], [], [], false;
      messages, protocols, connections, releases := map[], map[], map[], multiset{};
    }

    /** getOutputMessage with configureOutputMessage; `newId` names the object that `new` would return. */
    method GetOutputMessage(protocol: C.ProtocolId, autosend: bool, newId: MsgId) returns (msg: Option<MsgId>)
      requires Inv(View()) && protocol in protocols && newId !in messages
      modifies this`m_outputMessages, this`m_autoSendOutputMessages, this`messages, this`protocols, this`connections
      ensures msg.Some? <==> old(m_isOpen && protocols[protocol].connection.Some?)
      ensures msg.None? ==> View() == old(View())
      ensures msg.Some? ==>
                && m_autoSendOutputMessages == old(m_autoSendOutputMessages) + (if autosend then [msg.value] else [])
                && m_toAddQueue == old(m_toAddQueue) && releases == old(releases)
                && msg.value == (if old(m_outputMessages) == [] then newId
                                 else old(m_outputMessages[|m_outputMessages| - 1]))
                && m_outputMessages == (if old(m_outputMessages) == [] then []
                                        else old(m_outputMessages[..|m_outputMessages| - 1]))
                && messages
                    == old(messages)[msg.value := Msg(true, Some(protocol), old(protocols)[protocol].connection, 1)]
      ensures msg.Some? ==> GetCounted(old(View()), View(), protocol)
      ensures msg.Some? ==> m_isOpen && Enabled(old(View()), Get(protocol, msg.value, autosend))
      ensures msg.Some? ==> View() == Apply(old(View()), Get(protocol, msg.value, autosend))
      ensures Inv(View()) && (old(Stalled(View())) ==> Stalled(View()))
    {
      hide Inv, Enabled, Stalled;
      if !m_isOpen {
        return None;
      }
      if protocols[protocol].connection == None {
        return None;
      }
      ghost var s := View();
      var m := newId;
      if m_outputMessages != [] {
        m := m_outputMessages[|m_outputMessages| - 1];
        m_outputMessages := m_outputMessages[..|m_outputMessages| - 1];
      }
      GetEnabled(s, protocol, m, autosend);
      EnabledGetParts(s, protocol, m, autosend);
      if autosend {
        m_autoSendOutputMessages := m_autoSendOutputMessages + [m];
      }
      var connection := protocols[protocol].connection.value;
      messages := messages[m := Msg(true, Some(protocol), Some(connection), 1)];
      protocols := protocols[protocol := protocols[protocol].(refCount := protocols[protocol].refCount + 1)];
      var conn := connections[connection];
      connections := connections[connection := conn.(refCount := conn.refCount + 1)];
      msg := Some(m);
      ApplyKeepsInv(s, Get(protocol, m, autosend));
      StalledAfter(s, Get(protocol, m, autosend));
    }

    lemma StalledAfter(s: State, a: Action)
      requires Inv(s) && Enabled(s, a)
      ensures Stalled(s) ==> Stalled(Apply(s, a))
    {
      hide Inv, Enabled, Stalled, Apply;
      if Stalled(s) {
        ApplyKeepsStalled(s, a);
      }
    }

    lemma EnabledGetParts(s: State, p: C.ProtocolId, m: MsgId, autosend: bool)
      requires Enabled(s, Get(p, m, autosend))
      ensures p in s.protos && s.protos[p].connection.Some? && s.protos[p].connection.value in s.conns
    {
    }

    /** internalReleaseMessage, run by the dispatcher. */
    method InternalReleaseMessage(m: MsgId)
      requires Inv(View()) && m in releases
      modifies this`m_outputMessages, this`messages, this`protocols, this`connections, this`releases
      ensures m_outputMessages == old(m_outputMessages) + [m] && releases == old(releases) - multiset{m}
      ensures messages == old(messages)[m := Msg(false, None, None, 0)]
      ensures m_autoSendOutputMessages == old(m_autoSendOutputMessages) && m_toAddQueue == old(m_toAddQueue)
      ensures ReleaseCounted(old(View()), View(), m)
      ensures Enabled(old(View()), InternalRelease(m)) && View() == Apply(old(View()), InternalRelease(m))
      ensures Inv(View()) && (old(Stalled(View())) ==> Stalled(View()))
    {
      hide Inv, Stalled;
      ghost var s := View();
      ReleaseEnabled(s, m);
      var p, c := messages[m].protocol.value, messages[m].connection.value;
      protocols := protocols[p := protocols[p].(refCount := protocols[p].refCount - 1)];
      connections := connections[c := connections[c].(refCount := connections[c].refCount - 1)];
      messages := messages[m := FREE_MSG];
      m_outputMessages := m_outputMessages + [m];
      releases := releases - multiset{m};
      ApplyKeepsInv(s, InternalRelease(m));
      StalledAfter(s, InternalRelease(m));
    }

    /** A handle goes out of scope; the deleter of the last one queues the release task. */
    method DropHandle(m: MsgId)
      requires Enabled(View(), Drop(m)) && Inv(View())
      modifies this`messages, this`releases
      ensures View() == Apply(old(View()), Drop(m)) && Inv(View())
      ensures DropCounted(old(View()), View(), m)
      ensures old(Stalled(View())) ==> Stalled(View())
    {
      CopiesIn(m_autoSendOutputMessages, m);
      CopiesIn(m_toAddQueue, m);
      hide Inv, Copies, Stalled;
      ghost var s := View();
      messages := messages[m := messages[m].(locals := messages[m].locals - 1)];
      if messages[m].locals + Copies(m_autoSendOutputMessages, m) + Copies(m_toAddQueue, m) == 0 {
        releases := releases + multiset{m};
      }
      ApplyKeepsInv(s, Drop(m));
      StalledAfter(s, Drop(m));
    }

    method AddToAutoSend(m: MsgId)
      requires Inv(View()) && Enabled(View(), PushToAdd(m))
      modifies this`m_toAddQueue
      ensures View() == Apply(old(View()), PushToAdd(m)) && Inv(View())
      ensures m_toAddQueue == old(m_toAddQueue) + [m]
      ensures old(Stalled(View())) ==> Stalled(View())
    {
      hide Inv, Handles, Stalled;
      ghost var s := View();
      m_toAddQueue := m_toAddQueue + [m];
      ApplyKeepsInv(s, PushToAdd(m));
      StalledAfter(s, PushToAdd(m));
    }

    /** One iteration of sendAll's first loop: the front of m_toAddQueue is dropped or requeued. */
    method RequeueFirst(tooOld: bool)
      requires Inv(View()) && m_toAddQueue != []
      modifies this`messages, this`releases, this`m_toAddQueue, this`m_autoSendOutputMessages
      ensures Inv(View()) && messages == old(messages)
      ensures m_toAddQueue == old(m_toAddQueue[1..])
      ensures m_autoSendOutputMessages == old(m_autoSendOutputMessages) + if tooOld then [] else [old(m_toAddQueue[0])]
    {
      hide Inv, Handles, Apply, Enabled;
      var m := m_toAddQueue[0];
      FrontTaken(View());
      messages := messages[m := messages[m].(locals := messages[m].locals + 1)];
      m_toAddQueue := m_toAddQueue[1..];
      if !tooOld {
        HeldRequeued(View(), m);
        m_autoSendOutputMessages := m_autoSendOutputMessages + [m];
      }
      DropEnabled(View(), m);
      DropHandle(m);
      assert messages == old(messages);
    }

    lemma FrontTaken(s: State)
      requires Inv(s) && s.toAdd != []
      ensures s.toAdd[0] in s.msgs && Inv(s.(msgs := AddLocal(s, s.toAdd[0]), toAdd := s.toAdd[1..]))
    {
      hide Inv, Handles;
      InvMembers(s);
      ApplyKeepsInv(s, TakeToAdd);
    }

    lemma FrontSending(s: State)
      requires Inv(s) && s.autoSend != []
      ensures s.autoSend[0] in s.msgs && Inv(s.(msgs := AddLocal(s, s.autoSend[0]), autoSend := s.autoSend[1..]))
    {
      hide Inv, Handles;
      InvMembers(s);
      ApplyKeepsInv(s, TakeAutoSend);
    }

    lemma HeldRequeued(s: State, m: MsgId)
      requires Inv(s) && m in s.msgs && s.msgs[m].locals > 0
      ensures Inv(s.(autoSend := s.autoSend + [m]))
    {
      hide Inv, Copies;
      ApplyKeepsInv(s, PushAutoSend(m));
    }

    lemma DropEnabled(s: State, m: MsgId)
      requires m in s.msgs && s.msgs[m].locals > 0
      ensures Enabled(s, Drop(m))
    {
    }

    /** Connection::send for a message in hand; a refusal changes nothing. */
    method SendMessage(m: MsgId, r: C.WriteResult)
      requires Inv(View()) && m in messages && messages[m].locals > 0
      modifies this`m_toAddQueue, this`connections, this`wire
      ensures Inv(View())
      ensures messages[m].connection.Some? && messages[m].connection.value in old(connections)
      ensures var c := messages[m].connection.value;
              var conn := old(connections)[c];
              && m_toAddQueue == old(m_toAddQueue) + (if C.CanSend(conn) && conn.pendingWrite != 0 then [m] else [])
              && wire == old(wire) + (if C.CanSend(conn) && conn.pendingWrite == 0 then [m] else [])
              && connections == old(connections)[c :=
                   if C.CanSend(conn) && conn.pendingWrite == 0 then C.WriteF(conn, r) else conn]
    {
      hide Inv, Handles, C.WriteF;
      ghost var s := View();
      LocalIsHandle(s, m);
      HandledHasConnection(s, m);
      var c := messages[m].connection.value;
      var conn := connections[c];
      assert connections == connections[c := conn];
      if C.CanSend(conn) {
        if conn.pendingWrite == 0 {
          ApplyKeepsInv(s, Send(m, r));
          connections := connections[c := C.WriteF(conn, r)];
          wire := wire + [m];
        } else {
          PushEnabled(s, m);
          AddToAutoSend(m);
        }
      }
    }

    lemma PushEnabled(s: State, m: MsgId)
      requires m in s.msgs && Handles(s, m) > 0 && BehindWrite(s, m)
      ensures Enabled(s, PushToAdd(m))
    {
    }

    /** One iteration of sendAll's second loop: the front of the auto-send list is written, deferred or refused. */
    method SendFirst(r: C.WriteResult) returns (m: MsgId)
      requires Inv(View()) && m_autoSendOutputMessages != []
      modifies this`messages, this`releases, this`m_toAddQueue, this`m_autoSendOutputMessages, this`connections,
               this`wire
      ensures Inv(View()) && messages == old(messages)
      ensures m == old(m_autoSendOutputMessages[0]) && m_autoSendOutputMessages == old(m_autoSendOutputMessages[1..])
      ensures m in messages && messages[m].connection.Some? && messages[m].connection.value in old(connections)
      ensures var c := messages[m].connection.value;
              var conn := old(connections)[c];
              && m_toAddQueue == old(m_toAddQueue) + (if C.CanSend(conn) && conn.pendingWrite != 0 then [m] else [])
              && wire == old(wire) + (if C.CanSend(conn) && conn.pendingWrite == 0 then [m] else [])
              && connections == old(connections)[c :=
                   if C.CanSend(conn) && conn.pendingWrite == 0 then C.WriteF(conn, r) else conn]
    {
      hide Inv, Copies, C.WriteF, Handles, C.CanSend, Apply, Enabled;
      m := m_autoSendOutputMessages[0];
      FrontSending(View());
      messages := messages[m := messages[m].(locals := messages[m].locals + 1)];
      m_autoSendOutputMessages := m_autoSendOutputMessages[1..];
      SendMessage(m, r);
      DropEnabled(View(), m);
      DropHandle(m);
      assert messages == old(messages);
    }

    /** sendAll. `tooOld` and `outcome` stand for the clock and the socket. The queued messages and then the deferred
        ones that are not too old are sent in that order; every message left without a handle awaits its release. */
    method SendAll(tooOld: MsgId -> bool, outcome: MsgId -> C.WriteResult)
      requires Inv(View())
      modifies this`messages, this`releases, this`m_toAddQueue, this`m_autoSendOutputMessages, this`connections,
               this`wire
      ensures Inv(View()) && messages == old(messages) && m_autoSendOutputMessages == []
      ensures var q := old(m_autoSendOutputMessages) + Young(old(m_toAddQueue), tooOld);
              && Routed(messages, old(connections), q)
              && var d := Drain(messages, old(connections), q, outcome);
                 m_toAddQueue == d.deferred && wire == old(wire) + d.written && connections == d.connections
      ensures forall m :: m in messages && messages[m].inUse && messages[m].locals == 0 && m !in m_toAddQueue ==>
                releases[m] == 1
      ensures Stalled(View()) && |old(wire)| <= |wire|
      ensures old(Stalled(View())) ==> forall m :: m in old(m_toAddQueue) ==> m !in wire[|old(wire)|..]
    {
      hide Inv, C.CanSend, C.WriteF, Drain, Young, Routed, Stalled;
      ghost var auto0, toAdd0 := m_autoSendOutputMessages, m_toAddQueue;
      while m_toAddQueue != []
        invariant Inv(View()) && messages == old(messages) && connections == old(connections) && wire == old(wire)
        invariant m_autoSendOutputMessages + Young(m_toAddQueue, tooOld) == auto0 + Young(toAdd0, tooOld)
        decreases |m_toAddQueue|
      {
        YoungStep(m_autoSendOutputMessages, m_toAddQueue, tooOld);
        RequeueFirst(tooOld(m_toAddQueue[0]));
      }
      YoungNone(tooOld);
      ghost var all := m_autoSendOutputMessages;
      assert all == auto0 + Young(toAdd0, tooOld);
      QueueRouted(View());
      ghost var whole := Drain(messages, connections, all, outcome);
      DeferredUnwritten(old(View()), View(), whole, outcome);
      while m_autoSendOutputMessages != []
        invariant Inv(View()) && messages == old(messages)
        invariant Routed(messages, connections, m_autoSendOutputMessages)
        invariant var d := Drain(messages, connections, m_autoSendOutputMessages, outcome);
                  && whole.connections == d.connections && whole.deferred == m_toAddQueue + d.deferred
                  && old(wire) + whole.written == wire + d.written
        decreases |m_autoSendOutputMessages|
      {
        DrainStep(messages, connections, m_autoSendOutputMessages, outcome, m_toAddQueue, wire);
        var m := SendFirst(outcome(m_autoSendOutputMessages[0]));
      }
      DrainNone(messages, connections, outcome);
      NotQueuedIsReleased(View());
      DeferredStalled(View(), old(connections), all, outcome);
      assert wire == old(wire) + whole.written;
    }

    /** What a pass defers is blocked when it ends. */
    lemma DeferredStalled(s: State, before: map<ConnId, C.Conn>, q: seq<MsgId>, outcome: MsgId -> C.WriteResult)
      requires Routed(s.msgs, before, q)
      requires var d := Drain(s.msgs, before, q, outcome); s.toAdd == d.deferred && s.conns == d.connections
      ensures Stalled(s)
    {
      DrainStalls(s.msgs, before, q, outcome);
      hide Drain, C.Stuck, Routed;
      assert forall m :: OnStuck(s.msgs, s.conns, m) ==> Blocked(s, m);
    }

    /** What was deferred and blocked when a pass began is not written by it. */
    lemma DeferredUnwritten(s0: State, s: State, d: Drained, outcome: MsgId -> C.WriteResult)
      requires s.msgs == s0.msgs && s.conns == s0.conns && Routed(s.msgs, s.conns, s.autoSend)
      requires d == Drain(s.msgs, s.conns, s.autoSend, outcome)
      ensures Stalled(s0) ==> forall m :: m in s0.toAdd ==> m !in d.written
    {
      DrainStalls(s.msgs, s.conns, s.autoSend, outcome);
      hide Drain, C.Stuck, Routed;
      assert forall m :: Blocked(s0, m) ==> OnStuck(s.msgs, s.conns, m);
    }

    lemma YoungStep(auto: seq<MsgId>, q: seq<MsgId>, tooOld: MsgId -> bool)
      requires q != []
      ensures auto + Young(q, tooOld) == (auto + if tooOld(q[0]) then [] else [q[0]]) + Young(q[1..], tooOld)
    {
      if tooOld(q[0]) {
        assert auto + [] == auto;
      } else {
        Associates(auto, [q[0]], Young(q[1..], tooOld));
      }
    }

    lemma Associates(a: seq<MsgId>, b: seq<MsgId>, c: seq<MsgId>)
      ensures a + (b + c) == (a + b) + c
    {
    }

    lemma YoungNone(tooOld: MsgId -> bool)
      ensures Young([], tooOld) == []
    {
    }

    lemma DrainNone(messages: map<MsgId, Msg>, connections: map<ConnId, C.Conn>, outcome: MsgId -> C.WriteResult)
      ensures Routed(messages, connections, [])
      ensures Drain(messages, connections, [], outcome) == Drained(connections, [], [], [])
    {
    }

    lemma DrainStep(messages: map<MsgId, Msg>, connections: map<ConnId, C.Conn>, q: seq<MsgId>,
                    outcome: MsgId -> C.WriteResult, deferred: seq<MsgId>, written: seq<MsgId>)
      requires q != [] && Routed(messages, connections, q)
      ensures var m := q[0];
              var c := messages[m].connection.value;
              var conn := connections[c];
              var writes := C.CanSend(conn) && conn.pendingWrite == 0;
              var defers := C.CanSend(conn) && conn.pendingWrite != 0;
              var after := connections[c := if writes then C.WriteF(conn, outcome(m)) else conn];
              && Routed(messages, after, q[1..])
              && var d, d' := Drain(messages, connections, q, outcome), Drain(messages, after, q[1..], outcome);
                 && d.connections == d'.connections
                 && deferred + d.deferred == (deferred + if defers then [m] else []) + d'.deferred
                 && written + d.written == (written + if writes then [m] else []) + d'.written
    {
      hide C.CanSend, C.WriteF;
      var c := messages[q[0]].connection.value;
      assert connections[c := connections[c]] == connections;
    }

    lemma QueueRouted(s: State)
      requires Inv(s)
      ensures Routed(s.msgs, s.conns, s.autoSend)
    {
      forall m | m in s.autoSend
        ensures m in s.msgs && s.msgs[m].connection.Some? && s.msgs[m].connection.value in s.conns
      {
        CopiesIn(s.autoSend, m);
        HandledHasConnection(s, m);
      }
    }

    lemma NotQueuedIsReleased(s: State)
      requires Inv(s) && s.autoSend == []
      ensures forall m :: m in s.msgs && s.msgs[m].inUse && s.msgs[m].locals == 0 && m !in s.toAdd ==>
                s.releases[m] == 1
    {
      forall m | m in s.msgs && s.msgs[m].inUse && s.msgs[m].locals == 0 && m !in s.toAdd
        ensures s.releases[m] == 1
      {
        assert Placed(s, m);
        CopiesIn(s.toAdd, m);
        CopiesIn(s.autoSend, m);
      }
    }

    lemma LocalIsHandle(s: State, m: MsgId)
      requires m in s.msgs && s.msgs[m].locals > 0
      ensures Handles(s, m) > 0
    {
    }
  }

  /** A message is taken and the next pass of sendAll runs. If its connection sends, with nothing pending and nothing
      queued for it before, the message is written exactly when it was taken for automatic sending. */
  method TakeAndSend(pool: OutputMessagePool, protocol: C.ProtocolId, autosend: bool, newId: MsgId,
                     tooOld: MsgId -> bool, outcome: MsgId -> C.WriteResult)
    returns (m: MsgId)
    requires Inv(pool.View()) && pool.m_isOpen && protocol in pool.protocols && newId !in pool.messages
    requires pool.protocols[protocol].connection.Some?
    requires var c := pool.protocols[protocol].connection.value;
             && c in pool.connections && C.CanSend(pool.connections[c]) && pool.connections[c].pendingWrite == 0
             && forall k :: k in pool.m_autoSendOutputMessages && k in pool.messages ==>
                   pool.messages[k].connection != Some(c)
    modifies pool
    ensures Inv(pool.View()) && |old(pool.wire)| <= |pool.wire|
    ensures m in pool.wire[|old(pool.wire)|..] <==> autosend
  {
    hide Inv, C.CanSend, C.WriteF, Drain, Young, Routed;
    ghost var s := pool.View();
    var msg := pool.GetOutputMessage(protocol, autosend, newId);
    m := msg.value;
    ghost var auto, toAdd, conns := pool.m_autoSendOutputMessages, pool.m_toAddQueue, pool.connections;
    ghost var q := auto + Young(toAdd, tooOld);
    TakenUnqueued(s, protocol, m, autosend);
    ghost var c := s.protos[protocol].connection.value;
    CountIrrelevant(s.conns[c], pool.connections[c].refCount);
    pool.SendAll(tooOld, outcome);
    assert pool.wire[|old(pool.wire)|..] == Drain(pool.messages, conns, q, outcome).written;
    if autosend {
      QueuedIsFirst(pool.messages, conns, auto, Young(toAdd, tooOld), outcome);
    } else {
      DrainRefuses(pool.messages, conns, q, outcome);
      YoungIs(toAdd, tooOld, m);
      assert m !in q;
    }
  }

  lemma CountIrrelevant(c: C.Conn, n: nat)
    ensures C.CanSend(c.(refCount := n)) <==> C.CanSend(c)
  {
  }

  lemma TakenUnqueued(s: State, p: C.ProtocolId, m: MsgId, autosend: bool)
    requires Inv(s) && Enabled(s, Get(p, m, autosend))
    ensures m !in s.autoSend && m !in s.toAdd
    ensures forall k :: k in s.autoSend ==> k in s.msgs
  {
    hide Counted, Linked;
    AvailableUnused(s, m);
  }

  lemma QueuedIsFirst(messages: map<MsgId, Msg>, connections: map<ConnId, C.Conn>, auto: seq<MsgId>, more: seq<MsgId>,
                      outcome: MsgId -> C.WriteResult)
    requires auto != [] && Routed(messages, connections, auto + more)
    requires var m := auto[|auto| - 1];
             && Goes(messages, connections, m)
             && var c := connections[messages[m].connection.value]; C.CanSend(c) && c.pendingWrite == 0
    requires var m := auto[|auto| - 1];
             forall j :: 0 <= j < |auto| - 1 ==>
                auto[j] in messages && messages[auto[j]].connection != messages[m].connection
    ensures auto[|auto| - 1] in Drain(messages, connections, auto + more, outcome).written
  {
    hide C.CanSend, C.WriteF, Drain;
    FirstIsWritten(messages, connections, auto + more, outcome, |auto| - 1);
  }
}
