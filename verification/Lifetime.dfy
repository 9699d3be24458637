/** Messages, protocols and connections together: the output message pool, the reference
    counts, and when protocols are deleted and connections torn down. */
module Lifetime {
  import C = Connection
  import opened Connection
  import opened Wrappers

  type ConnId = nat
  type MsgId = nat

  /** `locals` counts the shared_ptr handles held by running code or by a protocol's m_outputBuffer. */
  datatype Msg = Msg(inUse: bool, protocol: Option<ProtocolId>, connection: Option<ConnId>, locals: nat)

  const FREE_MSG := Msg(false, None, None, 0)

  /** A protocol with its outstanding release retries; `deletions` counts `delete this`. */
  datatype Proto = Proto(connection: Option<ConnId>, refCount: nat, retries: nat, deletions: nat)

  /** The pool's three lists and the internalReleaseMessage tasks queued in the dispatcher. */
  datatype State = State(
    conns: map<ConnId, Conn>,
    protos: map<ProtocolId, Proto>,
    msgs: map<MsgId, Msg>,
    free: seq<MsgId>,
    autoSend: seq<MsgId>,
    toAdd: seq<MsgId>,
    releases: multiset<MsgId>)

  /** How many handles a list holds on a message. */
  function Copies(q: seq<MsgId>, m: MsgId): nat {
    multiset(q)[m]
  }

  function Handles(s: State, m: MsgId): nat
    requires m in s.msgs
  {
    s.msgs[m].locals + Copies(s.autoSend, m) + Copies(s.toAdd, m)
  }

  // ---------- Steps ----------

  datatype Action =
    | Connect(c: ConnId)
    | Bind(c: ConnId, p: ProtocolId)
    | ConnOnly(c: ConnId, a: C.Action)
    | RunCloseTask(c: ConnId)
    | ProtocolRetry(p: ProtocolId)
    | Get(p: ProtocolId, m: MsgId, autosend: bool)
    | Copy(m: MsgId)
    | Drop(m: MsgId)
    | TakeAutoSend
    | TakeToAdd
    | PushAutoSend(m: MsgId)
    | PushToAdd(m: MsgId)
    | Send(m: MsgId, r: WriteResult)
    | InternalRelease(m: MsgId)

  /** Steps that concern a single connection only. */
  predicate Local(a: C.Action) {
    !a.Attach? && !a.CloseTask? && !a.Write? && !a.Ref? && !a.Unref?
  }

  /** The message getOutputMessage hands out: the last free one, or a new one. */
  predicate Available(s: State, m: MsgId) {
    if s.free != [] then m == s.free[|s.free| - 1] else m !in s.msgs
  }

  /** The message's connection accepts messages but has a write pending; only then does Connection::send, under the
      connection's lock, defer the message. */
  predicate BehindWrite(s: State, m: MsgId)
    requires m in s.msgs
  {
    && s.msgs[m].connection.Some? && s.msgs[m].connection.value in s.conns
    && var c := s.conns[s.msgs[m].connection.value];
       CanSend(c) && c.pendingWrite != 0
  }

  /** A caller of getOutputMessage holds a protocol that has not been deleted; sending, copying and
      queueing need a handle. Nothing else is assumed. */
  predicate Enabled(s: State, a: Action) {
    match a
    case Connect(c) => c !in s.conns
    case Bind(c, p) => c in s.conns && p !in s.protos && C.Enabled(s.conns[c], Attach(p))
    case ConnOnly(c, b) => c in s.conns && Local(b) && C.Enabled(s.conns[c], b)
    case RunCloseTask(c) =>
      && c in s.conns && s.conns[c].closeTasks > 0
      && (s.conns[c].protocol.Some? ==> s.conns[c].protocol.value in s.protos)
    case ProtocolRetry(p) => p in s.protos && s.protos[p].retries > 0
    case Get(p, m, _) =>
      && p in s.protos && s.protos[p].connection.Some? && s.protos[p].connection.value in s.conns
      && Available(s, m)
    case Copy(m) => m in s.msgs && Handles(s, m) > 0
    case Drop(m) => m in s.msgs && s.msgs[m].locals > 0
    case TakeAutoSend => s.autoSend != [] && s.autoSend[0] in s.msgs
    case TakeToAdd => s.toAdd != [] && s.toAdd[0] in s.msgs
    case PushAutoSend(m) => m in s.msgs && Handles(s, m) > 0
    case PushToAdd(m) => m in s.msgs && Handles(s, m) > 0 && BehindWrite(s, m)
    case Send(m, r) =>
      && m in s.msgs && Handles(s, m) > 0
      && s.msgs[m].connection.Some? && s.msgs[m].connection.value in s.conns
      && C.Enabled(s.conns[s.msgs[m].connection.value], Write(r))
    case InternalRelease(m) =>
      && m in s.releases && m in s.msgs
      && s.msgs[m].protocol.Some? && s.msgs[m].protocol.value in s.protos
      && s.protos[s.msgs[m].protocol.value].refCount > 0
      && s.msgs[m].connection.Some? && s.msgs[m].connection.value in s.conns
      && s.conns[s.msgs[m].connection.value].refCount > 0
  }

  /** releaseProtocol: try again later while messages point at it, otherwise delete it. */
  function ReleaseProtocolF(p: Proto): Proto {
    if p.refCount > 0 then p.(retries := p.retries + 1)
    else p.(connection := None, deletions := p.deletions + 1)
  }

  function RunCloseTaskF(s: State, c: ConnId): State
    requires Enabled(s, RunCloseTask(c))
  {
    var conn := s.conns[c];
    var protos :=
      if conn.state == RequestClose && conn.protocol.Some? then
        var p := conn.protocol.value;
        s.protos[p := ReleaseProtocolF(s.protos[p].(connection := None))]
      else s.protos;
    s.(conns := s.conns[c := CloseTaskF(conn)], protos := protos)
  }

  /** getOutputMessage and configureOutputMessage. */
  function GetF(s: State, p: ProtocolId, m: MsgId, autosend: bool): State
    requires Enabled(s, Get(p, m, autosend))
  {
    var c := s.protos[p].connection.value;
    s.(msgs := s.msgs[m := Msg(true, Some(p), Some(c), 1)],
       free := if s.free != [] then s.free[..|s.free| - 1] else [],
       autoSend := if autosend then s.autoSend + [m] else s.autoSend,
       protos := s.protos[p := s.protos[p].(refCount := s.protos[p].refCount + 1)],
       conns := s.conns[c := s.conns[c].(refCount := s.conns[c].refCount + 1)])
  }

  /** The last handle's deleter queues internalReleaseMessage. */
  function DropF(s: State, m: MsgId): State
    requires Enabled(s, Drop(m))
  {
    var s1 := s.(msgs := s.msgs[m := s.msgs[m].(locals := s.msgs[m].locals - 1)]);
    if Handles(s1, m) == 0 then s1.(releases := s.releases + multiset{m}) else s1
  }

  function InternalReleaseF(s: State, m: MsgId): State
    requires Enabled(s, InternalRelease(m))
  {
    var p, c := s.msgs[m].protocol.value, s.msgs[m].connection.value;
    s.(releases := s.releases - multiset{m},
       protos := s.protos[p := s.protos[p].(refCount := s.protos[p].refCount - 1)],
       conns := s.conns[c := s.conns[c].(refCount := s.conns[c].refCount - 1)],
       msgs := s.msgs[m := FREE_MSG],
       free := s.free + [m])
  }

  function AddLocal(s: State, m: MsgId): map<MsgId, Msg>
    requires m in s.msgs
  {
    s.msgs[m := s.msgs[m].(locals := s.msgs[m].locals + 1)]
  }

  function Apply(s: State, a: Action): State
    requires Enabled(s, a)
  {
    match a
    case Connect(c) => s.(conns := s.conns[c := FRESH])
    case Bind(c, p) =>
      s.(conns := s.conns[c := C.Apply(s.conns[c], Attach(p))], protos := s.protos[p := Proto(Some(c), 0, 0, 0)])
    case ConnOnly(c, b) => s.(conns := s.conns[c := C.Apply(s.conns[c], b)])
    case RunCloseTask(c) => RunCloseTaskF(s, c)
    case ProtocolRetry(p) =>
      s.(protos := s.protos[p := ReleaseProtocolF(s.protos[p].(retries := s.protos[p].retries - 1))])
    case Get(p, m, autosend) => GetF(s, p, m, autosend)
    case Copy(m) => s.(msgs := AddLocal(s, m))
    case Drop(m) => DropF(s, m)
    case TakeAutoSend => s.(msgs := AddLocal(s, s.autoSend[0]), autoSend := s.autoSend[1..])
    case TakeToAdd => s.(msgs := AddLocal(s, s.toAdd[0]), toAdd := s.toAdd[1..])
    case PushAutoSend(m) => s.(autoSend := s.autoSend + [m])
    case PushToAdd(m) => s.(toAdd := s.toAdd + [m])
    case Send(m, r) =>
      var c := s.msgs[m].connection.value;
      s.(conns := s.conns[c := C.Apply(s.conns[c], Write(r))])
    case InternalRelease(m) => InternalReleaseF(s, m)
  }

  // ---------- The invariant ----------

  /** The messages that have not been freed and point at protocol p, or at connection c. */
  ghost function OfProtocol(s: State, p: ProtocolId): set<MsgId> {
    set m | m in s.msgs && s.msgs[m].protocol == Some(p)
  }

  ghost function OfConnection(s: State, c: ConnId): set<MsgId> {
    set m | m in s.msgs && s.msgs[m].connection == Some(c)
  }

  ghost predicate Counted(s: State) {
    && (forall p :: p in s.protos ==> s.protos[p].refCount == |OfProtocol(s, p)|)
    && (forall c :: c in s.conns ==> s.conns[c].refCount == |OfConnection(s, c)|)
  }

  /** A protocol and its connection point at each other until the protocol is detached; from then
      on exactly one release attempt is outstanding or the protocol has been deleted. */
  ghost predicate ProtocolLinked(s: State, p: ProtocolId)
    requires p in s.protos
  {
    var q := s.protos[p];
    if q.connection.Some? then
      && q.connection.value in s.conns && s.conns[q.connection.value].protocol == Some(p)
      && q.retries == 0 && q.deletions == 0
    else
      q.retries + q.deletions == 1 && (q.deletions > 0 ==> q.refCount == 0)
  }

  ghost predicate ConnectionLinked(s: State, c: ConnId)
    requires c in s.conns
  {
    && C.Inv(s.conns[c])
    && (s.conns[c].protocol.Some? ==>
          s.conns[c].protocol.value in s.protos && s.protos[s.conns[c].protocol.value].connection == Some(c))
  }

  ghost predicate Linked(s: State) {
    && (forall p :: p in s.protos ==> ProtocolLinked(s, p))
    && (forall c :: c in s.conns ==> ConnectionLinked(s, c))
  }

  /** A message is in exactly one place: the free list, under a live handle, or in one release task. */
  ghost predicate Placed(s: State, m: MsgId)
    requires m in s.msgs
  {
    var g := s.msgs[m];
    if g.inUse then
      && g.protocol.Some? && g.protocol.value in s.protos
      && g.connection.Some? && g.connection.value in s.conns
      && m !in s.free
      && s.releases[m] == (if Handles(s, m) > 0 then 0 else 1)
    else
      && g == FREE_MSG && m in s.free && Handles(s, m) == 0 && s.releases[m] == 0
  }

  ghost predicate Distinct(q: seq<MsgId>) {
    forall i, j :: 0 <= i < j < |q| ==> q[i] != q[j]
  }

  ghost predicate Pooled(s: State) {
    && Distinct(s.free)
    && (forall m :: m in s.free ==> m in s.msgs)
    && (forall m :: m in s.autoSend || m in s.toAdd || m in s.releases ==> m in s.msgs)
    && (forall m :: m in s.msgs ==> Placed(s, m))
  }

  ghost predicate Inv(s: State) {
    Counted(s) && Linked(s) && Pooled(s)
  }

  // ---------- Preservation, step by step ----------

  lemma CopiesAppend(q: seq<MsgId>, m: MsgId, k: MsgId)
    ensures Copies(q + [m], k) == Copies(q, k) + if k == m then 1 else 0
  {
  }

  lemma CopiesTail(q: seq<MsgId>, k: MsgId)
    requires q != []
    ensures Copies(q, k) == Copies(q[1..], k) + if k == q[0] then 1 else 0
  {
    assert q == [q[0]] + q[1..];
  }

  lemma CopiesIn(q: seq<MsgId>, k: MsgId)
    ensures Copies(q, k) > 0 <==> k in q
  {
  }

  /** A message that no step component touches stays where it is. */
  lemma PlacedKept(s: State, s': State, k: MsgId)
    requires k in s.msgs && k in s'.msgs && Placed(s, k)
    requires s'.msgs[k] == s.msgs[k].(locals := s'.msgs[k].locals)
    requires Handles(s', k) == Handles(s, k) || (s.msgs[k].inUse && Handles(s, k) > 0 && Handles(s', k) > 0)
    requires !s.msgs[k].inUse ==> s'.msgs[k].locals == s.msgs[k].locals
    requires s'.releases[k] == s.releases[k] && (k in s'.free <==> k in s.free)
    requires s.protos.Keys <= s'.protos.Keys && s.conns.Keys <= s'.conns.Keys
    ensures Placed(s', k)
  {
    hide Handles;
  }

  lemma SameMessages(s: State, s': State)
    requires s'.msgs.Keys == s.msgs.Keys
    requires forall m :: m in s.msgs ==>
               s'.msgs[m].protocol == s.msgs[m].protocol && s'.msgs[m].connection == s.msgs[m].connection
    ensures forall p :: OfProtocol(s', p) == OfProtocol(s, p)
    ensures forall c :: OfConnection(s', c) == OfConnection(s, c)
  {
    forall p
      ensures OfProtocol(s', p) == OfProtocol(s, p)
    {
    }
    forall c
      ensures OfConnection(s', c) == OfConnection(s, c)
    {
    }
  }

  /** Steps that move no message: they keep the pool, and the counts if the reference counts are kept. */
  lemma ConnsOnlyKeeps(s: State, s': State)
    requires Inv(s) && s' == s.(conns := s'.conns, protos := s'.protos)
    requires s.conns.Keys <= s'.conns.Keys && s.protos.Keys <= s'.protos.Keys
    requires forall c :: c in s.conns ==> s'.conns[c].refCount == s.conns[c].refCount
    requires forall c :: c in s'.conns && c !in s.conns ==> s'.conns[c].refCount == 0
    requires forall p :: p in s.protos ==> s'.protos[p].refCount == s.protos[p].refCount
    requires forall p :: p in s'.protos && p !in s.protos ==> s'.protos[p].refCount == 0
    ensures Counted(s') && Pooled(s')
  {
    SameMessages(s, s');
    forall p | p in s'.protos
      ensures s'.protos[p].refCount == |OfProtocol(s', p)|
    {
      if p !in s.protos {
        assert OfProtocol(s, p) == {};
      }
    }
    forall c | c in s'.conns
      ensures s'.conns[c].refCount == |OfConnection(s', c)|
    {
      if c !in s.conns {
        assert OfConnection(s, c) == {};
      }
    }
    forall m | m in s'.msgs
      ensures Placed(s', m)
    {
      PlacedKept(s, s', m);
    }
    hide Placed, OfProtocol, OfConnection;
  }

  /** Links survive any change that keeps who points at whom and the connections' own invariant. */
  lemma LinksKept(s: State, s': State)
    requires Linked(s) && s'.conns.Keys == s.conns.Keys && s'.protos.Keys == s.protos.Keys
    requires forall c :: c in s.conns ==> s'.conns[c].protocol == s.conns[c].protocol && C.Inv(s'.conns[c])
    requires forall p :: p in s.protos ==> s'.protos[p] == s.protos[p].(refCount := s'.protos[p].refCount)
    requires forall p :: p in s.protos && s.protos[p].deletions > 0 ==> s'.protos[p].refCount == 0
    ensures Linked(s')
  {
    hide C.Inv;
  }

  lemma ConnectLinks(s: State, s': State, c: ConnId, x: Conn)
    requires Linked(s) && c !in s.conns && s'.conns == s.conns[c := x] && s'.protos == s.protos
    requires C.Inv(x) && x.protocol == None
    ensures Linked(s')
  {
    hide C.Inv;
    forall p | p in s'.protos
      ensures ProtocolLinked(s', p)
    {
      assert ProtocolLinked(s, p);
    }
    forall d | d in s'.conns
      ensures ConnectionLinked(s', d)
    {
      assert d != c ==> ConnectionLinked(s, d);
    }
  }

  lemma ConnectKeeps(s: State, c: ConnId)
    requires Inv(s) && Enabled(s, Connect(c))
    ensures Inv(Apply(s, Connect(c)))
  {
    hide Pooled, Linked, Counted, C.Inv;
    FreshConn();
    ConnectLinks(s, Apply(s, Connect(c)), c, FRESH);
    ConnsOnlyKeeps(s, Apply(s, Connect(c)));
  }

  lemma FreshConn()
    ensures C.Inv(FRESH)
  {
  }

  lemma BindLinks(s: State, s': State, c: ConnId, p: ProtocolId, x: Conn)
    requires Linked(s) && c in s.conns && p !in s.protos && s.conns[c].protocol == None
    requires C.Inv(x) && x.protocol == Some(p)
    requires s'.conns == s.conns[c := x] && s'.protos == s.protos[p := Proto(Some(c), 0, 0, 0)]
    ensures Linked(s')
  {
    hide C.Inv;
  }

  lemma BindKeeps(s: State, c: ConnId, p: ProtocolId)
    requires Inv(s) && Enabled(s, Bind(c, p))
    ensures Inv(Apply(s, Bind(c, p)))
  {
    var s' := Apply(s, Bind(c, p));
    C.ApplyKeepsInv(s.conns[c], Attach(p));
    hide C.Inv, Pooled, Linked;
    ConnsOnlyKeeps(s, s');
    BindLinks(s, s', c, p, s'.conns[c]);
  }

  lemma LocalSteps(c: Conn, a: C.Action)
    requires (Local(a) || a.Write?) && C.Enabled(c, a)
    ensures C.Apply(c, a).refCount == c.refCount && C.Apply(c, a).protocol == c.protocol
  {
  }

  lemma OneConnKeeps(s: State, s': State, c: ConnId, x: Conn)
    requires Inv(s) && c in s.conns && s' == s.(conns := s.conns[c := x])
    requires C.Inv(x) && x.refCount == s.conns[c].refCount && x.protocol == s.conns[c].protocol
    ensures Inv(s')
  {
    hide C.Inv, Pooled;
    ConnsOnlyKeeps(s, s');
    LinksKept(s, s');
  }

  lemma ConnOnlyKeeps(s: State, c: ConnId, b: C.Action)
    requires Inv(s) && Enabled(s, ConnOnly(c, b))
    ensures Inv(Apply(s, ConnOnly(c, b)))
  {
    hide C.Apply, C.Inv, Inv, C.Enabled;
    InvConnection(s, c);
    LocalSteps(s.conns[c], b);
    C.ApplyKeepsInv(s.conns[c], b);
    OneConnKeeps(s, Apply(s, ConnOnly(c, b)), c, C.Apply(s.conns[c], b));
  }

  lemma InvConnection(s: State, c: ConnId)
    requires Inv(s) && c in s.conns
    ensures C.Inv(s.conns[c])
  {
    hide Counted, Pooled, C.Inv;
    assert ConnectionLinked(s, c);
  }

  lemma SendKeeps(s: State, m: MsgId, r: WriteResult)
    requires Inv(s) && Enabled(s, Send(m, r))
    ensures Inv(Apply(s, Send(m, r)))
  {
    hide C.Apply, C.Inv, Inv, C.Enabled;
    var c := s.msgs[m].connection.value;
    InvConnection(s, c);
    LocalSteps(s.conns[c], Write(r));
    C.ApplyKeepsInv(s.conns[c], Write(r));
    OneConnKeeps(s, Apply(s, Send(m, r)), c, C.Apply(s.conns[c], Write(r)));
  }

  lemma CloseTaskEffect(c: Conn)
    requires C.Inv(c) && c.closeTasks > 0
    ensures c.state == RequestClose
    ensures CloseTaskF(c).refCount == c.refCount && CloseTaskF(c).protocol == None
  {
  }

  /** Detaching: the protocol loses its connection and its release begins. */
  lemma DetachLinks(s: State, s': State, c: ConnId, p: ProtocolId, x: Conn)
    requires Linked(s) && c in s.conns && s.conns[c].protocol == Some(p) && p in s.protos
    requires C.Inv(x) && x.protocol == None
    requires s'.conns == s.conns[c := x]
    requires s'.protos == s.protos[p := ReleaseProtocolF(s.protos[p].(connection := None))]
    ensures Linked(s')
  {
    hide C.Inv;
  }

  /** What a close task changes, in terms of its connection x afterwards. */
  lemma CloseTaskChanges(s: State, c: ConnId) returns (x: Conn)
    requires Inv(s) && Enabled(s, RunCloseTask(c))
    ensures C.Inv(x) && x.protocol == None && x.refCount == s.conns[c].refCount
    ensures var s' := RunCloseTaskF(s, c);
            s' == s.(conns := s.conns[c := x], protos :=
              if s.conns[c].protocol.Some? then
                var p := s.conns[c].protocol.value;
                s.protos[p := ReleaseProtocolF(s.protos[p].(connection := None))]
              else s.protos)
  {
    InvConnection(s, c);
    hide Inv, C.Inv, CloseTaskF, ReleaseProtocolF;
    x := CloseTaskF(s.conns[c]);
    CloseTaskEffect(s.conns[c]);
    C.ApplyKeepsInv(s.conns[c], C.Action.CloseTask);
  }

  lemma DetachKeeps(s: State, s': State, c: ConnId, p: ProtocolId, x: Conn)
    requires Inv(s) && c in s.conns && s.conns[c].protocol == Some(p) && p in s.protos
    requires C.Inv(x) && x.protocol == None && x.refCount == s.conns[c].refCount
    requires s' == s.(conns := s.conns[c := x],
                      protos := s.protos[p := ReleaseProtocolF(s.protos[p].(connection := None))])
    ensures Inv(s')
  {
    hide Pooled, Counted, C.Inv, Linked;
    DetachLinks(s, s', c, p, x);
    ConnsOnlyKeeps(s, s');
  }

  lemma RunCloseTaskKeeps(s: State, c: ConnId)
    requires Inv(s) && Enabled(s, RunCloseTask(c))
    ensures Inv(Apply(s, RunCloseTask(c)))
  {
    var x := CloseTaskChanges(s, c);
    var s' := RunCloseTaskF(s, c);
    hide Inv, C.Inv, RunCloseTaskF, ReleaseProtocolF;
    if s.conns[c].protocol.Some? {
      DetachKeeps(s, s', c, s.conns[c].protocol.value, x);
    } else {
      OneConnKeeps(s, s', c, x);
    }
  }

  lemma ProtocolRetryKeeps(s: State, p: ProtocolId)
    requires Inv(s) && Enabled(s, ProtocolRetry(p))
    ensures Inv(Apply(s, ProtocolRetry(p)))
  {
    hide C.Inv, Pooled;
    ConnsOnlyKeeps(s, Apply(s, ProtocolRetry(p)));
  }

  /** Handle moves: the links and counts do not notice them. */
  lemma HandlesOnlyKeeps(s: State, s': State)
    requires Counted(s) && Linked(s)
    requires s' == s.(msgs := s'.msgs, autoSend := s'.autoSend, toAdd := s'.toAdd, releases := s'.releases)
    requires s'.msgs.Keys == s.msgs.Keys
    requires forall m :: m in s.msgs ==> s'.msgs[m] == s.msgs[m].(locals := s'.msgs[m].locals)
    ensures Counted(s') && Linked(s')
  {
    SameMessages(s, s');
  }

  /** Moving or copying handles that exist keeps every message where it is. */
  lemma HandleMoveKeeps(s: State, s': State, m: MsgId)
    requires Inv(s) && m in s.msgs && Handles(s, m) > 0
    requires s' == s.(msgs := s'.msgs, autoSend := s'.autoSend, toAdd := s'.toAdd)
    requires m in s'.msgs && s'.msgs == s.msgs[m := s.msgs[m].(locals := s'.msgs[m].locals)]
    requires forall k :: k in s'.autoSend || k in s'.toAdd ==> k in s'.msgs
    requires Handles(s', m) > 0 && forall k :: k in s.msgs && k != m ==> Handles(s', k) == Handles(s, k)
    ensures Inv(s')
  {
    HandlesOnlyKeeps(s, s');
    hide Counted, Linked, Handles;
    assert Placed(s, m);
    forall k | k in s'.msgs
      ensures Placed(s', k)
    {
      PlacedKept(s, s', k);
    }
    hide Placed;
  }

  lemma InvMembers(s: State)
    requires Inv(s)
    ensures forall k :: k in s.autoSend || k in s.toAdd ==> k in s.msgs
  {
    hide Linked, Counted, Placed;
  }

  lemma TakeAutoSendKeeps(s: State)
    requires Inv(s) && Enabled(s, TakeAutoSend)
    ensures Inv(Apply(s, TakeAutoSend))
  {
    hide Inv, Copies;
    var s', m := Apply(s, TakeAutoSend), s.autoSend[0];
    InvMembers(s);
    CopiesIn(s.autoSend, m);
    CopiesTail(s.autoSend, m);
    forall k | k in s.msgs && k != m
      ensures Handles(s', k) == Handles(s, k)
    {
      CopiesTail(s.autoSend, k);
    }
    assert forall k :: k in s'.autoSend ==> k in s.autoSend;
    HandleMoveKeeps(s, s', m);
  }

  lemma TakeToAddKeeps(s: State)
    requires Inv(s) && Enabled(s, TakeToAdd)
    ensures Inv(Apply(s, TakeToAdd))
  {
    hide Inv, Copies;
    var s', m := Apply(s, TakeToAdd), s.toAdd[0];
    InvMembers(s);
    CopiesIn(s.toAdd, m);
    CopiesTail(s.toAdd, m);
    forall k | k in s.msgs && k != m
      ensures Handles(s', k) == Handles(s, k)
    {
      CopiesTail(s.toAdd, k);
    }
    assert forall k :: k in s'.toAdd ==> k in s.toAdd;
    HandleMoveKeeps(s, s', m);
  }

  lemma PushKeeps(s: State, a: Action, m: MsgId)
    requires Inv(s) && Enabled(s, a) && (a == Copy(m) || a == PushAutoSend(m) || a == PushToAdd(m))
    ensures Inv(Apply(s, a))
  {
    hide Inv, Copies;
    var s' := Apply(s, a);
    InvMembers(s);
    forall k
      ensures Copies(s.autoSend + [m], k) == Copies(s.autoSend, k) + if k == m then 1 else 0
      ensures Copies(s.toAdd + [m], k) == Copies(s.toAdd, k) + if k == m then 1 else 0
    {
      CopiesAppend(s.autoSend, m, k);
      CopiesAppend(s.toAdd, m, k);
    }
    assert s'.msgs == s.msgs[m := s.msgs[m].(locals := s'.msgs[m].locals)];
    HandleMoveKeeps(s, s', m);
  }

  lemma DropKeeps(s: State, m: MsgId)
    requires Inv(s) && Enabled(s, Drop(m))
    ensures Inv(Apply(s, Drop(m)))
  {
    var s' := DropF(s, m);
    hide Pooled, Linked, Counted, DropF;
    DropMovesHandles(s, m);
    HandlesOnlyKeeps(s, s');
    DropKeepsPool(s, s', m);
  }

  lemma DropMovesHandles(s: State, m: MsgId)
    requires Enabled(s, Drop(m))
    ensures var s' := DropF(s, m);
            && s' == s.(msgs := s'.msgs, releases := s'.releases)
            && s'.msgs == s.msgs[m := s.msgs[m].(locals := s'.msgs[m].locals)]
  {
    hide Handles;
  }

  lemma DropKeepsPool(s: State, s': State, m: MsgId)
    requires Pooled(s) && Enabled(s, Drop(m)) && s' == DropF(s, m)
    ensures Pooled(s')
  {
    hide Copies;
    assert Placed(s, m) && Handles(s', m) == Handles(s, m) - 1;
    forall k | k in s'.msgs
      ensures Placed(s', k)
    {
      if k != m {
        assert Handles(s', k) == Handles(s, k) && s'.releases[k] == s.releases[k];
        PlacedKept(s, s', k);
      }
    }
    hide Placed, Handles;
    assert forall k :: k in s'.releases ==> k == m || k in s.releases;
  }

  /** One message starts or stops pointing at a protocol and a connection. */
  lemma OneMessageMoves(s: State, s': State, m: MsgId, p: ProtocolId, c: ConnId)
    requires forall k :: k != m ==> (k in s.msgs <==> k in s'.msgs) && (k in s.msgs ==> s'.msgs[k] == s.msgs[k])
    requires m in s'.msgs && s'.msgs[m].protocol == Some(p) && s'.msgs[m].connection == Some(c)
    requires m in s.msgs ==> s.msgs[m].protocol == None && s.msgs[m].connection == None
    ensures |OfProtocol(s', p)| == |OfProtocol(s, p)| + 1
    ensures |OfConnection(s', c)| == |OfConnection(s, c)| + 1
    ensures forall q :: q != p ==> OfProtocol(s', q) == OfProtocol(s, q)
    ensures forall d :: d != c ==> OfConnection(s', d) == OfConnection(s, d)
  {
    ProtocolGains(s, s', m, p);
    ConnectionGains(s, s', m, c);
  }

  lemma ProtocolGains(s: State, s': State, m: MsgId, p: ProtocolId)
    requires forall k :: k != m ==> (k in s.msgs <==> k in s'.msgs) && (k in s.msgs ==> s'.msgs[k] == s.msgs[k])
    requires m in s'.msgs && s'.msgs[m].protocol == Some(p) && (m in s.msgs ==> s.msgs[m].protocol == None)
    ensures |OfProtocol(s', p)| == |OfProtocol(s, p)| + 1
    ensures forall q :: q != p ==> OfProtocol(s', q) == OfProtocol(s, q)
  {
    assert OfProtocol(s', p) == OfProtocol(s, p) + {m};
    forall q | q != p
      ensures OfProtocol(s', q) == OfProtocol(s, q)
    {
    }
  }

  lemma ConnectionGains(s: State, s': State, m: MsgId, c: ConnId)
    requires forall k :: k != m ==> (k in s.msgs <==> k in s'.msgs) && (k in s.msgs ==> s'.msgs[k] == s.msgs[k])
    requires m in s'.msgs && s'.msgs[m].connection == Some(c) && (m in s.msgs ==> s.msgs[m].connection == None)
    ensures |OfConnection(s', c)| == |OfConnection(s, c)| + 1
    ensures forall d :: d != c ==> OfConnection(s', d) == OfConnection(s, d)
  {
    assert OfConnection(s', c) == OfConnection(s, c) + {m};
    forall d | d != c
      ensures OfConnection(s', d) == OfConnection(s, d)
    {
    }
  }

  lemma AvailableUnused(s: State, m: MsgId)
    requires Pooled(s) && Available(s, m)
    ensures m !in s.autoSend && m !in s.toAdd && m !in s.releases
    ensures m in s.msgs ==> s.msgs[m] == FREE_MSG
    ensures var rest := if s.free != [] then s.free[..|s.free| - 1] else [];
            Distinct(rest) && forall k :: k in rest <==> k in s.free && k != m
  {
    if s.free != [] {
      assert s.free == s.free[..|s.free| - 1] + [m];
      assert m in s.free && Placed(s, m);
    }
  }

  /** A message leaves the free list, or is new, and is given to its first owner. */
  ghost predicate GivenOut(s: State, s': State, m: MsgId, g: Msg) {
    && g.inUse && g.protocol.Some? && g.connection.Some? && g.locals == 1
    && g.protocol.value in s'.protos && g.connection.value in s'.conns
    && s.protos.Keys == s'.protos.Keys && s.conns.Keys == s'.conns.Keys
    && s'.msgs == s.msgs[m := g] && s'.toAdd == s.toAdd && s'.releases == s.releases
    && (s'.autoSend == s.autoSend || s'.autoSend == s.autoSend + [m])
    && (forall k :: k in s'.free <==> k in s.free && k != m)
    && m !in s.releases
  }

  lemma OthersPlaced(s: State, s': State, m: MsgId, g: Msg, k: MsgId)
    requires GivenOut(s, s', m, g) && k in s.msgs && Placed(s, k)
    ensures k in s'.msgs && Placed(s', k)
  {
    hide Copies, Placed;
    if k != m {
      CopiesAppend(s.autoSend, m, k);
      PlacedKept(s, s', k);
    } else {
      NewPlaced(s, s', m, g);
    }
  }

  lemma NewPlaced(s: State, s': State, m: MsgId, g: Msg)
    requires GivenOut(s, s', m, g)
    ensures m in s'.msgs && Placed(s', m)
  {
    hide Copies;
  }

  lemma PoolAfterGet(s: State, s': State, m: MsgId, g: Msg)
    requires Pooled(s) && GivenOut(s, s', m, g) && Distinct(s'.free)
    ensures Pooled(s')
  {
    hide Distinct, Placed;
    forall k | k in s'.msgs
      ensures Placed(s', k)
    {
      if k in s.msgs {
        OthersPlaced(s, s', m, g, k);
      } else {
        NewPlaced(s, s', m, g);
      }
    }
    assert forall k :: k in s'.autoSend ==> k in s.autoSend || k == m;
  }

  lemma GetKeepsPool(s: State, s': State, p: ProtocolId, m: MsgId, autosend: bool)
    requires Pooled(s) && Enabled(s, Get(p, m, autosend)) && s' == GetF(s, p, m, autosend)
    ensures Pooled(s')
  {
    hide Pooled, Available, Distinct, Placed;
    AvailableUnused(s, m);
    PoolAfterGet(s, s', m, s'.msgs[m]);
  }

  /** Adding or removing one reference at both ends. */
  lemma RefLinks(s: State, s': State, p: ProtocolId, c: ConnId, q: Proto, x: Conn)
    requires Linked(s) && p in s.protos && c in s.conns
    requires q == s.protos[p].(refCount := q.refCount) && (s.protos[p].deletions > 0 ==> q.refCount == 0)
    requires C.Inv(x) && x.protocol == s.conns[c].protocol
    requires s'.protos == s.protos[p := q] && s'.conns == s.conns[c := x]
    ensures Linked(s')
  {
    hide C.Inv;
    assert forall r :: r in s.protos ==> ProtocolLinked(s, r);
    assert forall d :: d in s.conns ==> ConnectionLinked(s, d);
    LinksKept(s, s');
  }

  /** The counts after one message starts (or, read backwards, stops) pointing at p and c. */
  lemma RefCounts(s: State, s': State, m: MsgId, p: ProtocolId, c: ConnId, up: bool)
    requires Counted(s) && p in s.protos && c in s.conns
    requires forall k :: k != m ==> (k in s.msgs <==> k in s'.msgs) && (k in s.msgs ==> s'.msgs[k] == s.msgs[k])
    requires var (a, b) := if up then (s, s') else (s', s);
             && m in b.msgs && b.msgs[m].protocol == Some(p) && b.msgs[m].connection == Some(c)
             && (m in a.msgs ==> a.msgs[m].protocol == None && a.msgs[m].connection == None)
    requires s'.protos.Keys == s.protos.Keys && s'.conns.Keys == s.conns.Keys
    requires forall q :: q in s.protos && q != p ==> s'.protos[q] == s.protos[q]
    requires forall d :: d in s.conns && d != c ==> s'.conns[d] == s.conns[d]
    requires s'.protos[p].refCount == s.protos[p].refCount + (if up then 1 else -1)
    requires s'.conns[c].refCount == s.conns[c].refCount + (if up then 1 else -1)
    ensures Counted(s')
  {
    if up {
      OneMessageMoves(s, s', m, p, c);
    } else {
      OneMessageMoves(s', s, m, p, c);
    }
    hide OfProtocol, OfConnection;
  }

  lemma RefKeepsInv(s: State, p: ProtocolId, c: ConnId, x: Conn)
    requires Linked(s) && p in s.protos && s.protos[p].connection == Some(c) && c in s.conns
    requires x == s.conns[c].(refCount := s.conns[c].refCount + 1)
    ensures C.Inv(x) && s.protos[p].deletions == 0
  {
    assert ProtocolLinked(s, p) && ConnectionLinked(s, c);
    C.ApplyKeepsInv(s.conns[c], Ref);
  }

  lemma GetKeepsRest(s: State, s': State, p: ProtocolId, m: MsgId, autosend: bool)
    requires Counted(s) && Linked(s) && Pooled(s) && Enabled(s, Get(p, m, autosend)) && s' == GetF(s, p, m, autosend)
    ensures Counted(s') && Linked(s')
  {
    hide C.Inv, Counted, Linked, Pooled;
    var c := s.protos[p].connection.value;
    var q := s.protos[p].(refCount := s.protos[p].refCount + 1);
    var x := s.conns[c].(refCount := s.conns[c].refCount + 1);
    assert s'.protos == s.protos[p := q] && s'.conns == s.conns[c := x];
    AvailableUnused(s, m);
    hide Available;
    RefKeepsInv(s, p, c, x);
    RefLinks(s, s', p, c, q, x);
    RefCounts(s, s', m, p, c, true);
  }

  lemma GetKeeps(s: State, p: ProtocolId, m: MsgId, autosend: bool)
    requires Inv(s) && Enabled(s, Get(p, m, autosend))
    ensures Inv(Apply(s, Get(p, m, autosend)))
  {
    hide GetF, Counted, Linked, Pooled;
    GetKeepsPool(s, GetF(s, p, m, autosend), p, m, autosend);
    GetKeepsRest(s, GetF(s, p, m, autosend), p, m, autosend);
  }

  lemma FreedPlaced(s: State, s': State, m: MsgId, k: MsgId)
    requires m in s.msgs && Placed(s, m) && k in s.msgs && Placed(s, k)
    requires Enabled(s, InternalRelease(m)) && s' == InternalReleaseF(s, m)
    ensures k in s'.msgs && Placed(s', k)
  {
    hide Copies;
    assert s.releases[m] == 1 && Handles(s, m) == 0;
    if k != m {
      PlacedKept(s, s', k);
    }
  }

  lemma ReleasedNotFree(s: State, m: MsgId)
    requires Pooled(s) && m in s.releases
    ensures m !in s.free && Distinct(s.free + [m])
  {
    assert m in s.msgs && Placed(s, m);
    hide Placed, Handles;
  }

  lemma ReleaseChanges(s: State, m: MsgId)
    requires Enabled(s, InternalRelease(m))
    ensures var s' := InternalReleaseF(s, m);
            && s'.msgs.Keys == s.msgs.Keys && s'.free == s.free + [m] && s'.releases == s.releases - multiset{m}
            && s'.autoSend == s.autoSend && s'.toAdd == s.toAdd
  {
    hide Handles;
  }

  lemma ReleaseKeepsPool(s: State, s': State, m: MsgId)
    requires Pooled(s) && Enabled(s, InternalRelease(m)) && s' == InternalReleaseF(s, m)
    ensures Pooled(s')
  {
    hide Placed, Handles, Distinct, Copies, InternalReleaseF;
    ReleasedNotFree(s, m);
    ReleaseChanges(s, m);
    forall k | k in s'.msgs
      ensures Placed(s', k)
    {
      FreedPlaced(s, s', m, k);
    }
    hide Enabled;
    assert forall k :: k in s'.free <==> k in s.free || k == m;
  }

  lemma ReleaseKeepsRest(s: State, s': State, m: MsgId)
    requires Counted(s) && Linked(s) && Enabled(s, InternalRelease(m)) && s' == InternalReleaseF(s, m)
    ensures Counted(s') && Linked(s')
  {
    hide C.Inv, Counted, Linked;
    var p, c := s.msgs[m].protocol.value, s.msgs[m].connection.value;
    var q := s.protos[p].(refCount := s.protos[p].refCount - 1);
    var x := s.conns[c].(refCount := s.conns[c].refCount - 1);
    assert s'.protos == s.protos[p := q] && s'.conns == s.conns[c := x];
    UnrefKeepsInv(s, p, c, x);
    RefLinks(s, s', p, c, q, x);
    RefCounts(s, s', m, p, c, false);
  }

  lemma UnrefKeepsInv(s: State, p: ProtocolId, c: ConnId, x: Conn)
    requires Linked(s) && p in s.protos && s.protos[p].refCount > 0 && c in s.conns && s.conns[c].refCount > 0
    requires x == s.conns[c].(refCount := s.conns[c].refCount - 1)
    ensures C.Inv(x) && s.protos[p].deletions == 0
  {
    C.ApplyKeepsInv(s.conns[c], Unref);
  }

  lemma InternalReleaseKeeps(s: State, m: MsgId)
    requires Inv(s) && Enabled(s, InternalRelease(m))
    ensures Inv(Apply(s, InternalRelease(m)))
  {
    hide InternalReleaseF, Counted, Linked, Pooled;
    ReleaseKeepsPool(s, InternalReleaseF(s, m), m);
    ReleaseKeepsRest(s, InternalReleaseF(s, m), m);
  }

  /** Every step keeps the invariant. */
  lemma ApplyKeepsInv(s: State, a: Action)
    requires Inv(s) && Enabled(s, a)
    ensures Inv(Apply(s, a))
  {
    hide Inv;
    match a
    case Connect(c) => ConnectKeeps(s, c);
    case Bind(c, p) => BindKeeps(s, c, p);
    case ConnOnly(c, b) => ConnOnlyKeeps(s, c, b);
    case Send(m, r) => SendKeeps(s, m, r);
    case RunCloseTask(c) => RunCloseTaskKeeps(s, c);
    case ProtocolRetry(p) => ProtocolRetryKeeps(s, p);
    case Get(p, m, autosend) => GetKeeps(s, p, m, autosend);
    case Drop(m) => DropKeeps(s, m);
    case TakeAutoSend => TakeAutoSendKeeps(s);
    case TakeToAdd => TakeToAddKeeps(s);
    case Copy(m) => PushKeeps(s, a, m);
    case PushAutoSend(m) => PushKeeps(s, a, m);
    case PushToAdd(m) => PushKeeps(s, a, m);
    case InternalRelease(m) => InternalReleaseKeeps(s, m);
  }

  // ---------- Whole runs ----------

  const INITIAL := State(map[], map[], map[], [], [], [], multiset{})

  ghost predicate IsRun(states: seq<State>, actions: seq<Action>) {
    && |states| == |actions| + 1
    && states[0] == INITIAL
    && forall i {:trigger actions[i]} :: 0 <= i < |actions| ==>
         Enabled(states[i], actions[i]) && states[i + 1] == Apply(states[i], actions[i])
  }

  lemma InitialInv()
    ensures Inv(INITIAL)
  {
  }

  lemma {:induction false} RunKeepsInv(states: seq<State>, actions: seq<Action>, i: nat)
    requires IsRun(states, actions) && i < |states|
    ensures Inv(states[i])
  {
    hide Inv, Apply, Enabled;
    if i == 0 {
      InitialInv();
    } else {
      RunKeepsInv(states, actions, i - 1);
      ApplyKeepsInv(states[i - 1], actions[i - 1]);
    }
  }

  /** In every state of every run: each reference count is the number of messages not yet freed that point
      there, and every message is in exactly one of the free list, a live handle and a release task. */
  lemma CountsAreExact(states: seq<State>, actions: seq<Action>, i: nat)
    requires IsRun(states, actions) && i < |states|
    ensures var s := states[i];
            && (forall p :: p in s.protos ==> s.protos[p].refCount == |OfProtocol(s, p)|)
            && (forall c :: c in s.conns ==> s.conns[c].refCount == |OfConnection(s, c)|)
            && (forall m :: m in s.msgs ==>
                  (if m in s.free then 1 else 0) + (if Handles(s, m) > 0 then 1 else 0) + s.releases[m] == 1)
  {
    RunKeepsInv(states, actions, i);
    var s := states[i];
    assert forall m :: m in s.msgs ==> Placed(s, m);
  }

  /** Safe reclamation: while a message that is not free points at a protocol and a connection, the protocol
      has not been deleted, and the connection has neither been torn down nor told to. */
  lemma NothingFreedEarly(states: seq<State>, actions: seq<Action>, i: nat, m: MsgId)
    requires IsRun(states, actions) && i < |states|
    requires m in states[i].msgs && m !in states[i].free
    ensures var s, g := states[i], states[i].msgs[m];
            && g.protocol.Some? && g.protocol.value in s.protos && s.protos[g.protocol.value].deletions == 0
            && g.connection.Some? && g.connection.value in s.conns
            && s.conns[g.connection.value].stops == 0 && s.conns[g.connection.value].removed == 0
  {
    RunKeepsInv(states, actions, i);
    var s := states[i];
    assert Placed(s, m);
    var p, c := s.msgs[m].protocol.value, s.msgs[m].connection.value;
    assert ProtocolLinked(s, p) && ConnectionLinked(s, c);
    assert m in OfProtocol(s, p) && m in OfConnection(s, c);
  }

  /** A release task always finds a message whose protocol and connection are there to be unreferenced. */
  lemma ReleaseAlwaysPossible(states: seq<State>, actions: seq<Action>, i: nat, m: MsgId)
    requires IsRun(states, actions) && i < |states| && m in states[i].releases
    ensures Enabled(states[i], InternalRelease(m))
  {
    RunKeepsInv(states, actions, i);
    var s := states[i];
    assert m in s.msgs && Placed(s, m);
    var p, c := s.msgs[m].protocol.value, s.msgs[m].connection.value;
    assert m in OfProtocol(s, p) && m in OfConnection(s, c);
  }

  /** Every protocol is deleted at most once, its release starts when it is detached, and exactly one
      attempt is outstanding from then until the deletion. */
  lemma ReleasedOnce(states: seq<State>, actions: seq<Action>, i: nat, p: ProtocolId)
    requires IsRun(states, actions) && i < |states| && p in states[i].protos
    ensures var q := states[i].protos[p];
            && q.retries + q.deletions == (if q.connection.Some? then 0 else 1)
            && (q.deletions == 1 ==> q.refCount == 0)
  {
    RunKeepsInv(states, actions, i);
    assert ProtocolLinked(states[i], p);
  }

  /** A release attempt deletes the protocol exactly when no message points at it any more: at once when it is detached,
      or at a later retry. */
  lemma ReleaseEnds(states: seq<State>, actions: seq<Action>, j: nat, p: ProtocolId)
    requires IsRun(states, actions) && j < |actions| && p in states[j].protos
    requires || actions[j] == ProtocolRetry(p)
             || (exists c ::
                    && actions[j] == RunCloseTask(c)
                    && c in states[j].conns && states[j].conns[c].protocol == Some(p))
    ensures p in states[j + 1].protos && states[j + 1].protos[p].connection == None
    ensures states[j + 1].protos[p].deletions == (if states[j].protos[p].refCount == 0 then 1 else 0)
    ensures states[j + 1].protos[p].retries == (if states[j].protos[p].refCount == 0 then 0 else 1)
  {
    RunKeepsInv(states, actions, j);
    assert Enabled(states[j], actions[j]) && states[j + 1] == Apply(states[j], actions[j]);
    assert ProtocolLinked(states[j], p);
    if actions[j].RunCloseTask? {
      CloseTaskRequested(states[j], actions[j].c);
    }
    hide C.Inv, C.Apply, C.Enabled, CloseTaskF, Counted, Pooled, Linked;
  }

  lemma CloseTaskRequested(s: State, c: ConnId)
    requires Inv(s) && c in s.conns && s.conns[c].closeTasks > 0
    ensures s.conns[c].state == RequestClose
  {
    hide Counted, Pooled;
    assert ConnectionLinked(s, c);
  }

  /** Once a protocol is detached its count can only fall; the same holds for the connection. */
  lemma DetachedCountsFall(states: seq<State>, actions: seq<Action>, i: nat)
    requires IsRun(states, actions) && i < |actions|
    ensures var s, s' := states[i], states[i + 1];
            && (forall p :: p in s.protos && s.protos[p].connection == None ==>
                  p in s'.protos && s'.protos[p].connection == None && s'.protos[p].refCount <= s.protos[p].refCount)
            && (forall c :: c in s.conns && s.conns[c].protocol == None && s.conns[c].state != Open ==>
                  c in s'.conns && s'.conns[c].protocol == None && s'.conns[c].state != Open
                  && s'.conns[c].refCount <= s.conns[c].refCount)
  {
    RunKeepsInv(states, actions, i);
    var s, a := states[i], actions[i];
    var s' := states[i + 1];
    forall p | p in s.protos && s.protos[p].connection == None
      ensures p in s'.protos && s'.protos[p].connection == None && s'.protos[p].refCount <= s.protos[p].refCount
    {
      assert ProtocolLinked(s, p);
      DetachedProtocolStep(s, a, p);
    }
    forall c | c in s.conns && s.conns[c].protocol == None && s.conns[c].state != Open
      ensures c in s'.conns && s'.conns[c].protocol == None && s'.conns[c].state != Open
           && s'.conns[c].refCount <= s.conns[c].refCount
    {
      assert ConnectionLinked(s, c);
      DetachedConnectionStep(s, a, c);
    }
  }

  lemma DetachedProtocolStep(s: State, a: Action, p: ProtocolId)
    requires Inv(s) && Enabled(s, a) && p in s.protos && s.protos[p].connection == None
    ensures var s' := Apply(s, a);
            p in s'.protos && s'.protos[p].connection == None && s'.protos[p].refCount <= s.protos[p].refCount
  {
    hide C.Apply, C.Enabled, C.Inv, CloseTaskF, Handles, Copies, Counted, Pooled;
    if a.RunCloseTask? {
      assert ConnectionLinked(s, a.c);
    }
    hide Linked;
  }

  lemma DetachedConnectionStep(s: State, a: Action, c: ConnId)
    requires Inv(s) && Enabled(s, a) && c in s.conns && s.conns[c].protocol == None && s.conns[c].state != Open
    ensures var s' := Apply(s, a);
            && c in s'.conns && s'.conns[c].protocol == None && s'.conns[c].state != Open
            && s'.conns[c].refCount <= s.conns[c].refCount
  {
    hide Handles, Copies, CloseTaskF, Counted, Pooled, C.Inv, C.Apply, C.Enabled;
    match a
    case Bind(d, p) => AttachWhileOpen(s.conns[d], p);
    case Get(p, _, _) => assert ProtocolLinked(s, p);
    case RunCloseTask(d) =>
      assert ConnectionLinked(s, d);
      CloseTaskMovesOn(s.conns[d]);
    case ConnOnly(d, b) =>
      assert ConnectionLinked(s, d);
      C.StepMovesOn(s.conns[d], b);
      LocalSteps(s.conns[d], b);
    case Send(m, r) =>
      var d := s.msgs[m].connection.value;
      InvConnection(s, d);
      C.StepMovesOn(s.conns[d], Write(r));
      LocalSteps(s.conns[d], Write(r));
    case _ =>
  }

  lemma AttachWhileOpen(c: Conn, p: ProtocolId)
    requires C.Enabled(c, Attach(p))
    ensures c.state == Open
  {
  }

  lemma CloseTaskMovesOn(c: Conn)
    requires C.Inv(c) && c.closeTasks > 0
    ensures CloseTaskF(c).refCount == c.refCount && CloseTaskF(c).protocol == None && CloseTaskF(c).state != Open
  {
    CloseTaskEffect(c);
  }

  // ---------- One connection of many ----------

  /** What a step means to connection c. */
  function ActionOn(s: State, a: Action, c: ConnId): Option<C.Action>
    requires Enabled(s, a)
  {
    match a
    case Bind(d, p) => if d == c then Some(Attach(p)) else None
    case ConnOnly(d, b) => if d == c then Some(b) else None
    case RunCloseTask(d) => if d == c then Some(C.Action.CloseTask) else None
    case Get(p, _, _) => if s.protos[p].connection == Some(c) then Some(Ref) else None
    case Send(m, r) => if s.msgs[m].connection == Some(c) then Some(Write(r)) else None
    case InternalRelease(m) => if s.msgs[m].connection == Some(c) then Some(Unref) else None
    case _ => None
  }

  /** Every step is a step of the close protocol for each connection, or does not touch it. */
  lemma StepOfConnection(s: State, a: Action, c: ConnId)
    requires Inv(s) && Enabled(s, a) && c in s.conns
    ensures c in Apply(s, a).conns
    ensures match ActionOn(s, a, c)
            case None => Apply(s, a).conns[c] == s.conns[c]
            case Some(b) => C.Enabled(s.conns[c], b) && Apply(s, a).conns[c] == C.Apply(s.conns[c], b)
  {
    hide Inv, Handles, Copies, CloseTaskF, WriteF, Available, ReleaseProtocolF, BehindWrite;
    match a
    case Get(p, _, _) => AttachedWhileGetting(s, p);
    case RunCloseTask(_) =>
    case InternalRelease(_) =>
    case _ => hide C.Apply, C.Enabled;
  }

  lemma AttachedWhileGetting(s: State, p: ProtocolId)
    requires Inv(s) && p in s.protos && s.protos[p].connection.Some?
    ensures s.protos[p].connection.value in s.conns && s.conns[s.protos[p].connection.value].protocol == Some(p)
  {
    hide Counted, Pooled, C.Inv;
    assert ProtocolLinked(s, p);
  }

  // ---------- Deferred messages ----------

  /** Nothing will be written on the message's connection any more. */
  ghost predicate Blocked(s: State, m: MsgId) {
    && m in s.msgs
    && s.msgs[m].connection.Some? && s.msgs[m].connection.value in s.conns
    && Stuck(s.conns[s.msgs[m].connection.value])
  }

  /** All deferred messages are blocked. */
  ghost predicate Stalled(s: State) {
    forall m :: m in s.toAdd ==> Blocked(s, m)
  }

  /** A message in use keeps its connection until it is released. */
  lemma ConnectionKept(s: State, a: Action, m: MsgId)
    requires Inv(s) && Enabled(s, a) && m in s.msgs && s.msgs[m].connection.Some? && a != InternalRelease(m)
    ensures m in Apply(s, a).msgs && Apply(s, a).msgs[m].connection == s.msgs[m].connection
  {
    hide Inv, Handles, Copies, C.Apply, C.Enabled, CloseTaskF, Available, ReleaseProtocolF, BehindWrite;
    match a
    case Get(_, k, _) => AvailableIsOther(s, k, m);
    case _ =>
  }

  lemma AvailableIsOther(s: State, m: MsgId, k: MsgId)
    requires Inv(s) && Available(s, m) && k in s.msgs && s.msgs[k].connection.Some?
    ensures m != k
  {
    hide Counted, Linked, Handles;
    assert Placed(s, k);
  }

  lemma BlockedStays(s: State, a: Action, m: MsgId)
    requires Inv(s) && Enabled(s, a) && Blocked(s, m) && a != InternalRelease(m)
    ensures Blocked(Apply(s, a), m) && !(a.Send? && a.m == m)
  {
    var c := s.msgs[m].connection.value;
    ConnectionKept(s, a, m);
    StepOfConnection(s, a, c);
    InvConnection(s, c);
    hide Inv, C.Apply, C.Enabled, Apply, C.Inv, Stuck, Handles;
    if ActionOn(s, a, c).Some? {
      StuckStays(s.conns[c], ActionOn(s, a, c).value);
    }
  }

  lemma ApplyKeepsStalled(s: State, a: Action)
    requires Inv(s) && Enabled(s, a) && Stalled(s)
    ensures Stalled(Apply(s, a))
  {
    var s' := Apply(s, a);
    forall m | m in s'.toAdd
      ensures Blocked(s', m)
    {
      DeferredBefore(s, a, m);
      BlockedStays(s, a, m);
    }
  }

  /** A message that is deferred after a step was blocked before it and is not released by it. */
  lemma DeferredBefore(s: State, a: Action, m: MsgId)
    requires Inv(s) && Enabled(s, a) && Stalled(s) && m in Apply(s, a).toAdd
    ensures Blocked(s, m) && a != InternalRelease(m)
  {
    hide Inv, Apply;
    DeferredFrom(s, a, m);
    if a == PushToAdd(m) {
      hide Stalled, Handles, Stuck;
      assert Blocked(s, m);
    } else {
      hide Enabled, Blocked;
      if a == InternalRelease(m) {
        ReleasedNotDeferred(s, m);
      }
    }
  }

  lemma ReleasedNotDeferred(s: State, m: MsgId)
    requires Inv(s) && Enabled(s, InternalRelease(m))
    ensures m !in s.toAdd
  {
    hide Linked, Counted;
    assert Placed(s, m);
    CopiesIn(s.toAdd, m);
  }

  lemma DeferredFrom(s: State, a: Action, m: MsgId)
    requires Enabled(s, a) && m in Apply(s, a).toAdd
    ensures m in s.toAdd || a == PushToAdd(m)
  {
    hide C.Apply, C.Enabled, CloseTaskF, Handles;
  }

  lemma {:induction false} RunKeepsStalled(states: seq<State>, actions: seq<Action>, i: nat)
    requires IsRun(states, actions) && i < |states|
    ensures Stalled(states[i])
  {
    hide Inv, Apply, Enabled;
    if i > 0 {
      RunKeepsInv(states, actions, i - 1);
      RunKeepsStalled(states, actions, i - 1);
      hide Stalled;
      ApplyKeepsStalled(states[i - 1], actions[i - 1]);
    }
  }

  /** Once deferred, a message is never written: in every run, from a state in which it is deferred until it is
      released, whatever passes of sendAll move it between the lists. */
  lemma {:induction false} DeferredNeverWritten(states: seq<State>, actions: seq<Action>, i: nat, j: nat, m: MsgId)
    requires IsRun(states, actions) && i <= j < |actions| && m in states[i].toAdd
    requires InternalRelease(m) !in actions[i..j + 1]
    ensures Blocked(states[j], m) && !(actions[j].Send? && actions[j].m == m)
    decreases j
  {
    hide Inv, Apply, Enabled, Blocked;
    RunKeepsInv(states, actions, j);
    RunKeepsStalled(states, actions, i);
    assert actions[i..j + 1][j - i] == actions[j];
    if i < j {
      assert actions[i..j + 1] == actions[i..j] + [actions[j]];
      assert actions[i..j][j - 1 - i] == actions[j - 1];
      DeferredNeverWritten(states, actions, i, j - 1, m);
      RunKeepsInv(states, actions, j - 1);
      BlockedStays(states[j - 1], actions[j - 1], m);
    }
    BlockedStays(states[j], actions[j], m);
  }

  /** Step i is a write on connection c that threw. */
  ghost predicate ThrewAt(states: seq<State>, actions: seq<Action>, i: nat, c: ConnId)
    requires i < |actions| && i < |states|
  {
    && actions[i].Send? && actions[i].r == Threw
    && actions[i].m in states[i].msgs && states[i].msgs[actions[i].m].connection == Some(c)
  }

  ghost predicate ThrewBefore(states: seq<State>, actions: seq<Action>, j: nat, c: ConnId)
    requires j <= |actions| && j <= |states|
  {
    exists i: nat :: i < j && ThrewAt(states, actions, i, c)
  }

  lemma ThrewStep(states: seq<State>, actions: seq<Action>, j: nat, c: ConnId)
    requires IsRun(states, actions) && j < |actions|
    ensures ThrewBefore(states, actions, j + 1, c) <==>
            ThrewBefore(states, actions, j, c) || ActionOn(states[j], actions[j], c) == Some(Write(Threw))
  {
    hide Inv, Apply, Handles, C.Enabled;
    assert Enabled(states[j], actions[j]);
    assert ThrewAt(states, actions, j, c) <==> ActionOn(states[j], actions[j], c) == Some(Write(Threw));
    hide ThrewAt, Enabled;
  }

  /** In every run, a connection that sends has a write pending exactly when a write on it has thrown. */
  lemma {:induction false} PendingBehindThrow(states: seq<State>, actions: seq<Action>, j: nat, c: ConnId)
    requires IsRun(states, actions) && j < |states|
    ensures c !in states[j].conns ==> !ThrewBefore(states, actions, j, c)
    ensures c in states[j].conns && CanSend(states[j].conns[c]) ==>
              (states[j].conns[c].pendingWrite != 0 <==> ThrewBefore(states, actions, j, c))
  {
    if j > 0 {
      hide Inv, Apply, Enabled, ThrewBefore, CanSend, ActionOn;
      RunKeepsInv(states, actions, j - 1);
      PendingBehindThrow(states, actions, j - 1, c);
      ThrewStep(states, actions, j - 1, c);
      PendingStep(states[j - 1], actions[j - 1], c);
    }
  }

  lemma PendingStep(s: State, a: Action, c: ConnId)
    requires Inv(s) && Enabled(s, a)
    ensures c !in s.conns ==> ActionOn(s, a, c) != Some(Write(Threw))
    ensures c !in s.conns && c in Apply(s, a).conns ==> Apply(s, a).conns[c].pendingWrite == 0
    ensures c in s.conns ==> c in Apply(s, a).conns
    ensures c in s.conns && CanSend(Apply(s, a).conns[c]) ==>
              && CanSend(s.conns[c])
              && (Apply(s, a).conns[c].pendingWrite != 0 <==>
                    s.conns[c].pendingWrite != 0 || ActionOn(s, a, c) == Some(Write(Threw)))
  {
    hide Inv, Apply, Enabled, CanSend, ActionOn;
    if c in s.conns {
      SendingStep(s, a, c);
    } else {
      NewConnection(s, a, c);
    }
  }

  lemma SendingStep(s: State, a: Action, c: ConnId)
    requires Inv(s) && Enabled(s, a) && c in s.conns
    ensures c in Apply(s, a).conns
    ensures CanSend(Apply(s, a).conns[c]) ==>
              && CanSend(s.conns[c])
              && (Apply(s, a).conns[c].pendingWrite != 0 <==>
                    s.conns[c].pendingWrite != 0 || ActionOn(s, a, c) == Some(Write(Threw)))
  {
    StepOfConnection(s, a, c);
    InvConnection(s, c);
    hide Inv, Apply, Enabled, CanSend, C.Apply, C.Enabled, C.Inv;
    if CanSend(Apply(s, a).conns[c]) && ActionOn(s, a, c).Some? {
      StepWhileSending(s.conns[c], ActionOn(s, a, c).value);
    }
  }

  /** A step that is not about c leaves it unknown or makes it a fresh connection. */
  lemma NewConnection(s: State, a: Action, c: ConnId)
    requires Inv(s) && Enabled(s, a) && c !in s.conns
    ensures ActionOn(s, a, c) != Some(Write(Threw))
    ensures c in Apply(s, a).conns ==> Apply(s, a).conns[c] == FRESH
  {
    hide Inv, C.Apply, C.Enabled, CloseTaskF, Handles;
  }

  /** A message is deferred only behind a write that threw, on the same connection. */
  lemma DeferredBehindThrow(states: seq<State>, actions: seq<Action>, j: nat, m: MsgId)
    requires IsRun(states, actions) && j < |actions| && actions[j] == PushToAdd(m)
    ensures m in states[j].msgs && states[j].msgs[m].connection.Some?
    ensures ThrewBefore(states, actions, j, states[j].msgs[m].connection.value)
  {
    assert Enabled(states[j], actions[j]);
    hide Apply, Handles, ThrewBefore, CanSend;
    PendingBehindThrow(states, actions, j, states[j].msgs[m].connection.value);
  }
}
