/** One connection and its close protocol. */
module Connection {
  import opened Wrappers

  type ProtocolId = nat

  datatype ConnectionState = Open | RequestClose | Closing | Closed

  datatype WriteResult = Written | Aborted | Failed | Threw

  /** A connection together with the work it has outstanding elsewhere: close tasks in the dispatcher,
      release retries in the scheduler, stop operations in the io service. `removed` and `detached`
      count how often it has left the manager and let go of its protocol. */
  datatype Conn = Conn(
    state: ConnectionState,
    protocol: Option<ProtocolId>,
    refCount: nat,
    pendingRead: int,
    pendingWrite: int,
    readError: bool,
    writeError: bool,
    socketOpen: bool,
    closeTasks: nat,
    retries: nat,
    stops: nat,
    removed: nat,
    detached: nat)

  const FRESH := Conn(Open, None, 0, 0, 0, false, false, true, 0, 0, 0, 0, 0)

  // ---------- Specification: what each operation does ----------

  function CloseSocketF(c: Conn): Conn {
    if c.socketOpen then c.(pendingRead := 0, pendingWrite := 0, socketOpen := false) else c
  }

  function CloseConnectionF(c: Conn): Conn {
    if c.state == Closed || c.state == RequestClose then c
    else c.(state := RequestClose, closeTasks := c.closeTasks + 1)
  }

  function ReleaseF(c: Conn): Conn {
    if c.refCount > 0 then c.(retries := c.retries + 1) else c.(stops := c.stops + 1)
  }

  function DetachF(c: Conn): Conn {
    if c.protocol.Some? then c.(protocol := None, detached := c.detached + 1) else c
  }

  /** The end of a close task: nothing is left to wait for, or a write is still pending. */
  function FinishF(c: Conn): Conn {
    if c.pendingWrite == 0 || c.writeError then ReleaseF(CloseSocketF(c)).(state := Closed) else c
  }

  /** A close task leaves the dispatcher and runs. */
  function CloseTaskF(c: Conn): Conn
    requires c.closeTasks > 0
  {
    var c0 := c.(closeTasks := c.closeTasks - 1);
    if c0.state != RequestClose then c0
    else
      FinishF(DetachF(c0).(state := Closing))
  }

  function RetryF(c: Conn): Conn
    requires c.retries > 0
  {
    ReleaseF(c.(retries := c.retries - 1))
  }

  function StopF(c: Conn): Conn
    requires c.stops > 0
  {
    c.(stops := c.stops - 1, removed := c.removed + 1, socketOpen := false)
  }

  function WriteErrorF(c: Conn, aborted: bool): Conn {
    (if aborted then c else CloseConnectionF(c)).(writeError := true)
  }

  function OnWriteF(c: Conn, error: bool, aborted: bool): Conn {
    var c1 := if error then WriteErrorF(c, aborted) else c;
    if c1.state != Open || c1.writeError then CloseConnectionF(CloseSocketF(c1))
    else c1.(pendingWrite := c1.pendingWrite - 1)
  }

  predicate CanSend(c: Conn) {
    c.state == Open && !c.writeError
  }

  /** A write: it is synchronous, under the connection lock, and may throw before it starts. */
  function WriteF(c: Conn, r: WriteResult): Conn {
    var c1 := c.(pendingWrite := c.pendingWrite + 1);
    if r == Threw then c1 else OnWriteF(c1, r != Written, r == Aborted)
  }

  function ReadErrorF(c: Conn, aborted: bool): Conn {
    CloseConnectionF((if aborted then c else CloseConnectionF(c)).(readError := true))
  }

  function WriteTimeoutF(c: Conn): Conn {
    if c.pendingWrite > 0 || c.writeError then CloseConnectionF(CloseSocketF(c)) else c
  }

  function ReadTimeoutF(c: Conn): Conn {
    if c.pendingRead > 0 || c.readError then CloseConnectionF(CloseSocketF(c)) else c
  }

  // ---------- What every operation keeps ----------

  ghost predicate Inv(c: Conn) {
    && c.closeTasks == (if c.state == RequestClose then 1 else 0)
    && c.retries + c.stops + c.removed == (if c.state == Closed then 1 else 0)
    && (c.state == Open ==> c.detached == 0)
    && (c.state == Closing || c.state == Closed ==> c.protocol == None)
    && c.detached + (if c.protocol.Some? then 1 else 0) <= 1
    && (c.stops + c.removed > 0 ==> c.refCount == 0)
    && 0 <= c.pendingWrite <= 1
    && (c.state == Closing ==> c.pendingWrite == 1 && !c.writeError)
    && (c.state == Open ==> c.socketOpen)
    && (c.state == Closed ==> !c.socketOpen)
    && (c.pendingWrite == 1 && c.state != Closed ==> c.socketOpen)
  }

  /** What a step keeps: the invariant, and no way back from a later state to OPEN or out of CLOSED. */
  ghost predicate Kept(c: Conn, c': Conn) {
    && Inv(c')
    && (c.state != Open ==> c'.state != Open)
    && (c.state == Closed ==> c'.state == Closed)
  }

  lemma ClosingKeeps(c: Conn)
    ensures Inv(c) ==> Kept(c, CloseConnectionF(c)) && Kept(c, CloseConnectionF(CloseSocketF(c)))
  {
  }

  lemma CloseTaskKeeps(c: Conn)
    requires c.closeTasks > 0
    ensures Inv(c) ==> Kept(c, CloseTaskF(c))
  {
  }

  lemma ReleaseStepsKeep(c: Conn)
    ensures Inv(c) && c.retries > 0 ==> Kept(c, RetryF(c))
    ensures Inv(c) && c.stops > 0 ==> Kept(c, StopF(c))
  {
  }

  lemma OnWriteKeeps(c: Conn, error: bool, aborted: bool)
    ensures Inv(c) && c.pendingWrite == 1 ==> Kept(c, OnWriteF(c, error, aborted))
  {
  }

  lemma WriteKeeps(c: Conn, r: WriteResult)
    ensures Inv(c) && CanSend(c) && c.pendingWrite == 0 ==> Kept(c, WriteF(c, r))
  {
    OnWriteKeeps(c.(pendingWrite := 1), r != Written, r == Aborted);
    hide OnWriteF;
  }

  lemma ReadErrorKeeps(c: Conn, aborted: bool)
    ensures Inv(c) ==> Kept(c, ReadErrorF(c, aborted))
  {
  }

  lemma TimeoutsKeep(c: Conn)
    ensures Inv(c) ==> Kept(c, ReadTimeoutF(c)) && Kept(c, WriteTimeoutF(c))
  {
    ClosingKeeps(c);
    hide CloseConnectionF, CloseSocketF;
  }

  // ---------- What the operations amount to ----------

  /** What a close task does: it detaches the protocol, and it closes the connection and starts its release unless a
      write is pending. Without a request it does nothing. */
  predicate CloseTaskDone(c: Conn, c': Conn) {
    && c'.closeTasks == c.closeTasks - 1
    && (c.state != RequestClose ==> c' == c.(closeTasks := c.closeTasks - 1))
    && (c.state == RequestClose ==>
          && c'.protocol == None && c'.detached == c.detached + (if c.protocol.Some? then 1 else 0)
          && if c.pendingWrite == 0 || c.writeError then
               && c'.state == Closed && !c'.socketOpen
               && c'.stops == c.stops + (if c.refCount == 0 then 1 else 0)
               && c'.retries == c.retries + (if c.refCount == 0 then 0 else 1)
             else
               c'.state == Closing && c'.stops == c.stops && c'.retries == c.retries)
  }

  lemma FinishMeans(c: Conn)
    ensures var c' := FinishF(c);
            && c'.closeTasks == c.closeTasks && c'.protocol == c.protocol && c'.detached == c.detached
            && if c.pendingWrite == 0 || c.writeError then
                 && c'.state == Closed && !c'.socketOpen
                 && c'.stops == c.stops + (if c.refCount == 0 then 1 else 0)
                 && c'.retries == c.retries + (if c.refCount == 0 then 0 else 1)
               else
                 c' == c
  {
  }

  lemma CloseTaskMeans(c: Conn)
    requires c.closeTasks > 0
    ensures CloseTaskDone(c, CloseTaskF(c))
  {
    FinishMeans(DetachF(c.(closeTasks := c.closeTasks - 1)).(state := Closing));
    hide FinishF;
  }

  lemma WriteMeans(c: Conn, r: WriteResult)
    requires CanSend(c) && c.pendingWrite == 0
    ensures var c' := WriteF(c, r);
            match r
            case Written => c' == c
            case Threw => c' == c.(pendingWrite := 1)
            case _ =>
              c'.state == RequestClose && !c'.socketOpen && c'.writeError && c'.closeTasks == c.closeTasks + 1
  {
  }

  // ---------- The program ----------

  class ConnectionObject {
    var m_connectionState: ConnectionState
    var m_protocol: Option<ProtocolId>
    var m_refCount: nat
    var m_pendingRead: int
    var m_pendingWrite: int
    var m_readError: bool
    var m_writeError: bool
    var socketOpen: bool
    var closeTasks: nat
    var retries: nat
    var stops: nat
    var removed: nat
    var detached: nat

    ghost function View(): Conn
      reads this
    {
      Conn(m_connectionState, m_protocol, m_refCount, m_pendingRead, m_pendingWrite, m_readError, m_writeError,
           socketOpen, closeTasks, retries, stops, removed, detached)
    }

    constructor ()
      ensures View() == FRESH
    {
      m_connectionState, m_protocol, m_refCount := Open, None, 0;
      m_pendingRead, m_pendingWrite, m_readError, m_writeError, socketOpen := 0, 0, false, false, true;
      closeTasks, retries, stops, removed, detached := 0, 0, 0, 0, 0;
    }

    method CloseConnection()
      modifies this
      ensures m_connectionState == (if old(m_connectionState) == Closed then Closed else RequestClose)
      ensures closeTasks == old(closeTasks) + (if old(m_connectionState) in {Open, Closing} then 1 else 0)
      ensures View() == old(View()).(state := m_connectionState, closeTasks := closeTasks)
      ensures View() == CloseConnectionF(old(View()))
      ensures old(Inv(View())) ==> Kept(old(View()), View())
    {
      ClosingKeeps(View());
      if m_connectionState == Closed || m_connectionState == RequestClose {
        return;
      }
      m_connectionState := RequestClose;
      closeTasks := closeTasks + 1;
    }

    /** Runs as a dispatcher task; tells whether the protocol must be released. */
    method CloseConnectionTask() returns (release: Option<ProtocolId>)
      requires closeTasks > 0
      modifies this
      ensures CloseTaskDone(old(View()), View())
      ensures View() == CloseTaskF(old(View()))
      ensures release == if old(m_connectionState) == RequestClose then old(m_protocol) else None
      ensures old(Inv(View())) ==> Kept(old(View()), View())
    {
      CloseTaskKeeps(View());
      CloseTaskMeans(View());
      hide Kept, Inv, FinishF, CloseTaskDone;
      release := None;
      closeTasks := closeTasks - 1;
      if m_connectionState != RequestClose {
        return;
      }
      if m_protocol.Some? {
        release := m_protocol;
        m_protocol := None;
        detached := detached + 1;
      }
      m_connectionState := Closing;
      FinishClose();
    }

    /** The end of closeConnectionTask. */
    method FinishClose()
      modifies this
      ensures View() == FinishF(old(View()))
    {
      hide CloseSocketF, ReleaseF;
      if m_pendingWrite == 0 || m_writeError {
        CloseSocket();
        ReleaseConnection();
        m_connectionState := Closed;
      }
    }

    method CloseSocket()
      modifies this
      ensures View() == old(View()).(pendingRead := m_pendingRead, pendingWrite := m_pendingWrite, socketOpen := false)
      ensures if old(socketOpen) then m_pendingRead == 0 && m_pendingWrite == 0 else View() == old(View())
      ensures View() == CloseSocketF(old(View()))
    {
      if socketOpen {
        m_pendingRead, m_pendingWrite := 0, 0;
        socketOpen := false;
      }
    }

    method ReleaseConnection()
      modifies this
      ensures View() == if m_refCount == 0 then old(View()).(stops := old(stops) + 1)
                        else old(View()).(retries := old(retries) + 1)
      ensures View() == ReleaseF(old(View()))
    {
      if m_refCount > 0 {
        retries := retries + 1;
      } else {
        stops := stops + 1;
      }
    }

    method OnStopOperation()
      requires stops > 0
      modifies this
      ensures View() == old(View()).(stops := old(stops) - 1, removed := old(removed) + 1, socketOpen := false)
      ensures View() == StopF(old(View()))
      ensures old(Inv(View())) ==> Kept(old(View()), View())
    {
      ReleaseStepsKeep(View());
      hide Kept, Inv;
      stops := stops - 1;
      if socketOpen {
        socketOpen := false;
      }
      removed := removed + 1;
    }

    method HandleWriteError(aborted: bool)
      modifies this
      ensures m_writeError && (!aborted ==> m_connectionState in {RequestClose, Closed})
      ensures View() == WriteErrorF(old(View()), aborted)
    {
      if !aborted {
        CloseConnection();
      }
      m_writeError := true;
    }

    method OnWriteOperation(error: bool, aborted: bool)
      modifies this
      ensures if !error && old(m_connectionState == Open && !m_writeError) then
                View() == old(View()).(pendingWrite := old(m_pendingWrite) - 1)
              else m_connectionState in {RequestClose, Closed} && !socketOpen && (error ==> m_writeError)
      ensures View() == OnWriteF(old(View()), error, aborted)
      ensures old(Inv(View()) && m_pendingWrite == 1) ==> Kept(old(View()), View())
    {
      OnWriteKeeps(View(), error, aborted);
      hide Kept, Inv, CloseSocketF, CloseConnectionF, WriteErrorF;
      if error {
        HandleWriteError(aborted);
      }
      if m_connectionState != Open || m_writeError {
        CloseSocket();
        CloseConnection();
        return;
      }
      m_pendingWrite := m_pendingWrite - 1;
    }

    /** send and internalSend; `deferred` messages go to the pool's queue. */
    method Send(r: WriteResult) returns (accepted: bool, deferred: bool)
      modifies this
      ensures accepted == old(m_connectionState == Open && !m_writeError)
      ensures deferred == (accepted && old(m_pendingWrite) != 0)
      ensures accepted && !deferred ==>
                match r
                case Written => View() == old(View())
                case Threw => View() == old(View()).(pendingWrite := 1)
                case _ => m_connectionState == RequestClose && !socketOpen && m_writeError
                          && closeTasks == old(closeTasks) + 1
      ensures View() == if accepted && !deferred then WriteF(old(View()), r) else old(View())
      ensures old(Inv(View())) ==> Kept(old(View()), View())
    {
      WriteKeeps(View(), r);
      if CanSend(View()) && m_pendingWrite == 0 {
        WriteMeans(View(), r);
      }
      hide OnWriteF, Kept, Inv;
      if m_connectionState != Open || m_writeError {
        return false, false;
      }
      if m_pendingWrite == 0 {
        m_pendingWrite := m_pendingWrite + 1;
        if r != Threw {
          OnWriteOperation(r != Written, r == Aborted);
        }
        assert View() == WriteF(old(View()), r);
        hide WriteF;
        return true, false;
      }
      return true, true;
    }

    method OnWriteTimeout()
      modifies this
      ensures if old(m_pendingWrite > 0 || m_writeError) then m_connectionState in {RequestClose, Closed} && !socketOpen
              else View() == old(View())
      ensures View() == WriteTimeoutF(old(View()))
      ensures old(Inv(View())) ==> Kept(old(View()), View())
    {
      TimeoutsKeep(View());
      hide Kept, Inv, CloseSocketF, CloseConnectionF;
      if m_pendingWrite > 0 || m_writeError {
        CloseSocket();
        CloseConnection();
      }
    }

    method OnReadTimeout()
      modifies this
      ensures if old(m_pendingRead > 0 || m_readError) then m_connectionState in {RequestClose, Closed} && !socketOpen
              else View() == old(View())
      ensures View() == ReadTimeoutF(old(View()))
      ensures old(Inv(View())) ==> Kept(old(View()), View())
    {
      TimeoutsKeep(View());
      hide Kept, Inv, CloseSocketF, CloseConnectionF;
      if m_pendingRead > 0 || m_readError {
        CloseSocket();
        CloseConnection();
      }
    }

    /** The error path of parsePacket. */
    method HandleReadError(aborted: bool)
      modifies this
      ensures m_connectionState == (if old(m_connectionState) == Closed then Closed else RequestClose)
      ensures closeTasks == old(closeTasks) + (if old(m_connectionState) in {Open, Closing} then 1 else 0)
      ensures m_readError
      ensures View() == old(View()).(state := m_connectionState, closeTasks := closeTasks, readError := true)
      ensures View() == ReadErrorF(old(View()), aborted)
      ensures old(Inv(View())) ==> Kept(old(View()), View())
    {
      ReadErrorKeeps(View(), aborted);
      hide Kept, Inv, CloseConnectionF;
      if !aborted {
        CloseConnection();
      }
      m_readError := true;
      CloseConnection();
    }

    method AddRef()
      modifies this
      ensures View() == old(View()).(refCount := old(m_refCount) + 1)
      ensures old(Inv(View()) && m_protocol.Some?) ==> Kept(old(View()), View())
    {
      m_refCount := m_refCount + 1;
    }

    method UnRef()
      requires m_refCount > 0
      modifies this
      ensures View() == old(View()).(refCount := old(m_refCount) - 1)
      ensures old(Inv(View())) ==> Kept(old(View()), View())
    {
      m_refCount := m_refCount - 1;
    }
  }

  // ---------- Runs of one connection ----------

  /** Everything that can happen to one connection. */
  datatype Action =
    | Attach(p: ProtocolId)
    | AskClose
    | CloseTask
    | Write(r: WriteResult)
    | StartRead
    | ReadOk
    | ReadError(aborted: bool)
    | WriteTimeout
    | ReadTimeout
    | Retry
    | StopOperation
    | Ref
    | Unref

  /** A protocol is attached while the connection is open and has none; a message is written only while sending
      is allowed and no write is pending; a reference can be added only while a protocol is attached. */
  predicate Enabled(c: Conn, a: Action) {
    match a
    case Attach(_) => c.state == Open && c.protocol == None
    case CloseTask => c.closeTasks > 0
    case Write(_) => CanSend(c) && c.pendingWrite == 0
    case ReadOk => c.state == Open && !c.readError
    case Retry => c.retries > 0
    case StopOperation => c.stops > 0
    case Ref => c.protocol.Some?
    case Unref => c.refCount > 0
    case _ => true
  }

  function Apply(c: Conn, a: Action): Conn
    requires Enabled(c, a)
  {
    match a
    case Attach(p) => c.(protocol := Some(p))
    case AskClose => CloseConnectionF(c)
    case CloseTask => CloseTaskF(c)
    case Write(r) => WriteF(c, r)
    case StartRead => c.(pendingRead := c.pendingRead + 1)
    case ReadOk => c.(pendingRead := c.pendingRead - 1)
    case ReadError(aborted) => ReadErrorF(c, aborted)
    case WriteTimeout => WriteTimeoutF(c)
    case ReadTimeout => ReadTimeoutF(c)
    case Retry => RetryF(c)
    case StopOperation => StopF(c)
    case Ref => c.(refCount := c.refCount + 1)
    case Unref => c.(refCount := c.refCount - 1)
  }

  lemma ApplyKeepsInv(c: Conn, a: Action)
    requires Inv(c) && Enabled(c, a)
    ensures Kept(c, Apply(c, a))
  {
    match a
    case AskClose => ClosingKeeps(c);
    case CloseTask => CloseTaskKeeps(c);
    case Write(r) => WriteKeeps(c, r);
    case ReadError(aborted) => ReadErrorKeeps(c, aborted);
    case WriteTimeout => TimeoutsKeep(c);
    case ReadTimeout => TimeoutsKeep(c);
    case Retry => ReleaseStepsKeep(c);
    case StopOperation => ReleaseStepsKeep(c);
    case _ =>
      hide CloseConnectionF, CloseTaskF, WriteF, ReadErrorF, WriteTimeoutF, ReadTimeoutF, RetryF, StopF;
  }

  ghost predicate IsRun(states: seq<Conn>, actions: seq<Action>) {
    && |states| == |actions| + 1
    && states[0] == FRESH
    && forall i {:trigger actions[i]} :: 0 <= i < |actions| ==>
         Enabled(states[i], actions[i]) && states[i + 1] == Apply(states[i], actions[i])
  }

  lemma {:induction false} RunKeepsInv(states: seq<Conn>, actions: seq<Action>, i: nat)
    requires IsRun(states, actions) && i < |states|
    ensures Inv(states[i])
  {
    if i > 0 {
      RunKeepsInv(states, actions, i - 1);
      ApplyKeepsInv(states[i - 1], actions[i - 1]);
    }
  }

  /** In every run: exactly one close task is queued iff a close has been requested, the protocol is detached at most
      once, and the release chain starts once, when the connection closes, so it leaves the manager at most once.
      A connection stays in CLOSING only for a write that has not finished. */
  lemma CloseProtocol(states: seq<Conn>, actions: seq<Action>, i: nat)
    requires IsRun(states, actions) && i < |states|
    ensures var c := states[i];
            && c.closeTasks == (if c.state == RequestClose then 1 else 0)
            && c.detached <= 1
            && c.removed <= 1
            && (c.retries + c.stops + c.removed == if c.state == Closed then 1 else 0)
            && (c.removed == 1 ==> c.refCount == 0 && c.protocol == None)
            && (c.state == Closing ==> c.pendingWrite == 1 && !c.writeError)
            && (c.state == Open ==> c.socketOpen)
            && (c.state == Closed ==> !c.socketOpen)
  {
    RunKeepsInv(states, actions, i);
  }

  /** How a later state compares with an earlier one. */
  ghost predicate MovedOn(c: Conn, c': Conn) {
    && (c.state != Open ==> c'.state != Open)
    && (c.state == Closed ==> c'.state == Closed)
    && c.detached <= c'.detached && c.removed <= c'.removed
  }

  lemma StepMovesOn(c: Conn, a: Action)
    requires Inv(c) && Enabled(c, a)
    ensures MovedOn(c, Apply(c, a))
  {
    ApplyKeepsInv(c, a);
    CountersGrow(c, a);
    hide Apply, Enabled, Inv;
  }

  lemma CountersGrow(c: Conn, a: Action)
    requires Enabled(c, a)
    ensures c.detached <= Apply(c, a).detached && c.removed <= Apply(c, a).removed
  {
    match a
    case CloseTask =>
    case StopOperation =>
    case Write(_) =>
    case _ => hide CloseTaskF, WriteF, StopF;
  }

  /** OPEN is never re-entered and CLOSED is final. */
  lemma {:induction false} StatesMoveOn(states: seq<Conn>, actions: seq<Action>, i: nat, j: nat)
    requires IsRun(states, actions) && i <= j < |states|
    ensures MovedOn(states[i], states[j])
    decreases j
  {
    hide Enabled, Apply, Inv;
    if i < j {
      StatesMoveOn(states, actions, i, j - 1);
      RunKeepsInv(states, actions, j - 1);
      StepMovesOn(states[j - 1], actions[j - 1]);
    }
  }

  /** A close was requested, and nothing is left to wait for. */
  ghost predicate Finishing(c: Conn) {
    c.state == RequestClose && c.pendingWrite == 0
  }

  lemma FinishingStep(c: Conn, a: Action)
    requires Inv(c) && Enabled(c, a) && Finishing(c)
    ensures if a.CloseTask? then Apply(c, a).state == Closed else Finishing(Apply(c, a))
  {
    match a
    case CloseTask =>
    case _ => hide CloseTaskF, Inv;
  }

  /** The write timer gets a connection out of CLOSING: whatever happens after its time-out, the connection stays
      on its way out until the next close task, which closes it for good. */
  lemma {:induction false} TimeoutFinishesClose(states: seq<Conn>, actions: seq<Action>, i: nat, j: nat)
    requires IsRun(states, actions) && i < j < |states|
    requires states[i].state == Closing && actions[i] == WriteTimeout
    ensures if CloseTask in actions[i + 1..j] then states[j].state == Closed
            else Finishing(states[j]) && states[j].closeTasks == 1
    decreases j
  {
    hide Enabled, Apply;
    RunKeepsInv(states, actions, i);
    RunKeepsInv(states, actions, j - 1);
    if j == i + 1 {
      TimeoutRequestsClose(states[i]);
      assert states[j] == Apply(states[i], actions[i]);
    } else {
      TimeoutFinishesClose(states, actions, i, j - 1);
      assert actions[i + 1..j] == actions[i + 1..j - 1] + [actions[j - 1]];
      assert states[j] == Apply(states[j - 1], actions[j - 1]);
      if CloseTask in actions[i + 1..j - 1] {
        StepMovesOn(states[j - 1], actions[j - 1]);
      } else {
        FinishingStep(states[j - 1], actions[j - 1]);
      }
    }
    RunKeepsInv(states, actions, j);
  }

  lemma TimeoutRequestsClose(c: Conn)
    requires Inv(c) && c.state == Closing
    ensures Finishing(Apply(c, WriteTimeout))
  {
  }

  // ---------- Closing closes ----------

  /** Steps that ask for the close, or find out that there is nothing left to talk to. */
  predicate AsksForClose(a: Action) {
    a == AskClose || a.ReadError? || a == Write(Failed) || a == Write(Aborted)
  }

  lemma AskedIsNotOpen(c: Conn, a: Action)
    requires Enabled(c, a) && AsksForClose(a)
    ensures Apply(c, a).state in {RequestClose, Closed}
  {
  }

  /** Once a close has been asked for, by whatever, the connection is never OPEN again. */
  lemma ClosingIsFinal(states: seq<Conn>, actions: seq<Action>, i: nat, j: nat)
    requires IsRun(states, actions) && i < j < |states| && AsksForClose(actions[i])
    ensures states[j].state != Open
  {
    AskedIsNotOpen(states[i], actions[i]);
    StatesMoveOn(states, actions, i + 1, j);
  }

  /** The close task finishes the close unless a write is pending, and starts the release: a stop is posted exactly when
      nothing refers to the connection, otherwise a retry is scheduled. */
  lemma ClosesWhenIdle(states: seq<Conn>, actions: seq<Action>, j: nat)
    requires IsRun(states, actions) && j < |actions| && actions[j] == CloseTask
    ensures var c, c' := states[j], states[j + 1];
            && c.state == RequestClose && c'.protocol == None && c'.closeTasks == 0
            && if c.pendingWrite == 0 || c.writeError then
                 && c'.state == Closed && !c'.socketOpen
                 && c'.stops == (if c.refCount == 0 then 1 else 0) && c'.retries == (if c.refCount == 0 then 0 else 1)
               else
                 c'.state == Closing && c'.socketOpen
  {
    RunKeepsInv(states, actions, j);
    assert Enabled(states[j], actions[j]);
    assert states[j + 1] == Apply(states[j], actions[j]);
    hide StopF, WriteF;
  }

  /** A retry of the release posts the stop exactly when nothing refers to the connection any more, and the stop takes
      it out of the manager. */
  lemma ReleaseEnds(states: seq<Conn>, actions: seq<Action>, j: nat)
    requires IsRun(states, actions) && j < |actions|
    ensures var c, c' := states[j], states[j + 1];
            && (actions[j] == Retry ==>
                  c'.stops == (if c.refCount == 0 then 1 else 0) && c'.retries == (if c.refCount == 0 then 0 else 1))
            && (actions[j] == StopOperation ==> c'.removed == 1)
  {
    RunKeepsInv(states, actions, j);
    assert Enabled(states[j], actions[j]);
    assert states[j + 1] == Apply(states[j], actions[j]);
    hide CloseTaskF, WriteF;
  }

  // ---------- Deferral ----------

  /** Nothing can be written on this connection, now or later: it no longer sends, or a write is pending. */
  predicate Stuck(c: Conn) {
    CanSend(c) ==> c.pendingWrite != 0
  }

  /** While a connection sends, a write stays pending exactly if it was or if it has just thrown. */
  lemma StepWhileSending(c: Conn, a: Action)
    requires Inv(c) && Enabled(c, a) && CanSend(Apply(c, a))
    ensures CanSend(c) && (Apply(c, a).pendingWrite != 0 <==> c.pendingWrite != 0 || a == Write(Threw))
  {
    match a
    case CloseTask =>
    case Write(_) =>
    case _ => hide CloseTaskF, WriteF;
  }

  lemma StuckStays(c: Conn, a: Action)
    requires Inv(c) && Enabled(c, a) && Stuck(c)
    ensures Stuck(Apply(c, a)) && !a.Write?
  {
    if CanSend(Apply(c, a)) {
      StepWhileSending(c, a);
    }
    hide Apply;
  }

  /** A connection that sends has a write pending exactly when a write has thrown, at any time before. */
  lemma {:induction false} PendingAfterThrow(states: seq<Conn>, actions: seq<Action>, i: nat)
    requires IsRun(states, actions) && i < |states| && CanSend(states[i])
    ensures states[i].pendingWrite != 0 <==> Write(Threw) in actions[..i]
  {
    if i > 0 {
      var c, a := states[i - 1], actions[i - 1];
      assert states[i] == Apply(c, a);
      RunKeepsInv(states, actions, i - 1);
      hide Apply, Enabled, Inv, CanSend;
      StepWhileSending(c, a);
      PendingAfterThrow(states, actions, i - 1);
      assert actions[..i] == actions[..i - 1] + [a];
    }
  }
}
