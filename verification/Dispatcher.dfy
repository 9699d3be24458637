/** The task dispatcher: its critical sections and all their interleavings. */
module Dispatcher {
  import opened Wrappers

  type Ref = nat      // a task object, named by the order of allocation

  datatype ThreadState = Running | Closing | Terminated

  datatype Shared = Shared(list: seq<Ref>, state: ThreadState)

  // ---------- Critical sections as relations ----------

  ghost predicate Added(c: Shared, t: Ref, front: bool, c': Shared, signal: bool) {
    if c.state == Running then
      && c' == c.(list := if front then [t] + c.list else c.list + [t])
      && signal == (c.list == [])
    else
      c' == c && !signal
  }

  ghost predicate Taken(c: Shared, task: Option<Ref>, c': Shared) {
    if c.list != [] && c.state != Terminated then
      task == Some(c.list[0]) && c' == c.(list := c.list[1..])
    else
      task == None && c' == c
  }

  // ---------- The program ----------

  class DispatcherThread {
    var m_taskList: seq<Ref>
    var m_threadState: ThreadState

    ghost function View(): Shared
      reads this
    {
      Shared(m_taskList, m_threadState)
    }

    constructor ()
      ensures View() == Shared([], Terminated)
    {
      m_taskList, m_threadState := [], Terminated;
    }

    /** addTask up to its unlock; the caller then notifies if `doSignal`. */
    method AddTask(task: Ref, pushFront: bool) returns (doSignal: bool)
      modifies this
      ensures Added(old(View()), task, pushFront, View(), doSignal)
      ensures m_threadState == old(m_threadState)
      ensures old(m_threadState) == Running && pushFront ==> m_taskList == [task] + old(m_taskList)
      ensures old(m_threadState) == Running && !pushFront ==> m_taskList == old(m_taskList) + [task]
      ensures old(m_threadState) != Running ==> m_taskList == old(m_taskList)
      ensures doSignal <==> old(m_taskList) == [] && m_taskList == [task]
    {
      doSignal := false;
      if m_threadState == Running {
        doSignal := m_taskList == [];
        if pushFront {
          m_taskList := [task] + m_taskList;
        } else {
          m_taskList := m_taskList + [task];
        }
      }
    }

    /** The end of the thread's critical section. */
    method Take() returns (task: Option<Ref>)
      modifies this
      ensures Taken(old(View()), task, View())
      ensures m_threadState == old(m_threadState)
      ensures task == None <==> old(m_taskList) == [] || old(m_threadState) == Terminated
      ensures task == None ==> m_taskList == old(m_taskList)
      ensures task.Some? ==> [task.value] + m_taskList == old(m_taskList)
    {
      task := None;
      if m_taskList != [] && m_threadState != Terminated {
        task := Some(m_taskList[0]);
        m_taskList := m_taskList[1..];
      }
    }

    method Stop()
      modifies this
      ensures View() == old(View()).(state := Closing)
    {
      m_threadState := Closing;
    }

    /** shutdown and flush: the remaining tasks in the order they are run. */
    method Shutdown() returns (ran: seq<Ref>)
      modifies this
      ensures ran == old(m_taskList) && View() == Shared([], Terminated)
    {
      m_threadState := Terminated;
      ran := [];
      while m_taskList != []
        invariant ran + m_taskList == old(m_taskList) && m_threadState == Terminated
        decreases |m_taskList|
      {
        ran := ran + [m_taskList[0]];
        m_taskList := m_taskList[1..];
      }
    }
  }

  // ---------- The transition system ----------

  datatype Pc = LoopTop | Entered | Waiting(signalled: bool) | Executing(task: Ref) | Exited

  /** The shared members, the thread, adders that still owe a notification, and the history: tasks put
      in front, tasks appended at the back in the order accepted, and tasks taken in order. */
  datatype State = State(c: Shared, pc: Pc, owed: nat, fronts: set<Ref>, backs: seq<Ref>, taken: seq<Ref>)

  datatype Action =
    | Add(task: Ref, front: bool, signal: bool)
    | Notify
    | Close
    | Shutdown
    | Enter
    | TakeOrWait
    | Wake
    | Finish

  ghost predicate Init(s: State) {
    s == State(Shared([], Running), LoopTop, 0, {}, [], [])
  }

  /** Take what the section offers, then unlock. */
  ghost predicate TakeStep(s: State, s': State) {
    exists task ::
      && Taken(s.c, task, s'.c)
      && s' == match task
               case Some(t) => s.(c := s'.c, pc := Executing(t), taken := s.taken + [t])
               case None => s.(c := s'.c, pc := LoopTop)
  }

  /** One step. A task object is added once. Shutdown runs the remaining tasks, taken not to add others. */
  ghost predicate Next(s: State, a: Action, s': State) {
    match a
    case Add(t, front, signal) =>
      && t !in s.fronts && t !in s.backs
      && Added(s.c, t, front, s'.c, signal)
      && s' == if s.c.state != Running then s
               else s.(c := s'.c, owed := if signal then s.owed + 1 else s.owed,
                       fronts := if front then s.fronts + {t} else s.fronts,
                       backs := if front then s.backs else s.backs + [t])
    case Notify =>
      && s.owed > 0
      && s' == s.(owed := s.owed - 1, pc := if s.pc.Waiting? then Waiting(true) else s.pc)
    case Close =>
      s' == s.(c := s.c.(state := Closing))
    case Shutdown =>
      s' == s.(c := Shared([], Terminated), taken := s.taken + s.c.list)
    case Enter =>
      s.pc == LoopTop && s' == s.(pc := if s.c.state == Terminated then Exited else Entered)
    case TakeOrWait =>
      && s.pc == Entered
      && if s.c.list == [] then s' == s.(pc := Waiting(false)) else TakeStep(s, s')
    case Wake =>
      s.pc.Waiting? && TakeStep(s, s')
    case Finish =>
      s.pc.Executing? && s' == s.(pc := LoopTop)
  }

  // ---------- Order ----------

  /** The tasks of a list that were appended at the back. */
  function Backs(list: seq<Ref>, fronts: set<Ref>): seq<Ref> {
    if list == [] then []
    else if list[0] in fronts then Backs(list[1..], fronts)
    else [list[0]] + Backs(list[1..], fronts)
  }

  lemma {:induction false} BacksConcat(a: seq<Ref>, b: seq<Ref>, fronts: set<Ref>)
    ensures Backs(a + b, fronts) == Backs(a, fronts) + Backs(b, fronts)
  {
    if a == [] {
      assert a + b == b;
    } else {
      assert (a + b)[1..] == a[1..] + b;
      BacksConcat(a[1..], b, fronts);
    }
  }

  lemma {:induction false} BacksIgnore(list: seq<Ref>, fronts: set<Ref>, t: Ref)
    requires t !in list
    ensures Backs(list, fronts + {t}) == Backs(list, fronts)
  {
    if list != [] {
      BacksIgnore(list[1..], fronts, t);
    }
  }

  ghost predicate Distinct(list: seq<Ref>) {
    forall i, j :: 0 <= i < j < |list| ==> list[i] != list[j]
  }

  ghost predicate Inv(s: State) {
    var all := s.taken + s.c.list;
    && Distinct(all)
    && (forall t :: t in all <==> t in s.fronts || t in s.backs)
    && Backs(all, s.fronts) == s.backs
    && (forall t :: t in s.fronts ==> t !in s.backs)
    && (s.pc == Waiting(false) && s.owed == 0 ==> s.c.list == [])
    && (s.pc.Executing? ==> s.pc.task in s.taken)
  }

  lemma AddFrontKeeps(s: State, s': State, t: Ref)
    requires Inv(s) && t !in s.fronts && t !in s.backs
    requires s'.c.list == [t] + s.c.list && s'.taken == s.taken && s'.fronts == s.fronts + {t} && s'.backs == s.backs
    ensures var all := s'.taken + s'.c.list;
            Distinct(all) && Backs(all, s'.fronts) == s'.backs
            && forall u :: u in all <==> u in s'.fronts || u in s'.backs
  {
    var was, all := s.taken + s.c.list, s'.taken + s'.c.list;
    assert t !in was && t !in s.taken && t !in s.c.list;
    assert forall i :: 0 <= i < |all| ==>
      all[i] == if i < |s.taken| then was[i] else if i == |s.taken| then t else was[i - 1];
    forall i, j | 0 <= i < j < |all|
      ensures all[i] != all[j]
    {
      var m := |s.taken|;
      if i != m && j != m {
        assert was[if i < m then i else i - 1] != was[if j < m then j else j - 1];
      } else {
        var other := if i == m then j else i;
        assert was[if other < m then other else other - 1] in was;
      }
    }
    BacksIgnore(was, s.fronts, t);
    BacksConcat(s.taken, s.c.list, s'.fronts);
    BacksConcat(s.taken, [t] + s.c.list, s'.fronts);
    assert ([t] + s.c.list)[1..] == s.c.list;
    forall u
      ensures u in all <==> u in was || u == t
    {
      assert u in all <==> u in s.taken || u in [t] || u in s.c.list;
    }
  }

  lemma AddBackKeeps(s: State, s': State, t: Ref)
    requires Inv(s) && t !in s.fronts && t !in s.backs
    requires s'.c.list == s.c.list + [t] && s'.taken == s.taken && s'.fronts == s.fronts && s'.backs == s.backs + [t]
    ensures var all := s'.taken + s'.c.list;
            Distinct(all) && Backs(all, s'.fronts) == s'.backs
            && forall u :: u in all <==> u in s'.fronts || u in s'.backs
  {
    var was, all := s.taken + s.c.list, s'.taken + s'.c.list;
    assert all == was + [t] && t !in was;
    BacksConcat(was, [t], s.fronts);
    assert [t][1..] == [];
    assert Backs([t], s.fronts) == [t];
  }

  lemma TakeKeeps(s: State, s': State)
    requires Inv(s) && TakeStep(s, s')
    ensures Inv(s')
  {
    if s.c.list != [] && s.c.state != Terminated {
      var t := s.c.list[0];
      assert s.c.list == [t] + s.c.list[1..];
      assert s'.taken + s'.c.list == s.taken + s.c.list;
      assert t in s'.taken;
    }
  }

  lemma NextKeepsInv(s: State, a: Action, s': State)
    requires Inv(s) && Next(s, a, s')
    ensures Inv(s')
  {
    match a
    case Add(t, front, _) =>
      if s.c.state == Running {
        if front {
          AddFrontKeeps(s, s', t);
        } else {
          AddBackKeeps(s, s', t);
        }
      }
    case Shutdown => assert s'.taken + s'.c.list == s.taken + s.c.list;
    case TakeOrWait => if s.c.list != [] { TakeKeeps(s, s'); }
    case Wake => TakeKeeps(s, s');
    case _ =>
  }

  // ---------- Whole runs ----------

  ghost predicate IsRun(states: seq<State>, actions: seq<Action>) {
    && |states| == |actions| + 1
    && Init(states[0])
    && forall i {:trigger actions[i]} :: 0 <= i < |actions| ==> Next(states[i], actions[i], states[i + 1])
  }

  lemma {:induction false} RunKeepsInv(states: seq<State>, actions: seq<Action>, i: nat)
    requires IsRun(states, actions) && i < |states|
    ensures Inv(states[i])
  {
    if i > 0 {
      RunKeepsInv(states, actions, i - 1);
      NextKeepsInv(states[i - 1], actions[i - 1], states[i]);
    }
  }

  /** No lost wake-up: whenever the thread is blocked in its wait with tasks queued, a notification is owed. */
  lemma NoLostWakeup(states: seq<State>, actions: seq<Action>, i: nat)
    requires IsRun(states, actions) && i < |states|
    requires states[i].pc == Waiting(false) && states[i].c.list != []
    ensures states[i].owed > 0
  {
    RunKeepsInv(states, actions, i);
  }

  /** Every task is taken at most once, and the back-appended ones in exactly the order they were
      accepted, whatever was put in front of them meanwhile. */
  lemma TakenInOrder(states: seq<State>, actions: seq<Action>, i: nat)
    requires IsRun(states, actions) && i < |states|
    ensures var s := states[i];
            && Distinct(s.taken)
            && Backs(s.taken, s.fronts) + Backs(s.c.list, s.fronts) == s.backs
            && Backs(s.taken, s.fronts) <= s.backs
            && forall t :: t in s.taken ==> t !in s.c.list
  {
    RunKeepsInv(states, actions, i);
    var s := states[i];
    BacksConcat(s.taken, s.c.list, s.fronts);
    var all := s.taken + s.c.list;
    assert forall k :: 0 <= k < |s.taken| ==> all[k] == s.taken[k];
    forall k, l | 0 <= k < |s.taken| && 0 <= l < |s.c.list|
      ensures s.taken[k] != s.c.list[l]
    {
      assert all[k] == s.taken[k] && all[|s.taken| + l] == s.c.list[l];
    }
  }

  /** A step that takes something takes from the front, and others leave the front alone unless they add there. */
  lemma StepAtFront(s: State, a: Action, s': State)
    requires Next(s, a, s') && s.c.list != []
    ensures s'.taken != s.taken ==> |s'.taken| > |s.taken| && s'.taken[|s.taken|] == s.c.list[0]
    ensures s'.taken == s.taken && !(a.Add? && a.front) ==> s'.c.list != [] && s'.c.list[0] == s.c.list[0]
  {
    if a.Shutdown? {
      assert s'.taken[|s.taken|] == s.c.list[0];
    }
  }

  /** While nothing is taken and nothing else is put in front, a task that was put in front stays there. */
  lemma {:induction false} FrontStays(states: seq<State>, actions: seq<Action>, i: nat, j: nat)
    requires IsRun(states, actions) && i < j < |states|
    requires actions[i].Add? && actions[i].front && states[i].c.state == Running
    requires states[j].taken == states[i].taken
    requires forall k :: i < k < j ==> !(actions[k].Add? && actions[k].front)
    ensures states[j].c.list != [] && states[j].c.list[0] == actions[i].task
  {
    assert Next(states[i], actions[i], states[i + 1]);
    if j > i + 1 {
      assert Next(states[j - 1], actions[j - 1], states[j]);
      TakenGrows(states, actions, i, j - 1);
      TakenGrows(states, actions, j - 1, j);
      assert states[j - 1].taken == states[i].taken;
      FrontStays(states, actions, i, j - 1);
      StepAtFront(states[j - 1], actions[j - 1], states[j]);
    }
  }

  lemma {:induction false} TakenGrows(states: seq<State>, actions: seq<Action>, i: nat, j: nat)
    requires IsRun(states, actions) && i <= j < |states|
    ensures states[i].taken <= states[j].taken
  {
    if i < j {
      TakenGrows(states, actions, i, j - 1);
      assert Next(states[j - 1], actions[j - 1], states[j]);
    }
  }

  /** A task put in front is the next one taken, unless another is put in front of it first: whatever was queued, and
      whatever is appended meanwhile, comes later. */
  lemma FrontTakenNext(states: seq<State>, actions: seq<Action>, i: nat, j: nat)
    requires IsRun(states, actions) && i < j < |actions|
    requires actions[i].Add? && actions[i].front && states[i].c.state == Running
    requires states[j].taken == states[i].taken && states[j + 1].taken != states[i].taken
    requires forall k :: i < k < j ==> !(actions[k].Add? && actions[k].front)
    ensures states[i].taken + [actions[i].task] <= states[j + 1].taken
  {
    FrontStays(states, actions, i, j);
    assert Next(states[j], actions[j], states[j + 1]);
    StepAtFront(states[j], actions[j], states[j + 1]);
    TakenGrows(states, actions, j, j + 1);
  }
}
