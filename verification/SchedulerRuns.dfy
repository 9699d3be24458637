/** All interleavings of the scheduler thread, its clients and the clock. */
module SchedulerRuns {
  import opened Scheduler
  import opened Wrappers

  /** Where the scheduler thread is. `Holding` is between the unlock and the hand-over. */
  datatype Pc = LoopTop | Entered | Waiting(wait: Wait, signalled: bool) | Holding(task: Ref, run: bool) | Exited

  datatype HandOver = HandOver(task: Ref, at: Time)

  /** The shared members, the clock, the thread, and the history the theorems talk about:
      tasks created but not yet added, adders that still owe a notification, ids issued,
      tasks accepted, the task each id was issued to, ids for which stopEvent answered true, hand-overs, tasks
      thrown away, and whether there has been a shutdown. */
  datatype State = State(c: Shared, now: Time, pc: Pc, owed: nat, created: set<Ref>, issued: nat,
                         accepted: set<Ref>, owner: map<nat, Ref>, stopped: set<nat>, handed: seq<HandOver>,
                         dropped: set<Ref>, down: bool)

  datatype Action =
    | Tick(to: Time)
    | Create(delay: nat)
    | Add(task: Ref, id: nat, signal: bool)
    | Notify
    | Stop(id: nat, found: bool)
    | Close
    | Shutdown
    | Enter
    | BeginWait(wait: Wait)
    | Wake(ret: bool, task: Ref, run: bool)
    | Deliver

  ghost predicate Init(s: State) {
    s == State(Shared(map[], {}, {}, 0, Running), s.now, LoopTop, 0, {}, 0, {}, map[], {}, [], {}, false)
  }

  /** One step. `Close` is Scheduler::stop. */
  ghost predicate Next(s: State, a: Action, s': State)
    requires s.c.Timed()
    requires forall t :: t in s.created ==> t in s.c.tasks && s.c.tasks[t].expiration.Some?
  {
    match a
    case Tick(to) =>
      to >= s.now && s' == s.(now := to)
    case Create(delay) =>
      && delay != 0
      && exists t :: t !in s.c.tasks && s' == s.(
                       c := s.c.(tasks := s.c.tasks[t := CreateSchedulerTask(s.now, delay)]),
                       created := s.created + {t})
    case Add(t, id, signal) =>
      && t in s.created
      && Added(s.c, t, s'.c, id, signal)
      && s' == s.(c := s'.c, created := s.created - {t},
                  owed := if signal then s.owed + 1 else s.owed,
                  issued := if s.c.state == Running then s.issued + 1 else s.issued,
                  accepted := if s.c.state == Running then s.accepted + {t} else s.accepted,
                  owner := if s.c.state == Running then s.owner[id := t] else s.owner)
    case Notify =>
      && s.owed > 0
      && s' == s.(owed := s.owed - 1, pc := if s.pc.Waiting? then s.pc.(signalled := true) else s.pc)
    case Stop(id, found) =>
      && Stopped(s.c, id, s'.c, found)
      && s' == s.(c := s'.c, stopped := if found then s.stopped + {id} else s.stopped)
    case Close =>
      s' == s.(c := s.c.(state := Closing))
    case Shutdown =>
      s' == s.(c := s.c.(state := Terminated, queue := {}, ids := {}), dropped := s.dropped + s.c.queue, down := true)
    case Enter =>
      && s.pc == LoopTop
      && s' == s.(pc := if s.c.state == Terminated then Exited else Entered)
    case BeginWait(w) =>
      && s.pc == Entered
      && (w == Forever <==> s.c.queue == {})
      && (w.Until? ==> exists t :: s.c.IsTop(t) && w.deadline == s.c.Cycle(t))
      && s' == s.(pc := Waiting(w, false))
    case Wake(ret, t, run) =>
      && s.pc.Waiting?
      && (!ret ==> s.pc.wait.Until? && s.pc.wait.deadline <= s.now)
      && if !ret && s.c.state != Terminated then
           && Popped(s.c, s'.c, t, run)
           && s' == s.(c := s'.c, pc := Holding(t, run))
         else
           s' == s.(pc := LoopTop)
    case Deliver =>
      && s.pc.Holding?
      && s' == if s.pc.run then
                 s.(c := DontExpire(s.c, s.pc.task), pc := LoopTop, handed := s.handed + [HandOver(s.pc.task, s.now)])
               else
                 s.(pc := LoopTop, dropped := s.dropped + {s.pc.task})
  }

  // ---------- The invariant ----------

  /** Not before the requested delay, which is at least the minimum. */
  function Due(t: Task): Time {
    t.created + if t.delay < MIN_TICKS then MIN_TICKS else t.delay
  }

  ghost predicate TaskTable(s: State) {
    && s.c.Timed()
    && s.created !! s.accepted
    && s.created <= s.c.tasks.Keys && s.accepted <= s.c.tasks.Keys
    && s.c.queue <= s.accepted
    && (forall t :: t in s.created ==> s.c.tasks[t].eventId == 0 && s.c.tasks[t].expiration == Some(Due(s.c.tasks[t])))
    && (forall t :: t in s.c.queue ==> s.c.tasks[t].expiration == Some(Due(s.c.tasks[t])))
  }

  ghost predicate IsHanded(s: State, t: Ref) {
    exists i :: 0 <= i < |s.handed| && s.handed[i].task == t
  }

  ghost predicate Held(s: State, t: Ref) {
    s.pc.Holding? && s.pc.task == t
  }

  /** What is known about every hand-over, and about the task in the thread's hands. */
  ghost predicate Delivered(s: State)
    requires TaskTable(s)
  {
    && (forall i, j :: 0 <= i < j < |s.handed| ==> s.handed[i].task != s.handed[j].task)
    && (forall i :: 0 <= i < |s.handed| ==>
          var t := s.handed[i].task;
          && t in s.accepted && t !in s.c.queue && !Held(s, t) && t !in s.dropped
          && Due(s.c.tasks[t]) <= s.handed[i].at
          && s.c.tasks[t].expiration == None)
    && (s.pc.Holding? ==>
          var t := s.pc.task;
          && t in s.accepted && t !in s.c.queue && t !in s.dropped
          && s.c.tasks[t].expiration == Some(Due(s.c.tasks[t])) && Due(s.c.tasks[t]) <= s.now)
  }

  /** No accepted task is lost: it is queued, in the thread's hands, handed over, or was thrown away. */
  ghost predicate Conserved(s: State)
    requires TaskTable(s)
  {
    && s.dropped <= s.accepted && s.dropped !! s.c.queue
    && (forall t :: t in s.accepted ==> t in s.c.queue || Held(s, t) || IsHanded(s, t) || t in s.dropped)
    && (s.down ==> s.c.queue == {} && s.c.state != Running)
    && (s.c.state == Terminated ==> s.down)
  }

  /** A thread that waits until d has a queued task due by d. */
  ghost predicate TimerCovered(s: State)
    requires TaskTable(s)
  {
    s.pc.Waiting? && s.pc.wait.Until? && !s.down ==>
      exists t :: t in s.c.queue && s.c.Cycle(t) <= s.pc.wait.deadline
  }

  /** A blocked thread that is owed no notification waits for the right moment. */
  ghost predicate NoLostWakeup(s: State)
    requires TaskTable(s)
  {
    s.pc.Waiting? && !s.pc.signalled && s.owed == 0 ==>
      match s.pc.wait
      case Forever => s.c.queue == {}
      case Until(d) => forall t :: t in s.c.queue ==> d <= s.c.Cycle(t)
  }

  /** What holds in every run, whatever the ids. */
  ghost predicate Inv(s: State) {
    && TaskTable(s)
    && Delivered(s)
    && Conserved(s)
    && TimerCovered(s)
    && NoLostWakeup(s)
  }

  /** Issued ids are one to one with accepted tasks; live ids are those of queued tasks not yet stopped. */
  ghost predicate Ids(s: State)
    requires TaskTable(s)
  {
    && s.c.lastId == s.issued
    && (forall t :: t in s.accepted ==> 1 <= s.c.tasks[t].eventId <= s.issued)
    && (forall t :: t in s.accepted ==> s.c.tasks[t].eventId in s.owner && s.owner[s.c.tasks[t].eventId] == t)
    && (forall i :: i in s.c.ids ==> i in s.owner && s.owner[i] in s.c.queue && s.c.tasks[s.owner[i]].eventId == i)
    && (forall t :: t in s.c.queue ==> (s.c.tasks[t].eventId in s.c.ids <==> s.c.tasks[t].eventId !in s.stopped))
    && (forall i :: i in s.stopped ==> 1 <= i <= s.issued)
  }

  /** Stopping is final, and only stopped tasks are thrown away before a shutdown. */
  ghost predicate Stops(s: State)
    requires TaskTable(s)
  {
    && (forall i :: 0 <= i < |s.handed| ==>
          s.handed[i].task in s.c.tasks && s.c.tasks[s.handed[i].task].eventId !in s.stopped)
    && (s.pc.Holding? ==> s.pc.task in s.c.tasks && (s.pc.run <==> s.c.tasks[s.pc.task].eventId !in s.stopped))
    && (forall t :: t in s.dropped ==>
          t in s.c.tasks && (s.c.tasks[t].eventId in s.stopped || s.down))
  }

  /** What holds as long as ids have not wrapped around. */
  ghost predicate IdInv(s: State) {
    TaskTable(s) && Ids(s) && Stops(s)
  }

  lemma InitInv(s: State)
    requires Init(s)
    ensures Inv(s) && IdInv(s)
  {
  }

  // ---------- Steps keep the invariant ----------

  lemma CreateKeeps(s: State, a: Action, s': State)
    requires Inv(s) && a.Create? && Next(s, a, s')
    ensures Inv(s')
  {
    assert forall t :: t in s.c.tasks ==> s'.c.tasks[t] == s.c.tasks[t];
  }

  lemma AddKeepsTable(s: State, a: Action, s': State)
    requires TaskTable(s) && a.Add? && Next(s, a, s')
    ensures TaskTable(s')
    ensures forall u :: u in s.c.tasks && u != a.task ==> u in s'.c.tasks && s'.c.tasks[u] == s.c.tasks[u]
    ensures forall u :: u in s.c.queue ==> u in s'.c.queue && s'.c.Cycle(u) == s.c.Cycle(u)
  {
    hide Shared.IsTop;
  }

  lemma AddKeepsHistory(s: State, a: Action, s': State)
    requires TaskTable(s) && Delivered(s) && Conserved(s) && a.Add? && Next(s, a, s') && TaskTable(s')
    ensures Delivered(s') && Conserved(s')
  {
    hide Shared.IsTop;
    AddKeepsTable(s, a, s');
    assert forall u :: IsHanded(s', u) <==> IsHanded(s, u);
  }

  lemma AddKeepsWaits(s: State, a: Action, s': State)
    requires TaskTable(s) && TimerCovered(s) && NoLostWakeup(s) && a.Add? && Next(s, a, s') && TaskTable(s')
    ensures TimerCovered(s') && NoLostWakeup(s')
  {
    AddKeepsTable(s, a, s');
    if s.pc.Waiting? && s.pc.wait.Until? && !s.down {
      var t :| t in s.c.queue && s.c.Cycle(t) <= s.pc.wait.deadline;
      assert t in s'.c.queue && s'.c.Cycle(t) <= s.pc.wait.deadline;
    }
    if s.c.state == Running && !a.signal {
      var u :| u != a.task && s'.c.IsTop(u);
      assert u in s.c.queue;
    }
  }

  lemma AddKeeps(s: State, a: Action, s': State)
    requires Inv(s) && a.Add? && Next(s, a, s')
    ensures Inv(s')
  {
    hide Delivered, Conserved, TimerCovered, NoLostWakeup, Next;
    AddKeepsTable(s, a, s');
    AddKeepsHistory(s, a, s');
    AddKeepsWaits(s, a, s');
  }

  lemma StopKeeps(s: State, a: Action, s': State)
    requires Inv(s) && a.Stop? && Next(s, a, s')
    ensures Inv(s')
  {
    assert forall u :: IsHanded(s', u) <==> IsHanded(s, u);
  }

  lemma ShutdownKeeps(s: State, a: Action, s': State)
    requires Inv(s) && a.Shutdown? && Next(s, a, s')
    ensures Inv(s')
  {
    assert forall u :: IsHanded(s', u) <==> IsHanded(s, u);
  }

  /** The timed-wait race is safe: at a time-out the queue is not empty, and whatever is on top is due. */
  lemma TimeoutFindsDueTask(s: State)
    requires Inv(s) && s.pc.Waiting? && s.pc.wait.Until? && s.pc.wait.deadline <= s.now && !s.down
    ensures s.c.queue != {}
    ensures forall t :: s.c.IsTop(t) ==> s.c.Cycle(t) <= s.now
    ensures forall t, u :: s.c.IsTop(t) && u in s.c.queue - {t} ==> s.c.Cycle(t) <= s.c.Cycle(u)
  {
    var w :| w in s.c.queue && s.c.Cycle(w) <= s.pc.wait.deadline;
  }

  lemma WakeKeepsTable(s: State, a: Action, s': State)
    requires TaskTable(s) && a.Wake? && Next(s, a, s')
    requires !a.ret && s.c.state != Terminated
    ensures TaskTable(s') && TimerCovered(s') && NoLostWakeup(s')
  {
  }

  lemma WakeKeepsHistory(s: State, a: Action, s': State)
    requires TaskTable(s) && Delivered(s) && Conserved(s) && a.Wake? && Next(s, a, s')
    requires !a.ret && s.c.state != Terminated && a.task in s.c.queue && s.c.Cycle(a.task) <= s.now
    requires TaskTable(s')
    ensures Delivered(s') && Conserved(s')
  {
    hide Shared.IsTop;
    assert forall u :: IsHanded(s', u) <==> IsHanded(s, u);
  }

  lemma WakeKeeps(s: State, a: Action, s': State)
    requires Inv(s) && a.Wake? && Next(s, a, s')
    ensures Inv(s')
  {
    if !a.ret && s.c.state != Terminated {
      assert !s.down;
      TimeoutFindsDueTask(s);
      hide Delivered, Conserved, TimerCovered, NoLostWakeup;
      WakeKeepsTable(s, a, s');
      WakeKeepsHistory(s, a, s');
    } else {
      ThreadKeeps(s, s');
    }
  }

  /** Moving the thread without touching the shared members or the history. */
  lemma ThreadKeeps(s: State, s': State)
    requires Inv(s) && s' == s.(pc := s'.pc, owed := s'.owed)
    requires !s.pc.Holding? && !s'.pc.Holding?
    requires TimerCovered(s') && NoLostWakeup(s')
    ensures Inv(s')
  {
    hide TimerCovered, NoLostWakeup;
    assert forall u :: IsHanded(s', u) <==> IsHanded(s, u);
  }

  lemma DeliverKeepsTable(s: State, a: Action, s': State)
    requires Inv(s) && a.Deliver? && Next(s, a, s')
    ensures TaskTable(s') && TimerCovered(s') && NoLostWakeup(s')
    ensures forall u :: u in s.c.tasks ==> u in s'.c.tasks && Due(s'.c.tasks[u]) == Due(s.c.tasks[u])
    ensures forall u :: u in s.c.tasks ==> s'.c.tasks[u].eventId == s.c.tasks[u].eventId
    ensures forall u :: u in s.c.tasks && u != s.pc.task ==> s'.c.tasks[u] == s.c.tasks[u]
  {
  }

  lemma DeliverKeepsDelivered(s: State, a: Action, s': State)
    requires Inv(s) && a.Deliver? && Next(s, a, s') && TaskTable(s')
    ensures Delivered(s')
  {
    DeliverKeepsTable(s, a, s');
    hide TaskTable, TimerCovered, NoLostWakeup, Conserved;
    if s.pc.run {
      assert s'.handed[|s.handed|] == HandOver(s.pc.task, s.now);
      assert forall i :: 0 <= i < |s.handed| ==> s'.handed[i] == s.handed[i];
    }
  }

  lemma DeliverKeepsConserved(s: State, a: Action, s': State)
    requires Inv(s) && a.Deliver? && Next(s, a, s') && TaskTable(s')
    ensures Conserved(s')
  {
    hide TaskTable, TimerCovered, NoLostWakeup;
    if s.pc.run {
      assert s'.handed[|s.handed|] == HandOver(s.pc.task, s.now);
      assert forall i :: 0 <= i < |s.handed| ==> s'.handed[i] == s.handed[i];
      assert forall u :: IsHanded(s, u) ==> IsHanded(s', u);
      assert IsHanded(s', s.pc.task);
    } else {
      assert forall u :: IsHanded(s', u) <==> IsHanded(s, u);
    }
  }

  lemma DeliverKeeps(s: State, a: Action, s': State)
    requires Inv(s) && a.Deliver? && Next(s, a, s')
    ensures Inv(s')
  {
    DeliverKeepsTable(s, a, s');
    DeliverKeepsDelivered(s, a, s');
    DeliverKeepsConserved(s, a, s');
    hide TaskTable, TimerCovered, NoLostWakeup, Delivered, Conserved, Next;
  }

  lemma ClockKeeps(s: State, a: Action, s': State)
    requires Inv(s) && Next(s, a, s') && (a.Tick? || a.Close?)
    ensures Inv(s')
  {
    assert forall u :: IsHanded(s', u) <==> IsHanded(s, u);
  }

  lemma NotifyKeeps(s: State, a: Action, s': State)
    requires Inv(s) && Next(s, a, s') && a.Notify?
    ensures Inv(s')
  {
    if s.pc.Holding? {
      assert forall u :: IsHanded(s', u) <==> IsHanded(s, u);
    } else {
      ThreadKeeps(s, s');
    }
  }

  lemma LoopKeeps(s: State, a: Action, s': State)
    requires Inv(s) && Next(s, a, s') && (a.Enter? || a.BeginWait?)
    ensures Inv(s')
  {
    if a.BeginWait? && a.wait.Until? {
      var t :| s.c.IsTop(t) && a.wait.deadline == s.c.Cycle(t);
      assert t in s.c.queue && s.c.Cycle(t) <= a.wait.deadline;
    }
    ThreadKeeps(s, s');
  }

  /** Every step keeps the invariant. */
  lemma NextKeepsInv(s: State, a: Action, s': State)
    requires Inv(s) && Next(s, a, s')
    ensures Inv(s')
  {
    hide Inv;
    match a
    case Create(_) => CreateKeeps(s, a, s');
    case Add(_, _, _) => AddKeeps(s, a, s');
    case Stop(_, _) => StopKeeps(s, a, s');
    case Shutdown => ShutdownKeeps(s, a, s');
    case Wake(_, _, _) => WakeKeeps(s, a, s');
    case Deliver => DeliverKeeps(s, a, s');
    case Notify => NotifyKeeps(s, a, s');
    case Tick(_) => ClockKeeps(s, a, s');
    case Close => ClockKeeps(s, a, s');
    case Enter => LoopKeeps(s, a, s');
    case BeginWait(_) => LoopKeeps(s, a, s');
  }

  // ---------- Steps keep the ids apart ----------

  lemma CreateKeepsIds(s: State, a: Action, s': State)
    requires Inv(s) && IdInv(s) && a.Create? && Next(s, a, s') && TaskTable(s')
    ensures IdInv(s')
  {
    assert forall t :: t in s.c.tasks ==> s'.c.tasks[t] == s.c.tasks[t];
  }

  lemma AddKeepsIds(s: State, a: Action, s': State)
    requires TaskTable(s) && Ids(s) && a.Add? && Next(s, a, s') && s'.issued <= MAX_ID && TaskTable(s')
    ensures Ids(s')
  {
    hide Shared.IsTop;
    AddKeepsTable(s, a, s');
    if s.c.state == Running {
      assert s'.c.tasks[a.task].eventId == s'.issued;
      assert s'.issued !in s.c.ids && s'.issued !in s.stopped;
      assert s'.c.ids == s.c.ids + {s'.issued} && s'.owner == s.owner[s'.issued := a.task];
      hide Next;
    }
  }

  lemma AddKeepsStops(s: State, a: Action, s': State)
    requires Inv(s) && Stops(s) && a.Add? && Next(s, a, s') && TaskTable(s')
    ensures Stops(s')
  {
    hide Shared.IsTop, TimerCovered, NoLostWakeup;
    AddKeepsTable(s, a, s');
  }

  /** An id that has just been stopped was that of a queued task, which nobody else has. */
  lemma StopKeepsIds(s: State, a: Action, s': State)
    requires Inv(s) && IdInv(s) && a.Stop? && Next(s, a, s') && TaskTable(s')
    ensures IdInv(s')
  {
    hide TimerCovered, NoLostWakeup;
  }

  lemma WakeKeepsIds(s: State, a: Action, s': State)
    requires Inv(s) && IdInv(s) && a.Wake? && Next(s, a, s') && TaskTable(s')
    ensures IdInv(s')
  {
    hide TimerCovered, NoLostWakeup;
  }

  lemma DeliverKeepsIds(s: State, a: Action, s': State)
    requires Inv(s) && IdInv(s) && a.Deliver? && Next(s, a, s') && TaskTable(s')
    ensures IdInv(s')
  {
    DeliverKeepsTable(s, a, s');
    hide TimerCovered, NoLostWakeup;
  }

  lemma ShutdownKeepsIds(s: State, a: Action, s': State)
    requires Inv(s) && IdInv(s) && Next(s, a, s') && TaskTable(s') && a.Shutdown?
    ensures IdInv(s')
  {
    hide TimerCovered, NoLostWakeup, Conserved, Shared.IsTop;
  }

  lemma OthersKeepIds(s: State, a: Action, s': State)
    requires Inv(s) && IdInv(s) && Next(s, a, s') && TaskTable(s')
    requires a.Tick? || a.Close? || a.Notify? || a.Enter? || a.BeginWait?
    ensures IdInv(s')
  {
    hide TimerCovered, NoLostWakeup, Conserved, Shared.IsTop;
  }

  /** Every step keeps the ids in order while at most 2^32 - 1 of them have been issued. */
  lemma NextKeepsIds(s: State, a: Action, s': State)
    requires Inv(s) && IdInv(s) && Next(s, a, s') && s'.issued <= MAX_ID
    ensures IdInv(s')
  {
    NextKeepsInv(s, a, s');
    hide Next, Ids, Stops, Delivered, Conserved, TimerCovered, NoLostWakeup;
    match a
    case Create(_) => CreateKeepsIds(s, a, s');
    case Add(_, _, _) => AddKeepsIds(s, a, s'); AddKeepsStops(s, a, s');
    case Stop(_, _) => StopKeepsIds(s, a, s');
    case Wake(_, _, _) => WakeKeepsIds(s, a, s');
    case Deliver => DeliverKeepsIds(s, a, s');
    case Shutdown => ShutdownKeepsIds(s, a, s');
    case _ => OthersKeepIds(s, a, s');
  }

  // ---------- Whole runs ----------

  /** Next with the facts it needs to be meaningful; they hold in every reachable state. */
  ghost predicate Step(s: State, a: Action, s': State) {
    && s.c.Timed()
    && (forall t :: t in s.created ==> t in s.c.tasks && s.c.tasks[t].expiration.Some?)
    && Next(s, a, s')
  }

  ghost predicate IsRun(states: seq<State>, actions: seq<Action>) {
    && |states| == |actions| + 1
    && Init(states[0])
    && forall i {:trigger actions[i]} :: 0 <= i < |actions| ==> Step(states[i], actions[i], states[i + 1])
  }

  /** The facts that Step asks for hold in every state of a run, so they rule no step out. */
  lemma StepRulesNothingOut(states: seq<State>, actions: seq<Action>, i: nat)
    requires IsRun(states, actions) && i < |states|
    ensures var s := states[i];
            s.c.Timed() && forall t :: t in s.created ==> t in s.c.tasks && s.c.tasks[t].expiration.Some?
  {
    RunKeepsInv(states, actions, i);
  }

  lemma {:induction false} HistoryGrows(states: seq<State>, actions: seq<Action>, i: nat, j: nat)
    requires IsRun(states, actions) && i <= j < |states|
    ensures states[i].issued <= states[j].issued && states[i].stopped <= states[j].stopped
    decreases j
  {
    if i < j {
      HistoryGrows(states, actions, i, j - 1);
      assert Step(states[j - 1], actions[j - 1], states[j]);
    }
  }

  lemma {:induction false} RunKeepsInv(states: seq<State>, actions: seq<Action>, i: nat)
    requires IsRun(states, actions) && i < |states|
    ensures Inv(states[i])
  {
    if i == 0 {
      InitInv(states[0]);
    } else {
      RunKeepsInv(states, actions, i - 1);
      assert Step(states[i - 1], actions[i - 1], states[i]);
      hide Inv, Next;
      NextKeepsInv(states[i - 1], actions[i - 1], states[i]);
    }
  }

  lemma StepKeepsIds(s: State, a: Action, s': State)
    requires Inv(s) && IdInv(s) && Step(s, a, s') && s'.issued <= MAX_ID
    ensures IdInv(s')
  {
    hide Inv, IdInv, Next;
    NextKeepsIds(s, a, s');
  }

  lemma {:induction false} RunKeepsIds(states: seq<State>, actions: seq<Action>, i: nat)
    requires IsRun(states, actions) && i < |states| && states[i].issued <= MAX_ID
    ensures IdInv(states[i])
  {
    if i == 0 {
      InitInv(states[0]);
    } else {
      hide Inv, IdInv, Step;
      HistoryGrows(states, actions, i - 1, i);
      RunKeepsInv(states, actions, i - 1);
      RunKeepsIds(states, actions, i - 1);
      StepKeepsIds(states[i - 1], actions[i - 1], states[i]);
    }
  }

  /** At most once and never early, in every run: no task is handed over twice or before its delay, and a
      handed-over task can no longer expire in the dispatcher. */
  lemma HandedOverOnce(states: seq<State>, actions: seq<Action>, n: nat)
    requires IsRun(states, actions) && n < |states|
    ensures var s := states[n];
            && (forall i, j :: 0 <= i < j < |s.handed| ==> s.handed[i].task != s.handed[j].task)
            && (forall i :: 0 <= i < |s.handed| ==>
                  && s.handed[i].task in s.accepted
                  && s.handed[i].task in s.c.tasks
                  && s.handed[i].at >= Due(s.c.tasks[s.handed[i].task])
                  && (forall now :: !HasExpired(s.c.tasks[s.handed[i].task], now)))
  {
    RunKeepsInv(states, actions, n);
  }

  /** Stop is final: while at most 2^32 - 1 ids have been issued, no task whose stopEvent answered true is
      handed over, neither before nor after. */
  lemma StopIsFinal(states: seq<State>, actions: seq<Action>, n: nat, k: nat)
    requires IsRun(states, actions) && n < |states| && states[n].issued <= MAX_ID
    requires k < n && actions[k].Stop? && actions[k].found
    ensures var s := states[n];
            forall i :: 0 <= i < |s.handed| ==>
              s.handed[i].task in s.c.tasks && s.c.tasks[s.handed[i].task].eventId != actions[k].id
  {
    RunKeepsIds(states, actions, n);
    assert Step(states[k], actions[k], states[k + 1]);
    assert actions[k].id in states[k + 1].stopped;
    HistoryGrows(states, actions, k + 1, n);
  }

  /** No event is lost: in every state of a run without a shutdown, an accepted event that was not
      stopped is still queued under a live id, about to be handed over, or handed over. */
  lemma NoEventLost(states: seq<State>, actions: seq<Action>, n: nat, t: Ref)
    requires IsRun(states, actions) && n < |states| && states[n].issued <= MAX_ID
    requires !states[n].down
    requires t in states[n].accepted && t in states[n].c.tasks
    requires states[n].c.tasks[t].eventId !in states[n].stopped
    ensures var s := states[n];
            || (t in s.c.queue && s.c.tasks[t].eventId in s.c.ids)
            || s.pc == Holding(t, true)
            || IsHanded(s, t)
  {
    RunKeepsInv(states, actions, n);
    RunKeepsIds(states, actions, n);
  }

  /** When the wait has timed out and the thread is going to pop, there is something to pop exactly when there has been
      no shutdown: stop after shutdown would leave the thread with an empty queue. */
  lemma PopsSomething(states: seq<State>, actions: seq<Action>, i: nat)
    requires IsRun(states, actions) && i < |states|
    requires var s := states[i];
             s.pc.Waiting? && s.pc.wait.Until? && s.pc.wait.deadline <= s.now && s.c.state != Terminated
    ensures states[i].c.queue != {} <==> !states[i].down
  {
    RunKeepsInv(states, actions, i);
    if !states[i].down {
      TimeoutFindsDueTask(states[i]);
    }
  }

  /** The timed-wait race over whole runs: when the thread wakes by time-out it finds a queued task, every
      task it may pop is due, and nothing it leaves behind has an earlier deadline. */
  lemma TimedWaitRaceSafe(states: seq<State>, actions: seq<Action>, i: nat)
    requires IsRun(states, actions) && i < |actions|
    requires actions[i].Wake? && !actions[i].ret && states[i].c.state != Terminated
    ensures var s, t := states[i], actions[i].task;
            && s.c.Timed() && t in s.c.queue && s.c.Cycle(t) <= s.now
            && (forall u :: u in states[i + 1].c.queue ==> u in s.c.queue && s.c.Cycle(t) <= s.c.Cycle(u))
            && states[i + 1].pc == Holding(t, s.c.tasks[t].eventId in s.c.ids)
  {
    RunKeepsInv(states, actions, i);
    assert Step(states[i], actions[i], states[i + 1]);
    assert !states[i].down;
    TimeoutFindsDueTask(states[i]);
  }

  /** No lost wake-up: while the thread is blocked and nobody owes it a notification, it does not oversleep
      any queued event. */
  lemma NeverOversleeps(states: seq<State>, actions: seq<Action>, i: nat, t: Ref)
    requires IsRun(states, actions) && i < |states|
    requires states[i].pc.Waiting? && !states[i].pc.signalled && states[i].owed == 0 && t in states[i].c.queue
    ensures states[i].c.Timed() && states[i].pc.wait.Until? && states[i].pc.wait.deadline <= states[i].c.Cycle(t)
  {
    RunKeepsInv(states, actions, i);
  }

  /** A task keeps the time of its creation and the delay it was asked for. */
  lemma StepKeepsTask(s: State, a: Action, s': State, t: Ref)
    requires Step(s, a, s') && t in s.c.tasks
    ensures t in s'.c.tasks
    ensures s'.c.tasks[t].created == s.c.tasks[t].created && s'.c.tasks[t].delay == s.c.tasks[t].delay
  {
  }

  lemma {:induction false} RunKeepsTask(states: seq<State>, actions: seq<Action>, i: nat, j: nat, t: Ref)
    requires IsRun(states, actions) && i <= j < |states| && t in states[i].c.tasks
    ensures t in states[j].c.tasks
    ensures states[j].c.tasks[t].created == states[i].c.tasks[t].created
    ensures states[j].c.tasks[t].delay == states[i].c.tasks[t].delay
    decreases j
  {
    if i < j {
      RunKeepsTask(states, actions, i, j - 1, t);
      StepKeepsTask(states[j - 1], actions[j - 1], states[j], t);
    }
  }

  /** On time, in every run: an event created with some delay is not handed over before the delay and 20 ms have passed
      since its creation, and a blocked thread that is owed no notification wakes by that time. */
  lemma OnTime(states: seq<State>, actions: seq<Action>, k: nat, n: nat, t: Ref)
    requires IsRun(states, actions) && k < n < |states|
    requires actions[k].Create? && t !in states[k].c.tasks && t in states[k + 1].c.tasks
    ensures var s, due := states[n], states[k].now + if actions[k].delay < 20 then 20 else actions[k].delay;
            && (forall i :: 0 <= i < |s.handed| && s.handed[i].task == t ==> s.handed[i].at >= due)
            && (s.pc.Waiting? && !s.pc.signalled && s.owed == 0 && t in s.c.queue ==>
                  s.pc.wait.Until? && s.pc.wait.deadline <= due)
            && (t in s.c.queue ==> t in s.c.tasks && forall now: Time :: HasExpired(s.c.tasks[t], now) <==> now > due)
  {
    assert Step(states[k], actions[k], states[k + 1]);
    assert states[k + 1].c.tasks[t] == CreateSchedulerTask(states[k].now, actions[k].delay);
    RunKeepsTask(states, actions, k + 1, n, t);
    RunKeepsInv(states, actions, n);
  }

  /** A stop is not refused: while at most 2^32 - 1 ids have been issued, stopping an event that is queued and has not
      been stopped answers true. */
  lemma StopFindsQueued(states: seq<State>, actions: seq<Action>, k: nat, t: Ref)
    requires IsRun(states, actions) && k < |actions| && states[k].issued <= MAX_ID
    requires t in states[k].c.queue && t in states[k].c.tasks && states[k].c.tasks[t].eventId !in states[k].stopped
    requires actions[k].Stop? && actions[k].id == states[k].c.tasks[t].eventId
    ensures actions[k].found && actions[k].id in states[k + 1].stopped
  {
    assert Step(states[k], actions[k], states[k + 1]);
    RunKeepsInv(states, actions, k);
    RunKeepsIds(states, actions, k);
  }
}
