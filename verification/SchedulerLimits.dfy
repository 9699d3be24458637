/** Runs that show where the scheduler's theorems end: one more than 2^32 - 1 ids, and a stop after the shutdown. */
module SchedulerLimits {
  import opened Scheduler
  import opened SchedulerRuns
  import opened Wrappers

  ghost predicate Reachable(s: State) {
    exists states, actions :: IsRun(states, actions) && states[|actions|] == s
  }

  lemma ReachNext(s: State, a: Action, s': State)
    requires Reachable(s) && Step(s, a, s')
    ensures Reachable(s')
  {
    hide Init, Step;
    var states, actions :| IsRun(states, actions) && states[|actions|] == s;
    var more, acts := states + [s'], actions + [a];
    assert forall i :: 0 <= i < |states| ==> more[i] == states[i];
    assert forall i :: 0 <= i < |actions| ==> acts[i] == actions[i];
    assert IsRun(more, acts) && more[|acts|] == s';
  }

  // ---------- n events, all due at the same time ----------

  /** The task with the n-th id. */
  function Nth(n: nat): Task {
    Task(0, MIN_TICKS, Some(MIN_TICKS), n + 1)
  }

  function Tasks(n: nat): map<Ref, Task> {
    map i: nat | i < n :: Nth(i)
  }

  function Refs(n: nat): set<Ref> {
    Tasks(n).Keys
  }

  /** The task that got an id. */
  function Owner(id: nat): Ref {
    if id == 0 then 0 else id - 1
  }

  function Owners(n: nat): map<nat, Ref> {
    map id: nat | 1 <= id <= n :: Owner(id)
  }

  function Ids(n: nat): set<nat> {
    Owners(n).Keys
  }

  lemma OneMore(n: nat)
    ensures Tasks(n + 1) == Tasks(n)[n := Nth(n)] && n !in Tasks(n) && n + 1 !in Owners(n)
    ensures Owners(n + 1) == Owners(n)[n + 1 := n]
    ensures Refs(n + 1) == Refs(n) + {n} && Ids(n + 1) == Ids(n) + {n + 1}
    ensures forall t :: t in Tasks(n) ==> Tasks(n)[t].expiration == Some(MIN_TICKS)
    ensures n > 0 ==> 0 in Tasks(n)
  {
  }

  /** n events have been created and added, and nothing else has happened. */
  function Full(n: nat): State {
    State(Shared(Tasks(n), Refs(n), Ids(n), n, Running), 0, LoopTop, if n == 0 then 0 else 1, {}, n,
          Refs(n), Owners(n), {}, [], {}, false)
  }

  /** One more event is created but not added. */
  function Created(n: nat): State {
    Full(n).(c := Full(n).c.(tasks := Tasks(n)[n := CreateSchedulerTask(0, MIN_TICKS)]), created := {n})
  }

  lemma CreateStep(n: nat)
    ensures Step(Full(n), Create(MIN_TICKS), Created(n))
  {
    OneMore(n);
    hide Tasks, Owners;
    var t: Ref := n;
    assert t !in Full(n).c.tasks;
  }

  lemma AddStep(n: nat)
    requires n < MAX_ID
    ensures Step(Created(n), Add(n, n + 1, n == 0), Full(n + 1))
  {
    OneMore(n);
    hide Tasks, Owners;
    var c, c' := Created(n).c, Full(n + 1).c;
    assert c'.tasks == c.tasks[n := c.tasks[n].(eventId := n + 1)];
    assert c'.IsTop(n);
    if n > 0 {
      assert c'.IsTop(0);
    }
  }

  lemma {:induction false} FullReachable(n: nat)
    requires n <= MAX_ID
    ensures Reachable(Full(n))
  {
    hide Step, Full, Created;
    if n == 0 {
      EmptyReachable();
    } else {
      FullReachable(n - 1);
      CreateStep(n - 1);
      ReachNext(Full(n - 1), Create(MIN_TICKS), Created(n - 1));
      AddStep(n - 1);
      ReachNext(Created(n - 1), Add(n - 1, n, n == 1), Full(n));
    }
  }

  lemma EmptyReachable()
    ensures Reachable(Full(0))
  {
    var actions: seq<Action> := [];
    assert Tasks(0) == map[] && Owners(0) == map[];
    assert IsRun([Full(0)], actions) && [Full(0)][|actions|] == Full(0);
  }

  // ---------- One event more ----------

  const LAST: Ref := MAX_ID

  /** The event after the last id gets the first one again, which an event still waits under. */
  function Wrapped(): State {
    var s := Created(MAX_ID);
    s.(c := s.c.(tasks := s.c.tasks[LAST := s.c.tasks[LAST].(eventId := 1)], queue := s.c.queue + {LAST}, lastId := 1),
       created := {}, issued := MAX_ID + 1, accepted := s.accepted + {LAST}, owner := s.owner[1 := LAST])
  }

  lemma WrapStep()
    ensures Step(Created(MAX_ID), Add(LAST, 1, false), Wrapped())
  {
    var c, c' := Created(MAX_ID).c, Wrapped().c;
    assert c'.ids == c.ids + {1};
    assert Wrapped().created == Created(MAX_ID).created - {LAST};
    assert c'.IsTop(0);
  }

  /** What matters from here on: the two events under id 1 are queued, due at the same time as everything. */
  ghost predicate Shares(s: State, q: set<Ref>) {
    && s.c.state == Running && !s.down && s.created == {} && s.issued == MAX_ID + 1
    && s.c.Timed() && s.c.queue == q
    && (forall t :: t in q ==> s.c.Cycle(t) == MIN_TICKS)
    && 0 in s.c.tasks && LAST in s.c.tasks && s.c.tasks[0].eventId == 1 && s.c.tasks[LAST].eventId == 1
    && LAST in s.accepted
  }

  lemma WrappedShares()
    ensures Shares(Wrapped(), Refs(MAX_ID) + {LAST}) && 1 in Wrapped().c.ids
    ensures Wrapped().pc == LoopTop && Wrapped().now == 0 && Wrapped().handed == [] && Wrapped().stopped == {}
  {
  }

  /** The thread waits, times out and takes any one of the events in the queue. */
  lemma TakeOne(s: State, q: set<Ref>, t: Ref) returns (s': State)
    requires Reachable(s) && Shares(s, q) && s.pc == LoopTop && s.now <= MIN_TICKS && t in q
    ensures Reachable(s')
    ensures s' == s.(c := s'.c, now := MIN_TICKS, pc := Holding(t, s.c.tasks[t].eventId in s.c.ids))
    ensures s'.c == s.c.(queue := q - {t}, ids := if s'.pc.run then s.c.ids - {s.c.tasks[t].eventId} else s.c.ids)
  {
    hide Reachable;
    assert s.c.IsTop(t);
    var s1 := s.(pc := Entered);
    ReachNext(s, Enter, s1);
    var s2 := s1.(pc := Waiting(Until(MIN_TICKS), false));
    ReachNext(s1, BeginWait(Until(MIN_TICKS)), s2);
    var s3 := s2.(now := MIN_TICKS);
    ReachNext(s2, Tick(MIN_TICKS), s3);
    var run := s.c.tasks[t].eventId in s.c.ids;
    s' := s3.(c := s.c.(queue := q - {t}, ids := if run then s.c.ids - {s.c.tasks[t].eventId} else s.c.ids),
              pc := Holding(t, run));
    ReachNext(s3, Wake(false, t, run), s');
  }

  /** With one id more than 2^32 - 1, an accepted event that nobody stopped is thrown away. */
  lemma BoundIsTight() returns (states: seq<State>, actions: seq<Action>)
    ensures IsRun(states, actions)
    ensures var s := states[|actions|];
            && s.issued == MAX_ID + 1 && s.c.state == Running && !s.down && s.stopped == {}
            && LAST in s.accepted && LAST in s.c.tasks && s.c.tasks[LAST].eventId !in s.stopped
            && LAST !in s.c.queue && s.pc == LoopTop && !IsHanded(s, LAST)
  {
    hide Reachable, Full, Created, Wrapped;
    FullReachable(MAX_ID);
    CreateStep(MAX_ID);
    ReachNext(Full(MAX_ID), Create(MIN_TICKS), Created(MAX_ID));
    WrapStep();
    ReachNext(Created(MAX_ID), Add(LAST, 1, false), Wrapped());
    WrappedShares();
    var s := Lost(Wrapped());
    states, actions := RunTo(s);
  }

  lemma RunTo(s: State) returns (states: seq<State>, actions: seq<Action>)
    requires Reachable(s)
    ensures IsRun(states, actions) && |states| == |actions| + 1 && states[|actions|] == s
  {
    hide Init, Step;
    states, actions :| IsRun(states, actions) && states[|actions|] == s;
  }

  lemma Lost(s: State) returns (s': State)
    requires Reachable(s) && Shares(s, Refs(MAX_ID) + {LAST}) && 1 in s.c.ids
    requires s.pc == LoopTop && s.now == 0 && s.handed == [] && s.stopped == {}
    ensures Reachable(s')
    ensures && s'.issued == MAX_ID + 1 && s'.c.state == Running && !s'.down && s'.stopped == {}
            && LAST in s'.accepted && LAST in s'.c.tasks
            && LAST !in s'.c.queue && s'.pc == LoopTop && !IsHanded(s', LAST)
  {
    hide Reachable;
    var q := Refs(MAX_ID) + {LAST};
    var s1 := TakeOne(s, q, 0);
    var s2 := s1.(c := DontExpire(s1.c, 0), pc := LoopTop, handed := [HandOver(0, MIN_TICKS)]);
    ReachNext(s1, Deliver, s2);
    assert Shares(s2, q - {0}) && 1 !in s2.c.ids;
    var s3 := TakeOne(s2, q - {0}, LAST);
    s' := s3.(pc := LoopTop, dropped := s3.dropped + {LAST});
    ReachNext(s3, Deliver, s');
  }

  // ---------- A stop undone ----------

  /** The first event has been stopped, with the answer true, and then the id is issued again. */
  function Halted(): State {
    var s := Created(MAX_ID);
    s.(c := s.c.(ids := s.c.ids - {1}), stopped := {1})
  }

  function Reissued(): State {
    Wrapped().(stopped := {1})
  }

  lemma HaltStep()
    ensures Step(Created(MAX_ID), Stop(1, true), Halted())
  {
    var c := Created(MAX_ID).c;
    assert 1 in c.ids;
    assert Halted().c == c.(ids := c.ids - {1});
  }

  lemma ReissueStep()
    ensures Step(Halted(), Add(LAST, 1, false), Reissued())
  {
    WrapStep();
    var c, c' := Halted().c, Reissued().c;
    assert c'.ids == c.ids + {1};
    assert c'.IsTop(0);
  }

  /** With one id more than 2^32 - 1, an event whose stop answered true is handed over. */
  lemma StopUndone() returns (states: seq<State>, actions: seq<Action>)
    ensures IsRun(states, actions)
    ensures Stop(1, true) in actions
    ensures var s := states[|actions|];
            && s.issued == MAX_ID + 1 && !s.down && s.stopped == {1}
            && s.handed == [HandOver(0, MIN_TICKS)] && 0 in s.c.tasks && s.c.tasks[0].eventId == 1
  {
    hide Reachable, Full, Created, Halted, Reissued, IsRun;
    FullReachable(MAX_ID);
    CreateStep(MAX_ID);
    ReachNext(Full(MAX_ID), Create(MIN_TICKS), Created(MAX_ID));
    HaltStep();
    ReachNext(Created(MAX_ID), Stop(1, true), Halted());
    ReissueStep();
    ReachNext(Halted(), Add(LAST, 1, false), Reissued());
    ReissuedShares();
    var s := HandStopped(Reissued());
    states, actions := RunTo(s);
    StoppedByAction(states, actions, |actions|, 1);
    assert actions[..|actions|] == actions;
  }

  lemma ReissuedShares()
    ensures Shares(Reissued(), Refs(MAX_ID) + {LAST}) && 1 in Reissued().c.ids
    ensures Reissued().pc == LoopTop && Reissued().now == 0 && Reissued().handed == [] && Reissued().stopped == {1}
  {
    WrappedShares();
  }

  lemma HandStopped(s: State) returns (s': State)
    requires Reachable(s) && Shares(s, Refs(MAX_ID) + {LAST}) && 1 in s.c.ids
    requires s.pc == LoopTop && s.now == 0 && s.handed == [] && s.stopped == {1}
    ensures Reachable(s')
    ensures && s'.issued == MAX_ID + 1 && !s'.down && s'.stopped == {1}
            && s'.handed == [HandOver(0, MIN_TICKS)] && 0 in s'.c.tasks && s'.c.tasks[0].eventId == 1
  {
    hide Reachable;
    var s1 := TakeOne(s, Refs(MAX_ID) + {LAST}, 0);
    s' := s1.(c := DontExpire(s1.c, 0), pc := LoopTop, handed := [HandOver(0, MIN_TICKS)]);
    ReachNext(s1, Deliver, s');
  }

  /** An id counts as stopped only after a stop that answered true. */
  lemma {:induction false} StoppedByAction(states: seq<State>, actions: seq<Action>, n: nat, id: nat)
    requires IsRun(states, actions) && n < |states|
    ensures id in states[n].stopped ==> Stop(id, true) in actions[..n]
  {
    if n > 0 {
      StoppedByAction(states, actions, n - 1, id);
      assert Step(states[n - 1], actions[n - 1], states[n]);
      assert actions[..n] == actions[..n - 1] + [actions[n - 1]];
      hide Shared.IsTop, Shared.Timed, Added;
    }
  }

  // ---------- Stop after shutdown ----------

  /** One event is queued, the thread waits for it, shutdown empties the queue and stop then lifts the termination: at
      the time-out the thread is about to pop from an empty queue. */
  lemma StopAfterShutdown() returns (states: seq<State>, actions: seq<Action>)
    ensures IsRun(states, actions)
    ensures var s := states[|actions|];
            && s.pc.Waiting? && s.pc.wait.Until? && s.pc.wait.deadline <= s.now
            && s.c.state == Closing && s.c.queue == {}
  {
    hide Reachable, IsRun, Full;
    FullReachable(1);
    OneQueued();
    var s := WaitForOne(Full(1));
    s := ShutdownAndStop(s);
    states, actions := RunTo(s);
  }

  lemma OneQueued()
    ensures Full(1).pc == LoopTop && Full(1).c.state == Running && Full(1).created == {} && Full(1).now == 0
    ensures Full(1).c.Timed() && Full(1).c.IsTop(0) && Full(1).c.Cycle(0) == MIN_TICKS
  {
    OneMore(0);
    hide Tasks, Owners;
  }

  lemma WaitForOne(s: State) returns (s': State)
    requires Reachable(s) && s.pc == LoopTop && s.c.state == Running && s.created == {} && s.now == 0
    requires s.c.Timed() && s.c.IsTop(0) && s.c.Cycle(0) == MIN_TICKS
    ensures Reachable(s') && s' == s.(pc := Waiting(Until(MIN_TICKS), false))
  {
    hide Reachable;
    var s1 := s.(pc := Entered);
    ReachNext(s, Enter, s1);
    s' := s1.(pc := Waiting(Until(MIN_TICKS), false));
    ReachNext(s1, BeginWait(Until(MIN_TICKS)), s');
  }

  lemma ShutdownAndStop(s: State) returns (s': State)
    requires Reachable(s) && s.pc.Waiting? && s.created == {} && s.now == 0 && s.c.Timed()
    ensures Reachable(s') && s'.pc == s.pc && s'.c.state == Closing && s'.c.queue == {} && s'.now == MIN_TICKS
  {
    hide Reachable;
    var s1 := s.(c := s.c.(state := Terminated, queue := {}, ids := {}), dropped := s.dropped + s.c.queue,
                 down := true);
    ReachNext(s, Shutdown, s1);
    var s2 := s1.(c := s1.c.(state := Closing));
    ReachNext(s1, Close, s2);
    s' := s2.(now := MIN_TICKS);
    ReachNext(s2, Tick(MIN_TICKS), s');
  }
}
