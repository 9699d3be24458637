/** The event scheduler: its critical sections as methods of a class, and all
    their interleavings as a transition system. */
module Scheduler {
  import opened Wrappers

  type Time = nat
  type Ref = nat      // a task object, named by the order of allocation

  const MAX_ID := 0xFFFF_FFFF
  const MIN_TICKS := 20

  datatype ThreadState = Running | Closing | Terminated

  /** A SchedulerTask. `expiration` is None once setDontExpire has been called;
      `created` and `delay` record the call that made it. */
  datatype Task = Task(created: Time, delay: nat, expiration: Option<Time>, eventId: nat)

  /** createSchedulerTask: short delays are raised to the minimum. */
  function CreateSchedulerTask(now: Time, delay: nat): Task
    requires delay != 0
  {
    Task(now, delay, Some(now + if delay < MIN_TICKS then MIN_TICKS else delay), 0)
  }

  /** Task::hasExpired, asked by the dispatcher. */
  predicate HasExpired(t: Task, now: Time) {
    t.expiration.Some? && t.expiration.value < now
  }

  /** The members that m_eventLock protects. */
  datatype Shared = Shared(tasks: map<Ref, Task>, queue: set<Ref>, ids: set<nat>, lastId: nat, state: ThreadState) {
    /** Every queued task has its deadline. */
    ghost predicate Timed() {
      forall t :: t in queue ==> t in tasks && tasks[t].expiration.Some?
    }

    /** getCycle */
    ghost function Cycle(t: Ref): Time
      requires Timed() && t in queue
    {
      tasks[t].expiration.value
    }

    /** `t` may be the top of the priority queue: nothing queued is due earlier. */
    ghost predicate IsTop(t: Ref)
      requires Timed()
    {
      t in queue && forall u :: u in queue ==> Cycle(t) <= Cycle(u)
    }
  }

  function NextId(last: nat): nat {
    if last >= MAX_ID then 1 else last + 1
  }

  // ---------- Critical sections as relations ----------

  /** addEvent: `signal` says whether the caller has to notify. */
  ghost predicate Added(c: Shared, t: Ref, c': Shared, id: nat, signal: bool)
    requires c.Timed() && t in c.tasks && c.tasks[t].expiration.Some?
  {
    if c.state == Running then
      var generated := c.tasks[t].eventId == 0;
      && id == (if generated then NextId(c.lastId) else c.tasks[t].eventId)
      && c'.tasks == c.tasks[t := c.tasks[t].(eventId := id)]
      && c'.queue == c.queue + {t}
      && c'.ids == c.ids + {id}
      && c'.lastId == (if generated then id else c.lastId)
      && c'.state == c.state
      && c'.Timed()
      && (signal ==> c'.IsTop(t))
      && (!signal ==> exists u :: u != t && c'.IsTop(u))
    else
      c' == c && id == c.tasks[t].eventId && !signal
  }

  /** stopEvent */
  ghost predicate Stopped(c: Shared, id: nat, c': Shared, found: bool) {
    && found == (id != 0 && id in c.ids)
    && c' == c.(ids := if found then c.ids - {id} else c.ids)
  }

  /** The section after a time-out: pops a top task and claims its id if it is still there. */
  ghost predicate Popped(c: Shared, c': Shared, t: Ref, run: bool)
    requires c.Timed()
  {
    && c.IsTop(t)
    && run == (c.tasks[t].eventId in c.ids)
    && c' == c.(queue := c.queue - {t}, ids := if run then c.ids - {c.tasks[t].eventId} else c.ids)
  }

  /** setDontExpire, just before the hand-over. */
  function DontExpire(c: Shared, t: Ref): Shared {
    if t in c.tasks then c.(tasks := c.tasks[t := c.tasks[t].(expiration := None)]) else c
  }

  lemma {:induction false} TopExists(c: Shared, q: set<Ref>) returns (t: Ref)
    requires c.Timed() && q <= c.queue && q != {}
    ensures t in q && forall u :: u in q ==> c.Cycle(t) <= c.Cycle(u)
  {
    var x :| x in q;
    t := x;
    var rest := q - {x};
    if rest != {} {
      var y := TopExists(c, rest);
      t := if c.Cycle(x) <= c.Cycle(y) then x else y;
    }
    forall u | u in q
      ensures c.Cycle(t) <= c.Cycle(u)
    {
      assert u == x || u in rest;
    }
  }

  // ---------- The program ----------

  /** The wait that the thread enters. */
  datatype Wait = Forever | Until(deadline: Time)

  class SchedulerThread {
    var tasks: map<Ref, Task>
    var m_eventList: set<Ref>
    var m_eventIds: set<nat>
    var m_lastEventId: nat
    var m_threadState: ThreadState

    ghost function View(): Shared
      reads this
    {
      Shared(tasks, m_eventList, m_eventIds, m_lastEventId, m_threadState)
    }

    constructor ()
      ensures View() == Shared(map[], {}, {}, 0, Terminated)
    {
      tasks, m_eventList, m_eventIds, m_lastEventId, m_threadState := map[], {}, {}, 0, Terminated;
    }

    /** m_eventList.top() */
    method Top() returns (t: Ref)
      requires View().Timed() && m_eventList != {}
      ensures View().IsTop(t)
    {
      ghost var top := TopExists(View(), m_eventList);
      assert forall u :: u in m_eventList ==> tasks[top].expiration.value <= tasks[u].expiration.value;
      t :| t in m_eventList && forall u :: u in m_eventList ==> tasks[t].expiration.value <= tasks[u].expiration.value;
      assert forall u :: u in m_eventList ==> View().Cycle(t) <= View().Cycle(u);
    }

    /** addEvent up to its unlock; the caller then notifies if `doSignal`. */
    method AddEvent(task: Ref) returns (id: nat, doSignal: bool)
      requires View().Timed() && task in tasks && tasks[task].expiration.Some?
      modifies this
      ensures Added(old(View()), task, View(), id, doSignal)
      ensures m_threadState == old(m_threadState) && task in tasks && id == tasks[task].eventId
      ensures old(m_threadState) == Running ==>
                && id == (if old(tasks)[task].eventId != 0 then old(tasks)[task].eventId
                          else if old(m_lastEventId) >= 0xFFFF_FFFF then 1 else old(m_lastEventId) + 1)
                && m_lastEventId == (if old(tasks)[task].eventId != 0 then old(m_lastEventId) else id)
                && m_eventIds == old(m_eventIds) + {id} && m_eventList == old(m_eventList) + {task}
      ensures old(m_threadState) != Running ==> m_eventIds == old(m_eventIds) && m_eventList == old(m_eventList)
    {
      doSignal := false;
      if m_threadState == Running {
        if tasks[task].eventId == 0 {
          if m_lastEventId >= MAX_ID {
            m_lastEventId := 0;
          }
          m_lastEventId := m_lastEventId + 1;
          tasks := tasks[task := tasks[task].(eventId := m_lastEventId)];
        }
        m_eventIds := m_eventIds + {tasks[task].eventId};
        m_eventList := m_eventList + {task};
        assert View().Timed();
        var top := Top();
        doSignal := task == top;
      }
      id := tasks[task].eventId;
      assert m_threadState == Running ==> tasks == old(tasks)[task := old(tasks)[task].(eventId := id)];
    }

    method StopEvent(eventid: nat) returns (found: bool)
      modifies this
      ensures Stopped(old(View()), eventid, View(), found)
      ensures found <==> eventid != 0 && eventid in old(m_eventIds)
      ensures m_eventIds == old(m_eventIds) - (if eventid != 0 then {eventid} else {})
      ensures m_eventList == old(m_eventList) && tasks == old(tasks)
    {
      if eventid == 0 {
        return false;
      }
      if eventid in m_eventIds {
        m_eventIds := m_eventIds - {eventid};
        return true;
      }
      return false;
    }

    method Stop()
      modifies this
      ensures View() == old(View()).(state := Closing)
    {
      m_threadState := Closing;
    }

    method Shutdown()
      modifies this
      ensures View() == old(View()).(state := Terminated, queue := {}, ids := {})
    {
      m_threadState := Terminated;
      while m_eventList != {}
        invariant m_eventIds == old(m_eventIds) && tasks == old(tasks) && m_lastEventId == old(m_lastEventId)
        invariant m_threadState == Terminated
        decreases |m_eventList|
      {
        var t :| t in m_eventList;
        m_eventList := m_eventList - {t};
      }
      m_eventIds := {};
    }

    /** The thread's first section: which wait it enters. */
    method ChooseWait() returns (w: Wait)
      requires View().Timed()
      ensures w == Forever <==> m_eventList == {}
      ensures w.Until? ==> exists t :: View().IsTop(t) && w.deadline == View().Cycle(t)
    {
      if m_eventList == {} {
        w := Forever;
      } else {
        var t := Top();
        w := Until(tasks[t].expiration.value);
        assert View().IsTop(t) && w.deadline == View().Cycle(t);
      }
    }

    /** The thread's second section, with the mutex held again after the wait;
        `ret` is false when the wait timed out. */
    method AfterWait(ret: bool) returns (task: Option<Ref>, runTask: bool)
      requires View().Timed()
      requires !ret && m_threadState != Terminated ==> m_eventList != {}
      modifies this
      ensures !ret && old(m_threadState) != Terminated
          ==> task.Some? && Popped(old(View()), View(), task.value, runTask)
      ensures !(!ret && old(m_threadState) != Terminated) ==> task == None && View() == old(View())
      ensures task.Some? ==>
                && task.value in old(m_eventList) && m_eventList == old(m_eventList) - {task.value}
                && task.value in tasks && tasks == old(tasks)
                && tasks[task.value].expiration.Some?
                && (forall u :: u in m_eventList ==>
                      && u in tasks && tasks[u].expiration.Some?
                      && tasks[task.value].expiration.value <= tasks[u].expiration.value)
                && (runTask <==> tasks[task.value].eventId in old(m_eventIds))
                && m_eventIds == old(m_eventIds) - {tasks[task.value].eventId}
    {
      task, runTask := None, false;
      if !ret && m_threadState != Terminated {
        var t := Top();
        task := Some(t);
        m_eventList := m_eventList - {t};
        if tasks[t].eventId in m_eventIds {
          runTask := true;
          m_eventIds := m_eventIds - {tasks[t].eventId};
        }
      }
    }
  }
}
