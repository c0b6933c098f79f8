/** The cooperative scheduler (src/task/sched.c) as a step system.

    Tasks switch only inside schedule(); interrupts may wake any task in between. */
module Scheduling {

  type Task = nat

  /** Of a task's state only whether it is TASK_RUNNING matters to the scheduler.  `flagged` holds
      the tasks whose wakeup_current is set. */
  datatype Sched = Sched(queue: seq<Task>, current: Task, swapper: Task,
                         running: set<Task>, flagged: set<Task>, stopped: set<Task>)

  predicate NoDup(q: seq<Task>) {
    forall i, j :: 0 <= i < j < |q| ==> q[i] != q[j]
  }

  /** No task is queued twice, and the current one is not queued. */
  predicate Inv(s: Sched) {
    NoDup(s.queue) && s.current !in s.queue
  }

  /** schedule() puts the current task back into the queue. */
  predicate Requeues(s: Sched) {
    && s.current != s.swapper && s.current !in s.stopped
    && (s.current in s.running || s.current in s.flagged)
  }

  function AfterSchedule(s: Sched): Sched {
    var t := if Requeues(s) then s.(queue := s.queue + [s.current], flagged := s.flagged - {s.current}) else s;
    if t.queue == [] then t.(current := t.swapper) else t.(queue := t.queue[1..], current := t.queue[0])
  }

  function AfterWake(s: Sched, t: Task): Sched {
    if t == s.current then s.(flagged := s.flagged + {t})
    else if t in s.queue then s
    else s.(queue := s.queue + [t])
  }

  /** What kernel code and interrupts do to the scheduler's state. */
  datatype Event =
    | Switch                  // schedule()
    | Wake(task: Task)        // wake_up_process(), also from an interrupt
    | Sleep                   // the current task leaves TASK_RUNNING
    | Awake                   // the current task enters TASK_RUNNING
    | Stop                    // the current task is stopped by a signal
    | Continue(task: Task)    // a stopped task may go on

  function After(s: Sched, e: Event): Sched {
    match e
    case Switch => AfterSchedule(s)
    case Wake(t) => AfterWake(s, t)
    case Sleep => s.(running := s.running - {s.current})
    case Awake => s.(running := s.running + {s.current})
    case Stop => s.(stopped := s.stopped + {s.current})
    case Continue(t) => s.(stopped := s.stopped - {t})
  }

  function AfterAll(s: Sched, events: seq<Event>): Sched {
    if events == [] then s else After(AfterAll(s, events[..|events| - 1]), events[|events| - 1])
  }

  lemma StepKeepsInv(s: Sched, e: Event)
    requires Inv(s)
    ensures Inv(After(s, e))
  {
  }

  lemma {:induction false} RunKeepsInv(s: Sched, events: seq<Event>)
    requires Inv(s)
    ensures Inv(AfterAll(s, events))
  {
    if events != [] {
      RunKeepsInv(s, events[..|events| - 1]);
      StepKeepsInv(AfterAll(s, events[..|events| - 1]), events[|events| - 1]);
    }
  }

  // ---- Who keeps the processor ---------------------------------------------------------------

  /** The task may not be run: it is stopped, or it sleeps and nobody woke it. */
  predicate Resting(s: Sched, t: Task) {
    t in s.stopped || (t !in s.running && t !in s.flagged)
  }

  /** schedule() takes the processor from such a task and does not queue it. */
  lemma RestingLeaves(s: Sched, t: Task)
    requires Inv(s) && t != s.swapper && t !in s.queue && Resting(s, t)
    ensures AfterSchedule(s).current != t && t !in AfterSchedule(s).queue
  {
    assert forall i :: 0 < i < |s.queue| ==> s.queue[1..][i - 1] == s.queue[i];
  }

  /** Any other current task goes behind all that are queued, with its wakeup used up. */
  lemma OthersGoLast(s: Sched)
    requires Inv(s) && s.current != s.swapper && !Resting(s, s.current)
    ensures var t := AfterSchedule(s);
            && t.flagged == s.flagged - {s.current}
            && if s.queue == [] then t.current == s.current && t.queue == []
               else t.current == s.queue[0] && t.queue == s.queue[1..] + [s.current]
  {
    if s.queue != [] {
      assert (s.queue + [s.current])[1..] == s.queue[1..] + [s.current];
    }
  }

  /** When the current task leaves, the first of the queue runs, or the swapper if there is none; the
      others keep their order, and no wakeup is used up. */
  lemma NextRuns(s: Sched)
    requires s.current == s.swapper || Resting(s, s.current)
    ensures var t := AfterSchedule(s);
            && t.flagged == s.flagged
            && if s.queue == [] then t.current == s.swapper && t.queue == []
               else t.current == s.queue[0] && t.queue == s.queue[1..]
  {
  }

  /** A task that is off the processor and not queued gets no turn before it is woken. */
  lemma {:induction false} NoTurnBeforeWake(s: Sched, events: seq<Event>, t: Task)
    requires Inv(s) && t != s.swapper && t != s.current && t !in s.queue && Wake(t) !in events
    ensures AfterAll(s, events).current != t && t !in AfterAll(s, events).queue
  {
    if events != [] {
      var before := events[..|events| - 1];
      NoTurnBeforeWake(s, before, t);
      RunKeepsInv(s, before);
      SwapperStays(s, before);
      assert events[|events| - 1] in events;
      OffStays(AfterAll(s, before), events[|events| - 1], t);
    }
  }

  lemma OffStays(s: Sched, e: Event, t: Task)
    requires Inv(s) && t != s.swapper && t != s.current && t !in s.queue && e != Wake(t)
    ensures After(s, e).current != t && t !in After(s, e).queue
  {
    if e.Switch? {
      if s.current == s.swapper || Resting(s, s.current) { NextRuns(s); } else { OthersGoLast(s); }
    }
  }

  /** So a task that schedule() took off the processor runs again only after a wakeup. */
  lemma RestsUntilWoken(s: Sched, events: seq<Event>, t: Task)
    requires Inv(s) && t != s.swapper && t !in s.queue && Resting(s, t) && Wake(t) !in events
    ensures AfterAll(s, [Switch] + events).current != t && t !in AfterAll(s, [Switch] + events).queue
  {
    RestingLeaves(s, t);
    StepKeepsInv(s, Switch);
    NoTurnBeforeWake(AfterSchedule(s), events, t);
    RunsOn(s, [Switch], events);
    assert AfterAll(s, [Switch]) == After(AfterAll(s, []), Switch);
  }

  lemma {:induction false} RunsOn(s: Sched, a: seq<Event>, b: seq<Event>)
    ensures AfterAll(s, a + b) == AfterAll(AfterAll(s, a), b)
  {
    if b == [] {
      assert a + b == a;
    } else {
      assert (a + b)[..|a + b| - 1] == a + b[..|b| - 1];
      RunsOn(s, a, b[..|b| - 1]);
    }
  }

  /** Leaving TASK_RUNNING or being stopped makes the current task one that rests, and touches neither the
      queue nor another task; entering it again or going on undoes it. */
  lemma StatesOfCurrent(s: Sched)
    ensures var c := s.current;
            && (c !in s.flagged ==> Resting(After(s, Sleep), c)) && Resting(After(s, Stop), c)
            && (c !in s.stopped ==> !Resting(After(After(s, Sleep), Awake), c))
    ensures forall e, t :: t != s.current && (e == Sleep || e == Awake || e == Stop) ==>
              && (Resting(After(s, e), t) <==> Resting(s, t))
              && After(s, e).queue == s.queue && After(s, e).current == s.current
  {
    hide AfterSchedule, AfterWake;
  }

  lemma StatesUndone(s: Sched)
    ensures s.current in s.running ==> After(After(s, Sleep), Awake) == s
    ensures s.current !in s.stopped ==> After(After(s, Stop), Continue(s.current)) == s
  {
    hide AfterSchedule, AfterWake;
    var c := s.current;
    if c in s.running {
      assert s.running - {c} + {c} == s.running;
      assert After(After(s, Sleep), Awake) == s.(running := s.running - {c} + {c});
    }
    if c !in s.stopped {
      assert s.stopped + {c} - {c} == s.stopped;
      assert After(After(s, Stop), Continue(c)) == s.(stopped := s.stopped + {c} - {c});
    }
  }

  // ---- No wakeup is lost ---------------------------------------------------------------------

  /** The task is going to run: it is queued, or it is current and its next schedule() queues it. */
  predicate Woken(s: Sched, t: Task) {
    t in s.queue || (t == s.current && t in s.flagged)
  }

  lemma WakeTakesHold(s: Sched, t: Task)
    ensures Woken(AfterWake(s, t), t)
  {
  }

  /** A wakeup queues a task that is off the processor, once and last, and nobody else. */
  lemma WakeQueuesOnce(s: Sched, t: Task)
    requires Inv(s)
    ensures var u := AfterWake(s, t);
            && s.queue <= u.queue && |u.queue| <= |s.queue| + 1 && multiset(u.queue)[t] <= 1
            && (forall x :: x != t ==> (Woken(u, x) <==> Woken(s, x))) && u.current == s.current
            && (Woken(s, t) ==> u == s)
  {
    NoDupCounts(AfterWake(s, t).queue, t);
  }

  lemma {:induction false} NoDupCounts(q: seq<Task>, t: Task)
    requires NoDup(q)
    ensures multiset(q)[t] <= 1
  {
    if q != [] {
      var rest := q[..|q| - 1];
      assert q == rest + [q[|q| - 1]];
      NoDupCounts(rest, t);
      assert q[|q| - 1] !in rest;
    }
  }

  /** A wakeup ends only when the task gets to run, or calls schedule() while it is stopped. */
  predicate Spends(s: Sched, e: Event, t: Task) {
    e == Switch && (AfterSchedule(s).current == t || (s.current == t && t in s.stopped))
  }

  lemma WokenStays(s: Sched, e: Event, t: Task)
    requires Woken(s, t) && t != s.swapper
    ensures Woken(After(s, e), t) || Spends(s, e, t)
  {
    var q := if Requeues(s) then s.queue + [s.current] else s.queue;
    if t in s.queue {
      var i :| 0 <= i < |s.queue| && s.queue[i] == t;
      assert q[i] == t && (i > 0 ==> q[1..][i - 1] == t);
    } else if Requeues(s) {
      assert q[|q| - 1] == t && (|q| > 1 ==> q[1..][|q| - 2] == t);
    }
  }

  predicate SpentAt(s: Sched, events: seq<Event>, t: Task, n: nat)
    requires n < |events|
  {
    Spends(AfterAll(s, events[..n]), events[n], t)
  }

  lemma {:induction false} SwapperStays(s: Sched, events: seq<Event>)
    ensures AfterAll(s, events).swapper == s.swapper
  {
    if events != [] {
      SwapperStays(s, events[..|events| - 1]);
    }
  }

  /** No lost wakeup: however wakeups, sleeps and switches interleave, a woken task stays woken
      until it runs or gives up the processor while stopped, even if it was woken before it slept. */
  lemma {:induction false} NoLostWakeup(s: Sched, events: seq<Event>, t: Task)
    requires Woken(s, t) && t != s.swapper
    requires forall n: nat :: n < |events| ==> !SpentAt(s, events, t, n)
    ensures Woken(AfterAll(s, events), t)
  {
    if events != [] {
      var before := events[..|events| - 1];
      forall n: nat | n < |before| ensures !SpentAt(s, before, t, n) {
        assert before[..n] == events[..n];
        assert !SpentAt(s, events, t, n);
      }
      NoLostWakeup(s, before, t);
      SwapperStays(s, before);
      assert !SpentAt(s, events, t, |events| - 1);
      WokenStays(AfterAll(s, before), events[|events| - 1], t);
    }
  }

  // ---- Everyone gets a turn ------------------------------------------------------------------

  function Switches(events: seq<Event>): nat {
    if events == [] then 0
    else Switches(events[..|events| - 1]) + if events[|events| - 1] == Switch then 1 else 0
  }

  lemma {:induction false} MovesUp(s: Sched, events: seq<Event>, k: nat)
    requires k < |s.queue| && Switches(events) <= k
    ensures var q := AfterAll(s, events).queue; var j := k - Switches(events); j < |q| && q[j] == s.queue[k]
  {
    if events != [] {
      MovesUp(s, events[..|events| - 1], k);
    }
  }

  /** The task at index k of the queue runs at the (k+1)-th following schedule(), whatever other
      wakeups, sleeps and stops come in between. */
  lemma RunsInTurn(s: Sched, events: seq<Event>, k: nat)
    requires k < |s.queue| && Switches(events) == k
    ensures AfterAll(s, events + [Switch]).current == s.queue[k]
  {
    MovesUp(s, events, k);
    assert (events + [Switch])[..|events|] == events;
  }

  // ---- The code ------------------------------------------------------------------------------

  class Scheduler {
    var queue: seq<Task>
    var current: Task
    const swapper: Task
    var running: set<Task>
    var flagged: set<Task>
    var stopped: set<Task>

    function View(): Sched
      reads this
    {
      Sched(queue, current, swapper, running, flagged, stopped)
    }

    constructor (swapper: Task)
      ensures View() == Sched([], swapper, swapper, {swapper}, {}, {}) && Inv(View())
    {
      this.swapper := swapper;
      queue, current, running, flagged, stopped := [], swapper, {swapper}, {}, {};
    }

    method SwitchTo(task: Task)
      modifies this`current
      ensures current == task
    {
      if task == current { return; }
      current := task;
    }

    method Schedule()
      requires Inv(View())
      modifies this`queue, this`current, this`flagged
      ensures View() == AfterSchedule(old(View())) && Inv(View())
    {
      if current != swapper && current !in stopped && (current in running || current in flagged) {
        queue := queue + [current];
        flagged := flagged - {current};
      }
      if queue == [] {
        SwitchTo(swapper);
      } else {
        var first := queue[0];
        queue := queue[1..];
        SwitchTo(first);
      }
    }

    method WakeUpProcess(task: Task)
      requires Inv(View())
      modifies this`queue, this`flagged
      ensures View() == AfterWake(old(View()), task) && Inv(View())
    {
      if task == current {
        flagged := flagged + {task};
        return;
      }
      if task !in queue {
        queue := queue + [task];
      }
    }
  }
}
