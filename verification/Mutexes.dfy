/** Mutexes over the scheduler (src/mutex.c over src/task/sched.c).

    A task waits in a mutex queue by asking again after every schedule() whether it is at the front.
    The lock loops are cut at schedule(), so that the steps of all tasks and of interrupts
    interleave in any order. */
module Mutexes {
  import opened Sequences
  import opened Scheduling

  type Mutex = nat

  /** What a task waits for, and whether a signal may end the wait. */
  datatype Wait = Wait(mutex: Mutex, interruptible: bool)

  datatype Sys = Sys(sched: Sched, queues: map<Mutex, seq<Task>>, waits: map<Task, Wait>, holds: set<(Task, Mutex)>)

  datatype Act =
    | Lock(mutex: Mutex, interruptible: bool)   // enter the queue
    | Check(signal: bool)                       // one round of the lock loop
    | Unlock(mutex: Mutex)
    | Other(event: Event)                       // code without locks, or an interrupt

  predicate Waiting(y: Sys) {
    y.sched.current in y.waits
  }

  /** A waiting task does nothing but look again; double locking and unlocking another's mutex are
      BUG(); a task stops only on its way to user space. */
  predicate Enabled(y: Sys, a: Act) {
    match a
    case Lock(m, _) => !Waiting(y) && m in y.queues && y.sched.current !in y.queues[m]
    case Check(_) => Waiting(y) && y.waits[y.sched.current].mutex in y.queues
    case Unlock(m) => !Waiting(y) && m in y.queues && y.queues[m] != [] && y.queues[m][0] == y.sched.current
    case Other(e) => if e.Wake? || e.Continue? then true else !Waiting(y)
  }

  predicate AtFront(y: Sys, m: Mutex, t: Task) {
    m in y.queues && y.queues[m] != [] && y.queues[m][0] == t
  }

  /** list_remove by a task that was interrupted: nobody is woken. */
  function Interrupted(y: Sys, m: Mutex): Sys
    requires m in y.queues
  {
    var c := y.sched.current;
    y.(sched := After(y.sched, Awake), queues := y.queues[m := Removed(y.queues[m], c)], waits := y.waits - {c})
  }

  function Apply(y: Sys, a: Act): Sys
    requires Enabled(y, a)
  {
    var c := y.sched.current;
    match a
    case Lock(m, interruptible) =>
      y.(sched := After(y.sched, Sleep), queues := y.queues[m := y.queues[m] + [c]],
         waits := y.waits[c := Wait(m, interruptible)])
    case Check(signal) =>
      var w := y.waits[c];
      if w.interruptible && signal then Interrupted(y, w.mutex)
      else if AtFront(y, w.mutex, c) then
        y.(sched := After(y.sched, Awake), waits := y.waits - {c}, holds := y.holds + {(c, w.mutex)})
      else y.(sched := AfterSchedule(y.sched))
    case Unlock(m) =>
      var rest := y.queues[m][1..];
      y.(sched := if rest == [] then y.sched else AfterWake(y.sched, rest[0]),
         queues := y.queues[m := rest], holds := y.holds - {(c, m)})
    case Other(e) => y.(sched := After(y.sched, e))
  }

  // ---- The invariant -------------------------------------------------------------------------

  /** Who is in a queue either holds the mutex, at the front, or waits for it. */
  ghost predicate QueuesRight(y: Sys) {
    && (forall m :: m in y.queues ==> NoDup(y.queues[m]))
    && (forall t, m :: (t, m) in y.holds ==> AtFront(y, m, t) && !WaitsFor(y, t, m))
    && (forall t, m :: m in y.queues && t in y.queues[m] ==> (t, m) in y.holds || WaitsFor(y, t, m))
    && (forall t :: t in y.waits ==> y.waits[t].mutex in y.queues && t in y.queues[y.waits[t].mutex])
  }

  predicate WaitsFor(y: Sys, t: Task, m: Mutex) {
    t in y.waits && y.waits[t].mutex == m
  }

  predicate Runnable(y: Sys, t: Task) {
    t == y.sched.current || t in y.sched.queue
  }

  /** A task at the front that waits is going to run. */
  ghost predicate NoneStranded(y: Sys) {
    forall m, t :: AtFront(y, m, t) && WaitsFor(y, t, m) ==> Runnable(y, t)
  }

  ghost predicate SafeInv(y: Sys) {
    Scheduling.Inv(y.sched) && QueuesRight(y)
  }

  ghost predicate SysInv(y: Sys) {
    SafeInv(y) && NoneStranded(y)
  }

  /** The one step that may strand waiters: the front gives up and the next in line is asleep. */
  predicate Strands(y: Sys, a: Act)
    requires Enabled(y, a)
  {
    a.Check? &&
    var c := y.sched.current; var w := y.waits[c];
    && w.interruptible && a.signal && AtFront(y, w.mutex, c)
    && |y.queues[w.mutex]| > 1 && y.queues[w.mutex][1] !in y.sched.queue
  }

  lemma RemovedIs(q: seq<Task>, t: Task)
    requires NoDup(q)
    ensures forall x :: x in Removed(q, t) <==> x in q && x != t
    ensures NoDup(Removed(q, t))
    ensures q != [] && q[0] == t ==> Removed(q, t) == q[1..]
    ensures q != [] && q[0] != t ==> Removed(q, t) != [] && Removed(q, t)[0] == q[0]
  {
    RemovedHas(q, t);
    RemovedDistinct(q, t);
    if q != [] && q[0] == t { NotThere(q[1..], t); }
  }

  // ---- Every step keeps it -------------------------------------------------------------------

  lemma LockKeeps(y: Sys, a: Act)
    requires SafeInv(y) && Enabled(y, a) && a.Lock?
    ensures SafeInv(Apply(y, a)) && (NoneStranded(y) ==> NoneStranded(Apply(y, a)))
  {
  }

  lemma UnlockKeeps(y: Sys, a: Act)
    requires SafeInv(y) && Enabled(y, a) && a.Unlock?
    ensures SafeInv(Apply(y, a)) && (NoneStranded(y) ==> NoneStranded(Apply(y, a)))
  {
    var z := Apply(y, a);
    var c, m := y.sched.current, a.mutex;
    var q, rest := y.queues[m], y.queues[m][1..];
    assert q == [c] + rest;
    forall n, t | (t, n) in z.holds ensures AtFront(z, n, t) && !WaitsFor(z, t, n) {
      assert AtFront(y, n, t) && !WaitsFor(y, t, n);
    }
    forall n, t | NoneStranded(y) && AtFront(z, n, t) && WaitsFor(z, t, n) ensures Runnable(z, t) {
      assert n != m ==> AtFront(y, n, t) && WaitsFor(y, t, n);
    }
  }

  lemma OtherKeeps(y: Sys, a: Act)
    requires SafeInv(y) && Enabled(y, a) && a.Other?
    ensures SafeInv(Apply(y, a)) && (NoneStranded(y) ==> NoneStranded(Apply(y, a)))
  {
    var z := Apply(y, a);
    StepKeepsInv(y.sched, a.event);
    forall n, t | NoneStranded(y) && AtFront(z, n, t) && WaitsFor(z, t, n) ensures Runnable(z, t) {
      assert AtFront(y, n, t) && WaitsFor(y, t, n);
      StillRunnable(y.sched, a.event, t);
    }
  }

  lemma StillRunnable(s: Sched, e: Event, t: Task)
    requires t == s.current || t in s.queue
    requires e == Switch ==> t != s.current
    ensures t == After(s, e).current || t in After(s, e).queue
  {
    if t in s.queue {
      var i :| 0 <= i < |s.queue| && s.queue[i] == t;
      var q := if Requeues(s) then s.queue + [s.current] else s.queue;
      assert q[i] == t && (i > 0 ==> q[1..][i - 1] == t);
    }
  }

  predicate GivesUp(y: Sys, a: Act)
    requires Enabled(y, a)
  {
    a.Check? && y.waits[y.sched.current].interruptible && a.signal
  }

  lemma CheckKeeps(y: Sys, a: Act)
    requires SafeInv(y) && Enabled(y, a) && a.Check? && !GivesUp(y, a)
    ensures SafeInv(Apply(y, a)) && (NoneStranded(y) ==> NoneStranded(Apply(y, a)))
  {
    var z := Apply(y, a);
    var c := y.sched.current;
    StepKeepsInv(y.sched, Switch);
    forall n, t | NoneStranded(y) && AtFront(z, n, t) && WaitsFor(z, t, n) ensures Runnable(z, t) {
      assert AtFront(y, n, t) && WaitsFor(y, t, n);
      if t != c { StillRunnable(y.sched, Switch, t); }
    }
  }

  lemma GivingUpKeeps(y: Sys, a: Act)
    requires SafeInv(y) && Enabled(y, a) && GivesUp(y, a)
    ensures SafeInv(Apply(y, a))
  {
    var z := Apply(y, a);
    var c, m := y.sched.current, y.waits[y.sched.current].mutex;
    RemovedIs(y.queues[m], c);
    forall n, t | (t, n) in z.holds ensures AtFront(z, n, t) && !WaitsFor(z, t, n) {
      assert AtFront(y, n, t) && !WaitsFor(y, t, n);
    }
  }

  lemma GivingUpStrands(y: Sys, a: Act)
    requires SafeInv(y) && NoneStranded(y) && Enabled(y, a) && GivesUp(y, a)
    ensures NoneStranded(Apply(y, a)) <==> !Strands(y, a)
  {
    var z := Apply(y, a);
    var c, m := y.sched.current, y.waits[y.sched.current].mutex;
    var q := y.queues[m];
    RemovedIs(q, c);
    if Strands(y, a) {
      var t := q[1];
      assert q == [c] + q[1..] && t in q;
      assert AtFront(z, m, t) && WaitsFor(z, t, m) && !Runnable(z, t);
    } else {
      forall n, t | AtFront(z, n, t) && WaitsFor(z, t, n) ensures Runnable(z, t) {
        if n != m || q[0] != c {
          assert AtFront(y, n, t) && WaitsFor(y, t, n);
        }
      }
    }
  }

  /** Every step of every task keeps the mutexes right, and leaves no waiter stranded at the front,
      except exactly when the front of a queue gives up and the next in line is not queued to run. */
  lemma StepKeepsMutexes(y: Sys, a: Act)
    requires SysInv(y) && Enabled(y, a)
    ensures SafeInv(Apply(y, a))
    ensures SysInv(Apply(y, a)) <==> !Strands(y, a)
  {
    hide QueuesRight, NoneStranded, Scheduling.Inv, Apply;
    match a
    case Lock(_, _) => LockKeeps(y, a);
    case Unlock(_) => UnlockKeeps(y, a);
    case Other(_) => OtherKeeps(y, a);
    case Check(_) =>
      if GivesUp(y, a) {
        GivingUpKeeps(y, a);
        GivingUpStrands(y, a);
      } else {
        CheckKeeps(y, a);
      }
  }

  lemma StepKeepsSafe(y: Sys, a: Act)
    requires SafeInv(y) && Enabled(y, a)
    ensures SafeInv(Apply(y, a))
  {
    hide QueuesRight, NoneStranded, Scheduling.Inv, Apply;
    match a
    case Lock(_, _) => LockKeeps(y, a);
    case Unlock(_) => UnlockKeeps(y, a);
    case Other(_) => OtherKeeps(y, a);
    case Check(_) => if GivesUp(y, a) { GivingUpKeeps(y, a); } else { CheckKeeps(y, a); }
  }

  // ---- Runs ----------------------------------------------------------------------------------

  // ---- How a wait ends -----------------------------------------------------------------------

  /** A wait that may not be interrupted goes on, in its place, until its task holds the mutex. */
  lemma WaitEndsWithLock(y: Sys, a: Act, t: Task)
    requires Enabled(y, a) && QueuesRight(y) && t in y.waits && !y.waits[t].interruptible
    ensures var z, w := Apply(y, a), y.waits[t];
            if t in z.waits then z.waits[t] == w && (t, w.mutex) !in z.holds
            else (t, w.mutex) in z.holds && AtFront(z, w.mutex, t)
  {
  }

  /** One that may be is given up exactly when its task finds a signal, at the front of the queue as well. */
  lemma GivingUpEndsWait(y: Sys, signal: bool)
    requires Enabled(y, Check(signal)) && QueuesRight(y)
    ensures var z, c := Apply(y, Check(signal)), y.sched.current; var m := y.waits[c].mutex;
            y.waits[c].interruptible && signal <==> c !in z.waits && (c, m) !in z.holds && c !in z.queues[m]
  {
    var c := y.sched.current;
    RemovedHas(y.queues[y.waits[c].mutex], c);
  }

  /** Who waits is not in TASK_RUNNING. */
  ghost predicate WaitersSleep(y: Sys) {
    forall t :: t in y.waits ==> t !in y.sched.running
  }

  lemma StepKeepsAsleep(y: Sys, a: Act)
    requires Enabled(y, a) && WaitersSleep(y)
    ensures WaitersSleep(Apply(y, a))
  {
  }

  /** So a waiter that looks in vain leaves the processor, and gets it back only when it is woken; a wakeup
      that came before makes it look once more. */
  lemma BlockedLeaves(y: Sys, signal: bool)
    requires Enabled(y, Check(signal)) && Scheduling.Inv(y.sched) && WaitersSleep(y)
    requires var c := y.sched.current; var w := y.waits[c];
      c != y.sched.swapper && !(w.interruptible && signal) && !AtFront(y, w.mutex, c)
    ensures var z, c := Apply(y, Check(signal)), y.sched.current;
            && z.waits == y.waits && z.queues == y.queues && z.holds == y.holds
            && (c !in y.sched.flagged ==> z.sched.current != c && c !in z.sched.queue)
            && (c in y.sched.flagged && c !in y.sched.stopped ==>
                  (z.sched.current == c || c in z.sched.queue) && c !in z.sched.flagged)
  {
    var c := y.sched.current;
    if c !in y.sched.flagged {
      RestingLeaves(y.sched, c);
    } else if c !in y.sched.stopped {
      OthersGoLast(y.sched);
    }
  }

  /** A task that got the lock or gave up runs on. */
  lemma EndedWaitRuns(y: Sys, signal: bool)
    requires Enabled(y, Check(signal)) && y.sched.current !in Apply(y, Check(signal)).waits
    ensures var z, c := Apply(y, Check(signal)), y.sched.current; z.sched.current == c && c in z.sched.running
  {
  }

  ghost predicate Run(ys: seq<Sys>, acts: seq<Act>) {
    && |ys| == |acts| + 1
    && forall i: nat :: i < |acts| ==> Steps(ys, acts, i)
  }

  ghost predicate Steps(ys: seq<Sys>, acts: seq<Act>, i: nat)
    requires i < |acts| < |ys|
  {
    Leads(ys[i], acts[i], ys[i + 1])
  }

  predicate Leads(y: Sys, a: Act, z: Sys) {
    Enabled(y, a) && z == Apply(y, a)
  }

  lemma {:induction false} RunKeepsSafe(ys: seq<Sys>, acts: seq<Act>, n: nat)
    requires Run(ys, acts) && SafeInv(ys[0]) && n <= |acts|
    ensures SafeInv(ys[n])
  {
    if n > 0 {
      RunKeepsSafe(ys, acts, n - 1);
      assert Steps(ys, acts, n - 1);
      StepKeepsSafe(ys[n - 1], acts[n - 1]);
    }
  }

  /** Mutual exclusion: in every run at most one task holds a mutex, and it is the queue's head. */
  lemma MutualExclusion(ys: seq<Sys>, acts: seq<Act>, n: nat, m: Mutex, t: Task, u: Task)
    requires Run(ys, acts) && SafeInv(ys[0]) && n <= |acts|
    requires (t, m) in ys[n].holds && (u, m) in ys[n].holds
    ensures t == u && AtFront(ys[n], m, t)
  {
    RunKeepsSafe(ys, acts, n);
  }

  /** Runs where nobody strands the next in line: a waiter at the front can always run. */
  lemma {:induction false} RunStrandsNone(ys: seq<Sys>, acts: seq<Act>, n: nat)
    requires Run(ys, acts) && SysInv(ys[0]) && n <= |acts|
    requires forall i: nat :: i < n ==> Steps(ys, acts, i) && !Strands(ys[i], acts[i])
    ensures SysInv(ys[n])
  {
    if n > 0 {
      RunStrandsNone(ys, acts, n - 1);
      assert Steps(ys, acts, n - 1);
      StepKeepsMutexes(ys[n - 1], acts[n - 1]);
    }
  }

  // ---- First come, first served --------------------------------------------------------------

  /** Those who wait for m, in order. */
  ghost function Waiters(y: Sys, m: Mutex): seq<Task>
    requires m in y.queues
  {
    if y.queues[m] != [] && (y.queues[m][0], m) in y.holds then y.queues[m][1..] else y.queues[m]
  }

  predicate Grants(y: Sys, a: Act, m: Mutex)
    requires Enabled(y, a)
  {
    a.Check? && !GivesUp(y, a) && y.waits[y.sched.current].mutex == m && AtFront(y, m, y.sched.current)
  }

  /** The tasks that entered the queue of m, and those that got m, in the first n steps. */
  ghost function Arrived(ys: seq<Sys>, acts: seq<Act>, m: Mutex, n: nat): seq<Task>
    requires Run(ys, acts) && n <= |acts|
  {
    if n == 0 then [] else
    var before := Arrived(ys, acts, m, n - 1);
    if acts[n - 1].Lock? && acts[n - 1].mutex == m then before + [ys[n - 1].sched.current] else before
  }

  ghost function Granted(ys: seq<Sys>, acts: seq<Act>, m: Mutex, n: nat): seq<Task>
    requires Run(ys, acts) && n <= |acts|
  {
    if n == 0 then [] else
    var before := Granted(ys, acts, m, n - 1);
    assert Steps(ys, acts, n - 1);
    if Grants(ys[n - 1], acts[n - 1], m) then before + [ys[n - 1].sched.current] else before
  }

  predicate LeavesQueue(y: Sys, a: Act, m: Mutex)
    requires Enabled(y, a)
  {
    GivesUp(y, a) && y.waits[y.sched.current].mutex == m
  }

  lemma StepInOrder(y: Sys, a: Act, m: Mutex)
    requires SafeInv(y) && Enabled(y, a) && m in y.queues && !LeavesQueue(y, a, m)
    ensures m in Apply(y, a).queues
    ensures (if Grants(y, a, m) then [y.sched.current] else []) + Waiters(Apply(y, a), m)
         == Waiters(y, m) + if a.Lock? && a.mutex == m then [y.sched.current] else []
  {
    var z := Apply(y, a);
    var c := y.sched.current;
    if a.Check? && AtFront(y, m, c) && WaitsFor(y, c, m) {
      assert (c, m) !in y.holds;
      assert [c] + y.queues[m][1..] == y.queues[m];
    }
    if a.Unlock? && a.mutex == m {
      assert (c, m) in y.holds;
      if |y.queues[m]| > 1 {
        assert y.queues[m][1] != c;
        assert (y.queues[m][1], m) in y.holds ==> AtFront(y, m, y.queues[m][1]);
      }
    }
    if a.Lock? && a.mutex == m && y.queues[m] == [] {
      assert (c, m) in y.holds ==> AtFront(y, m, c);
    }
  }

  /** Locks are granted in arrival order: while nobody gives up on m, those who got m followed by
      those who wait are those who waited followed by those who arrived. */
  lemma {:induction false} GrantedInOrder(ys: seq<Sys>, acts: seq<Act>, m: Mutex, n: nat)
    requires Run(ys, acts) && SafeInv(ys[0]) && m in ys[0].queues && n <= |acts|
    requires forall i: nat :: i < n ==> Steps(ys, acts, i) && !LeavesQueue(ys[i], acts[i], m)
    ensures m in ys[n].queues
    ensures Granted(ys, acts, m, n) + Waiters(ys[n], m) == Waiters(ys[0], m) + Arrived(ys, acts, m, n)
  {
    hide SafeInv, Waiters, Grants, LeavesQueue, Apply, Enabled;
    if n > 0 {
      GrantedInOrder(ys, acts, m, n - 1);
      RunKeepsSafe(ys, acts, n - 1);
      assert Steps(ys, acts, n - 1);
      var y, a := ys[n - 1], acts[n - 1];
      StepInOrder(y, a, m);
      var c := y.sched.current;
      var grant, arrival := if Grants(y, a, m) then [c] else [], if a.Lock? && a.mutex == m then [c] else [];
      Regroup(Granted(ys, acts, m, n - 1), grant, Waiters(ys[n], m), Waiters(y, m), arrival, Waiters(ys[0], m),
              Arrived(ys, acts, m, n - 1));
      assert Granted(ys, acts, m, n) == Granted(ys, acts, m, n - 1) + grant;
      assert Arrived(ys, acts, m, n) == Arrived(ys, acts, m, n - 1) + arrival;
    }
  }

  lemma Regroup<T>(g: seq<T>, x: seq<T>, w: seq<T>, v: seq<T>, y: seq<T>, u: seq<T>, a: seq<T>)
    requires x + w == v + y && g + v == u + a
    ensures (g + x) + w == u + (a + y)
  {
    assert (g + x) + w == g + (x + w) == g + (v + y) == (g + v) + y;
  }

  // ---- Also when waiters give up -------------------------------------------------------------

  /** a is b without some of its elements. */
  ghost predicate Subsequence<T(!new)>(a: seq<T>, b: seq<T>) {
    a == [] ||
    (b != [] && ((a[|a| - 1] == b[|b| - 1] && Subsequence(a[..|a| - 1], b[..|b| - 1])) || Subsequence(a, b[..|b| - 1])))
  }

  lemma {:induction false} SubsequenceMore<T(!new)>(a: seq<T>, b: seq<T>, c: seq<T>)
    requires Subsequence(a, b)
    ensures Subsequence(a + c, b + c)
  {
    if c == [] {
      assert a + c == a && b + c == b;
    } else {
      var x, d := c[|c| - 1], c[..|c| - 1];
      SubsequenceMore(a, b, d);
      assert a + c == (a + d) + [x] && b + c == (b + d) + [x];
    }
  }

  lemma {:induction false} SubsequenceSelf<T(!new)>(a: seq<T>)
    ensures Subsequence(a, a)
  {
    if a != [] { SubsequenceSelf(a[..|a| - 1]); }
  }

  lemma {:induction false} SubsequenceLess<T(!new)>(a: seq<T>, b: seq<T>, i: nat)
    requires Subsequence(a, b) && i < |a|
    ensures Subsequence(a[..i] + a[i + 1..], b)
    decreases |b|
  {
    var less, b' := a[..i] + a[i + 1..], b[..|b| - 1];
    if Subsequence(a, b') {
      SubsequenceLess(a, b', i);
    } else if i == |a| - 1 {
      assert less == a[..i];
    } else {
      SubsequenceLess(a[..|a| - 1], b', i);
      assert less[..|less| - 1] == a[..|a| - 1][..i] + a[..|a| - 1][i + 1..];
    }
  }

  lemma {:induction false} RemovedFrom(q: seq<Task>, t: Task) returns (i: nat)
    requires NoDup(q) && t in q
    ensures i < |q| && q[i] == t && Removed(q, t) == q[..i] + q[i + 1..]
  {
    if q[0] == t {
      i := 0;
      NotThere(q[1..], t);
    } else {
      i := RemovedFrom(q[1..], t);
      i := i + 1;
    }
  }

  lemma LeaverQueue(y: Sys, a: Act, m: Mutex)
    requires SafeInv(y) && Enabled(y, a) && m in y.queues && LeavesQueue(y, a, m)
    ensures m in Apply(y, a).queues && Apply(y, a).holds == y.holds
    ensures Apply(y, a).queues[m] == Removed(y.queues[m], y.sched.current)
    ensures NoDup(y.queues[m]) && y.sched.current in y.queues[m] && (y.sched.current, m) !in y.holds
    ensures forall t :: (t, m) in y.holds ==> t == y.queues[m][0]
  {
    hide Removed, NoDup;
    assert forall t :: (t, m) in y.holds ==> AtFront(y, m, t);
  }

  lemma LeavesInOrder(y: Sys, a: Act, m: Mutex) returns (i: nat)
    requires SafeInv(y) && Enabled(y, a) && m in y.queues && LeavesQueue(y, a, m)
    ensures m in Apply(y, a).queues && i < |Waiters(y, m)|
    ensures Waiters(Apply(y, a), m) == Waiters(y, m)[..i] + Waiters(y, m)[i + 1..]
  {
    hide SafeInv, Enabled, LeavesQueue, Apply, Removed, NoDup;
    LeaverQueue(y, a, m);
    var c, q := y.sched.current, y.queues[m];
    i := RemovedFrom(q, c);
    if (q[0], m) in y.holds {
      assert q[0] != c;
      i := i - 1;
    }
  }

  function GrantOf(y: Sys, a: Act, m: Mutex): seq<Task>
    requires Enabled(y, a)
  {
    if Grants(y, a, m) then [y.sched.current] else []
  }

  function ArrivalOf(y: Sys, a: Act, m: Mutex): seq<Task> {
    if a.Lock? && a.mutex == m then [y.sched.current] else []
  }

  lemma StepOvertakesNobody(y: Sys, a: Act, m: Mutex, g: seq<Task>, b: seq<Task>)
    requires SafeInv(y) && Enabled(y, a) && m in y.queues && Subsequence(g + Waiters(y, m), b)
    ensures m in Apply(y, a).queues
    ensures Subsequence((g + GrantOf(y, a, m)) + Waiters(Apply(y, a), m), b + ArrivalOf(y, a, m))
  {
    hide SafeInv, Waiters, Grants, LeavesQueue, Apply, Enabled, Subsequence;
    var w, arrival := Waiters(y, m), ArrivalOf(y, a, m);
    if LeavesQueue(y, a, m) {
      var i := LeavesInOrder(y, a, m);
      LeaverGetsNothing(y, a, m);
      SubsequenceLess(g + w, b, |g| + i);
      assert (g + []) + Waiters(Apply(y, a), m) == (g + w)[..|g| + i] + (g + w)[|g| + i + 1..];
      assert b + [] == b;
    } else {
      StepInOrder(y, a, m);
      SubsequenceMore(g + w, b, arrival);
      assert (g + GrantOf(y, a, m)) + Waiters(Apply(y, a), m) == g + (w + arrival) == (g + w) + arrival;
    }
  }

  /** With give-ups too nobody overtakes: those who got m followed by those who wait are, in the same
      order, some of those who waited and those who arrived. */
  lemma {:induction false} NobodyOvertakes(ys: seq<Sys>, acts: seq<Act>, m: Mutex, n: nat)
    requires Run(ys, acts) && SafeInv(ys[0]) && m in ys[0].queues && n <= |acts|
    ensures m in ys[n].queues
    ensures Subsequence(Granted(ys, acts, m, n) + Waiters(ys[n], m), Waiters(ys[0], m) + Arrived(ys, acts, m, n))
  {
    hide SafeInv, Waiters, Grants, Apply, Enabled, Subsequence;
    if n == 0 {
      SubsequenceSelf(Waiters(ys[0], m));
      assert [] + Waiters(ys[0], m) == Waiters(ys[0], m) == Waiters(ys[0], m) + [];
    } else {
      NobodyOvertakes(ys, acts, m, n - 1);
      RunKeepsSafe(ys, acts, n - 1);
      assert Steps(ys, acts, n - 1);
      var y, a := ys[n - 1], acts[n - 1];
      var g, b := Granted(ys, acts, m, n - 1), Waiters(ys[0], m) + Arrived(ys, acts, m, n - 1);
      StepOvertakesNobody(y, a, m, g, b);
      assert Granted(ys, acts, m, n) == g + GrantOf(y, a, m);
      assert Waiters(ys[0], m) + Arrived(ys, acts, m, n) == b + ArrivalOf(y, a, m);
    }
  }

  lemma LeaverGetsNothing(y: Sys, a: Act, m: Mutex)
    requires Enabled(y, a) && LeavesQueue(y, a, m)
    ensures !a.Lock? && !Grants(y, a, m)
  {
  }

  // ---- The front of the queue gets the lock --------------------------------------------------

  /** What a step does to the scheduler. */
  function SchedEvent(y: Sys, a: Act): seq<Event>
    requires Enabled(y, a)
  {
    match a
    case Lock(_, _) => [Sleep]
    case Check(_) => if GivesUp(y, a) || Grants(y, a, y.waits[y.sched.current].mutex) then [Awake] else [Switch]
    case Unlock(m) => if |y.queues[m]| > 1 then [Wake(y.queues[m][1])] else []
    case Other(e) => [e]
  }

  ghost function SchedEvents(ys: seq<Sys>, acts: seq<Act>, n: nat): seq<Event>
    requires Run(ys, acts) && n <= |acts|
  {
    if n == 0 then [] else
    assert Steps(ys, acts, n - 1);
    SchedEvents(ys, acts, n - 1) + SchedEvent(ys[n - 1], acts[n - 1])
  }

  lemma {:induction false} RunOfScheduler(ys: seq<Sys>, acts: seq<Act>, n: nat)
    requires Run(ys, acts) && n <= |acts|
    ensures ys[n].sched == AfterAll(ys[0].sched, SchedEvents(ys, acts, n))
  {
    hide AfterAll, SchedEvent, Apply, Enabled;
    if n == 0 {
      AllOfNone(ys[0].sched);
    } else {
      RunOfScheduler(ys, acts, n - 1);
      assert Steps(ys, acts, n - 1);
      StepOfScheduler(ys[n - 1], acts[n - 1], ys[0].sched, SchedEvents(ys, acts, n - 1));
    }
  }

  lemma AllOfNone(s: Sched)
    ensures AfterAll(s, []) == s
  {
  }

  lemma AllOfOneMore(s: Sched, before: seq<Event>, e: Event)
    ensures AfterAll(s, before + [e]) == After(AfterAll(s, before), e)
  {
  }

  lemma StepOfScheduler(y: Sys, a: Act, s: Sched, before: seq<Event>)
    requires Enabled(y, a) && y.sched == AfterAll(s, before)
    ensures |SchedEvent(y, a)| <= 1
    ensures Apply(y, a).sched == AfterAll(s, before + SchedEvent(y, a))
  {
    hide AfterAll, AfterSchedule, AfterWake;
    var e := SchedEvent(y, a);
    if e == [] {
      assert before + e == before;
    } else {
      AllOfOneMore(s, before, e[0]);
    }
  }

  predicate FrontWaits(y: Sys, m: Mutex, t: Task) {
    AtFront(y, m, t) && WaitsFor(y, t, m)
  }

  /** Only its own steps end the wait of a task at the front. */
  lemma FrontStays(y: Sys, a: Act, m: Mutex, t: Task)
    requires SafeInv(y) && Enabled(y, a) && FrontWaits(y, m, t) && t != y.sched.current
    ensures FrontWaits(Apply(y, a), m, t)
  {
  }

  lemma {:induction false} FrontStaysFor(ys: seq<Sys>, acts: seq<Act>, n: nat, m: Mutex, t: Task, k: nat)
    requires Run(ys, acts) && SafeInv(ys[0]) && n <= |acts| && FrontWaits(ys[0], m, t)
    requires k < |ys[0].sched.queue| && ys[0].sched.queue[k] == t && Switches(SchedEvents(ys, acts, n)) <= k
    ensures FrontWaits(ys[n], m, t) && t in ys[n].sched.queue && SafeInv(ys[n])
  {
    hide QueuesRight, Apply, Enabled, SchedEvent, FrontWaits, AfterAll;
    RunKeepsSafe(ys, acts, n);
    RunOfScheduler(ys, acts, n);
    MovesUp(ys[0].sched, SchedEvents(ys, acts, n), k);
    if n > 0 {
      assert Steps(ys, acts, n - 1);
      AllOfNone(ys[n - 1].sched);
      StepOfScheduler(ys[n - 1], acts[n - 1], ys[n - 1].sched, []);
      FewerSwitches(SchedEvents(ys, acts, n - 1), SchedEvent(ys[n - 1], acts[n - 1]));
      FrontStaysFor(ys, acts, n - 1, m, t, k);
      FrontStays(ys[n - 1], acts[n - 1], m, t);
    }
  }

  lemma FewerSwitches(a: seq<Event>, b: seq<Event>)
    requires |b| <= 1
    ensures Switches(a) <= Switches(a + b)
  {
    assert b == [] ==> a + b == a;
    assert b != [] ==> (a + b)[..|a + b| - 1] == a;
  }

  /** Hand-off: a task that waits at the front of a mutex queue and stands at index k of the run
      queue is at the front and current after the (k+1)-th schedule(), whatever all others do. */
  lemma FrontGetsItsTurn(ys: seq<Sys>, acts: seq<Act>, n: nat, m: Mutex, t: Task, k: nat)
    requires Run(ys, acts) && SafeInv(ys[0]) && n < |acts| && FrontWaits(ys[0], m, t)
    requires k < |ys[0].sched.queue| && ys[0].sched.queue[k] == t && Switches(SchedEvents(ys, acts, n)) == k
    requires Steps(ys, acts, n) && SchedEvent(ys[n], acts[n]) == [Switch]
    ensures ys[n + 1].sched.current == t && FrontWaits(ys[n + 1], m, t)
  {
    hide QueuesRight, Apply, Enabled, SchedEvent, FrontWaits, AfterAll;
    FrontStaysFor(ys, acts, n, m, t, k);
    RunOfScheduler(ys, acts, n);
    RunOfScheduler(ys, acts, n + 1);
    RunsInTurn(ys[0].sched, SchedEvents(ys, acts, n), k);
    FrontStays(ys[n], acts[n], m, t);
  }

  /** There its only own step is the next round of the lock loop, which takes the lock. */
  lemma TurnTakesLock(y: Sys, a: Act, m: Mutex)
    requires SafeInv(y) && FrontWaits(y, m, y.sched.current) && Enabled(y, a)
    ensures a.Check? || (a.Other? && (a.event.Wake? || a.event.Continue?) &&
                         Apply(y, a).sched.current == y.sched.current && FrontWaits(Apply(y, a), m, y.sched.current))
    ensures a.Check? && !GivesUp(y, a) ==> (y.sched.current, m) in Apply(y, a).holds
  {
  }

  // ---- A run that strands a waiter -----------------------------------------------------------

  function At(queue: seq<Task>, current: Task, running: set<Task>, q: seq<Task>, waits: map<Task, Wait>,
              holds: set<(Task, Mutex)>): Sys {
    Sys(Sched(queue, current, 0, running, {}, {}), map[0 := q], waits, holds)
  }

  lemma LockLeads(queue: seq<Task>, c: Task, running: set<Task>, q: seq<Task>, waits: map<Task, Wait>,
                  holds: set<(Task, Mutex)>, interruptible: bool)
    requires c !in waits && c !in q
    ensures Leads(At(queue, c, running, q, waits, holds), Lock(0, interruptible),
                  At(queue, c, running - {c}, q + [c], waits[c := Wait(0, interruptible)], holds))
  {
  }

  lemma StrandingStart()
    ensures Leads(At([2, 3], 1, {1, 2, 3}, [], map[], {}), Lock(0, false),
                  At([2, 3], 1, {2, 3}, [1], map[1 := Wait(0, false)], {}))
    ensures Leads(At([2, 3], 1, {2, 3}, [1], map[1 := Wait(0, false)], {}), Check(false),
                  At([2, 3], 1, {1, 2, 3}, [1], map[], {(1, 0)}))
    ensures Leads(At([2, 3], 1, {1, 2, 3}, [1], map[], {(1, 0)}), Other(Switch),
                  At([3, 1], 2, {1, 2, 3}, [1], map[], {(1, 0)}))
    ensures Leads(At([3, 1], 2, {1, 2, 3}, [1], map[], {(1, 0)}), Lock(0, true),
                  At([3, 1], 2, {1, 3}, [1, 2], map[2 := Wait(0, true)], {(1, 0)}))
  {
    assert {1, 2, 3} - {2} == {1, 3} && {1, 2, 3} - {1} == {2, 3};
    assert [1] + [2] == [1, 2] && [] + [1] == [1];
    assert map[][1 := Wait(0, false)] == map[1 := Wait(0, false)];
    assert map[][2 := Wait(0, true)] == map[2 := Wait(0, true)];
    LockLeads([2, 3], 1, {1, 2, 3}, [], map[], {}, false);
    LockLeads([3, 1], 2, {1, 2, 3}, [1], map[], {(1, 0)}, true);
    assert map[1 := Wait(0, false)] - {1} == map[];
  }

  lemma StrandingMiddle()
    ensures Leads(At([3, 1], 2, {1, 3}, [1, 2], map[2 := Wait(0, true)], {(1, 0)}), Check(false),
                  At([1], 3, {1, 3}, [1, 2], map[2 := Wait(0, true)], {(1, 0)}))
    ensures Leads(At([1], 3, {1, 3}, [1, 2], map[2 := Wait(0, true)], {(1, 0)}), Lock(0, false),
                  At([1], 3, {1}, [1, 2, 3], map[2 := Wait(0, true), 3 := Wait(0, false)], {(1, 0)}))
    ensures Leads(At([1], 3, {1}, [1, 2, 3], map[2 := Wait(0, true), 3 := Wait(0, false)], {(1, 0)}), Check(false),
                  At([], 1, {1}, [1, 2, 3], map[2 := Wait(0, true), 3 := Wait(0, false)], {(1, 0)}))
  {
    assert {1, 3} - {3} == {1} && [1, 2] + [3] == [1, 2, 3];
    LockLeads([1], 3, {1, 3}, [1, 2], map[2 := Wait(0, true)], {(1, 0)}, false);
  }

  lemma StrandingEnd()
    ensures Leads(At([], 1, {1}, [1, 2, 3], map[2 := Wait(0, true), 3 := Wait(0, false)], {(1, 0)}), Unlock(0),
                  At([2], 1, {1}, [2, 3], map[2 := Wait(0, true), 3 := Wait(0, false)], {}))
    ensures Leads(At([2], 1, {1}, [2, 3], map[2 := Wait(0, true), 3 := Wait(0, false)], {}), Other(Sleep),
                  At([2], 1, {}, [2, 3], map[2 := Wait(0, true), 3 := Wait(0, false)], {}))
    ensures Leads(At([2], 1, {}, [2, 3], map[2 := Wait(0, true), 3 := Wait(0, false)], {}), Other(Switch),
                  At([], 2, {}, [2, 3], map[2 := Wait(0, true), 3 := Wait(0, false)], {}))
    ensures Leads(At([], 2, {}, [2, 3], map[2 := Wait(0, true), 3 := Wait(0, false)], {}), Check(true),
                  At([], 2, {2}, [3], map[3 := Wait(0, false)], {}))
  {
    RemovedIs([2, 3], 2);
    assert map[2 := Wait(0, true), 3 := Wait(0, false)] - {2} == map[3 := Wait(0, false)];
    assert {(1, 0)} - {(1, 0)} == {};
  }

  /** Task 1 takes mutex 0, tasks 2 (interruptible) and 3 queue behind it.  Task 1 unlocks, which
      wakes task 2, and sleeps; a signal reaches task 2 before it looks again, and it gives up:
      task 3 is at the front, asleep, nobody holds the mutex, and nothing is going to wake task 3. */
  lemma StrandedWaiter() returns (ys: seq<Sys>, acts: seq<Act>)
    ensures Run(ys, acts) && SysInv(ys[0]) && ys[0] == At([2, 3], 1, {1, 2, 3}, [], map[], {})
    ensures var y := ys[|acts|]; FrontWaits(y, 0, 3) && !Runnable(y, 3) && y.holds == {} && y.sched.queue == []
  {
    StrandingStart();
    StrandingMiddle();
    StrandingEnd();
    ys := [At([2, 3], 1, {1, 2, 3}, [], map[], {}),
           At([2, 3], 1, {2, 3}, [1], map[1 := Wait(0, false)], {}),
           At([2, 3], 1, {1, 2, 3}, [1], map[], {(1, 0)}),
           At([3, 1], 2, {1, 2, 3}, [1], map[], {(1, 0)}),
           At([3, 1], 2, {1, 3}, [1, 2], map[2 := Wait(0, true)], {(1, 0)}),
           At([1], 3, {1, 3}, [1, 2], map[2 := Wait(0, true)], {(1, 0)}),
           At([1], 3, {1}, [1, 2, 3], map[2 := Wait(0, true), 3 := Wait(0, false)], {(1, 0)}),
           At([], 1, {1}, [1, 2, 3], map[2 := Wait(0, true), 3 := Wait(0, false)], {(1, 0)}),
           At([2], 1, {1}, [2, 3], map[2 := Wait(0, true), 3 := Wait(0, false)], {}),
           At([2], 1, {}, [2, 3], map[2 := Wait(0, true), 3 := Wait(0, false)], {}),
           At([], 2, {}, [2, 3], map[2 := Wait(0, true), 3 := Wait(0, false)], {}),
           At([], 2, {2}, [3], map[3 := Wait(0, false)], {})];
    acts := [Lock(0, false), Check(false), Other(Switch), Lock(0, true), Check(false), Lock(0, false), Check(false),
             Unlock(0), Other(Sleep), Other(Switch), Check(true)];
    hide Apply, Enabled;
    forall i: nat | i < |acts| ensures Leads(ys[i], acts[i], ys[i + 1]) {
    }
  }

  // ---- The code ------------------------------------------------------------------------------

  datatype Outcome = Retry | Success | Interruption

  class Kernel {
    const sched: Scheduler
    var queues: map<Mutex, seq<Task>>
    ghost var waits: map<Task, Wait>
    ghost var holds: set<(Task, Mutex)>

    ghost function View(): Sys
      reads this, sched
    {
      Sys(sched.View(), queues, waits, holds)
    }

    constructor (sched: Scheduler)
      ensures this.sched == sched && View() == Sys(sched.View(), map[], map[], {})
    {
      this.sched := sched;
      queues, waits, holds := map[], map[], {};
    }

    method Init(m: Mutex)
      modifies this`queues
      ensures View() == old(View()).(queues := old(queues)[m := []])
    {
      queues := queues[m := []];
    }

    /** mutex_lock_interruptable and mutex_lock_uninterruptable up to their loop. */
    method Enter(m: Mutex, interruptible: bool) returns (bug: bool)
      requires Inv(sched.View()) && m in queues && !Waiting(View())
      modifies this, sched`running
      ensures bug <==> !old(Enabled(View(), Lock(m, interruptible)))
      ensures View() == if bug then old(View()) else old(Apply(View(), Lock(m, interruptible)))
    {
      if sched.current in queues[m] {
        return true;
      }
      queues := queues[m := queues[m] + [sched.current]];
      sched.running := sched.running - {sched.current};
      waits := waits[sched.current := Wait(m, interruptible)];
      return false;
    }

    /** One evaluation of the loop condition, with schedule() or the code behind the loop. */
    method Round(m: Mutex, interruptible: bool, signal: bool) returns (outcome: Outcome)
      requires Inv(sched.View()) && m in queues && Waiting(View()) && waits[sched.current] == Wait(m, interruptible)
      modifies this, sched
      ensures View() == old(Apply(View(), Check(signal))) && Inv(sched.View())
      ensures outcome == if interruptible && signal then Interruption
                         else if old(AtFront(View(), m, sched.current)) then Success else Retry
    {
      if !(queues[m] != [] && queues[m][0] == sched.current) && !(interruptible && signal) {
        sched.Schedule();
        return Retry;
      }
      sched.running := sched.running + {sched.current};
      waits := waits - {sched.current};
      if !interruptible || !signal {
        holds := holds + {(sched.current, m)};
        return Success;
      }
      queues := queues[m := Removed(queues[m], sched.current)];
      return Interruption;
    }

    /** mutex_unlock. */
    method Unlock(m: Mutex) returns (bug: bool)
      requires Inv(sched.View()) && m in queues && !Waiting(View())
      modifies this, sched`queue, sched`flagged
      ensures bug <==> !old(Enabled(View(), Act.Unlock(m)))
      ensures !bug ==> View() == old(Apply(View(), Act.Unlock(m))) && Inv(sched.View())
    {
      if queues[m] == [] {
        return true;
      }
      var first := queues[m][0];
      queues := queues[m := queues[m][1..]];
      if first != sched.current {
        return true;
      }
      holds := holds - {(sched.current, m)};
      if queues[m] != [] {
        sched.WakeUpProcess(queues[m][0]);
      }
      return false;
    }
  }
}
