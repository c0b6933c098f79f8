/** Sleeping tasks and the clock tick that wakes them (src/time/sleep.c). */
module Sleeping {
  import opened Sequences
  import opened Lists
  import opened Scheduling

  const WORD: nat := 0x1_0000_0000
  const NSEC: nat := 1_000_000_000

  datatype Timespec = Timespec(sec: nat, nsec: nat)

  /** The seconds fit 32 bits, and the rest is less than a second. */
  predicate Normal(x: Timespec) {
    x.sec < WORD && x.nsec < NSEC
  }

  function Signed(x: int): int {
    var w := x % WORD;
    if w < WORD / 2 then w else w - WORD
  }

  /** timespec_cmp: a 32-bit difference read as a signed number. */
  function Cmp(x: Timespec, y: Timespec): int {
    if x.sec == y.sec then Signed(x.nsec - y.nsec) else Signed(x.sec - y.sec)
  }

  predicate Later(x: Timespec, y: Timespec) {
    x.sec > y.sec || (x.sec == y.sec && x.nsec > y.nsec)
  }

  /** timespec_cmp has the right sign exactly when the seconds are less than 2^31 apart (or exactly
      2^31 with the earlier one first). */
  lemma CmpIsTimeOrder(x: Timespec, y: Timespec)
    requires Normal(x) && Normal(y)
    ensures ((Cmp(x, y) > 0 <==> Later(x, y)) && (Cmp(x, y) < 0 <==> Later(y, x)))
       <==> -(WORD / 2) <= x.sec - y.sec < WORD / 2
    ensures Cmp(x, y) == 0 <==> x == y
  {
  }

  // ---- Arithmetic ----------------------------------------------------------------------------

  function Carried(x: Timespec): Timespec {
    if x.nsec >= NSEC then Timespec((x.sec + 1) % WORD, x.nsec - NSEC) else x
  }

  /** timespec_add. */
  function Add(x: Timespec, y: Timespec): Timespec {
    Carried(Timespec((x.sec + y.sec) % WORD, (x.nsec + y.nsec) % WORD))
  }

  function Borrowed(x: Timespec, y: Timespec): Timespec {
    if x.nsec < y.nsec then Timespec((x.sec + WORD - 1) % WORD, (x.nsec + NSEC) % WORD) else x
  }

  /** timespec_sub. */
  function Sub(x: Timespec, y: Timespec): Timespec {
    var b := Borrowed(x, y);
    Timespec((b.sec - y.sec) % WORD, (b.nsec - y.nsec) % WORD)
  }

  function Nanos(x: Timespec): nat {
    x.sec * 1_000_000_000 + x.nsec
  }

  lemma BackOne(s: nat)
    requires s < WORD
    ensures ((s + 1) % WORD + WORD - 1) % WORD == s
  {
  }

  lemma BackSum(s: nat, d: nat)
    requires s < WORD && d < WORD
    ensures ((s + d) % WORD - d) % WORD == s
  {
  }

  /** Sums of normal times are normal; they are exact while the seconds do not wrap, and subtraction
      undoes addition even when they do. */
  lemma AddThenSub(x: Timespec, y: Timespec)
    requires Normal(x) && Normal(y)
    ensures Normal(Add(x, y)) && Sub(Add(x, y), y) == x
    ensures x.sec + y.sec + 1 < WORD ==> Nanos(Add(x, y)) == Nanos(x) + Nanos(y)
  {
    var s, n := (x.sec + y.sec) % WORD, x.nsec + y.nsec;
    assert n % WORD == n;
    BackOne(s);
    BackSum(x.sec, y.sec);
    if n >= NSEC {
      assert Add(x, y) == Timespec((s + 1) % WORD, n - NSEC);
      assert Borrowed(Add(x, y), y) == Timespec(s, n);
    } else {
      assert Add(x, y) == Timespec(s, n) == Borrowed(Add(x, y), y);
    }
    assert (n - y.nsec) % WORD == x.nsec;
  }

  /** The difference is exact where it is not negative. */
  lemma SubIsDifference(x: Timespec, y: Timespec)
    requires Normal(x) && Normal(y) && !Later(y, x)
    ensures Normal(Sub(x, y)) && Nanos(Sub(x, y)) == Nanos(x) - Nanos(y)
  {
    if x.nsec < y.nsec {
      assert (x.sec + WORD - 1) % WORD == x.sec - 1;
      assert Borrowed(x, y) == Timespec(x.sec - 1, x.nsec + NSEC);
    }
    var b := Borrowed(x, y);
    assert Sub(x, y) == Timespec(b.sec - y.sec, b.nsec - y.nsec);
  }

  // ---- The queue -----------------------------------------------------------------------------

  datatype Sleeper = Sleeper(task: Task, end: Timespec)

  /** list_insert_ordered gets timespec_cmp for pointers to struct sleep_spec, whose first two words
      are the task pointer and the seconds of the end time. */
  function RawCompare(specs: map<nat, Sleeper>): (nat, nat) -> int {
    (p, q) => if p in specs && q in specs then Cmp(FirstWords(specs[p]), FirstWords(specs[q])) else 0
  }

  function FirstWords(s: Sleeper): Timespec {
    Timespec(s.task, s.end.sec)
  }

  /** What the order was meant to be. */
  function EndCompare(specs: map<nat, Sleeper>): (nat, nat) -> int {
    (p, q) => if p in specs && q in specs then Cmp(specs[p].end, specs[q].end) else 0
  }

  /** Task pointers, and end times, are pairwise less than 2^31 apart. */
  predicate Near(specs: map<nat, Sleeper>) {
    && (forall p :: p in specs ==> Normal(specs[p].end))
    && forall p, q :: p in specs && q in specs ==>
         -(WORD / 2) < specs[p].task - specs[q].task < WORD / 2 &&
         -(WORD / 2) < specs[p].end.sec - specs[q].end.sec < WORD / 2
  }

  /** Every task that can sleep was made by do_clone, out of pages of the kernel heap. */
  lemma ClonedTasksAreNear(specs: map<nat, Sleeper>)
    requires forall p :: p in specs ==> 0xC040_0000 <= specs[p].task < WORD && Normal(specs[p].end)
    requires forall p, q :: p in specs && q in specs ==>
               -(WORD / 2) < specs[p].end.sec - specs[q].end.sec < WORD / 2
    ensures Near(specs)
  {
  }

  /** The order the queue is kept in: by task pointer, then by the second of the end time. */
  predicate RawLater(x: Sleeper, y: Sleeper) {
    x.task > y.task || (x.task == y.task && x.end.sec > y.end.sec)
  }

  lemma RawValue(specs: map<nat, Sleeper>, p: nat, q: nat)
    requires Near(specs) && p in specs && q in specs
    ensures RawCompare(specs)(p, q) == if specs[p].task == specs[q].task then specs[p].end.sec - specs[q].end.sec
                                       else specs[p].task - specs[q].task
  {
    NearCmp(FirstWords(specs[p]), FirstWords(specs[q]));
  }

  lemma EndValue(specs: map<nat, Sleeper>, p: nat, q: nat)
    requires Near(specs) && p in specs && q in specs
    ensures var x, y := specs[p].end, specs[q].end;
            EndCompare(specs)(p, q) == if x.sec == y.sec then x.nsec - y.nsec else x.sec - y.sec
  {
    NearCmp(specs[p].end, specs[q].end);
  }

  lemma NearCmp(x: Timespec, y: Timespec)
    requires -(WORD / 2) < x.sec - y.sec < WORD / 2 && -(WORD / 2) < x.nsec - y.nsec < WORD / 2
    ensures Cmp(x, y) == if x.sec == y.sec then x.nsec - y.nsec else x.sec - y.sec
  {
    NearSigned(x.sec - y.sec);
    NearSigned(x.nsec - y.nsec);
  }

  lemma NearSigned(d: int)
    requires -(WORD / 2) < d < WORD / 2
    ensures Signed(d) == d
  {
  }

  lemma RawOrders(specs: map<nat, Sleeper>)
    requires Near(specs)
    ensures Orders(specs.Keys, RawCompare(specs))
  {
    var compare := RawCompare(specs);
    forall p, q | p in specs && q in specs
      ensures compare(p, q) == if specs[p].task == specs[q].task then specs[p].end.sec - specs[q].end.sec
                               else specs[p].task - specs[q].task
    {
      RawValue(specs, p, q);
    }
    hide RawCompare, Near;
  }

  lemma EndOrders(specs: map<nat, Sleeper>)
    requires Near(specs)
    ensures Orders(specs.Keys, EndCompare(specs))
  {
    var compare := EndCompare(specs);
    forall p, q | p in specs && q in specs
      ensures var x, y := specs[p].end, specs[q].end;
              compare(p, q) == if x.sec == y.sec then x.nsec - y.nsec else x.sec - y.sec
    {
      EndValue(specs, p, q);
    }
    hide EndCompare, Near;
  }

  /** So the queue is kept in the order of task pointers. */
  lemma QueueOrderedByTask(specs: map<nat, Sleeper>, queue: seq<nat>, p: nat)
    requires Near(specs) && p in specs && (forall q :: q in queue ==> q in specs)
    requires NonIncreasing(queue, RawCompare(specs))
    ensures NonIncreasing(InsertAt(queue, Place(queue, p, RawCompare(specs)), p), RawCompare(specs))
  {
    RawOrders(specs);
    OrderedInsertKeeps(queue, p, RawCompare(specs), specs.Keys);
  }

  /** The new sleeper goes behind the k leading ones with a higher task pointer (or the same one and
      a later second).  A queue in the order of end times stays so exactly if its neighbours there
      are in that order. */
  lemma EndOrderKeptExactly(specs: map<nat, Sleeper>, queue: seq<nat>, p: nat, k: nat)
    requires Near(specs) && p in specs && (forall q :: q in queue ==> q in specs)
    requires NonIncreasing(queue, EndCompare(specs))
    requires k <= |queue| && (forall i :: 0 <= i < k ==> RawLater(specs[queue[i]], specs[p]))
    requires k < |queue| ==> !RawLater(specs[queue[k]], specs[p])
    ensures k == Place(queue, p, RawCompare(specs))
    ensures NonIncreasing(InsertAt(queue, k, p), EndCompare(specs)) <==>
      && (k > 0 ==> !Later(specs[p].end, specs[queue[k - 1]].end))
      && (k < |queue| ==> !Later(specs[queue[k]].end, specs[p].end))
  {
    var compare := EndCompare(specs);
    forall q | q in queue ensures (RawCompare(specs)(q, p) > 0 <==> RawLater(specs[q], specs[p]))
      && (compare(q, p) >= 0 <==> !Later(specs[p].end, specs[q].end))
      && (compare(p, q) >= 0 <==> !Later(specs[q].end, specs[p].end))
    {
      RawValue(specs, q, p);
      EndValue(specs, q, p);
      EndValue(specs, p, q);
    }
    EndOrders(specs);
    hide RawCompare, EndCompare, Near, RawLater, Later;
    forall i | 0 <= i < k ensures RawCompare(specs)(queue[i], p) > 0 {
      assert queue[i] in queue;
    }
    PlaceUnique(queue, p, RawCompare(specs), k);
    InsertionOrdered(queue, p, k, compare, specs.Keys);
  }

  /** An insertion anywhere keeps an order exactly if it keeps it between neighbours. */
  lemma InsertionOrdered(s: seq<nat>, x: nat, k: nat, compare: (nat, nat) -> int, among: set<nat>)
    requires Orders(among, compare) && x in among && (forall y :: y in s ==> y in among)
    requires NonIncreasing(s, compare) && k <= |s|
    ensures NonIncreasing(InsertAt(s, k, x), compare) <==>
      (k > 0 ==> compare(s[k - 1], x) >= 0) && (k < |s| ==> compare(x, s[k]) >= 0)
  {
    hide InsertAt;
    InsertedIndex(s, k, x);
    var t := InsertAt(s, k, x);
    if (k > 0 ==> compare(s[k - 1], x) >= 0) && (k < |s| ==> compare(x, s[k]) >= 0) {
      forall i: nat | i < |s| ensures if i < k then compare(s[i], x) >= 0 else compare(x, s[i]) >= 0 {
        if i + 1 < k { assert compare(s[i], s[k - 1]) >= 0; }
        if i > k { assert compare(s[k], s[i]) >= 0; }
      }
    } else if k > 0 && compare(s[k - 1], x) < 0 {
      assert t[k - 1] == s[k - 1] && t[k] == x;
    } else {
      assert t[k] == x && t[k + 1] == s[k];
    }
  }

  /** Two tasks of the kernel heap: the one at the lower address sleeps longer and goes behind the
      one that sleeps shorter, so the queue is not in the order of end times. */
  lemma QueueNotOrderedByEnd() returns (specs: map<nat, Sleeper>, queue: seq<nat>, p: nat)
    ensures Near(specs) && specs.Keys == {0xC042_0010, 0xC042_0050}
    ensures forall q :: q in specs ==> 0xC040_0000 <= specs[q].task < WORD
    ensures queue == [0xC042_0010] && p == 0xC042_0050
    ensures var q := InsertAt(queue, Place(queue, p, RawCompare(specs)), p);
            NonIncreasing(queue, EndCompare(specs)) && !NonIncreasing(q, EndCompare(specs))
  {
    hide Cmp, RawCompare, EndCompare, InsertAt, Place;
    var first, second := Sleeper(0xC040_8000, Timespec(1, 0)), Sleeper(0xC040_4000, Timespec(5, 0));
    queue, p := [0xC042_0010], 0xC042_0050;
    specs := map[queue[0] := first, p := second];
    EndOrderKeptExactly(specs, queue, p, 1);
  }

  function Expired(specs: map<nat, Sleeper>, now: Timespec): nat -> bool {
    p => p in specs && Cmp(now, specs[p].end) >= 0
  }

  function Wakes(specs: map<nat, Sleeper>, ps: seq<nat>): seq<Event>
    requires forall p :: p in ps ==> p in specs
  {
    if ps == [] then [] else Wakes(specs, ps[..|ps| - 1]) + [Wake(specs[ps[|ps| - 1]].task)]
  }

  lemma {:induction false} WakesWake(s: Sched, specs: map<nat, Sleeper>, ps: seq<nat>, p: nat)
    requires (forall q :: q in ps ==> q in specs) && p in ps
    ensures Woken(AfterAll(s, Wakes(specs, ps)), specs[p].task)
  {
    var before, last := ps[..|ps| - 1], ps[|ps| - 1];
    WakesStep(s, specs, ps);
    if p in before { WakesWake(s, specs, before, p); }
  }

  /** Nobody else is woken. */
  lemma {:induction false} WakesNobodyElse(s: Sched, specs: map<nat, Sleeper>, ps: seq<nat>, t: Task)
    requires (forall q :: q in ps ==> q in specs) && forall p :: p in ps ==> specs[p].task != t
    ensures var u := AfterAll(s, Wakes(specs, ps)); u.current == s.current && (Woken(u, t) <==> Woken(s, t))
  {
    if ps != [] {
      WakesStep(s, specs, ps);
      WakesNobodyElse(s, specs, ps[..|ps| - 1], t);
    }
  }

  lemma WakesStep(s: Sched, specs: map<nat, Sleeper>, ps: seq<nat>)
    requires (forall q :: q in ps ==> q in specs) && ps != []
    ensures AfterAll(s, Wakes(specs, ps))
         == AfterWake(AfterAll(s, Wakes(specs, ps[..|ps| - 1])), specs[ps[|ps| - 1]].task)
  {
  }

  lemma InsertedFrom(s: seq<nat>, k: nat, x: nat)
    requires k <= |s|
    ensures forall y :: y in InsertAt(s, k, x) ==> y in s || y == x
  {
  }

  class SleepQueue {
    const list: List
    const sched: Scheduler
    var specs: map<nat, Sleeper>

    ghost predicate Valid()
      reads this, list, list.chain, sched
    {
      && list.Valid() && Scheduling.Inv(sched.View())
      && (forall p :: p in list.Contents() ==> p in specs)
    }

    constructor (sched: Scheduler)
      requires Scheduling.Inv(sched.View())
      ensures Valid() && this.sched == sched && list.Contents() == [] && specs == map[] && fresh(list)
              && fresh(list.chain)
    {
      list := new List();
      this.sched := sched;
      specs := map[];
    }

    /** sleep_add; `spec` is the new struct, null when there is no memory. */
    method SleepAdd(spec: nat, now: Timespec, time: Timespec, memory: bool) returns (ok: bool)
      requires Valid() && spec !in specs
      modifies this`specs, list, list.chain
      ensures Valid() && ok == (spec != 0)
      ensures specs == if ok then old(specs)[spec := Sleeper(sched.current, Add(now, time))] else old(specs)
      ensures list.Contents() == if ok && memory
                then InsertAt(old(list.Contents()), Place(old(list.Contents()), spec, RawCompare(specs)), spec)
                else old(list.Contents())
    {
      hide Place, RawCompare, Add, InsertAt, Scheduling.Inv;
      if spec == 0 { return false; }
      specs := specs[spec := Sleeper(sched.current, Add(now, time))];
      ghost var queue := list.Contents();
      var res := list.InsertOrdered(spec, RawCompare(specs), memory);
      InsertedFrom(queue, Place(queue, spec, RawCompare(specs)), spec);
      return true;
    }

    /** The clock tick: exactly the expired sleepers leave the queue and are woken. */
    method Tick(now: Timespec)
      requires Valid()
      modifies list, list.chain, sched
      ensures Valid()
      ensures list.Contents() == Without(old(list.Contents()), Expired(specs, now))
      ensures forall p :: p in Filter(old(list.Contents()), Expired(specs, now)) ==> p in specs
      ensures sched.View() == AfterAll(old(sched.View()),
              Wakes(specs, Filter(old(list.Contents()), Expired(specs, now))))
    {
      hide Without, Filter, Wakes, AfterAll;
      var removed := list.RemoveOnCond(Expired(specs, now));
      forall p ensures p in list.Contents() || p in removed ==> p in old(list.Contents()) {
        FilterSplits(old(list.Contents()), Expired(specs, now), p);
      }
      WakeAll(removed);
    }

    /** The wakeups of a tick, one for each removed node. */
    method WakeAll(removed: seq<nat>)
      requires Scheduling.Inv(sched.View()) && forall p :: p in removed ==> p in specs
      modifies sched
      ensures Scheduling.Inv(sched.View())
      ensures sched.View() == AfterAll(old(sched.View()), Wakes(specs, removed))
    {
      for i := 0 to |removed|
        invariant Scheduling.Inv(sched.View())
        invariant sched.View() == AfterAll(old(sched.View()), Wakes(specs, removed[..i]))
      {
        sched.WakeUpProcess(specs[removed[i]].task);
        WakesStep(old(sched.View()), specs, removed[..i + 1]);
        assert removed[..i + 1][..i] == removed[..i];
      }
      assert removed[..|removed|] == removed;
    }

    /** sleep_finalize. */
    method Finalize(spec: nat)
      requires Valid()
      modifies this`specs, list, list.chain
      ensures Valid() && specs == old(specs) - {spec}
      ensures list.Contents() == Removed(old(list.Contents()), spec)
    {
      list.Remove(spec);
      RemovedHas(old(list.Contents()), spec);
      specs := specs - {spec};
    }
  }

  /** After a tick every sleeper whose time had come is woken and gone, every other still queued. */
  lemma TickWakesExpired(s: Sched, specs: map<nat, Sleeper>, queue: seq<nat>, now: Timespec, p: nat)
    requires forall q :: q in queue ==> q in specs
    requires p in queue
    ensures forall q :: q in Filter(queue, Expired(specs, now)) ==> q in specs
    ensures if Cmp(now, specs[p].end) >= 0
            then p !in Without(queue, Expired(specs, now))
                 && Woken(AfterAll(s, Wakes(specs, Filter(queue, Expired(specs, now)))), specs[p].task)
            else p in Without(queue, Expired(specs, now))
  {
    forall q ensures (q in Filter(queue, Expired(specs, now)) <==> q in queue && Expired(specs, now)(q))
                  && (q in Without(queue, Expired(specs, now)) <==> q in queue && !Expired(specs, now)(q)) {
      FilterSplits(queue, Expired(specs, now), q);
    }
    if Cmp(now, specs[p].end) >= 0 {
      WakesWake(s, specs, Filter(queue, Expired(specs, now)), p);
    }
  }

  /** For sleepers within 2^31 seconds of the present the time has come when it is not later than now. */
  lemma DueMeansNotLater(specs: map<nat, Sleeper>, now: Timespec, p: nat)
    requires p in specs && Normal(now) && Normal(specs[p].end)
    requires -0x8000_0000 <= now.sec - specs[p].end.sec < 0x8000_0000
    ensures Expired(specs, now)(p) <==> !Later(specs[p].end, now)
  {
    CmpIsTimeOrder(now, specs[p].end);
  }

  /** A task asleep for a time is not due before that time is over, and due from then on. */
  lemma SleepsAsLong(specs: map<nat, Sleeper>, start: Timespec, time: Timespec, now: Timespec, p: nat)
    requires Normal(start) && Normal(time) && Normal(now) && start.sec + time.sec + 1 < WORD
    requires p in specs && specs[p].end == Add(start, time)
    requires -0x8000_0000 <= now.sec - specs[p].end.sec < 0x8000_0000
    ensures Expired(specs, now)(p) <==> Nanos(now) >= Nanos(start) + Nanos(time)
  {
    AddThenSub(start, time);
    DueMeansNotLater(specs, now, p);
    hide Add, Cmp;
  }
}
