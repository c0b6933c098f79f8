/** The uptime clock (src/time/uptime.c): a state machine that counts interrupts between changes of
    the real-time clock's second register. */
module Uptime {

  const WORD: nat := 0x1_0000_0000
  const INITIAL_RATE: nat := 1024
  const MAX_TICKS: nat := 4295    // per second

  datatype Clock = Clock(state: nat, calibration: nat, counter: nat, seconds: nat, last: int)

  const START: Clock := Clock(0, INITIAL_RATE, 0, 0, 65535)

  /** One interrupt that finds `second` in the register. */
  function Ticked(c: Clock, second: int): Clock {
    var changed := second != c.last;
    var c1 := match c.state
              case 0 => c.(state := 1)
              case 1 => if changed then Counted(c.(state := 2, counter := 0)) else c
              case _ => if changed then Counted(c) else c;
    c1.(last := second, counter := c1.counter + 1)
  }

  /** A second is over: its interrupts become the rate. */
  function Counted(c: Clock): Clock {
    c.(calibration := if c.counter == 0 then 1 else c.counter, seconds := c.seconds + 1, counter := 0)
  }

  datatype Timespec = Timespec(sec: nat, nsec: nat)

  /** The product in 32 bits. */
  function Product(counter: nat): nat {
    counter * 1000000 % WORD
  }

  function Share(x: nat, d: nat): nat
    requires d > 0
  {
    x / d
  }

  /** get_uptime. */
  function UptimeOf(c: Clock): Timespec
    requires c.calibration > 0
  {
    var counter := if c.counter >= c.calibration then c.calibration - 1 else c.counter;
    Timespec(c.seconds, Share(Product(counter), c.calibration) * 1000)
  }

  function After(ticks: seq<int>): Clock {
    if ticks == [] then START else Ticked(After(ticks[..|ticks| - 1]), ticks[|ticks| - 1])
  }

  /** How long the register has had its present value. */
  function Run(ticks: seq<int>): nat {
    if ticks == [] then 0
    else if |ticks| > 1 && ticks[|ticks| - 1] == ticks[|ticks| - 2] then Run(ticks[..|ticks| - 1]) + 1
    else 1
  }

  /** No second has more interrupts than the product allows. */
  ghost predicate Plausible(ticks: seq<int>) {
    forall n: nat :: n <= |ticks| ==> RunOk(ticks, n)
  }

  predicate RunOk(ticks: seq<int>, n: nat)
    requires n <= |ticks|
  {
    Run(ticks[..n]) <= MAX_TICKS
  }

  predicate Le(x: Timespec, y: Timespec) {
    x.sec < y.sec || (x.sec == y.sec && x.nsec <= y.nsec)
  }

  // ---- The invariant -------------------------------------------------------------------------

  /** Once the seconds are aligned the counter counts the interrupts of the present second. */
  ghost predicate Right(c: Clock, ticks: seq<int>) {
    && c.state <= 2 && 0 < c.calibration <= MAX_TICKS
    && (ticks == [] <==> c.state == 0)
    && (ticks != [] ==> c.last == ticks[|ticks| - 1])
    && (c.state == 2 ==> c.counter == Run(ticks))
  }

  lemma {:induction false} ClockIsRight(ticks: seq<int>)
    requires Plausible(ticks)
    ensures Right(After(ticks), ticks)
  {
    if ticks != [] {
      var before := ticks[..|ticks| - 1];
      forall n: nat | n <= |before| ensures RunOk(before, n) {
        assert RunOk(ticks, n) && before[..n] == ticks[..n];
      }
      ClockIsRight(before);
      assert RunOk(before, |before|) && before[..|before|] == before;
      assert |ticks| > 1 ==> before[|before| - 1] == ticks[|ticks| - 2];
    }
  }

  /** The first stage of the product never overflows, for any counter, exactly up to this rate. */
  lemma ProductFits(calibration: nat)
    requires calibration > 0
    ensures (forall counter: nat :: counter < calibration ==> counter * 1000000 < WORD) <==> calibration <= MAX_TICKS
  {
    if calibration > MAX_TICKS {
      assert MAX_TICKS * 1000000 >= WORD;
    }
  }

  lemma ProductExact(calibration: nat, counter: nat)
    requires counter < calibration <= MAX_TICKS
    ensures Product(counter) == counter * 1000000
  {
  }

  lemma FractionBelowOne(counter: nat, calibration: nat)
    requires counter < calibration
    ensures Share(counter * 1000000, calibration) < 1000000
  {
  }

  lemma MulMonotone(d: nat, a: nat, b: nat)
    ensures a <= b ==> d * a <= d * b
  {
  }

  lemma QuotientMonotone(x: nat, y: nat, d: nat)
    requires d > 0 && x <= y
    ensures Share(x, d) <= Share(y, d)
  {
    var q, r := x / d, y / d;
    assert d * q <= x && y < d * (r + 1);
    MulMonotone(d, r + 1, q);
  }

  /** Nanoseconds stay below a second, with nothing lost to 32 bits. */
  lemma NanosecondsBelowSecond(ticks: seq<int>)
    requires Plausible(ticks)
    ensures After(ticks).calibration > 0 && UptimeOf(After(ticks)).nsec < 1_000_000_000
    ensures var c := After(ticks); var counter := if c.counter >= c.calibration then c.calibration - 1 else c.counter;
            UptimeOf(c).nsec == Share(counter * 1000000, c.calibration) * 1000
  {
    ClockIsRight(ticks);
    var c := After(ticks);
    var counter := if c.counter >= c.calibration then c.calibration - 1 else c.counter;
    ProductExact(c.calibration, counter);
    FractionBelowOne(counter, c.calibration);
    hide Product, Share;
  }

  lemma TickMovesOn(c: Clock, second: int)
    requires 0 < c.calibration <= MAX_TICKS && 0 < Ticked(c, second).calibration <= MAX_TICKS
    ensures Le(UptimeOf(c), UptimeOf(Ticked(c, second)))
  {
    var d := Ticked(c, second);
    if d.seconds == c.seconds {
      var x := if c.counter >= c.calibration then c.calibration - 1 else c.counter;
      var y := if d.counter >= d.calibration then d.calibration - 1 else d.counter;
      ProductExact(c.calibration, x);
      ProductExact(c.calibration, y);
      QuotientMonotone(x * 1000000, y * 1000000, c.calibration);
      hide Product, Share;
    }
  }

  lemma LeTransitive(x: Timespec, y: Timespec, z: Timespec)
    requires Le(x, y) && Le(y, z)
    ensures Le(x, z)
  {
  }

  /** The uptime never runs backwards, through the alignment and the first calibration too. */
  lemma {:induction false} UptimeIsMonotone(ticks: seq<int>, m: nat)
    requires Plausible(ticks) && m <= |ticks|
    ensures After(ticks[..m]).calibration > 0 && After(ticks).calibration > 0
    ensures Le(UptimeOf(After(ticks[..m])), UptimeOf(After(ticks)))
    decreases |ticks|
  {
    ClockIsRight(ticks);
    if m == |ticks| {
      assert ticks[..m] == ticks;
    } else {
      var before := ticks[..|ticks| - 1];
      forall n: nat | n <= |before| ensures RunOk(before, n) {
        assert RunOk(ticks, n) && before[..n] == ticks[..n];
      }
      UptimeIsMonotone(before, m);
      assert before[..m] == ticks[..m];
      ClockIsRight(before);
      TickMovesOn(After(before), ticks[|ticks| - 1]);
      LeTransitive(UptimeOf(After(ticks[..m])), UptimeOf(After(before)), UptimeOf(After(ticks)));
    }
  }

  function Changes(ticks: seq<int>): nat {
    if |ticks| < 2 then 0
    else Changes(ticks[..|ticks| - 1]) + if ticks[|ticks| - 1] != ticks[|ticks| - 2] then 1 else 0
  }

  /** The seconds are the changes of the register seen since the first interrupt. */
  lemma {:induction false} SecondsCountChanges(ticks: seq<int>)
    ensures var c := After(ticks);
            && c.seconds == Changes(ticks) && (ticks == [] <==> c.state == 0) && c.state <= 2
            && (ticks != [] ==> c.last == ticks[|ticks| - 1])
  {
    if ticks != [] {
      var before := ticks[..|ticks| - 1];
      SecondsCountChanges(before);
      assert |ticks| > 1 ==> before[|before| - 1] == ticks[|ticks| - 2];
    }
  }

  // ---- The rate ------------------------------------------------------------------------------

  /** How long the register had its value before the present one. */
  function LastRun(ticks: seq<int>): nat {
    if |ticks| < 2 then 0
    else if ticks[|ticks| - 1] == ticks[|ticks| - 2] then LastRun(ticks[..|ticks| - 1])
    else Run(ticks[..|ticks| - 1])
  }

  lemma {:induction false} RunsArePositive(ticks: seq<int>)
    ensures ticks != [] ==> Run(ticks) > 0
    ensures Changes(ticks) > 0 ==> LastRun(ticks) > 0
  {
    if ticks != [] { RunsArePositive(ticks[..|ticks| - 1]); }
  }

  /** The rate is the number of interrupts in the last second that was seen as a whole.  Before there is
      one it is the rate the hardware was set to, or 1 in the first second after the alignment. */
  lemma {:induction false} RateIsLastSecond(ticks: seq<int>)
    ensures var c := After(ticks);
            && c.state <= 2 && (ticks == [] <==> c.state == 0) && (c.state == 2 <==> Changes(ticks) > 0)
            && (ticks != [] ==> c.last == ticks[|ticks| - 1])
            && c.counter == (if c.state == 2 then Run(ticks) else |ticks|)
            && c.calibration == match Changes(ticks)
                                case 0 => 1024
                                case 1 => 1
                                case _ => LastRun(ticks)
  {
    if ticks != [] {
      var before := ticks[..|ticks| - 1];
      RateIsLastSecond(before);
      RunsArePositive(before);
      assert |ticks| > 1 ==> before[|before| - 1] == ticks[|ticks| - 2];
    }
  }

  /** The uptime after the first whole second: the changes of the register, and the share of the present
      second by the length of the last one, in microseconds. */
  lemma UptimeIs(ticks: seq<int>)
    requires Plausible(ticks) && Changes(ticks) > 1
    ensures LastRun(ticks) > 0 && After(ticks).calibration > 0
    ensures var counter := if Run(ticks) < LastRun(ticks) then Run(ticks) else LastRun(ticks) - 1;
            UptimeOf(After(ticks)) == Timespec(Changes(ticks), counter * 1000000 / LastRun(ticks) * 1000)
  {
    RateIsLastSecond(ticks);
    RunsArePositive(ticks);
    SecondsCountChanges(ticks);
    ClockIsRight(ticks);
    var c := After(ticks);
    ProductExact(c.calibration, if c.counter >= c.calibration then c.calibration - 1 else c.counter);
  }

  /** Before the first change the seconds are 0 and the interrupts are counted from the start. */
  lemma UptimeAtFirst(ticks: seq<int>)
    requires Changes(ticks) == 0 && |ticks| < 1024
    ensures After(ticks).calibration > 0
    ensures UptimeOf(After(ticks)) == Timespec(0, |ticks| * 1000000 / 1024 * 1000)
  {
    RateIsLastSecond(ticks);
    SecondsCountChanges(ticks);
    ProductExact(1024, |ticks|);
  }

  /** For instance 512 interrupts after a second of 1024 are half a second. */
  lemma HalfSecond(ticks: seq<int>)
    requires Plausible(ticks) && Changes(ticks) > 1 && LastRun(ticks) == 1024 && Run(ticks) == 512
    ensures After(ticks).calibration > 0 && UptimeOf(After(ticks)).nsec == 500_000_000
  {
    UptimeIs(ticks);
  }

  class UptimeClock {
    var state: nat
    var lastCalibration: nat
    var rtcCounter: nat
    var seconds: nat
    var lastSecond: int

    function View(): Clock
      reads this
    {
      Clock(state, lastCalibration, rtcCounter, seconds, lastSecond)
    }

    constructor ()
      ensures View() == START
    {
      state, lastCalibration, rtcCounter, seconds, lastSecond := 0, INITIAL_RATE, 0, 0, 65535;
    }

    /** The interrupt handler; state 1 falls through to state 2. */
    method RtcHandler(second: int)
      requires state <= 2
      modifies this
      ensures View() == Ticked(old(View()), second)
    {
      if state == 0 {
        state := state + 1;
      } else {
        if state == 1 && second != lastSecond {
          state := state + 1;
          rtcCounter := 0;
        }
        if second != lastSecond {
          lastCalibration := rtcCounter;
          if lastCalibration == 0 { lastCalibration := 1; }
          seconds := seconds + 1;
          rtcCounter := 0;
        }
      }
      lastSecond := second;
      rtcCounter := rtcCounter + 1;
    }

    method GetUptime() returns (data: Timespec)
      requires lastCalibration > 0
      ensures data == UptimeOf(View())
    {
      var counter := rtcCounter;
      if counter >= lastCalibration { counter := lastCalibration - 1; }
      data := Timespec(seconds, Share(Product(counter), lastCalibration) * 1000);
    }
  }
}
