/**
 * The two write-cadence counters of MainWindow. Both start at 0 and share
 * WRITE_TIMER = 30. The depth handler tests `counter >= 30` and only on
 * processed frames; the color handler tests `counter == 30` on every
 * arrival. When the test fires the counter is reset to 0, and in both
 * handlers the counter is then incremented.
 */
module Cadence {

  /** Frames between two writes to disk. */
  const WriteTimer: int := 30

  /** Outcome of one counter update: whether a write is triggered, and the new counter. */
  datatype Tick = Tick(write: bool, next: int)

  /** One processed depth frame: test with >=, reset, then increment. */
  function DepthTick(counter: int): Tick
  {
    var write := counter >= WriteTimer;
    Tick(write, (if write then 0 else counter) + 1)
  }

  /** One color arrival: test with ==, reset, then increment. */
  function ColorTick(counter: int): Tick
  {
    var write := counter == WriteTimer;
    Tick(write, (if write then 0 else counter) + 1)
  }

  /** Counter and number of writes of a stream. */
  datatype CounterState = CounterState(counter: int, writes: nat)

  /** Depth cadence after n processed frames, starting from the initial counter 0. */
  function DepthRun(n: nat): CounterState
  {
    if n == 0 then CounterState(0, 0)
    else
      var s := DepthRun(n - 1);
      var t := DepthTick(s.counter);
      CounterState(t.next, s.writes + if t.write then 1 else 0)
  }

  /** Color cadence after n arrivals, starting from the initial counter 0. */
  function ColorRun(n: nat): CounterState
  {
    if n == 0 then CounterState(0, 0)
    else
      var s := ColorRun(n - 1);
      var t := ColorTick(s.counter);
      CounterState(t.next, s.writes + if t.write then 1 else 0)
  }

  /** Reference definition: the 1-based arrival k triggers a write exactly when k is 31, 61, 91, ... */
  predicate IsWriteArrival(k: nat)
  {
    k > WriteTimer && k % WriteTimer == 1
  }

  /** Closed form of the counter after n counted arrivals. */
  function CounterAfter(n: nat): (c: int)
    ensures 0 <= c <= WriteTimer
    ensures c == 0 <==> n == 0
  {
    if n == 0 then 0 else (n - 1) % WriteTimer + 1
  }

  /** Closed form of the number of writes after n counted arrivals. */
  function WritesAfter(n: nat): (w: nat)
    ensures w * WriteTimer < n || n == 0
  {
    if n == 0 then 0 else (n - 1) / WriteTimer
  }

  /** Arrival n + 1 writes exactly when IsWriteArrival(n + 1) says so, and the counts advance accordingly. */
  lemma ClosedFormStep(n: nat)
    ensures CounterAfter(n) == WriteTimer <==> IsWriteArrival(n + 1)
    ensures CounterAfter(n + 1) == if IsWriteArrival(n + 1) then 1 else CounterAfter(n) + 1
    ensures WritesAfter(n + 1) == WritesAfter(n) + if IsWriteArrival(n + 1) then 1 else 0
  {
    if n > 0 {
      var q, r := (n - 1) / WriteTimer, (n - 1) % WriteTimer;
      assert n - 1 == q * WriteTimer + r;
      if r == WriteTimer - 1 {
        assert n == (q + 1) * WriteTimer;
        assert n + 1 == (q + 1) * WriteTimer + 1;
      } else {
        assert n == q * WriteTimer + (r + 1);
        assert n + 1 == q * WriteTimer + (r + 2);
      }
    }
  }

  /** A processed depth frame with the counter in closed form writes on the (n+1)-th frame iff it is a write arrival. */
  lemma DepthTickStep(n: nat)
    ensures DepthTick(CounterAfter(n)) == Tick(IsWriteArrival(n + 1), CounterAfter(n + 1))
  {
    ClosedFormStep(n);
  }

  /** The same for a color arrival: the == test never misses because the counter stays within [0, 30]. */
  lemma ColorTickStep(n: nat)
    ensures ColorTick(CounterAfter(n)) == Tick(IsWriteArrival(n + 1), CounterAfter(n + 1))
  {
    ClosedFormStep(n);
  }

  /** The depth counter keeps the closed form: after n processed frames it is CounterAfter(n), with WritesAfter(n) writes. */
  lemma {:induction false} DepthRunClosedForm(n: nat)
    ensures DepthRun(n) == CounterState(CounterAfter(n), WritesAfter(n))
  {
    if n > 0 {
      DepthRunClosedForm(n - 1);
      DepthTickStep(n - 1);
      ClosedFormStep(n - 1);
    }
  }

  /** The color counter keeps the same closed form, counted over all arrivals. */
  lemma {:induction false} ColorRunClosedForm(n: nat)
    ensures ColorRun(n) == CounterState(CounterAfter(n), WritesAfter(n))
  {
    if n > 0 {
      ColorRunClosedForm(n - 1);
      ColorTickStep(n - 1);
      ClosedFormStep(n - 1);
    }
  }

  /** Within [0, 30] the == test and the >= test behave identically. */
  lemma TicksAgreeWithinBound(counter: int)
    requires 0 <= counter <= WriteTimer
    ensures ColorTick(counter) == DepthTick(counter)
  {
  }

  /** Past 30 the == test would never fire again: the bound is what keeps color writes happening. */
  lemma ColorTickStallsAboveTimer(counter: int)
    requires counter > WriteTimer
    ensures !ColorTick(counter).write && ColorTick(counter).next > WriteTimer
  {
  }

  /** Thirty counted arrivals write nothing; the 31st writes once; the 61st writes a second time. */
  lemma FirstWrites()
    ensures DepthRun(30).writes == 0 && DepthRun(30).counter == 30
    ensures DepthRun(31).writes == 1 && DepthRun(31).counter == 1
    ensures DepthRun(60).writes == 1 && DepthRun(61).writes == 2
    ensures ColorRun(30).writes == 0 && ColorRun(31).writes == 1 && ColorRun(61).writes == 2
  {
    DepthRunClosedForm(30);
    DepthRunClosedForm(31);
    DepthRunClosedForm(60);
    DepthRunClosedForm(61);
    ColorRunClosedForm(30);
    ColorRunClosedForm(31);
    ColorRunClosedForm(61);
  }

  /** After the first write at arrival 31, writes recur every 30 arrivals and never in between. */
  lemma WriteArrivalsEveryThirty(k: nat)
    ensures k <= WriteTimer ==> !IsWriteArrival(k)
    ensures k > WriteTimer ==> (IsWriteArrival(k) <==> IsWriteArrival(k + WriteTimer))
    ensures IsWriteArrival(k) ==> forall j :: k < j < k + WriteTimer ==> !IsWriteArrival(j)
  {
  }
}
