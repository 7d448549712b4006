/** The lap counter of the racetrack application: one iteration of the
    `read_sensor` polling loop as a step function over the loop's local state,
    and the loop itself as the iteration of that step over the polls it makes. */
module LapCounter {
  import opened Wrappers

  /** The last classified light level (`previous_light`). */
  datatype Light = Bright | Dim

  /** What one poll of the serial link yields: nothing waiting, or one line of
      text that either parsed as a number or did not. */
  datatype Arrival = NoLine | Line(parsed: Option<real>)

  /** One iteration of the polling loop, with the clock reading it would get. */
  datatype Tick = Tick(arrival: Arrival, now: real)

  /** The loop's state: the locals `timer_running`, `start_time`, `voltage`,
      `lap_count`, `previous_light`, the field `running`, and the finishing
      `elapsed_time` handed to the result screen. */
  datatype Counter = Counter(
    timerRunning: bool,
    startTime: Option<real>,
    voltage: Option<real>,
    lapCount: nat,
    previousLight: Light,
    running: bool,
    elapsed: Option<real>)

  /** The state when the loop is entered. */
  function Start(running: bool): (s: Counter)
  {
    Counter(false, None, None, 0, Bright, running, None)
  }

  /** The only fact the step needs to be defined: a running timer has a start time. */
  predicate WellFormed(s: Counter)
  {
    s.timerRunning ==> s.startTime.Some?
  }

  /** The reading an iteration compares against the threshold: a fresh line that
      parsed, the stale `voltage` when nothing arrived, none when the line did not parse. */
  function Processed(s: Counter, t: Tick): (reading: Option<real>)
  {
    match t.arrival
    case NoLine => s.voltage
    case Line(p) => p
  }

  /** The iteration accepts a crossing. */
  predicate IsCrossing(threshold: real, s: Counter, t: Tick)
  {
    var p := Processed(s, t);
    p.Some? && p.value <= threshold && s.previousLight == Bright
  }

  /** An accepted crossing: start the timer on the first one, count it, and
      finish once `numberLaps + 1` crossings have been counted. */
  function Cross(numberLaps: nat, s: Counter, now: real): (r: Counter)
    requires WellFormed(s)
    ensures WellFormed(r)
    ensures r.lapCount == s.lapCount + 1 && r.previousLight == Dim && r.voltage == s.voltage
    ensures r.startTime == if s.timerRunning then s.startTime else Some(now)
    ensures r.running == (s.running && r.lapCount < numberLaps + 1)
    ensures r.timerRunning == (r.lapCount < numberLaps + 1)
    ensures r.elapsed == if r.lapCount < numberLaps + 1 then s.elapsed else Some(now - r.startTime.value)
  {
    var startTime := if !s.timerRunning then Some(now) else s.startTime;
    var lapCount := s.lapCount + 1;
    if lapCount >= numberLaps + 1 then
      s.(timerRunning := false, startTime := startTime, lapCount := lapCount,
         running := false, elapsed := Some(now - startTime.value), previousLight := Dim)
    else
      s.(timerRunning := true, startTime := startTime, lapCount := lapCount, previousLight := Dim)
  }

  /** One iteration of the polling loop. */
  function Step(threshold: real, numberLaps: nat, s: Counter, t: Tick): (r: Counter)
    requires WellFormed(s)
    ensures WellFormed(r)
    ensures r.lapCount == if IsCrossing(threshold, s, t) then s.lapCount + 1 else s.lapCount
    ensures t.arrival == Line(None) ==> r == s
    ensures r.voltage == if t.arrival.Line? && t.arrival.parsed.Some? then t.arrival.parsed else s.voltage
    ensures !IsCrossing(threshold, s, t) ==> r.startTime == s.startTime && r.running == s.running
  {
    match t.arrival
    case Line(None) => s
    case _ =>
      var s0 := s.(voltage := Processed(s, t));
      if s0.voltage.None? then s0
      else
        var v := s0.voltage.value;
        var s1 := if v <= threshold && s0.previousLight == Bright then Cross(numberLaps, s0, t.now) else s0;
        if v >= threshold then s1.(previousLight := Bright) else s1
  }

  /** The loop: iterate while `running` and while polls remain. */
  function Run(threshold: real, numberLaps: nat, s: Counter, ticks: seq<Tick>): (r: Counter)
    requires WellFormed(s)
    ensures WellFormed(r)
    ensures !s.running ==> r == s
    ensures r.running ==> s.running
    ensures r.lapCount >= s.lapCount
    decreases |ticks|
  {
    if ticks == [] || !s.running then s
    else Run(threshold, numberLaps, Step(threshold, numberLaps, s, ticks[0]), ticks[1..])
  }

  /** The invariant of the loop's state. */
  predicate Inv(threshold: real, numberLaps: nat, s: Counter)
  {
    && WellFormed(s)
    && s.lapCount <= numberLaps + 1
    && (s.running ==> s.lapCount < numberLaps + 1)
    && (s.timerRunning <==> 1 <= s.lapCount < numberLaps + 1)
    && (s.startTime.Some? <==> s.lapCount >= 1)
    && (s.elapsed.Some? <==> s.lapCount == numberLaps + 1)
    && (s.voltage.None? ==> s.lapCount == 0 && s.previousLight == Bright)
    && (s.voltage.Some? ==> (s.previousLight == Dim <==> s.voltage.value < threshold))
  }

  lemma StartInv(threshold: real, numberLaps: nat, running: bool)
    ensures Inv(threshold, numberLaps, Start(running))
  {
  }

  /** Every iteration of the running loop keeps the invariant. */
  lemma StepPreservesInv(threshold: real, numberLaps: nat, s: Counter, t: Tick)
    requires Inv(threshold, numberLaps, s) && s.running
    ensures Inv(threshold, numberLaps, Step(threshold, numberLaps, s, t))
  {
  }

  /** The loop keeps the invariant. */
  lemma {:induction false} RunPreservesInv(threshold: real, numberLaps: nat, s: Counter, ticks: seq<Tick>)
    requires Inv(threshold, numberLaps, s)
    ensures Inv(threshold, numberLaps, Run(threshold, numberLaps, s, ticks))
    decreases |ticks|
  {
    if ticks != [] && s.running {
      StepPreservesInv(threshold, numberLaps, s, ticks[0]);
      RunPreservesInv(threshold, numberLaps, Step(threshold, numberLaps, s, ticks[0]), ticks[1..]);
    }
  }

  /** The lap count never decreases and never passes `numberLaps + 1`. */
  lemma {:induction false} RunLapCountBounded(threshold: real, numberLaps: nat, s: Counter, ticks: seq<Tick>)
    requires Inv(threshold, numberLaps, s)
    ensures s.lapCount <= Run(threshold, numberLaps, s, ticks).lapCount <= numberLaps + 1
    decreases |ticks|
  {
    RunPreservesInv(threshold, numberLaps, s, ticks);
    if ticks != [] && s.running {
      StepPreservesInv(threshold, numberLaps, s, ticks[0]);
      RunLapCountBounded(threshold, numberLaps, Step(threshold, numberLaps, s, ticks[0]), ticks[1..]);
    }
  }

  /** A reading is strictly dim, or absent. */
  predicate StrictlyDim(threshold: real, v: Option<real>)
  {
    v.None? || v.value < threshold
  }

  /** Every line that parses in the polls is strictly below the threshold. */
  predicate AllStrictlyDim(threshold: real, ticks: seq<Tick>)
  {
    forall i :: 0 <= i < |ticks| && ticks[i].arrival.Line? ==> StrictlyDim(threshold, ticks[i].arrival.parsed)
  }

  /** Once the light is classified dim, strictly dim readings count nothing and
      leave the light dim. */
  lemma {:induction false} DimStaysUncounted(threshold: real, numberLaps: nat, s: Counter, ticks: seq<Tick>)
    requires WellFormed(s) && s.previousLight == Dim
    requires StrictlyDim(threshold, s.voltage) && AllStrictlyDim(threshold, ticks)
    ensures Run(threshold, numberLaps, s, ticks).lapCount == s.lapCount
    ensures Run(threshold, numberLaps, s, ticks).previousLight == Dim
    decreases |ticks|
  {
    if ticks != [] && s.running {
      var s' := Step(threshold, numberLaps, s, ticks[0]);
      assert s'.lapCount == s.lapCount && s'.previousLight == Dim && StrictlyDim(threshold, s'.voltage);
      assert AllStrictlyDim(threshold, ticks[1..]) by {
        forall i | 0 <= i < |ticks[1..]| && ticks[1..][i].arrival.Line?
          ensures StrictlyDim(threshold, ticks[1..][i].arrival.parsed)
        {
          assert ticks[1..][i] == ticks[i + 1];
        }
      }
      DimStaysUncounted(threshold, numberLaps, s', ticks[1..]);
    }
  }

  /** Consecutive strictly dim readings count at most one lap. */
  lemma {:induction false} StrictlyDimCountsAtMostOnce(threshold: real, numberLaps: nat, s: Counter, ticks: seq<Tick>)
    requires WellFormed(s)
    requires StrictlyDim(threshold, s.voltage) && AllStrictlyDim(threshold, ticks)
    ensures Run(threshold, numberLaps, s, ticks).lapCount <= s.lapCount + 1
    decreases |ticks|
  {
    if ticks != [] && s.running {
      var s' := Step(threshold, numberLaps, s, ticks[0]);
      assert StrictlyDim(threshold, s'.voltage);
      assert AllStrictlyDim(threshold, ticks[1..]) by {
        forall i | 0 <= i < |ticks[1..]| && ticks[1..][i].arrival.Line?
          ensures StrictlyDim(threshold, ticks[1..][i].arrival.parsed)
        {
          assert ticks[1..][i] == ticks[i + 1];
        }
      }
      if s.previousLight == Dim {
        DimStaysUncounted(threshold, numberLaps, s, ticks);
      } else if IsCrossing(threshold, s, ticks[0]) {
        DimStaysUncounted(threshold, numberLaps, s', ticks[1..]);
      } else {
        StrictlyDimCountsAtMostOnce(threshold, numberLaps, s', ticks[1..]);
      }
    }
  }

  /** A reading equal to the threshold both counts a lap and re-arms the counter. */
  lemma ThresholdReadingCountsAndRearms(threshold: real, numberLaps: nat, s: Counter, t: Tick)
    requires Inv(threshold, numberLaps, s) && s.running
    requires Processed(s, t) == Some(threshold) && s.previousLight == Bright
    ensures Step(threshold, numberLaps, s, t).lapCount == s.lapCount + 1
    ensures Step(threshold, numberLaps, s, t).previousLight == Bright
  {
  }

  /** Re-processing the stale reading when nothing new arrived changes nothing,
      unless that reading equals the threshold. */
  lemma StaleReprocessingIsNoOp(threshold: real, numberLaps: nat, s: Counter, now: real)
    requires Inv(threshold, numberLaps, s)
    requires s.voltage != Some(threshold)
    ensures Step(threshold, numberLaps, s, Tick(NoLine, now)) == s
  {
  }

  /** `k` polls at which nothing arrived. */
  function Stale(k: nat, now: real): (ticks: seq<Tick>)
    ensures |ticks| == k
    ensures forall i :: 0 <= i < k ==> ticks[i] == Tick(NoLine, now)
  {
    if k == 0 then [] else [Tick(NoLine, now)] + Stale(k - 1, now)
  }

  /** A stale reading equal to the threshold counts a lap on every poll. */
  lemma {:induction false} StaleThresholdReadingCountsEveryPoll(
    threshold: real, numberLaps: nat, s: Counter, k: nat, now: real)
    requires Inv(threshold, numberLaps, s) && s.running
    requires s.voltage == Some(threshold)
    requires s.lapCount + k <= numberLaps + 1
    ensures Run(threshold, numberLaps, s, Stale(k, now)).lapCount == s.lapCount + k
    ensures s.lapCount + k == numberLaps + 1 ==> !Run(threshold, numberLaps, s, Stale(k, now)).running
    decreases k
  {
    if k > 0 {
      var ticks := Stale(k, now);
      var s' := Step(threshold, numberLaps, s, ticks[0]);
      StepPreservesInv(threshold, numberLaps, s, ticks[0]);
      assert ticks[1..] == Stale(k - 1, now);
      if k > 1 {
        StaleThresholdReadingCountsEveryPoll(threshold, numberLaps, s', k - 1, now);
      }
    }
  }

  /** With the default levels, one reading of exactly 425 followed by ten polls on
      which nothing arrives finishes a ten-lap race. */
  lemma OneThresholdReadingFinishesRace()
    ensures var r := Run(425.0, 10, Start(true), [Tick(Line(Some(425.0)), 0.0)] + Stale(10, 0.0));
            r.lapCount == 11 && !r.running
  {
    var first := Tick(Line(Some(425.0)), 0.0);
    var ticks := [first] + Stale(10, 0.0);
    var s := Step(425.0, 10, Start(true), first);
    assert s.lapCount == 1 && s.voltage == Some(425.0) && s.running;
    StepPreservesInv(425.0, 10, Start(true), first);
    assert ticks[1..] == Stale(10, 0.0);
    StaleThresholdReadingCountsEveryPoll(425.0, 10, s, 10, 0.0);
  }

  /** Before the first reading that parses, nothing happens. */
  lemma {:induction false} QuietBeforeFirstReading(threshold: real, numberLaps: nat, s: Counter, ticks: seq<Tick>)
    requires WellFormed(s) && s.voltage.None?
    requires forall i :: 0 <= i < |ticks| ==> ticks[i].arrival != Line(None) ==> ticks[i].arrival == NoLine
    ensures Run(threshold, numberLaps, s, ticks) == s
    decreases |ticks|
  {
    if ticks != [] && s.running {
      assert Step(threshold, numberLaps, s, ticks[0]) == s;
      QuietBeforeFirstReading(threshold, numberLaps, s, ticks[1..]);
    }
  }

  /** The timer starts only at the first crossing, at that poll's time. */
  lemma StepStartsTimer(threshold: real, numberLaps: nat, s: Counter, t: Tick)
    requires Inv(threshold, numberLaps, s) && s.running
    ensures var r := Step(threshold, numberLaps, s, t);
            s.startTime.None? && r.startTime.Some? <==> s.lapCount == 0 && IsCrossing(threshold, s, t)
    ensures var r := Step(threshold, numberLaps, s, t);
            s.startTime.None? && r.startTime.Some? ==> r.startTime == Some(t.now) && r.lapCount == 1
  {
  }

  /** Once set, the start time never changes. */
  lemma {:induction false} RunKeepsStartTime(threshold: real, numberLaps: nat, s: Counter, ticks: seq<Tick>)
    requires Inv(threshold, numberLaps, s) && s.startTime.Some?
    ensures Run(threshold, numberLaps, s, ticks).startTime == s.startTime
    decreases |ticks|
  {
    if ticks != [] && s.running {
      StepPreservesInv(threshold, numberLaps, s, ticks[0]);
      RunKeepsStartTime(threshold, numberLaps, Step(threshold, numberLaps, s, ticks[0]), ticks[1..]);
    }
  }

  /** The loop stops exactly at the crossing that makes `numberLaps + 1`, and the
      result is the time since the first crossing. */
  lemma StepFinishes(threshold: real, numberLaps: nat, s: Counter, t: Tick)
    requires Inv(threshold, numberLaps, s) && s.running
    ensures var r := Step(threshold, numberLaps, s, t);
            !r.running <==> IsCrossing(threshold, s, t) && s.lapCount + 1 == numberLaps + 1
    ensures var r := Step(threshold, numberLaps, s, t);
            !r.running ==> r.startTime.Some? && r.elapsed == Some(t.now - r.startTime.value)
  {
  }

  /** A loop entered running that stops has counted exactly `numberLaps + 1` crossings. */
  lemma {:induction false} RunStopsOnlyAtFinish(threshold: real, numberLaps: nat, s: Counter, ticks: seq<Tick>)
    requires Inv(threshold, numberLaps, s) && s.running
    ensures var r := Run(threshold, numberLaps, s, ticks);
            !r.running ==> r.lapCount == numberLaps + 1 && r.elapsed.Some?
    decreases |ticks|
  {
    if ticks != [] {
      var s' := Step(threshold, numberLaps, s, ticks[0]);
      StepPreservesInv(threshold, numberLaps, s, ticks[0]);
      if s'.running {
        RunStopsOnlyAtFinish(threshold, numberLaps, s', ticks[1..]);
      }
    }
  }

  /** Poll times never go backwards. */
  predicate NonDecreasing(ticks: seq<Tick>)
  {
    forall i, j :: 0 <= i <= j < |ticks| ==> ticks[i].now <= ticks[j].now
  }

  /** With poll times that never go backwards, the reported time is not negative. */
  lemma {:induction false} RunElapsedNonNegative(threshold: real, numberLaps: nat, s: Counter, ticks: seq<Tick>)
    requires Inv(threshold, numberLaps, s) && NonDecreasing(ticks)
    requires ticks != [] && s.startTime.Some? ==> s.startTime.value <= ticks[0].now
    requires s.elapsed.Some? ==> s.elapsed.value >= 0.0
    ensures var r := Run(threshold, numberLaps, s, ticks);
            r.elapsed.Some? ==> r.elapsed.value >= 0.0
    decreases |ticks|
  {
    if ticks != [] && s.running {
      var s' := Step(threshold, numberLaps, s, ticks[0]);
      StepPreservesInv(threshold, numberLaps, s, ticks[0]);
      assert s'.startTime.Some? ==> s'.startTime.value <= ticks[0].now;
      assert s'.elapsed.Some? ==> s'.elapsed.value >= 0.0;
      RunElapsedNonNegative(threshold, numberLaps, s', ticks[1..]);
    }
  }

  /** A three-lap race at threshold 450: four crossings, each after a lit reading,
      finish it, and the result is the time from the first crossing to the fourth. */
  lemma ThreeLapRace()
    ensures var r := Run(450.0, 3, Start(true), [
              Tick(Line(Some(500.0)), 0.0), Tick(Line(Some(400.0)), 1.0),
              Tick(Line(Some(500.0)), 1.1), Tick(Line(Some(400.0)), 2.0),
              Tick(Line(Some(500.0)), 2.1), Tick(Line(Some(400.0)), 3.0),
              Tick(Line(Some(500.0)), 3.1), Tick(Line(Some(400.0)), 4.0)]);
            r.lapCount == 4 && !r.running && r.elapsed == Some(3.0)
  {
  }
}
