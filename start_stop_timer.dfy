/** The standalone start/stop timer script: a shadow on the sensor starts the
    timer, and a later shadow stops it once the sensor has been lit in between.
    Its per-reading transition is a step function over the script's four
    module-level variables, and the script's loop is proved against it. */
module StartStopTimer {
  import opened Wrappers

  /** A reading at or below this is a shadow. */
  const ShadowThreshold: real := 700.0
  /** A reading at or above this means the sensor is lit. */
  const LitThreshold: real := 800.0

  /** The script's variables `start_time`, `elapsed_time`, `ready_to_stop`, `ready_to_start_again`. */
  datatype Timer = Timer(
    startTime: Option<real>,
    elapsedTime: Option<real>,
    readyToStop: bool,
    readyToStartAgain: bool)

  /** A line read from the serial link (parsed or not) with the clock reading at that moment. */
  datatype Reading = Reading(line: Option<real>, now: real)

  /** The variables before the first reading. */
  function Initial(): (s: Timer)
  {
    Timer(None, None, false, true)
  }

  /** The only fact the step needs to be defined: a timer ready to stop has a start time. */
  predicate WellFormed(s: Timer)
  {
    s.readyToStop ==> s.startTime.Some?
  }

  /** The invariant of the script's variables. */
  predicate Inv(s: Timer)
  {
    && WellFormed(s)
    && (s.startTime.Some? ==> s.readyToStartAgain && s.elapsedTime.None?)
  }

  /** The shadow branch: start when armed and idle, or stop when ready to stop. */
  function OnShadow(s: Timer, now: real): (r: Timer)
    requires WellFormed(s)
    ensures WellFormed(r)
    ensures !r.readyToStop
    ensures r.readyToStartAgain ==> s.readyToStartAgain
    ensures s.startTime.None? && r.startTime.Some? ==> r == Timer(Some(now), None, false, true)
    ensures s.startTime.Some? && r.startTime.None? ==> r == Timer(None, Some(now - s.startTime.value), false, false)
    ensures r.startTime.Some? == s.startTime.Some? ==> r == s
  {
    if !s.readyToStop && s.startTime.None? && s.readyToStartAgain then
      s.(startTime := Some(now), elapsedTime := None)
    else if s.readyToStop then
      Timer(None, Some(now - s.startTime.value), false, false)
    else
      s
  }

  /** The lit branch: a running timer may now be stopped; an idle one may be started again. */
  function OnLit(s: Timer): (r: Timer)
    requires WellFormed(s)
    ensures WellFormed(r)
    ensures r.startTime == s.startTime && r.elapsedTime == s.elapsedTime
    ensures r.readyToStop == (s.readyToStop || s.startTime.Some?)
    ensures r.readyToStartAgain == (s.readyToStartAgain || s.startTime.None?)
  {
    var s1 := if s.startTime.Some? then s.(readyToStop := true) else s;
    if s1.startTime.None? && !s1.readyToStartAgain then s1.(readyToStartAgain := true) else s1
  }

  /** One line read by the loop: skipped when it does not parse, otherwise the
      shadow test and then the lit test. */
  function Step(s: Timer, r: Reading): (t: Timer)
    requires WellFormed(s)
    ensures WellFormed(t)
    ensures r.line.None? ==> t == s
    ensures t.startTime != s.startTime || t.elapsedTime != s.elapsedTime ==> Shadowed(r)
    ensures t.readyToStop != s.readyToStop || t.readyToStartAgain != s.readyToStartAgain ==> Shadowed(r) || Lit(r)
  {
    match r.line
    case None => s
    case Some(voltage) =>
      var s1 := if voltage <= ShadowThreshold then OnShadow(s, r.now) else s;
      if voltage >= LitThreshold then OnLit(s1) else s1
  }

  /** The loop over the lines read. */
  function Run(s: Timer, readings: seq<Reading>): (t: Timer)
    requires WellFormed(s)
    ensures WellFormed(t)
    ensures Inv(s) ==> Inv(t)
    decreases |readings|
  {
    if readings == [] then s else Run(Step(s, readings[0]), readings[1..])
  }

  lemma InitialInv()
    ensures Inv(Initial())
  {
  }

  lemma StepPreservesInv(s: Timer, r: Reading)
    requires Inv(s)
    ensures Inv(Step(s, r))
  {
  }

  /** A reading that takes neither branch: one that does not parse, or one in the band between the thresholds. */
  predicate Inert(r: Reading)
  {
    r.line.None? || ShadowThreshold < r.line.value < LitThreshold
  }

  /** A reading is a shadow. */
  predicate Shadowed(r: Reading)
  {
    r.line.Some? && r.line.value <= ShadowThreshold
  }

  /** A reading is lit. */
  predicate Lit(r: Reading)
  {
    r.line.Some? && r.line.value >= LitThreshold
  }

  /** Every reading takes exactly one of: the shadow branch, the lit branch, neither. */
  lemma StepTakesOneBranch(s: Timer, r: Reading)
    requires WellFormed(s)
    ensures Shadowed(r) ==> !Lit(r) && Step(s, r) == OnShadow(s, r.now)
    ensures Lit(r) ==> Step(s, r) == OnLit(s)
    ensures Inert(r) <==> !Shadowed(r) && !Lit(r)
    ensures Inert(r) ==> Step(s, r) == s
  {
  }

  /** Unparsable lines and mid-band readings change nothing, however many arrive. */
  lemma {:induction false} RunInertReadings(s: Timer, readings: seq<Reading>)
    requires WellFormed(s)
    requires forall i :: 0 <= i < |readings| ==> Inert(readings[i])
    ensures Run(s, readings) == s
    decreases |readings|
  {
    if readings != [] {
      assert Step(s, readings[0]) == s;
      RunInertReadings(s, readings[1..]);
    }
  }

  /** The timer starts exactly on a shadow while idle, armed and not ready to stop,
      and starting records the time and clears the previous result. */
  lemma StepStarts(s: Timer, r: Reading)
    requires Inv(s) && s.startTime.None?
    ensures Step(s, r).startTime.Some? <==> Shadowed(r) && !s.readyToStop && s.readyToStartAgain
    ensures Step(s, r).startTime.Some? ==> Step(s, r) == Timer(Some(r.now), None, false, true)
  {
  }

  /** The timer stops exactly on a shadow once ready to stop; stopping records the
      elapsed time and clears the start time and both flags. */
  lemma StepStops(s: Timer, r: Reading)
    requires Inv(s) && s.startTime.Some?
    ensures Step(s, r).startTime.None? <==> Shadowed(r) && s.readyToStop
    ensures Step(s, r).startTime.None? ==>
              Step(s, r) == Timer(None, Some(r.now - s.startTime.value), false, false)
  {
  }

  /** Only a lit reading while running makes the timer ready to stop, and only a
      lit reading while idle re-arms it. */
  lemma StepArmsOnlyWhenLit(s: Timer, r: Reading)
    requires Inv(s)
    ensures !s.readyToStop && Step(s, r).readyToStop ==> Lit(r) && s.startTime.Some?
    ensures !s.readyToStartAgain && Step(s, r).readyToStartAgain ==> Lit(r) && s.startTime.None?
  {
  }

  /** No reading in the sequence is lit. */
  predicate NoneLit(readings: seq<Reading>)
  {
    forall i :: 0 <= i < |readings| ==> !Lit(readings[i])
  }

  /** After a stop, no new start happens until a lit reading re-arms the timer. */
  lemma {:induction false} RunNoRestartWithoutLit(s: Timer, readings: seq<Reading>)
    requires Inv(s) && s.startTime.None? && !s.readyToStartAgain
    requires NoneLit(readings)
    ensures Run(s, readings) == s
    decreases |readings|
  {
    if readings != [] {
      assert !Lit(readings[0]);
      assert Step(s, readings[0]) == s;
      assert NoneLit(readings[1..]) by {
        forall i | 0 <= i < |readings[1..]| ensures !Lit(readings[1..][i]) {
          assert readings[1..][i] == readings[i + 1];
        }
      }
      RunNoRestartWithoutLit(s, readings[1..]);
    }
  }

  /** Without a lit reading since the start, the timer does not stop. */
  lemma {:induction false} RunNoStopWithoutLit(s: Timer, readings: seq<Reading>)
    requires Inv(s) && s.startTime.Some? && !s.readyToStop
    requires NoneLit(readings)
    ensures Run(s, readings) == s
    decreases |readings|
  {
    if readings != [] {
      assert !Lit(readings[0]);
      assert Step(s, readings[0]) == s;
      assert NoneLit(readings[1..]) by {
        forall i | 0 <= i < |readings[1..]| ensures !Lit(readings[1..][i]) {
          assert readings[1..][i] == readings[i + 1];
        }
      }
      RunNoStopWithoutLit(s, readings[1..]);
    }
  }

  /** Clock readings never go backwards. */
  predicate NonDecreasing(readings: seq<Reading>)
  {
    forall i, j :: 0 <= i <= j < |readings| ==> readings[i].now <= readings[j].now
  }

  /** With clock readings that never go backwards, every recorded time is non-negative. */
  lemma {:induction false} RunElapsedNonNegative(s: Timer, readings: seq<Reading>)
    requires Inv(s) && NonDecreasing(readings)
    requires readings != [] && s.startTime.Some? ==> s.startTime.value <= readings[0].now
    requires s.elapsedTime.Some? ==> s.elapsedTime.value >= 0.0
    ensures Run(s, readings).elapsedTime.Some? ==> Run(s, readings).elapsedTime.value >= 0.0
    decreases |readings|
  {
    if readings != [] {
      var s' := Step(s, readings[0]);
      StepPreservesInv(s, readings[0]);
      assert s'.startTime.Some? ==> s'.startTime.value <= readings[0].now;
      assert s'.elapsedTime.Some? ==> s'.elapsedTime.value >= 0.0;
      RunElapsedNonNegative(s', readings[1..]);
    }
  }

  /** The script's module-level variables and its reading loop. */
  class TimerScript {
    var startTime: Option<real>
    var elapsedTime: Option<real>
    var readyToStop: bool
    var readyToStartAgain: bool

    function State(): (s: Timer)
      reads this
    {
      Timer(startTime, elapsedTime, readyToStop, readyToStartAgain)
    }

    constructor ()
      ensures State() == Initial()
    {
      startTime := None;
      elapsedTime := None;
      readyToStop := false;
      readyToStartAgain := true;
    }

    /** The reading loop over the lines that arrive before it is interrupted. */
    method Listen(readings: seq<Reading>)
      requires Inv(State())
      modifies this
      ensures State() == Run(old(State()), readings)
      ensures Inv(State())
    {
      var i := 0;
      while i < |readings|
        invariant 0 <= i <= |readings|
        invariant Inv(State())
        invariant Run(State(), readings[i..]) == Run(old(State()), readings)
      {
        ghost var before := State();
        var reading := readings[i];
        assert readings[i..][0] == reading && readings[i..][1..] == readings[i + 1..];
        StepPreservesInv(before, reading);
        i := i + 1;
        if reading.line.None? {
          continue;
        }
        var voltage := reading.line.value;
        if voltage <= ShadowThreshold {
          if !readyToStop && startTime.None? && readyToStartAgain {
            startTime := Some(reading.now);
            elapsedTime := None;
          } else if readyToStop {
            elapsedTime := Some(reading.now - startTime.value);
            startTime := None;
            readyToStop := false;
            readyToStartAgain := false;
          }
        }
        if voltage >= LitThreshold {
          if startTime.Some? {
            readyToStop := true;
          }
          if startTime.None? && !readyToStartAgain {
            readyToStartAgain := true;
          }
        }
        assert State() == Step(before, reading);
      }
    }
  }
}
