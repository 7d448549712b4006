/** The racetrack application object: its configuration fields, the calibration
    measurement, and the `read_sensor` polling loop, proved against the step
    function of module LapCounter. */
module RacetrackUI {
  import opened Wrappers
  import opened Calibration
  import opened LapCounter

  class Racetrack {
    var brightLevel: real
    var dimLevel: real
    var shadowThreshold: real
    var numberLaps: nat
    var running: bool

    /** The default reference levels, the threshold derived from them once,
        and the number of laps of a race. */
    constructor ()
      ensures brightLevel == 600.0 && dimLevel == 250.0 && numberLaps == 10
      ensures shadowThreshold == Midpoint(dimLevel, brightLevel) == 425.0
      ensures !running
    {
      brightLevel := 600.0;
      dimLevel := 250.0;
      numberLaps := 10;
      running := false;
      new;
      shadowThreshold := Midpoint(dimLevel, brightLevel);
    }

    /** The mean of the lines that parsed during one measuring window, 0 when none did. */
    method MeasureLight(lines: seq<Option<real>>) returns (avg: real)
      ensures avg == Average(Parsed(lines))
      ensures Parsed(lines) == [] ==> avg == 0.0
      ensures Parsed(lines) != [] ==> SeqMin(Parsed(lines)) <= avg <= SeqMax(Parsed(lines))
    {
      var values: seq<real> := [];
      var i := 0;
      while i < |lines|
        invariant 0 <= i <= |lines|
        invariant values == Parsed(lines[..i])
      {
        assert lines[..i + 1][..i] == lines[..i];
        match lines[i] {
          case Some(voltage) => values := values + [voltage];
          case None =>
        }
        i := i + 1;
      }
      assert lines[..i] == lines;
      avg := Average(values);
      if values != [] {
        AverageBetween(values);
      }
    }

    /** Recalibration replaces both reference levels and leaves the threshold
        (and so lap detection) as it was. */
    method Calibrate(brightLines: seq<Option<real>>, dimLines: seq<Option<real>>)
      modifies this`brightLevel, this`dimLevel
      ensures brightLevel == Average(Parsed(brightLines))
      ensures dimLevel == Average(Parsed(dimLines))
      ensures shadowThreshold == old(shadowThreshold)
    {
      brightLevel := MeasureLight(brightLines);
      dimLevel := MeasureLight(dimLines);
    }

    /** The end of the countdown: the measurement starts running and the
        polling loop is entered. */
    method StartMeasurement(ticks: seq<Tick>) returns (final: Counter)
      modifies this`running
      ensures final == Run(shadowThreshold, numberLaps, Start(true), ticks)
      ensures running == final.running
      ensures Inv(shadowThreshold, numberLaps, final)
    {
      running := true;
      final := ReadSensor(ticks);
    }

    /** The polling loop over the polls it gets before it stops or the link goes quiet. */
    method ReadSensor(ticks: seq<Tick>) returns (final: Counter)
      modifies this`running
      ensures final == Run(shadowThreshold, numberLaps, Start(old(running)), ticks)
      ensures running == final.running
      ensures Inv(shadowThreshold, numberLaps, final)
    {
      var timerRunning := false;
      var startTime: Option<real> := None;
      var voltage: Option<real> := None;
      var lapCount: nat := 0;
      var previousLight := Bright;
      var elapsed: Option<real> := None;
      ghost var initial := Start(running);
      StartInv(shadowThreshold, numberLaps, running);
      var i := 0;
      while running && i < |ticks|
        invariant 0 <= i <= |ticks|
        invariant Inv(shadowThreshold, numberLaps,
                      Counter(timerRunning, startTime, voltage, lapCount, previousLight, running, elapsed))
        invariant Run(shadowThreshold, numberLaps,
                      Counter(timerRunning, startTime, voltage, lapCount, previousLight, running, elapsed), ticks[i..])
               == Run(shadowThreshold, numberLaps, initial, ticks)
        decreases |ticks| - i
      {
        ghost var before := Counter(timerRunning, startTime, voltage, lapCount, previousLight, running, elapsed);
        var tick := ticks[i];
        assert ticks[i..][0] == tick && ticks[i..][1..] == ticks[i + 1..];
        StepPreservesInv(shadowThreshold, numberLaps, before, tick);
        i := i + 1;
        if tick.arrival.Line? {
          if tick.arrival.parsed.None? {
            continue;
          }
          voltage := tick.arrival.parsed;
        }
        if voltage.Some? {
          if voltage.value <= shadowThreshold && previousLight == Bright {
            if !timerRunning {
              timerRunning := true;
              startTime := Some(tick.now);
            }
            lapCount := lapCount + 1;
            if lapCount >= numberLaps + 1 {
              elapsed := Some(tick.now - startTime.value);
              running := false;
              timerRunning := false;
            }
            previousLight := Dim;
          }
          if voltage.value >= shadowThreshold {
            previousLight := Bright;
          }
        }
        assert Counter(timerRunning, startTime, voltage, lapCount, previousLight, running, elapsed)
            == Step(shadowThreshold, numberLaps, before, tick);
      }
      final := Counter(timerRunning, startTime, voltage, lapCount, previousLight, running, elapsed);
    }
  }
}
