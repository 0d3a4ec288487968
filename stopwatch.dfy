/** A seekable stopwatch that fires time triggers from its main loop.  The
    underlying Stopwatch is modelled by its running flag, the time banked
    up to its last stop and the clock reading at its last start; the clock
    reading is passed in by the caller, and times are TimeSpan ticks. */
module Stopwatch {

  /** One trigger: its time and whether it has fired since the last reset. */
  datatype Trigger = Trigger(time: int, passed: bool)

  /** The triggers after a main loop at elapsed time `now`: every trigger
      that is due is marked passed. */
  function PassedAt(triggers: seq<Trigger>, now: int): (r: seq<Trigger>)
    ensures |r| == |triggers|
    ensures forall i :: 0 <= i < |r| ==> r[i].time == triggers[i].time
    ensures forall i :: 0 <= i < |r| ==> (r[i].passed <==> triggers[i].passed || now >= triggers[i].time)
  {
    seq(|triggers|, i requires 0 <= i < |triggers| => Trigger(triggers[i].time, triggers[i].passed || now >= triggers[i].time))
  }

  /** Whether the trigger fires in a main loop at `now`: due, and not yet passed. */
  predicate Fires(t: Trigger, now: int)
  {
    now >= t.time && !t.passed
  }

  /** The number of triggers that fire in a main loop at `now`. */
  function Firings(triggers: seq<Trigger>, now: int): (r: nat)
    ensures r <= |triggers|
    decreases |triggers|
  {
    if |triggers| == 0 then 0
    else Firings(triggers[..|triggers| - 1], now) + (if Fires(triggers[|triggers| - 1], now) then 1 else 0)
  }

  /** StopwatchInteractive extends System.Diagnostics.Stopwatch.  The base
      stopwatch is its running flag, the time banked while stopped and the
      clock reading it was last started at; every operation that looks at
      the time takes the current clock reading `now`. */
  class StopwatchInteractive {
    /** _timeOffset */
    var timeOffset: int
    /** Stopwatch.IsRunning */
    var running: bool
    /** The base stopwatch's elapsed time up to its last Stop. */
    var banked: int
    /** The clock reading at the base stopwatch's last Start. */
    var startedAt: int
    /** _triggers */
    var triggers: seq<Trigger>

    /** A new stopwatch is stopped at zero, with no offset and no triggers. */
    constructor ()
      ensures timeOffset == 0 && !running && banked == 0 && triggers == []
      ensures forall now :: Elapsed(now) == 0
    {
      timeOffset := 0;
      running := false;
      banked := 0;
      startedAt := 0;
      triggers := [];
    }

    /** base.Elapsed at clock reading `now`. */
    function BaseElapsed(now: int): int
      reads this
    {
      banked + (if running then now - startedAt else 0)
    }

    /** Elapsed: the base stopwatch's reading plus the offset. */
    function Elapsed(now: int): (r: int)
      reads this
      ensures !running ==> r == banked + timeOffset
      ensures running && startedAt <= now ==> r >= banked + timeOffset
    {
      BaseElapsed(now) + timeOffset
    }

    /** Stopwatch.Start: a stopped stopwatch starts counting from where it
        stood; a running one is left alone. */
    method Start(now: int)
      modifies this
      ensures running
      ensures forall later :: Elapsed(later) == old(Elapsed(now)) + (later - now)
      ensures timeOffset == old(timeOffset) && triggers == old(triggers)
    {
      if !running {
        running := true;
        startedAt := now;
      }
    }

    /** Stopwatch.Stop: the reading at `now` is kept from then on. */
    method Stop(now: int)
      modifies this
      ensures !running
      ensures forall later :: Elapsed(later) == old(Elapsed(now))
      ensures timeOffset == old(timeOffset) && triggers == old(triggers)
    {
      if running {
        banked := banked + (now - startedAt);
        running := false;
      }
    }

    /** SetTime: make the offset `time`, then Restart the base stopwatch
        when it is running and Reset it when it is stopped.  Either way the
        base reading is back at zero, so Elapsed is `time` at `now` and goes
        on from there while running. */
    method SetTime(time: int, now: int)
      modifies this
      ensures timeOffset == time && running == old(running) && triggers == old(triggers)
      ensures forall later :: Elapsed(later) == time + (if running then later - now else 0)
    {
      timeOffset := time;
      if running {
        Restart(now);
      } else {
        Reset();
      }
    }

    /** WithTime: SetTime, returning the stopwatch itself. */
    method WithTime(time: int, now: int) returns (r: StopwatchInteractive)
      modifies this
      ensures r == this
      ensures timeOffset == time && running == old(running) && triggers == old(triggers)
      ensures forall later :: Elapsed(later) == time + (if running then later - now else 0)
    {
      SetTime(time, now);
      r := this;
    }

    /** Stopwatch.Restart: back to zero and running. */
    method Restart(now: int)
      modifies this
      ensures running && forall later :: BaseElapsed(later) == later - now
      ensures timeOffset == old(timeOffset) && triggers == old(triggers)
    {
      banked := 0;
      startedAt := now;
      running := true;
    }

    /** Stopwatch.Reset: back to zero and stopped. */
    method Reset()
      modifies this
      ensures !running && forall later :: BaseElapsed(later) == 0
      ensures timeOffset == old(timeOffset) && triggers == old(triggers)
    {
      banked := 0;
      running := false;
    }

    /** SetTrigger: replace the triggers by `times`, in order, none passed. */
    method SetTrigger(times: seq<int>)
      modifies this
      ensures |triggers| == |times|
      ensures forall i :: 0 <= i < |times| ==> triggers[i] == Trigger(times[i], false)
      ensures timeOffset == old(timeOffset) && running == old(running)
      ensures banked == old(banked) && startedAt == old(startedAt)
    {
      triggers := [];
      for k := 0 to |times|
        invariant |triggers| == k
        invariant timeOffset == old(timeOffset) && running == old(running)
        invariant banked == old(banked) && startedAt == old(startedAt)
        invariant forall i :: 0 <= i < k ==> triggers[i] == Trigger(times[i], false)
      {
        triggers := triggers + [Trigger(times[k], false)];
      }
    }

    /** ResetTriggers: clear every passed flag, keeping the times in order. */
    method ResetTriggers()
      modifies this
      ensures |triggers| == |old(triggers)|
      ensures forall i :: 0 <= i < |triggers| ==> triggers[i] == Trigger(old(triggers)[i].time, false)
      ensures timeOffset == old(timeOffset) && running == old(running)
      ensures banked == old(banked) && startedAt == old(startedAt)
    {
      for i := 0 to |triggers|
        invariant |triggers| == |old(triggers)|
        invariant timeOffset == old(timeOffset) && running == old(running)
        invariant banked == old(banked) && startedAt == old(startedAt)
        invariant forall j :: 0 <= j < i ==> triggers[j] == Trigger(old(triggers)[j].time, false)
        invariant forall j :: i <= j < |triggers| ==> triggers[j] == old(triggers)[j]
      {
        triggers := triggers[i := Trigger(triggers[i].time, false)];
      }
    }

    /** Mainloop: mark every due trigger passed, raising OnTriggerPassed for
        each one that was not passed yet; `fired` counts those events. */
    method Mainloop(now: int) returns (fired: nat)
      modifies this
      ensures triggers == PassedAt(old(triggers), old(Elapsed(now)))
      ensures fired == Firings(old(triggers), old(Elapsed(now)))
      ensures timeOffset == old(timeOffset) && running == old(running)
      ensures banked == old(banked) && startedAt == old(startedAt)
    {
      var elapsed := Elapsed(now);
      fired := 0;
      for i := 0 to |triggers|
        invariant |triggers| == |old(triggers)|
        invariant timeOffset == old(timeOffset) && running == old(running)
        invariant banked == old(banked) && startedAt == old(startedAt)
        invariant elapsed == old(Elapsed(now))
        invariant triggers[..i] == PassedAt(old(triggers)[..i], elapsed)
        invariant triggers[i..] == old(triggers)[i..]
        invariant fired == Firings(old(triggers)[..i], elapsed)
      {
        var trig := triggers[i];
        assert trig == old(triggers)[i];
        assert old(triggers)[..i + 1][..i] == old(triggers)[..i];
        if elapsed >= trig.time && !trig.passed {
          fired := fired + 1;
          trig := Trigger(trig.time, true);
        }
        triggers := triggers[i := trig];
        assert triggers[i + 1..] == old(triggers)[i + 1..];
      }
      assert old(triggers)[..|old(triggers)|] == old(triggers);
    }
  }

  /** A seek to `time` at clock reading `now` followed by a main loop at the
      later reading `later`: the loop marks the triggers due at `time` plus
      the time run since the seek, or at `time` exactly when stopped. */
  method SeekThenLoop(sw: StopwatchInteractive, time: int, now: int, later: int) returns (fired: nat)
    modifies sw
    ensures sw.triggers == PassedAt(old(sw.triggers), time + (if old(sw.running) then later - now else 0))
    ensures fired == Firings(old(sw.triggers), time + (if old(sw.running) then later - now else 0))
  {
    sw.SetTime(time, now);
    fired := sw.Mainloop(later);
  }

  /** While running, the reading advances with the clock; while stopped,
      it stands still. */
  lemma ElapsedAdvances(sw: StopwatchInteractive, a: int, b: int)
    ensures sw.Elapsed(b) - sw.Elapsed(a) == if sw.running then b - a else 0
  {
  }

  /** Triggers fire only when unpassed: a second loop at the same or an
      earlier time fires none. */
  lemma {:induction false} NoRefire(triggers: seq<Trigger>, now: int, later: int)
    requires later <= now
    ensures Firings(PassedAt(triggers, now), later) == 0
    decreases |triggers|
  {
    if |triggers| > 0 {
      var n := |triggers| - 1;
      assert PassedAt(triggers, now)[..n] == PassedAt(triggers[..n], now);
      NoRefire(triggers[..n], now, later);
    }
  }

  /** Two loops mark exactly what one loop at the later time marks. */
  lemma PassedAtTwice(triggers: seq<Trigger>, a: int, b: int)
    requires a <= b
    ensures PassedAt(PassedAt(triggers, a), b) == PassedAt(triggers, b)
  {
  }

  /** Each trigger fires at most once between resets: over two loops the
      events counted add up to the firings of one loop at the later time. */
  lemma {:induction false} FiringsSplit(triggers: seq<Trigger>, a: int, b: int)
    requires a <= b
    ensures Firings(triggers, a) + Firings(PassedAt(triggers, a), b) == Firings(triggers, b)
    decreases |triggers|
  {
    if |triggers| > 0 {
      var n := |triggers| - 1;
      assert PassedAt(triggers, a)[..n] == PassedAt(triggers[..n], a);
      FiringsSplit(triggers[..n], a, b);
    }
  }
}
