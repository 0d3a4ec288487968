/** The looper: a tape that records a clip against a clock and plays it
    back in a loop, wrapping or ping-ponging, optionally cross-fading the
    end into the beginning; and the per-frame state machine around it. */
module Sequencers {
  import opened Wrappers
  import opened DotNet
  import opened UnMath
  import opened Tapes

  // ------------------------------------------------------------ State

  /** Everything a sequencer holds: its tape, the tape's MaxTime, the two
      start times and the length of the recorded clip. */
  datatype SeqState<!T> = SeqState(
    tape: TapeState<T>,
    MaxTime: real,
    recordStartedAt: real,
    playbackStartedAt: real,
    Duration: real)

  /** Reset: no clip and a cleared tape. */
  function ResetState<T>(ss: SeqState<T>): SeqState<T>
  {
    ss.(Duration := 0.0, tape := Cleared(ss.tape))
  }

  // ------------------------------------------------------------ Record

  /** Record(input, time, start, roundDuration).  A start restarts both
      clocks and clears the tape; an offset past MaxTime is dropped;
      otherwise the clip grows to the offset (rounded half to even when
      asked) and the tape is written there.  `blendable` is what the test
      `input is IBlendable<T>` yields. */
  function Recorded<T>(ss: SeqState<T>, input: T, time: real, start: bool, roundDuration: bool,
                       blendable: Option<Blendable<T>>): SeqState<T>
  {
    var ss1 := if start then ss.(recordStartedAt := time, playbackStartedAt := time, tape := Cleared(ss.tape)) else ss;
    var offset := time - ss1.recordStartedAt;
    if offset > ss1.MaxTime then ss1
    else ss1.(Duration := if roundDuration then RoundHalfEven(offset) as real else offset,
              tape := Written(ss1.tape, offset, input, blendable))
  }

  // -------------------------------------------------------------- Play

  /** Where in the clip a play at `time` lands, before any overlap: the
      offset since the recording started, shifted by phase durations,
      wrapped with Fmod or folded with a mirror Map.  None is the NaN that
      Fmod by a zero duration yields. */
  function LoopPosition(recordStartedAt: real, d: real, time: real, phase: real, pingpong: bool): (r: Option<real>)
    ensures r.None? <==> !pingpong && d == 0.0
    ensures r.Some? && d > 0.0 && !pingpong ==> 0.0 <= r.value < d
    ensures r.Some? && d < 0.0 && !pingpong ==> d < r.value <= 0.0
    ensures r.Some? && pingpong ==> Min(0.0, d) <= r.value <= Max(0.0, d)
  {
    Wrapped(time - recordStartedAt + d * phase, d, pingpong)
  }

  /** The wrapping of an offset `a` into a clip of length `d`. */
  function Wrapped(a: real, d: real, pingpong: bool): (r: Option<real>)
    ensures r.None? <==> !pingpong && d == 0.0
    ensures r.Some? && d > 0.0 && !pingpong ==> 0.0 <= r.value < d
    ensures r.Some? && d < 0.0 && !pingpong ==> d < r.value <= 0.0
    ensures r.Some? && pingpong ==> Min(0.0, d) <= r.value <= Max(0.0, d)
  {
    if pingpong then Some(Map(a, 0.0, d, 0.0, d, MapMode.Mirror))
    else if d == 0.0 then None
    else Some(Fmod(a, d))
  }

  /** The cross-fade of an overlapping play at clip position `pos`: the
      base position squeezed into [absoverlap, Duration], the fade-in
      position that runs over [0, absoverlap] while the base one runs
      over the last absoverlap of the clip, and the fade weight, None when
      it is the NaN of 0 / 0. */
  function OverlapPositions(d: real, pos: real, overlap: real): (r: (real, real, Option<real>))
    ensures r.2.None? <==> overlap * d == 0.0
    ensures 0.0 < overlap <= 1.0 && 0.0 < d && 0.0 <= pos <= d ==>
      overlap * d <= r.0 <= d && 0.0 <= r.1 <= overlap * d && r.2.Some? && 0.0 <= r.2.value <= 1.0
  {
    var absoverlap := overlap * d;
    var trimmedTime := Map(pos, 0.0, d, absoverlap, d, MapMode.Float);
    var fadeInTime := Map(trimmedTime, d - absoverlap, d, 0.0, absoverlap, MapMode.Clamp);
    OverlapBounds(d, pos, overlap);
    (trimmedTime, fadeInTime, if absoverlap == 0.0 then None else Some(fadeInTime / absoverlap))
  }

  lemma OverlapBounds(d: real, pos: real, overlap: real)
    ensures 0.0 < overlap <= 1.0 && 0.0 < d && 0.0 <= pos <= d ==>
      var a := overlap * d;
      var trimmed := Map(pos, 0.0, d, a, d, MapMode.Float);
      var fade := Map(trimmed, d - a, d, 0.0, a, MapMode.Clamp);
      a <= trimmed <= d && 0.0 <= fade <= a && 0.0 <= fade / a <= 1.0
  {
    if 0.0 < overlap <= 1.0 && 0.0 < d && 0.0 <= pos <= d {
      OverlapWithin(d, pos, overlap);
    }
  }

  lemma OverlapWithin(d: real, pos: real, overlap: real)
    requires 0.0 < overlap <= 1.0 && 0.0 < d && 0.0 <= pos <= d
    ensures var a := overlap * d;
      var trimmed := Map(pos, 0.0, d, a, d, MapMode.Float);
      var fade := Map(trimmed, d - a, d, 0.0, a, MapMode.Clamp);
      a <= trimmed <= d && 0.0 <= fade <= a && 0.0 <= fade / a <= 1.0
  {
    var a := overlap * d;
    MulWithin(overlap, d);
    assert a > 0.0;
    DivUnit(pos, d);
    var ratio := Ratio(pos, 0.0, d, MapMode.Float);
    assert 0.0 <= ratio <= 1.0 by {
      assert ratio == (pos - 0.0) / (d - 0.0);
    }
    var trimmed := Map(pos, 0.0, d, a, d, MapMode.Float);
    assert trimmed == Lerp(a, d, ratio);
    assert a <= d;
    assert Min(a, d) == a && Max(a, d) == d;
    assert a <= trimmed <= d;
    var fade := Map(trimmed, d - a, d, 0.0, a, MapMode.Clamp);
    assert 0.0 <= fade <= a;
    DivUnit(fade, a);
  }

  /** A read at a NaN position: the empty and single-sample shortcuts of
      the getter do not look at the position; past them the NaN goes
      through the getter's clamp, rounding and (int) casts, which the model
      does not follow. */
  function ReadAtNaN<T>(st: TapeState<T>): (r: (Outcome<T>, TapeState<T>))
    ensures st.Empty || st.onlyOne ==> forall time :: r == Read(st, time)
    ensures !st.Empty && !st.onlyOne ==> r == (Throws(NotANumber), st)
  {
    if st.Empty || st.onlyOne then Read(st, 0.0) else (Throws(NotANumber), st)
  }

  /** The overlapping play at clip position `pos`: the tape is read at the
      base and at the fade-in position and the two values are blended by
      the tape's interpolator. */
  function CrossFaded<T>(ss: SeqState<T>, pos: real, overlap: real): (r: (Outcome<T>, SeqState<T>))
  {
    var (trimmed, fade, alpha) := OverlapPositions(ss.Duration, pos, overlap);
    var (b, t1) := Read(ss.tape, trimmed);
    if !b.Returns? then (b, ss.(tape := t1))
    else
      var (f, t2) := Read(t1, fade);
      if !f.Returns? then (f, ss.(tape := t2))
      else if t2.Interpolator.None? then (Throws(NullReference), ss.(tape := t2))
      else if alpha.None? then (Throws(NotANumber), ss.(tape := t2))
      else (Returns(t2.Interpolator.value(b.value, f.value, alpha.value)), ss.(tape := t2))
  }

  /** Play(time, phase, start, overlap, pingpong): the value and the state
      it leaves.  `start` only moves the playback start, which nothing
      reads.  With an overlap and no ping-pong the play cross-fades;
      otherwise the tape is read at the loop position. */
  function Played<T>(ss: SeqState<T>, time: real, phase: real, start: bool, overlap: real, pingpong: bool): (r: (Outcome<T>, SeqState<T>))
  {
    var ss1 := if start then ss.(playbackStartedAt := time) else ss;
    PlayedAt(ss1, LoopPosition(ss.recordStartedAt, ss.Duration, time, phase, pingpong), overlap, pingpong)
  }

  /** Play once the loop position `pos` is known. */
  function PlayedAt<T>(ss: SeqState<T>, pos: Option<real>, overlap: real, pingpong: bool): (r: (Outcome<T>, SeqState<T>))
  {
    if overlap > 0.0 && !pingpong then
      // with a zero duration Map's input range is empty and it ignores its input
      CrossFaded(ss, if pos.Some? then pos.value else 0.0, overlap)
    else
      var (o, t1) := if pos.None? then ReadAtNaN(ss.tape) else Read(ss.tape, pos.value);
      (o, ss.(tape := t1))
  }

  // ------------------------------------------------------- The class

  class Sequencer<T> {
    const tape: Tape<T>
    var recordStartedAt: real
    var playbackStartedAt: real
    var Duration: real

    predicate Valid()
      reads this, tape
    {
      tape.Valid()
    }

    function State(): SeqState<T>
      reads this, tape, tape.samples
    {
      SeqState(tape.State(), tape.MaxTime, recordStartedAt, playbackStartedAt, Duration)
    }

    /** Empty: the tape has no data. */
    function Empty(): bool
      reads this, tape
    {
      tape.Empty
    }

    /** The constructor, given the tape it builds. */
    constructor (tape: Tape<T>)
      requires tape.Valid()
      ensures Valid() && this.tape == tape
      ensures recordStartedAt == 0.0 && playbackStartedAt == 0.0 && Duration == 0.0
    {
      this.tape := tape;
      recordStartedAt, playbackStartedAt, Duration := 0.0, 0.0, 0.0;
    }

    /** Reset: no clip, and the tape cleared into a new array. */
    method Reset()
      requires Valid()
      modifies this, tape, tape.samples
      ensures Valid() && fresh(tape.samples)
      ensures State() == ResetState(old(State()))
    {
      Duration := 0.0;
      tape.Clear(false);
    }

    method Record(input: T, time: real, start: bool, roundDuration: bool, blendable: Option<Blendable<T>>)
      requires Valid()
      modifies this, tape, tape.samples
      ensures Valid() && (tape.samples == old(tape.samples) || fresh(tape.samples))
      ensures State() == Recorded(old(State()), input, time, start, roundDuration, blendable)
    {
      if start {
        recordStartedAt := time;
        playbackStartedAt := time;
        tape.Clear(false);
      }
      var actualTime := time - recordStartedAt;
      if actualTime > tape.MaxTime {
        return;
      }
      Duration := if roundDuration then RoundHalfEven(actualTime) as real else actualTime;
      tape.Set(actualTime, input, blendable);
    }

    method Play(time: real, phase: real, start: bool, overlap: real, pingpong: bool) returns (o: Outcome<T>)
      requires Valid()
      modifies this, tape, tape.samples
      ensures Valid() && tape.samples == old(tape.samples)
      ensures (o, State()) == Played(old(State()), time, phase, start, overlap, pingpong)
    {
      if start {
        playbackStartedAt := time;
      }
      var modTime := LoopPosition(recordStartedAt, Duration, time, phase, pingpong);
      if overlap > 0.0 && !pingpong {
        o := CrossFade(if modTime.Some? then modTime.value else 0.0, overlap);
        return;
      }
      if modTime.None? {
        if tape.Empty || tape.onlyOne {
          o := tape.Get(0.0);
          return;
        }
        return Throws(NotANumber);
      }
      o := tape.Get(modTime.value);
    }

    /** The overlap branch of Play. */
    method CrossFade(modTime: real, overlap: real) returns (o: Outcome<T>)
      requires Valid()
      modifies tape, tape.samples
      ensures Valid() && tape.samples == old(tape.samples)
      ensures (o, State()) == CrossFaded(old(State()), modTime, overlap)
    {
      ghost var ss := State();
      var (trimmedTime, fadeInTime, alpha) := OverlapPositions(Duration, modTime, overlap);
      var baseVal := tape.Get(trimmedTime);
      ghost var t1 := tape.State();
      assert (baseVal, t1) == Read(ss.tape, trimmedTime);
      assert State() == ss.(tape := t1);
      if !baseVal.Returns? {
        return baseVal;
      }
      var fadeVal := tape.Get(fadeInTime);
      ghost var t2 := tape.State();
      assert (fadeVal, t2) == Read(t1, fadeInTime);
      assert State() == ss.(tape := t2);
      if !fadeVal.Returns? {
        return fadeVal;
      }
      if tape.Interpolator.None? {
        return Throws(NullReference);
      }
      if alpha.None? {
        return Throws(NotANumber);
      }
      return Returns(tape.Interpolator.value(baseVal.value, fadeVal.value, alpha.value));
    }
  }

  /** The constructor Sequencer(maxTime, resolution): a registry tape. */
  method NewSequencer<T>(utils: TapeUtils<T>, implementsBlendable: bool, zero: T,
                         maxTime: real, resolution: int) returns (o: Outcome<Sequencer<T>>)
    requires SampleCount(maxTime, resolution) >= 0
    ensures o.Throws? <==> utils.self in utils.typeMeta && utils.typeMeta[utils.self].OfOtherType?
    ensures o.Throws? ==> o.fault == TypeNotFoundInStaticTable
    ensures o.Diverges? == false
    ensures o.Returns? ==> fresh(o.value) && fresh(o.value.tape) && fresh(o.value.tape.samples) && o.value.Valid()
    ensures o.Returns? ==>
      o.value.State() == SeqState(RegistryFresh(utils.typeMeta, utils.self, implementsBlendable, zero, maxTime, resolution), maxTime, 0.0, 0.0, 0.0)
  {
    var t := NewFromRegistry(utils, implementsBlendable, zero, maxTime, resolution);
    match t
    case Returns(tape) =>
      var s := new Sequencer(tape);
      return Returns(s);
    case Throws(f) =>
      return Throws(f);
  }

  // ------------------------------------------------ The state machine

  /** The flags of StatefulSequencer: the two commands, their values on
      the previous frame, and the playback settings. */
  datatype Flags = Flags(
    Recording: bool, Playing: bool, prevRecord: bool, prevPlay: bool,
    PingPong: bool, RoundDuration: bool, AutoStart: bool,
    Phase: real, Overlap: real)

  /** Update(input, time), once per frame.  Recording forces playback off
      and records, starting a clip on its rising edge; its falling edge
      starts playback when AutoStart is set; while playing the clip is
      returned, otherwise the input. */
  function Stepped<T>(ss: SeqState<T>, f: Flags, input: T, time: real, blendable: Option<Blendable<T>>): (r: (Outcome<T>, SeqState<T>, Flags))
  {
    var (ss1, f1) := RecordPhase(ss, f, input, time, blendable);
    PlayPhase(ss1, f1, input, time)
  }

  /** The first half of Update: record, or start playback on the falling
      edge of Recording when AutoStart is set. */
  function RecordPhase<T>(ss: SeqState<T>, f: Flags, input: T, time: real, blendable: Option<Blendable<T>>): (SeqState<T>, Flags)
  {
    var (ss1, f1) :=
      if f.Recording then (Recorded(ss, input, time, !f.prevRecord, f.RoundDuration, blendable), f.(Playing := false))
      else if f.prevRecord && f.AutoStart then (ss, f.(Playing := true))
      else (ss, f);
    (ss1, f1.(prevRecord := f.Recording))
  }

  /** The second half of Update: play while Playing, else pass the input
      through. */
  function PlayPhase<T>(ss: SeqState<T>, f: Flags, input: T, time: real): (Outcome<T>, SeqState<T>, Flags)
  {
    if f.Playing then
      var (o, ss2) := Played(ss, time, f.Phase, !f.prevPlay, f.Overlap, f.PingPong);
      (o, ss2, f.(prevPlay := true))
    else (Returns(input), ss, f.(prevPlay := false))
  }

  /** The overriding Reset: the sequencer's, then every command flag off. */
  function ResetFlags(f: Flags): Flags
  {
    f.(Recording := false, prevRecord := false, Playing := false, prevPlay := false)
  }

  class StatefulSequencer<T> {
    /** The Sequencer<T> part of the object. */
    const sequencer: Sequencer<T>
    var prevRecord: bool
    var prevPlay: bool
    var Recording: bool
    var Playing: bool
    var PingPong: bool
    var RoundDuration: bool
    var AutoStart: bool
    var Phase: real
    var Overlap: real

    predicate Valid()
      reads this, sequencer, sequencer.tape
    {
      sequencer.Valid()
    }

    function FlagState(): Flags
      reads this
    {
      Flags(Recording, Playing, prevRecord, prevPlay, PingPong, RoundDuration, AutoStart, Phase, Overlap)
    }

    constructor (sequencer: Sequencer<T>)
      requires sequencer.Valid()
      ensures Valid() && this.sequencer == sequencer
      ensures FlagState() == Flags(false, false, false, false, false, false, false, 0.0, 0.0)
    {
      this.sequencer := sequencer;
      prevRecord, prevPlay, Recording, Playing := false, false, false, false;
      PingPong, RoundDuration, AutoStart := false, false, false;
      Phase, Overlap := 0.0, 0.0;
    }

    method Reset()
      requires Valid()
      modifies this, sequencer, sequencer.tape, sequencer.tape.samples
      ensures Valid()
      ensures sequencer.State() == ResetState(old(sequencer.State()))
      ensures FlagState() == ResetFlags(old(FlagState()))
    {
      sequencer.Reset();
      Recording, prevRecord, Playing, prevPlay := false, false, false, false;
    }

    method Update(input: T, time: real, blendable: Option<Blendable<T>>) returns (o: Outcome<T>)
      requires Valid()
      modifies this, sequencer, sequencer.tape, sequencer.tape.samples
      ensures Valid()
      ensures (o, sequencer.State(), FlagState()) == Stepped(old(sequencer.State()), old(FlagState()), input, time, blendable)
    {
      UpdateRecording(input, time, blendable);
      o := UpdatePlaying(input, time);
    }

    /** The recording half of Update. */
    method UpdateRecording(input: T, time: real, blendable: Option<Blendable<T>>)
      requires Valid()
      modifies this, sequencer, sequencer.tape, sequencer.tape.samples
      ensures Valid()
      ensures sequencer.tape.samples == old(sequencer.tape.samples) || fresh(sequencer.tape.samples)
      ensures (sequencer.State(), FlagState()) == RecordPhase(old(sequencer.State()), old(FlagState()), input, time, blendable)
    {
      if Recording {
        Playing := false;
        sequencer.Record(input, time, !prevRecord, RoundDuration, blendable);
      } else if prevRecord && AutoStart {
        Playing := true;
      }
      prevRecord := Recording;
    }

    /** The playing half of Update. */
    method UpdatePlaying(input: T, time: real) returns (o: Outcome<T>)
      requires Valid()
      modifies this, sequencer, sequencer.tape, sequencer.tape.samples
      ensures Valid()
      ensures (o, sequencer.State(), FlagState()) == PlayPhase(old(sequencer.State()), old(FlagState()), input, time)
    {
      var res := Returns(input);
      if Playing {
        res := sequencer.Play(time, Phase, !prevPlay, Overlap, PingPong);
      }
      prevPlay := Playing;
      return res;
    }
  }

  method NewStatefulSequencer<T>(utils: TapeUtils<T>, implementsBlendable: bool, zero: T,
                                 maxTime: real, resolution: int) returns (o: Outcome<StatefulSequencer<T>>)
    requires SampleCount(maxTime, resolution) >= 0
    ensures o.Throws? <==> utils.self in utils.typeMeta && utils.typeMeta[utils.self].OfOtherType?
    ensures o.Throws? ==> o.fault == TypeNotFoundInStaticTable
    ensures o.Diverges? == false
    ensures o.Returns? ==> fresh(o.value) && o.value.Valid()
    ensures o.Returns? ==> o.value.FlagState() == Flags(false, false, false, false, false, false, false, 0.0, 0.0)
    ensures o.Returns? ==>
      o.value.sequencer.State() == SeqState(RegistryFresh(utils.typeMeta, utils.self, implementsBlendable, zero, maxTime, resolution), maxTime, 0.0, 0.0, 0.0)
  {
    var s := NewSequencer(utils, implementsBlendable, zero, maxTime, resolution);
    match s
    case Returns(sq) =>
      var ss := new StatefulSequencer(sq);
      return Returns(ss);
    case Throws(f) =>
      return Throws(f);
  }

  // ------------------------------------------------------- Properties

  /** Starting a clip restarts both clocks, shortens the clip to nothing
      and leaves one sample at offset 0 that the tape reads at every time,
      provided MaxTime admits offset 0 and the tape has a slot. */
  lemma RecordStartsClip<T>(ss: SeqState<T>, input: T, time: real, roundDuration: bool,
                            blendable: Option<Blendable<T>>, later: real)
    requires ss.MaxTime >= 0.0 && |ss.tape.samples| >= 1
    ensures var r := Recorded(ss, input, time, true, roundDuration, blendable);
      && r.recordStartedAt == time && r.playbackStartedAt == time && r.Duration == 0.0
      && r.tape.onlyOne && Inv(r.tape)
      && Read(r.tape, later) == (Returns(Stored(Adopted(Cleared(ss.tape), blendable).Copier, input)), r.tape)
  {
    var c := Cleared(ss.tape);
    ClearedInv(ss.tape, later);
    assert time - time == 0.0;
    assert RoundHalfEven(0.0) == 0;
    assert WriteSlot(|c.samples|, c.Resolution, 0.0) == Some(0);
    FirstSampleEverywhere(c, 0.0, input, blendable, later);
    WrittenInv(c, 0.0, input, blendable);
  }

  /** An offset past MaxTime changes neither the clip nor the tape, beyond
      the restart a start makes. */
  lemma RecordDropsLate<T>(ss: SeqState<T>, input: T, time: real, start: bool, roundDuration: bool,
                           blendable: Option<Blendable<T>>)
    ensures !start && time - ss.recordStartedAt > ss.MaxTime ==>
      Recorded(ss, input, time, start, roundDuration, blendable) == ss
    ensures start && ss.MaxTime < 0.0 ==>
      Recorded(ss, input, time, start, roundDuration, blendable) ==
      ss.(recordStartedAt := time, playbackStartedAt := time, tape := Cleared(ss.tape))
  {
    assert time - time == 0.0;
  }

  /** An offset within MaxTime sets the clip length to it (rounded half to
      even when asked) and writes the tape there; recording keeps the
      tape's invariant. */
  lemma RecordWithin<T>(ss: SeqState<T>, input: T, time: real, roundDuration: bool,
                        blendable: Option<Blendable<T>>)
    requires Inv(ss.tape)
    requires time - ss.recordStartedAt <= ss.MaxTime
    ensures var r := Recorded(ss, input, time, false, roundDuration, blendable);
      var offset := time - ss.recordStartedAt;
      && r.tape == Written(ss.tape, offset, input, blendable)
      && Inv(r.tape)
      && (roundDuration ==> -0.5 <= offset - r.Duration <= 0.5)
      && (!roundDuration ==> r.Duration == offset)
  {
    WrittenInv(ss.tape, time - ss.recordStartedAt, input, blendable);
  }

  /** A value recorded at an offset that falls on a whole slot is what the
      tape then reads at that offset. */
  lemma RecordReadsBack<T>(ss: SeqState<T>, input: T, time: real, roundDuration: bool,
                           blendable: Option<Blendable<T>>, k: int)
    requires time - ss.recordStartedAt <= ss.MaxTime
    requires 0 <= k <= |ss.tape.samples| && |ss.tape.samples| > 0
    requires (time - ss.recordStartedAt) * ss.tape.Resolution as real == k as real
    ensures var r := Recorded(ss, input, time, false, roundDuration, blendable);
      Read(r.tape, time - ss.recordStartedAt).0 == Returns(Stored(Adopted(ss.tape, blendable).Copier, input))
  {
    RecordedTape(ss, input, time, roundDuration, blendable);
    WriteReadBack(ss.tape, time - ss.recordStartedAt, input, blendable, k);
  }

  /** Without a start, recording within MaxTime writes the tape at the
      offset since the recording started. */
  lemma RecordedTape<T>(ss: SeqState<T>, input: T, time: real, roundDuration: bool, blendable: Option<Blendable<T>>)
    requires time - ss.recordStartedAt <= ss.MaxTime
    ensures Recorded(ss, input, time, false, roundDuration, blendable).tape == Written(ss.tape, time - ss.recordStartedAt, input, blendable)
  {
  }

  /** Play's start flag moves only the playback start: the value and the
      tape are the same either way. */
  lemma PlayIgnoresStart<T>(ss: SeqState<T>, time: real, phase: real, overlap: real, pingpong: bool)
    ensures Played(ss, time, phase, true, overlap, pingpong).0 == Played(ss, time, phase, false, overlap, pingpong).0
    ensures Played(ss, time, phase, true, overlap, pingpong).1 ==
      Played(ss, time, phase, false, overlap, pingpong).1.(playbackStartedAt := time)
  {
    var ss1 := ss.(playbackStartedAt := time);
    var pos := LoopPosition(ss.recordStartedAt, ss.Duration, time, phase, pingpong);
    if overlap > 0.0 && !pingpong {
      var p := if pos.Some? then pos.value else 0.0;
      CrossFadeIgnoresStart(ss, time, p, overlap);
    }
  }

  lemma CrossFadeIgnoresStart<T>(ss: SeqState<T>, time: real, pos: real, overlap: real)
    ensures CrossFaded(ss.(playbackStartedAt := time), pos, overlap).0 == CrossFaded(ss, pos, overlap).0
    ensures CrossFaded(ss.(playbackStartedAt := time), pos, overlap).1 == CrossFaded(ss, pos, overlap).1.(playbackStartedAt := time)
  {
  }

  /** The loop position repeats every Duration, and every two durations
      when ping-ponging. */
  lemma WrappedPeriodic(a: real, d: real, pingpong: bool)
    requires d != 0.0
    ensures Wrapped(a + (if pingpong then 2.0 else 1.0) * d, d, pingpong) == Wrapped(a, d, pingpong)
  {
    if pingpong {
      MirrorMapPeriodic(a, d);
    } else {
      FmodPeriodic(a, d);
    }
  }

  /** A plain loop (no overlap, no ping-pong) reads the tape at the offset
      wrapped into the clip by Fmod, which LoopPosition bounds to
      [0, Duration) for a positive duration. */
  lemma PlainLoopReads<T>(ss: SeqState<T>, time: real, phase: real, overlap: real)
    requires ss.Duration > 0.0 && overlap <= 0.0
    ensures LoopPosition(ss.recordStartedAt, ss.Duration, time, phase, false) ==
      Some(Fmod(time - ss.recordStartedAt + ss.Duration * phase, ss.Duration))
    ensures Played(ss, time, phase, false, overlap, false).0 ==
      Read(ss.tape, LoopPosition(ss.recordStartedAt, ss.Duration, time, phase, false).value).0
  {
    PlainPosition(ss.recordStartedAt, ss.Duration, time, phase);
    PlayedAtPlain(ss, LoopPosition(ss.recordStartedAt, ss.Duration, time, phase, false).value, overlap);
  }

  lemma PlainPosition(rs: real, d: real, time: real, phase: real)
    requires d > 0.0
    ensures LoopPosition(rs, d, time, phase, false) == Some(Fmod(time - rs + d * phase, d))
  {
  }

  lemma PlayedAtPlain<T>(ss: SeqState<T>, pos: real, overlap: real)
    requires overlap <= 0.0
    ensures PlayedAt(ss, Some(pos), overlap, false).0 == Read(ss.tape, pos).0
  {
  }

  /** An overlapping play at a clip position inside a positive-length clip
      reads the base value at a position within [absoverlap, Duration] and
      the fade-in value within [0, absoverlap], and when both reads return
      it blends them with the tape's interpolator at a weight in [0, 1]. */
  lemma CrossFadeBlends<T>(ss: SeqState<T>, pos: real, overlap: real)
    requires 0.0 < overlap <= 1.0 && ss.Duration > 0.0 && 0.0 <= pos <= ss.Duration
    requires ss.tape.Interpolator.Some?
    ensures var (trimmed, fade, alpha) := OverlapPositions(ss.Duration, pos, overlap);
      var (b, t1) := Read(ss.tape, trimmed);
      var f := Read(t1, fade).0;
      && alpha.Some? && 0.0 <= alpha.value <= 1.0
      && (b.Returns? && f.Returns? ==>
            CrossFaded(ss, pos, overlap).0 == Returns(ss.tape.Interpolator.value(b.value, f.value, alpha.value)))
  {
    var (trimmed, fade, alpha) := OverlapPositions(ss.Duration, pos, overlap);
    var t1 := Read(ss.tape, trimmed).1;
    ReadKeepsSettings(ss.tape, trimmed);
    ReadKeepsSettings(t1, fade);
  }

  /** With an overlap and no ping-pong, a play of a positive-length clip
      cross-fades at the loop position, which lies in [0, Duration). */
  lemma OverlapPlayCrossFades<T>(ss: SeqState<T>, time: real, phase: real, overlap: real)
    requires overlap > 0.0 && ss.Duration > 0.0
    ensures var pos := LoopPosition(ss.recordStartedAt, ss.Duration, time, phase, false);
      && pos.Some? && 0.0 <= pos.value < ss.Duration
      && Played(ss, time, phase, false, overlap, false) == CrossFaded(ss, pos.value, overlap)
  {
  }

  /** Every play repeats every Duration, or every two durations when
      ping-ponging. */
  lemma PlayPeriodic<T>(ss: SeqState<T>, time: real, phase: real, overlap: real, pingpong: bool)
    requires ss.Duration != 0.0
    ensures Played(ss, time + (if pingpong then 2.0 else 1.0) * ss.Duration, phase, false, overlap, pingpong) ==
      Played(ss, time, phase, false, overlap, pingpong)
  {
    var d := ss.Duration;
    var later := time + (if pingpong then 2.0 else 1.0) * d;
    LoopPositionPeriodic(ss.recordStartedAt, d, time, phase, pingpong);
    assert Played(ss, later, phase, false, overlap, pingpong) ==
      PlayedAt(ss, LoopPosition(ss.recordStartedAt, d, later, phase, pingpong), overlap, pingpong);
  }

  lemma LoopPositionPeriodic(rs: real, d: real, time: real, phase: real, pingpong: bool)
    requires d != 0.0
    ensures LoopPosition(rs, d, time + (if pingpong then 2.0 else 1.0) * d, phase, pingpong) ==
      LoopPosition(rs, d, time, phase, pingpong)
  {
    var period := (if pingpong then 2.0 else 1.0) * d;
    var a := time - rs + d * phase;
    assert (time + period) - rs + d * phase == a + period;
    WrappedPeriodic(a, d, pingpong);
  }

  /** Right after Reset the clip is empty and the tape reads the default:
      a plain or ping-pong play returns it, and an overlapping one reads it
      twice and then fails on a null interpolator or blends with the NaN
      weight 0 / 0. */
  lemma PlayAfterReset<T>(ss: SeqState<T>, time: real, phase: real, start: bool, overlap: real, pingpong: bool)
    ensures !(overlap > 0.0 && !pingpong) ==>
      Played(ResetState(ss), time, phase, start, overlap, pingpong).0 == Returns(ss.tape.Default)
    ensures overlap > 0.0 && !pingpong ==>
      Played(ResetState(ss), time, phase, start, overlap, pingpong).0 ==
      if ss.tape.Interpolator.None? then Throws(NullReference) else Throws(NotANumber)
  {
    var r := ResetState(ss);
    ClearedInv(ss.tape, 0.0);
    if overlap > 0.0 && !pingpong {
      var (trimmed, fade, alpha) := OverlapPositions(0.0, 0.0, overlap);
      ClearedInv(ss.tape, trimmed);
      assert overlap * 0.0 == 0.0;
    } else if pingpong {
      var pos := LoopPosition(r.recordStartedAt, 0.0, time, phase, pingpong);
      ClearedInv(ss.tape, pos.value);
    }
  }

  /** While Recording, Update records (a clip starts on the rising edge),
      stops playback and returns the input. */
  lemma UpdateWhileRecording<T>(ss: SeqState<T>, f: Flags, input: T, time: real, blendable: Option<Blendable<T>>)
    requires f.Recording
    ensures var (o, ss2, f2) := Stepped(ss, f, input, time, blendable);
      && o == Returns(input) && ss2 == Recorded(ss, input, time, !f.prevRecord, f.RoundDuration, blendable)
      && !f2.Playing && f2.prevRecord && !f2.prevPlay
      && f2.(Playing := f.Playing, prevRecord := f.prevRecord, prevPlay := f.prevPlay) == f
  {
  }

  /** When Recording falls with AutoStart set, playback starts that very
      frame (with Play's start flag up unless it was already playing);
      while Playing and not Recording, Update returns Play's value. */
  lemma UpdatePlays<T>(ss: SeqState<T>, f: Flags, input: T, time: real, blendable: Option<Blendable<T>>)
    requires !f.Recording && (f.Playing || (f.prevRecord && f.AutoStart))
    ensures var (o, ss2, f2) := Stepped(ss, f, input, time, blendable);
      && (o, ss2) == Played(ss, time, f.Phase, !f.prevPlay, f.Overlap, f.PingPong)
      && f2 == f.(Playing := true, prevRecord := false, prevPlay := true)
  {
  }

  /** Neither recording nor playing, Update passes the input through and
      changes only the previous-frame flags. */
  lemma UpdateIdle<T>(ss: SeqState<T>, f: Flags, input: T, time: real, blendable: Option<Blendable<T>>)
    requires !f.Recording && !f.Playing && !(f.prevRecord && f.AutoStart)
    ensures Stepped(ss, f, input, time, blendable) == (Returns(input), ss, f.(prevRecord := false, prevPlay := false))
  {
  }

  /** A one-frame clip: a frame recorded on the rising edge of Recording
      and then, with AutoStart, played back on the next frame, with no
      overlap: playback returns the recorded value whatever the time. */
  lemma OneFrameClip<T>(ss: SeqState<T>, f: Flags, input: T, t0: real, t1: real, next: T,
                        blendable: Option<Blendable<T>>, nextBlendable: Option<Blendable<T>>)
    requires ss.MaxTime >= 0.0 && |ss.tape.samples| >= 1
    requires f.Recording && !f.prevRecord && f.AutoStart && (f.Overlap <= 0.0 || f.PingPong)
    ensures var (_, ss1, f1) := Stepped(ss, f, input, t0, blendable);
      Stepped(ss1, f1.(Recording := false), next, t1, nextBlendable).0 ==
      Returns(Stored(Adopted(Cleared(ss.tape), blendable).Copier, input))
  {
    var (_, ss1, f1) := Stepped(ss, f, input, t0, blendable);
    RecordStartsClip(ss, input, t0, f.RoundDuration, blendable, 0.0);
    assert ss1 == Recorded(ss, input, t0, true, f.RoundDuration, blendable);
    var g := f1.(Recording := false);
    assert g.prevRecord && g.AutoStart && !g.Recording;
    var pos := LoopPosition(ss1.recordStartedAt, 0.0, t1, g.Phase, g.PingPong);
    if pos.Some? {
      RecordStartsClip(ss, input, t0, f.RoundDuration, blendable, pos.value);
    }
  }

  /** Reset empties the tape and stops the state machine: the next Update
      passes the input through. */
  lemma ResetIdles<T>(ss: SeqState<T>, f: Flags, input: T, time: real, blendable: Option<Blendable<T>>)
    ensures Inv(ResetState(ss).tape) && ResetState(ss).tape.Empty
    ensures Stepped(ResetState(ss), ResetFlags(f), input, time, blendable) ==
      (Returns(input), ResetState(ss), ResetFlags(f))
  {
    ClearedInv(ss.tape, time);
  }
}
