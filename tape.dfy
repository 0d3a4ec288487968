/** The sample tape: a fixed array of (valid, value) slots addressed by
    time, written at the nearest slot and read by blending the nearest
    valid neighbours; and the global table of per-type tape metadata. */
module Tapes {
  import opened Wrappers
  import opened DotNet
  import opened UnMath

  /** (old, new, alpha): result */
  type Interp<!T> = (T, T, real) -> T

  /** One sample slot. */
  datatype Slot<T> = Slot(valid: bool, val: T)

  /** TapeTypeMeta<T>: interpolator (null when None), default, copier. */
  datatype TapeMeta<!T> = TapeMeta(Interpolator: Option<Interp<T>>, Default: T, Copier: Option<T -> T>)

  /** The members of a value seen as IBlendable<T>. */
  datatype Blendable<!T> = Blendable(Interpolate: Interp<T>, Copier: Option<T -> T>, Default: T)

  /** An entry of TapeUtils.TypeMeta as seen by code working with values of
      type T: metadata for T, or metadata registered for another type (for
      which `is TapeTypeMeta<T>` fails). */
  datatype RegistryEntry<!T> = OfType(meta: TapeMeta<T>) | OfOtherType

  /** The key of TapeUtils.TypeMeta: a type. */
  datatype TypeTag =
    | Float | Double | Decimal | Bool | Int | UInt | Long | ULong
    | Vector2 | Vector3 | Vector4 | Quaternion | Matrix4x4
    | UserType(name: string)

  /** The types the static initializer of TapeUtils registers. */
  const BuiltInTags: set<TypeTag> :=
    {TypeTag.Float, Double, Decimal, Bool, Int, UInt, Long, ULong, Vector2, Vector3, Vector4, Quaternion, Matrix4x4}

  /** The built-in table seen from values of type `self`: `own` at `self`
      when that is a built-in type, and foreign entries elsewhere. */
  function StaticTable<T>(self: TypeTag, own: TapeMeta<T>): (r: map<TypeTag, RegistryEntry<T>>)
    ensures r.Keys == BuiltInTags
    ensures self in BuiltInTags ==> r[self] == OfType(own)
    ensures forall t :: t in BuiltInTags && t != self ==> r[t] == OfOtherType
  {
    map t | t in BuiltInTags :: if t == self then OfType(own) else OfOtherType
  }

  /** The float/double entry: a * (1 - p) + b * p, default 0. */
  function LerpMeta(): (r: TapeMeta<real>)
    ensures r.Interpolator.Some? && r.Default == 0.0 && r.Copier.None?
    ensures forall a, b :: r.Interpolator.value(a, b, 0.0) == a && r.Interpolator.value(a, b, 1.0) == b
  {
    TapeMeta(Some((a: real, b: real, p: real) => a * (1.0 - p) + b * p), 0.0, None)
  }

  /** The bool and integer entries: the later value once past halfway. */
  function StepMeta<T(!new)>(def: T): (r: TapeMeta<T>)
    ensures r.Interpolator.Some? && r.Default == def && r.Copier.None?
    ensures forall a, b, p :: r.Interpolator.value(a, b, p) == (if p > 0.5 then b else a)
  {
    TapeMeta(Some((a: T, b: T, p: real) => if p > 0.5 then b else a), def, None)
  }

  /** TapeUtils.TypeMeta, seen from values of type T. */
  class TapeUtils<T> {
    /** typeof(T) */
    const self: TypeTag
    var typeMeta: map<TypeTag, RegistryEntry<T>>

    /** The static initializer: the built-in types, T's own entry `own`
        when T is one of them. */
    constructor (self: TypeTag, own: TapeMeta<T>)
      ensures this.self == self && typeMeta == StaticTable(self, own)
    {
      this.self := self;
      typeMeta := StaticTable(self, own);
    }

    /** AddMeta<T>: register metadata for typeof(T) unless the type is
        already present; the new entry is returned, null when nothing was
        added. */
    method AddMeta(interp: Option<Interp<T>>, def: T, copier: Option<T -> T>) returns (r: Option<TapeMeta<T>>)
      modifies this
      ensures self !in old(typeMeta) ==> r == Some(TapeMeta(interp, def, copier)) && typeMeta == old(typeMeta)[self := OfType(r.value)]
      ensures self in old(typeMeta) ==> r == None && typeMeta == old(typeMeta)
    {
      if self !in typeMeta {
        var res := TapeMeta(interp, def, copier);
        typeMeta := typeMeta[self := OfType(res)];
        return Some(res);
      }
      return None;
    }
  }

  // ------------------------------------------------------------ Tape state

  /** Everything a tape holds; `zero` is default(T), the value of a slot
      that was never written. */
  datatype TapeState<!T> = TapeState(
    samples: seq<Slot<T>>,
    Empty: bool,
    onlyOne: bool,
    onlyIndex: int,
    Interpolator: Option<Interp<T>>,
    Copier: Option<T -> T>,
    Default: T,
    isBlendable: bool,
    Resolution: int,
    zero: T)

  /** The length of the sample array: (int)(maxTime * resolution) + 1. */
  function SampleCount(maxTime: real, resolution: int): int
  {
    Truncate(maxTime * resolution as real) + 1
  }

  /** A tape as constructed: every slot invalid, Empty set, OnlyOneEntry (false, 0). */
  function Fresh<T>(count: nat, resolution: int, interp: Option<Interp<T>>, def: T, copier: Option<T -> T>,
                    isBlendable: bool, zero: T): TapeState<T>
  {
    TapeState(seq(count, _ => Slot(false, zero)), true, false, 0, interp, copier, def, isBlendable, resolution, zero)
  }

  /** The tape after Clear: every slot back to (false, default), Empty set,
      OnlyOneEntry (false, 0); the length stays. */
  function Cleared<T>(st: TapeState<T>): TapeState<T>
  {
    st.(samples := seq(|st.samples|, _ => Slot(false, st.zero)), Empty := true, onlyOne := false, onlyIndex := 0)
  }

  // --------------------------------------------------------------- Setter

  /** The slot a write at `time` goes to: Math.Round(time * Resolution),
      pulled back by one when it is exactly the length; None when it is
      still outside the array and the write is dropped. */
  function WriteSlot(count: int, resolution: int, time: real): (r: Option<int>)
    ensures r.Some? ==> 0 <= r.value < count
    ensures r.Some? <==> count > 0 && 0 <= RoundHalfEven(time * resolution as real) <= count
    ensures r.Some? && RoundHalfEven(time * resolution as real) < count ==> r.value == RoundHalfEven(time * resolution as real)
    ensures r.Some? && RoundHalfEven(time * resolution as real) == count ==> r.value == count - 1
  {
    var roundt := RoundHalfEven(time * resolution as real);
    var roundt' := if roundt == count then roundt - 1 else roundt;
    if roundt' < 0 || roundt' >= count then None else Some(roundt')
  }

  /** The state after the IBlendable<T> hook of the setter: a blendable
      type without interpolator takes the value's own members. */
  function Adopted<T>(st: TapeState<T>, blendable: Option<Blendable<T>>): TapeState<T>
  {
    if st.isBlendable && st.Interpolator.None? && blendable.Some? then
      st.(Interpolator := Some(blendable.value.Interpolate), Copier := blendable.value.Copier, Default := blendable.value.Default)
    else st
  }

  /** What the setter stores for `value`: the copier's clone, or the value. */
  function Stored<T>(copier: Option<T -> T>, value: T): T
  {
    match copier
    case None => value
    case Some(c) => c(value)
  }

  /** The setter this[time] = value.  `blendable` is what the test
      `value is IBlendable<T>` yields. */
  function Written<T>(st: TapeState<T>, time: real, value: T, blendable: Option<Blendable<T>>): TapeState<T>
  {
    var st1 := Adopted(st, blendable);
    match WriteSlot(|st1.samples|, st1.Resolution, time)
    case None => st1
    case Some(r) => Placed(st1, r, value)
  }

  /** The setter once the slot `r` is known: the (copied) value goes in,
      a second distinct slot ends OnlyOneEntry, and the first write to an
      empty tape starts it at `r`. */
  function Placed<T>(st: TapeState<T>, r: int, value: T): TapeState<T>
    requires 0 <= r < |st.samples|
  {
    var samples := st.samples[r := Slot(true, Stored(st.Copier, value))];
    var onlyOne := if st.onlyOne && st.onlyIndex != r then false else st.onlyOne;
    var onlyOne' := if st.Empty then true else onlyOne;
    var onlyIndex := if st.Empty then r else st.onlyIndex;
    st.(samples := samples, onlyOne := onlyOne', onlyIndex := onlyIndex, Empty := false)
  }

  // --------------------------------------------------------------- Getter

  /** The search state of the getter's loop. */
  datatype Search<T> = Search(
    floort: int, flvalid: bool, flval: T, flinvalid: bool,
    ceilt: int, clvalid: bool, clval: T, clinvalid: bool)

  /** Both cursors point into the array. */
  predicate WalkReady<T>(s: seq<Slot<T>>, w: Search<T>)
  {
    0 <= w.floort < |s| && 0 <= w.ceilt < |s|
  }

  /** What is left of the search: the slots each side may still visit. */
  function WalkMeasure<T>(count: int, w: Search<T>): int
  {
    (if w.flvalid then 0 else w.floort + 1) + (if w.clvalid then 0 else count - w.ceilt)
  }

  /** One step down of the floor cursor, unless it already stopped: None
      when it leaves the array. Reaching slot 0 invalid stops it there as
      exhausted. */
  function FloorStep<T>(s: seq<Slot<T>>, w: Search<T>): Option<Search<T>>
  {
    if w.flvalid then Some(w)
    else
      var f := w.floort - 1;
      if f < 0 || f >= |s| then None
      else if !s[f].valid && f == 0 then Some(w.(floort := f, flvalid := true, flval := s[f].val, flinvalid := true))
      else Some(w.(floort := f, flvalid := s[f].valid, flval := s[f].val))
  }

  /** One step up of the ceiling cursor; reaching the last slot invalid
      stops it there as exhausted. */
  function CeilStep<T>(s: seq<Slot<T>>, w: Search<T>): Option<Search<T>>
  {
    if w.clvalid then Some(w)
    else
      var c := w.ceilt + 1;
      if c < 0 || c >= |s| then None
      else if !s[c].valid && c == |s| - 1 then Some(w.(ceilt := c, clvalid := true, clval := s[c].val, clinvalid := true))
      else Some(w.(ceilt := c, clvalid := s[c].valid, clval := s[c].val))
  }

  /** The getter's `while (!flvalid || !clvalid)` loop: both steps per
      round, floor first; an index outside the array throws. */
  function Walk<T>(s: seq<Slot<T>>, w: Search<T>): (r: Outcome<Search<T>>)
    requires WalkReady(s, w)
    ensures r.Diverges? == false
    ensures r.Returns? ==> r.value.flvalid && r.value.clvalid && WalkReady(s, r.value)
    decreases WalkMeasure(|s|, w)
  {
    if w.flvalid && w.clvalid then Returns(w)
    else
      match FloorStep(s, w)
      case None => Throws(IndexOutOfRange)
      case Some(w1) =>
        match CeilStep(s, w1)
        case None => Throws(IndexOutOfRange)
        case Some(w2) => Walk(s, w2)
  }

  /** The read position: time * Resolution clamped to the array. */
  function AbsTime<T>(st: TapeState<T>, time: real): real
  {
    ClampReal(time * st.Resolution as real, 0.0, (|st.samples| - 1) as real)
  }

  /** The blend of the two neighbours: the interpolator, or without one
      the ceiling value only when past halfway (a tie goes to the floor). */
  function Blended<T>(interp: Option<Interp<T>>, fl: T, cl: T, blend: real): T
  {
    match interp
    case None => if blend > 0.5 then cl else fl
    case Some(f) => f(fl, cl, blend)
  }

  /** The end of the getter once the search has stopped: both sides
      exhausted empties the tape, one side exhausted returns (and caches)
      the other, and otherwise the neighbours are blended and the result
      cached when a search was needed. */
  function Settle<T>(st: TapeState<T>, abstime: real, roundt: int, writeval: bool, w: Search<T>): (Outcome<T>, TapeState<T>)
    requires 0 <= roundt < |st.samples|
  {
    if w.clinvalid && w.flinvalid then (Returns(st.Default), st.(Empty := true))
    else if w.flinvalid then (Returns(w.clval), st.(samples := st.samples[roundt := Slot(true, w.clval)]))
    else if w.clinvalid then (Returns(w.flval), st.(samples := st.samples[roundt := Slot(true, w.flval)]))
    else
      var blend := Map(abstime, w.floort as real, w.ceilt as real, 0.0, 1.0, MapMode.Clamp);
      var res := Blended(st.Interpolator, w.flval, w.clval, blend);
      (Returns(res), if writeval then st.(samples := st.samples[roundt := Slot(true, res)]) else st)
  }

  /** The neighbours of a read position are the floor and the ceiling, and
      the rounded position is one of them. */
  lemma Neighbours(x: real)
    ensures Floor(x) <= RoundHalfEven(x) <= Ceiling(x) <= Floor(x) + 1
    ensures Floor(x) == Ceiling(x) <==> x == Floor(x) as real
  {
  }

  /** The getter this[time]: its result and the state it leaves. */
  function Read<T>(st: TapeState<T>, time: real): (Outcome<T>, TapeState<T>)
  {
    if st.Empty then (Returns(st.Default), st)
    else if st.onlyOne then
      if 0 <= st.onlyIndex < |st.samples| then (Returns(st.samples[st.onlyIndex].val), st)
      else (Throws(IndexOutOfRange), st)
    else BlendRead(st, time)
  }

  /** The getter on a tape with at least two samples: a read on a valid
      slot returns it, and otherwise the search runs from the floor and
      the ceiling of the read position. */
  function BlendRead<T>(st: TapeState<T>, time: real): (Outcome<T>, TapeState<T>)
  {
    var s := st.samples;
    var abstime := AbsTime(st, time);
    var roundt, floort, ceilt := RoundHalfEven(abstime), Floor(abstime), Ceiling(abstime);
    Neighbours(abstime);
    if !(0 <= floort < |s|) then (Throws(IndexOutOfRange), st)
    else if floort == ceilt && s[floort].valid then (Returns(s[floort].val), st)
    else if !(0 <= ceilt < |s|) then (Throws(IndexOutOfRange), st)
    else
      var start := Search(floort, s[floort].valid, s[floort].val, false, ceilt, s[ceilt].valid, s[ceilt].val, false);
      var writeval := !s[floort].valid || !s[ceilt].valid;
      match Walk(s, start)
      case Returns(w) => Settle(st, abstime, roundt, writeval, w)
      case Throws(f) => (Throws(f), st)
      case Diverges => (Diverges, st)
  }

  // ------------------------------------------------------------------ Tape

  class Tape<T> {
    var samples: array<Slot<T>>
    var isBlendable: bool
    const MaxTime: real
    const Resolution: int
    const zero: T
    var Empty: bool
    var onlyOne: bool
    var onlyIndex: int
    var Interpolator: Option<Interp<T>>
    var Copier: Option<T -> T>
    var Default: T

    /** The array keeps the length the constructor gave it. */
    predicate Valid()
      reads this
    {
      samples.Length == SampleCount(MaxTime, Resolution)
    }

    function State(): TapeState<T>
      reads this, samples
    {
      TapeState(samples[..], Empty, onlyOne, onlyIndex, Interpolator, Copier, Default, isBlendable, Resolution, zero)
    }

    /** Both C# constructors end here: the explicit one with
        `isBlendable` false, the registry one with the metadata it found.
        `zero` is default(T). */
    constructor (maxTime: real, resolution: int, interp: Option<Interp<T>>, def: T, copier: Option<T -> T>,
                 isBlendable: bool, zero: T)
      requires SampleCount(maxTime, resolution) >= 0
      ensures Valid() && fresh(samples)
      ensures MaxTime == maxTime && Resolution == resolution
      ensures State() == Fresh(SampleCount(maxTime, resolution), resolution, interp, def, copier, isBlendable, zero)
    {
      MaxTime := maxTime;
      Resolution := resolution;
      this.zero := zero;
      Empty := true;
      onlyOne, onlyIndex := false, 0;
      samples := new Slot<T>[SampleCount(maxTime, resolution)](_ => Slot(false, zero));
      Interpolator := interp;
      Copier := copier;
      Default := def;
      this.isBlendable := isBlendable;
    }

    /** The setter this[time] = value. */
    method Set(time: real, value: T, blendable: Option<Blendable<T>>)
      requires Valid()
      modifies this, samples
      ensures Valid() && samples == old(samples)
      ensures State() == Written(old(State()), time, value, blendable)
    {
      ghost var st0 := State();
      if isBlendable && Interpolator.None? {
        if blendable.Some? {
          Interpolator := Some(blendable.value.Interpolate);
          Copier := blendable.value.Copier;
          Default := blendable.value.Default;
        }
      }
      ghost var st1 := State();
      assert st1 == Adopted(st0, blendable);
      assert |st1.samples| == samples.Length && st1.Resolution == Resolution;
      var slot := WriteSlot(samples.Length, Resolution, time);
      if slot.None? {
        return;
      }
      Place(slot.value, value);
    }

    /** The setter's write of `value` into slot `roundt`. */
    method Place(roundt: int, value: T)
      requires Valid() && 0 <= roundt < samples.Length
      modifies this, samples
      ensures Valid() && samples == old(samples)
      ensures State() == Placed(old(State()), roundt, value)
    {
      ghost var st := State();
      samples[roundt] := Slot(true, if Copier.None? then value else Copier.value(value));
      assert samples[..] == st.samples[roundt := Slot(true, Stored(st.Copier, value))];
      if onlyOne && onlyIndex != roundt {
        onlyOne := false;
      }
      if Empty {
        onlyOne, onlyIndex := true, roundt;
      }
      Empty := false;
    }

    /** The getter this[time]. */
    method Get(time: real) returns (o: Outcome<T>)
      requires Valid()
      modifies this, samples
      ensures Valid() && samples == old(samples)
      ensures (o, State()) == Read(old(State()), time)
    {
      if Empty {
        return Returns(Default);
      }
      if onlyOne {
        if !(0 <= onlyIndex < samples.Length) {
          return Throws(IndexOutOfRange);
        }
        return Returns(samples[onlyIndex].val);
      }
      o := ReadBlended(time);
    }

    /** The getter past its Empty and OnlyOneEntry shortcuts. */
    method ReadBlended(time: real) returns (o: Outcome<T>)
      requires Valid()
      modifies this, samples
      ensures Valid() && samples == old(samples)
      ensures (o, State()) == BlendRead(old(State()), time)
    {
      ghost var st := State();
      var abstime := ClampReal(time * Resolution as real, 0.0, (samples.Length - 1) as real);
      assert abstime == AbsTime(st, time);
      var roundt := RoundHalfEven(abstime);
      var floort := Floor(abstime);
      var ceilt := Ceiling(abstime);
      Neighbours(abstime);
      if !(0 <= floort < samples.Length) {
        return Throws(IndexOutOfRange);
      }
      var flvalid, flval := samples[floort].valid, samples[floort].val;
      if floort == ceilt && flvalid {
        return Returns(flval);
      }
      if !(0 <= ceilt < samples.Length) {
        return Throws(IndexOutOfRange);
      }
      var clvalid, clval := samples[ceilt].valid, samples[ceilt].val;
      // the search loop runs, and sets writeval, exactly when a side is invalid
      var writeval := !flvalid || !clvalid;
      var search := FindNeighbours(samples, Search(floort, flvalid, flval, false, ceilt, clvalid, clval, false));
      if !search.Returns? {
        return Throws(search.fault);
      }
      o := Finish(abstime, roundt, writeval, search.value);
    }

    /** The end of the getter once its search has stopped: the default
        when both sides ran out (which empties the tape), the side that
        found a sample when the other ran out, and otherwise the blend of
        the two, cached at `roundt` when the search had to move. */
    method Finish(abstime: real, roundt: int, writeval: bool, w: Search<T>) returns (o: Outcome<T>)
      requires Valid() && 0 <= roundt < samples.Length
      modifies this, samples
      ensures Valid() && samples == old(samples)
      ensures (o, State()) == Settle(old(State()), abstime, roundt, writeval, w)
    {
      if w.clinvalid && w.flinvalid {
        Empty := true;
        return Returns(Default);
      }
      if w.flinvalid {
        samples[roundt] := Slot(true, w.clval);
        return Returns(w.clval);
      }
      if w.clinvalid {
        samples[roundt] := Slot(true, w.flval);
        return Returns(w.flval);
      }
      var blend := Map(abstime, w.floort as real, w.ceilt as real, 0.0, 1.0, MapMode.Clamp);
      var res := if Interpolator.None? then (if blend > 0.5 then w.clval else w.flval) else Interpolator.value(w.flval, w.clval, blend);
      if writeval {
        samples[roundt] := Slot(true, res);
      }
      return Returns(res);
    }

    /** Clear(noGc): every slot back to (false, default), in place or in a
        new array of the same length. */
    method Clear(noGc: bool)
      requires Valid()
      modifies this, samples
      ensures Valid()
      ensures noGc ==> samples == old(samples)
      ensures !noGc ==> fresh(samples)
      ensures State() == Cleared(old(State()))
    {
      if noGc {
        ResetSlots(samples, zero);
      } else {
        samples := new Slot<T>[SampleCount(MaxTime, Resolution)](_ => Slot(false, zero));
        assert samples[..] == seq(samples.Length, _ => Slot(false, zero));
      }
      Empty := true;
      onlyOne, onlyIndex := false, 0;
    }
  }

  /** The search loop of the getter: widen the window one slot per side
      per round until both sides hold a valid slot or hit the end of the
      array. */
  method FindNeighbours<T>(samples: array<Slot<T>>, start: Search<T>) returns (o: Outcome<Search<T>>)
    requires WalkReady(samples[..], start)
    ensures o == Walk(samples[..], start)
  {
    ghost var s := samples[..];
    var w := start;
    while !w.flvalid || !w.clvalid
      invariant WalkReady(s, w)
      invariant Walk(s, start) == Walk(s, w)
      decreases WalkMeasure(|s|, w)
    {
      var w1 := StepFloor(samples, w);
      if w1.None? {
        return Throws(IndexOutOfRange);
      }
      var w2 := StepCeil(samples, w1.value);
      if w2.None? {
        return Throws(IndexOutOfRange);
      }
      WalkRound(s, w);
      w := w2.value;
    }
    return Returns(w);
  }

  /** A round of the search that does not throw keeps both cursors in the
      array, shrinks what is left to visit, and leaves the outcome alone. */
  lemma WalkRound<T>(s: seq<Slot<T>>, w: Search<T>)
    requires WalkReady(s, w) && !(w.flvalid && w.clvalid)
    requires FloorStep(s, w).Some? && CeilStep(s, FloorStep(s, w).value).Some?
    ensures var w2 := CeilStep(s, FloorStep(s, w).value).value;
      && WalkReady(s, w2) && WalkMeasure(|s|, w2) < WalkMeasure(|s|, w) && Walk(s, w) == Walk(s, w2)
  {
  }

  /** The floor half of a round of the search loop. */
  method StepFloor<T>(samples: array<Slot<T>>, w: Search<T>) returns (r: Option<Search<T>>)
    ensures r == FloorStep(samples[..], w)
  {
    if w.flvalid {
      return Some(w);
    }
    var floort := w.floort - 1;
    if floort < 0 || floort >= samples.Length {
      return None;
    }
    var flvalid, flval := samples[floort].valid, samples[floort].val;
    if !flvalid && floort == 0 {
      return Some(w.(floort := floort, flvalid := true, flval := flval, flinvalid := true));
    }
    return Some(w.(floort := floort, flvalid := flvalid, flval := flval));
  }

  /** The ceiling half of a round of the search loop. */
  method StepCeil<T>(samples: array<Slot<T>>, w: Search<T>) returns (r: Option<Search<T>>)
    ensures r == CeilStep(samples[..], w)
  {
    if w.clvalid {
      return Some(w);
    }
    var ceilt := w.ceilt + 1;
    if ceilt < 0 || ceilt >= samples.Length {
      return None;
    }
    var clvalid, clval := samples[ceilt].valid, samples[ceilt].val;
    if !clvalid && ceilt == samples.Length - 1 {
      return Some(w.(ceilt := ceilt, clvalid := true, clval := clval, clinvalid := true));
    }
    return Some(w.(ceilt := ceilt, clvalid := clvalid, clval := clval));
  }

  /** The in-place branch of Clear: every slot of `a` becomes (false, zero). */
  method ResetSlots<T>(a: array<Slot<T>>, zero: T)
    modifies a
    ensures a[..] == seq(a.Length, _ => Slot(false, zero))
  {
    for i := 0 to a.Length
      invariant forall j :: 0 <= j < i ==> a[j] == Slot(false, zero)
    {
      a[i] := Slot(false, zero);
    }
  }

  /** The registry constructor Tape(maxTime, resolution): T's entry in the
      table supplies interpolator, default and copier; an entry of another
      type throws; a type absent from the table gets none of them and is
      flagged blendable when it implements IBlendable<T>. */
  method NewFromRegistry<T>(utils: TapeUtils<T>, implementsBlendable: bool, zero: T,
                            maxTime: real, resolution: int) returns (o: Outcome<Tape<T>>)
    requires SampleCount(maxTime, resolution) >= 0
    ensures o.Throws? <==> utils.self in utils.typeMeta && utils.typeMeta[utils.self].OfOtherType?
    ensures o.Throws? ==> o.fault == TypeNotFoundInStaticTable
    ensures o.Diverges? == false
    ensures o.Returns? ==> fresh(o.value) && fresh(o.value.samples) && o.value.Valid()
    ensures o.Returns? ==> o.value.MaxTime == maxTime && o.value.Resolution == resolution
    ensures o.Returns? ==> o.value.State() == RegistryFresh(utils.typeMeta, utils.self, implementsBlendable, zero, maxTime, resolution)
  {
    var tag := utils.self;
    if tag in utils.typeMeta {
      match utils.typeMeta[tag]
      case OfType(m) =>
        var t := new Tape(maxTime, resolution, m.Interpolator, m.Default, m.Copier, false, zero);
        return Returns(t);
      case OfOtherType =>
        return Throws(TypeNotFoundInStaticTable);
    }
    var t := new Tape(maxTime, resolution, None, zero, None, implementsBlendable, zero);
    return Returns(t);
  }

  /** The state the registry constructor leaves when it does not throw. */
  function RegistryFresh<T>(table: map<TypeTag, RegistryEntry<T>>, tag: TypeTag, implementsBlendable: bool, zero: T,
                            maxTime: real, resolution: int): TapeState<T>
    requires SampleCount(maxTime, resolution) >= 0
  {
    var n := SampleCount(maxTime, resolution);
    if tag in table && table[tag].OfType? then
      var m := table[tag].meta;
      Fresh(n, resolution, m.Interpolator, m.Default, m.Copier, false, zero)
    else Fresh(n, resolution, None, zero, None, implementsBlendable, zero)
  }

  // ---------------------------------------------------------- Invariant

  predicate NoneValid<T>(s: seq<Slot<T>>)
  {
    forall i :: 0 <= i < |s| ==> !s[i].valid
  }

  /** Slot `k` is the only valid one. */
  predicate OnlyValid<T>(s: seq<Slot<T>>, k: int)
  {
    0 <= k < |s| && s[k].valid && forall i :: 0 <= i < |s| && i != k ==> !s[i].valid
  }

  predicate TwoValid<T>(s: seq<Slot<T>>)
  {
    exists i, j :: 0 <= i < j < |s| && s[i].valid && s[j].valid
  }

  /** What Empty and OnlyOneEntry mean: no sample written, exactly one
      sample (at onlyIndex), or at least two. */
  predicate Inv<T>(st: TapeState<T>)
  {
    && (st.Empty <==> NoneValid(st.samples))
    && (st.Empty ==> !st.onlyOne)
    && (st.onlyOne ==> OnlyValid(st.samples, st.onlyIndex))
    && (!st.Empty && !st.onlyOne ==> TwoValid(st.samples))
  }

  /** A new tape and a cleared one satisfy the invariant and read the
      default at every time. */
  lemma FreshInv<T>(count: nat, resolution: int, interp: Option<Interp<T>>, def: T, copier: Option<T -> T>,
                    isBlendable: bool, zero: T, time: real)
    ensures Inv(Fresh(count, resolution, interp, def, copier, isBlendable, zero))
    ensures Read(Fresh(count, resolution, interp, def, copier, isBlendable, zero), time).0 == Returns(def)
  {
  }

  lemma ClearedInv<T>(st: TapeState<T>, time: real)
    ensures Inv(Cleared(st))
    ensures |Cleared(st).samples| == |st.samples|
    ensures Read(Cleared(st), time) == (Returns(st.Default), Cleared(st))
  {
  }

  /** The setter keeps the invariant. */
  lemma WrittenInv<T>(st: TapeState<T>, time: real, value: T, blendable: Option<Blendable<T>>)
    requires Inv(st)
    ensures Inv(Written(st, time, value, blendable))
    ensures |Written(st, time, value, blendable).samples| == |st.samples|
  {
    var st1 := Adopted(st, blendable);
    match WriteSlot(|st1.samples|, st1.Resolution, time)
    case None =>
    case Some(r) =>
      var st2 := Written(st, time, value, blendable);
      assert st2.samples[r].valid;
      if st.onlyOne && st.onlyIndex != r {
        assert st2.samples[st.onlyIndex].valid;
        if st.onlyIndex < r {
          assert TwoValid(st2.samples);
        } else {
          assert TwoValid(st2.samples);
        }
      }
      if !st.Empty && !st.onlyOne {
        var i, j :| 0 <= i < j < |st.samples| && st.samples[i].valid && st.samples[j].valid;
        assert st2.samples[i].valid && st2.samples[j].valid;
      }
  }

  /** A sample written where time * Resolution is a whole slot number is
      read back at that time; a slot number one past the end is pulled
      back to the last slot, which a read there also lands on. */
  lemma WriteReadBack<T>(st: TapeState<T>, time: real, value: T, blendable: Option<Blendable<T>>, k: int)
    requires 0 <= k <= |st.samples| && |st.samples| > 0
    requires time * st.Resolution as real == k as real
    ensures Read(Written(st, time, value, blendable), time).0 == Returns(Stored(Adopted(st, blendable).Copier, value))
  {
    var n := |st.samples|;
    var k' := if k == n then k - 1 else k;
    var st1 := Adopted(st, blendable);
    assert WriteSlot(n, st.Resolution, time) == Some(k');
    assert st1.Resolution == st.Resolution && |st1.samples| == n;
    var st2 := Placed(st1, k', value);
    assert Written(st, time, value, blendable) == st2;
    assert AbsTime(st2, time) == k' as real;
    if st2.onlyOne {
      assert st2.onlyIndex == k';
    } else {
      ReadAtSample(st2, time, k');
    }
  }

  /** The first sample written to an empty tape is what it reads at every
      time, until another slot is written. */
  lemma FirstSampleEverywhere<T>(st: TapeState<T>, time: real, value: T, blendable: Option<Blendable<T>>, later: real)
    requires Inv(st) && st.Empty
    requires WriteSlot(|st.samples|, st.Resolution, time).Some?
    ensures Written(st, time, value, blendable).onlyOne
    ensures Read(Written(st, time, value, blendable), later) ==
      (Returns(Stored(Adopted(st, blendable).Copier, value)), Written(st, time, value, blendable))
  {
  }

  // ------------------------------------------------- Nearest valid slots

  /** The highest valid slot at or below `k`. */
  function NearestBelow<T>(s: seq<Slot<T>>, k: int): (r: Option<int>)
    requires k < |s|
    ensures r.Some? ==> 0 <= r.value <= k && s[r.value].valid
    ensures r.Some? ==> forall i :: r.value < i <= k ==> !s[i].valid
    ensures r.None? ==> forall i :: 0 <= i <= k ==> !s[i].valid
    decreases k + 1
  {
    if k < 0 then None
    else if s[k].valid then Some(k)
    else NearestBelow(s, k - 1)
  }

  /** The lowest valid slot at or above `k`. */
  function NearestAbove<T>(s: seq<Slot<T>>, k: int): (r: Option<int>)
    requires 0 <= k
    ensures r.Some? ==> k <= r.value < |s| && s[r.value].valid
    ensures r.Some? ==> forall i :: k <= i < r.value ==> !s[i].valid
    ensures r.None? ==> forall i :: k <= i < |s| ==> !s[i].valid
    decreases |s| - k
  {
    if k >= |s| then None
    else if s[k].valid then Some(k)
    else NearestAbove(s, k + 1)
  }

  /** The floor side of a search state tells the truth about the slot it
      points at. */
  ghost predicate FloorScan<T>(s: seq<Slot<T>>, w: Search<T>)
    requires WalkReady(s, w)
  {
    && (w.flinvalid ==> w.flvalid && w.floort == 0 && !s[0].valid)
    && (!w.flinvalid ==> w.flvalid == s[w.floort].valid && w.flval == s[w.floort].val)
  }

  ghost predicate CeilScan<T>(s: seq<Slot<T>>, w: Search<T>)
    requires WalkReady(s, w)
  {
    && (w.clinvalid ==> w.clvalid && w.ceilt == |s| - 1 && !s[|s| - 1].valid)
    && (!w.clinvalid ==> w.clvalid == s[w.ceilt].valid && w.clval == s[w.ceilt].val)
  }

  /** Where the floor side of a finished search stands: on the nearest
      valid slot at or below `k`, or exhausted when there is none. */
  ghost predicate FloorFound<T>(s: seq<Slot<T>>, k: int, r: Search<T>)
    requires k < |s|
  {
    match NearestBelow(s, k)
    case None => r.flinvalid
    case Some(j) => !r.flinvalid && r.floort == j && r.flval == s[j].val
  }

  ghost predicate CeilFound<T>(s: seq<Slot<T>>, k: int, r: Search<T>)
    requires 0 <= k
  {
    match NearestAbove(s, k)
    case None => r.clinvalid
    case Some(j) => !r.clinvalid && r.ceilt == j && r.clval == s[j].val
  }

  /** One floor step keeps the scan truthful and the nearest valid slot
      below the cursor, and leaves the ceiling side alone; it fails exactly
      on an invalid slot 0. */
  lemma FloorStepNearest<T>(s: seq<Slot<T>>, w: Search<T>)
    requires WalkReady(s, w) && FloorScan(s, w)
    ensures FloorStep(s, w).None? <==> !w.flvalid && w.floort == 0
    ensures FloorStep(s, w).Some? ==> var w1 := FloorStep(s, w).value;
      && WalkReady(s, w1) && FloorScan(s, w1)
      && NearestBelow(s, w1.floort) == NearestBelow(s, w.floort)
      && w1.ceilt == w.ceilt && w1.clvalid == w.clvalid && w1.clval == w.clval && w1.clinvalid == w.clinvalid
      && (w.flvalid ==> w1 == w) && (!w.flvalid ==> w1.floort == w.floort - 1)
  {
  }

  lemma CeilStepNearest<T>(s: seq<Slot<T>>, w: Search<T>)
    requires WalkReady(s, w) && CeilScan(s, w)
    ensures CeilStep(s, w).None? <==> !w.clvalid && w.ceilt == |s| - 1
    ensures CeilStep(s, w).Some? ==> var w1 := CeilStep(s, w).value;
      && WalkReady(s, w1) && CeilScan(s, w1)
      && NearestAbove(s, w1.ceilt) == NearestAbove(s, w.ceilt)
      && w1.floort == w.floort && w1.flvalid == w.flvalid && w1.flval == w.flval && w1.flinvalid == w.flinvalid
      && (w.clvalid ==> w1 == w) && (!w.clvalid ==> w1.ceilt == w.ceilt + 1)
  {
  }

  /** The search loop finds the nearest valid slot on each side, and an
      invalid start at either end of the array steps outside it. */
  lemma {:induction false} WalkNearest<T>(s: seq<Slot<T>>, w: Search<T>)
    requires WalkReady(s, w) && FloorScan(s, w) && CeilScan(s, w)
    ensures Walk(s, w).Throws? <==> (!w.flvalid && w.floort == 0) || (!w.clvalid && w.ceilt == |s| - 1)
    ensures Walk(s, w).Returns? ==> FloorFound(s, w.floort, Walk(s, w).value) && CeilFound(s, w.ceilt, Walk(s, w).value)
    decreases WalkMeasure(|s|, w)
  {
    if w.flvalid && w.clvalid {
    } else {
      FloorStepNearest(s, w);
      if FloorStep(s, w).Some? {
        CeilStepNearest(s, FloorStep(s, w).value);
      }
      match FloorStep(s, w)
      case None =>
      case Some(w1) =>
        match CeilStep(s, w1)
        case None =>
        case Some(w2) =>
          WalkNearest(s, w2);
    }
  }

  // ------------------------------------------------ Reading, as written

  /** The getter as its search is evidently meant to work: the nearest
      valid sample at or below the read position and the nearest at or
      above it are blended, and a side that finds none gives way to the
      other.  Unlike the source, an invalid slot at an end of the array is
      where that side's search stops, not a step outside the array. */
  function NearestRead<T>(st: TapeState<T>, time: real): (r: Outcome<T>)
    ensures Inv(st) ==> r.Returns?
  {
    if st.Empty then Returns(st.Default)
    else if st.onlyOne then
      if 0 <= st.onlyIndex < |st.samples| then Returns(st.samples[st.onlyIndex].val) else Throws(IndexOutOfRange)
    else
      var s, a := st.samples, AbsTime(st, time);
      var f, c := Floor(a), Ceiling(a);
      if !(0 <= f < |s|) || !(0 <= c < |s|) then Throws(IndexOutOfRange)
      else if f == c && s[f].valid then Returns(s[f].val)
      else
        match (NearestBelow(s, f), NearestAbove(s, c))
        case (None, None) => Returns(st.Default)
        case (None, Some(j)) => Returns(s[j].val)
        case (Some(i), None) => Returns(s[i].val)
        case (Some(i), Some(j)) => Returns(Blended(st.Interpolator, s[i].val, s[j].val, Map(a, i as real, j as real, 0.0, 1.0, MapMode.Clamp)))
  }

  /** When the getter steps outside the array: a search starts on an
      invalid first or last slot. */
  predicate EdgeCrash<T>(st: TapeState<T>, time: real)
  {
    && !st.Empty && !st.onlyOne
    && var s, a := st.samples, AbsTime(st, time);
       var f, c := Floor(a), Ceiling(a);
       && 0 <= f < |s| && 0 <= c < |s| && !(f == c && s[f].valid)
       && ((f == 0 && !s[0].valid) || (c == |s| - 1 && !s[|s| - 1].valid))
  }

  /** The getter returns what the nearest-sample read promises, except
      that it throws IndexOutOfRange whenever its search starts on an
      invalid end slot. */
  lemma ReadMatchesNearest<T>(st: TapeState<T>, time: real)
    ensures Read(st, time).0 == if EdgeCrash(st, time) then Throws(IndexOutOfRange) else NearestRead(st, time)
  {
    if !st.Empty && !st.onlyOne {
      var s, a := st.samples, AbsTime(st, time);
      var f, c := Floor(a), Ceiling(a);
      Neighbours(a);
      if 0 <= f < |s| && 0 <= c < |s| && !(f == c && s[f].valid) {
        var start := Search(f, s[f].valid, s[f].val, false, c, s[c].valid, s[c].val, false);
        WalkNearest(s, start);
      }
    }
  }

  /** In the setting the invariant describes, a crash is the only way the
      getter fails, and it is a real one: the nearest-sample read returns. */
  lemma ReadThrowsOnlyAtEdges<T>(st: TapeState<T>, time: real)
    requires Inv(st)
    ensures Read(st, time).0.Throws? <==> EdgeCrash(st, time)
    ensures !EdgeCrash(st, time) ==> Read(st, time).0 == NearestRead(st, time)
  {
    ReadMatchesNearest(st, time);
  }

  /** A read exactly on a valid slot of a tape with several samples
      returns that slot's value and changes nothing. */
  lemma ReadAtSample<T>(st: TapeState<T>, time: real, k: int)
    requires !st.Empty && !st.onlyOne
    requires 0 <= k < |st.samples| && st.samples[k].valid && AbsTime(st, time) == k as real
    ensures Read(st, time) == (Returns(st.samples[k].val), st)
  {
    assert Floor(k as real) == k && Ceiling(k as real) == k;
  }

  /** A read changes nothing but the samples and the Empty flag: the
      interpolator, copier, default, resolution and OnlyOneEntry stay. */
  lemma ReadKeepsSettings<T>(st: TapeState<T>, time: real)
    ensures var st2 := Read(st, time).1;
      st2 == st.(samples := st2.samples, Empty := st2.Empty)
  {
  }

  /** The slot a read at `time` caches into. */
  function CacheSlot<T>(st: TapeState<T>, time: real): int
  {
    RoundHalfEven(AbsTime(st, time))
  }

  /** A read keeps the invariant and changes at most one thing: the value
      it returned is cached, as a valid sample, in the slot nearest the
      read position. It never sets Empty on a tape that has samples. */
  lemma ReadCaches<T>(st: TapeState<T>, time: real)
    requires Inv(st)
    ensures Inv(Read(st, time).1)
    ensures var (o, st2) := Read(st, time);
      || st2 == st
      || (o.Returns? && !st.Empty && !st.onlyOne && 0 <= CacheSlot(st, time) < |st.samples| &&
          st2 == st.(samples := st.samples[CacheSlot(st, time) := Slot(true, o.value)]))
  {
    if !st.Empty && !st.onlyOne {
      BlendReadCaches(st, time);
      var (o, st2) := BlendRead(st, time);
      if st2 != st {
        CachedInv(st, CacheSlot(st, time), o.value);
      }
    }
  }

  /** The caching part of ReadCaches on a tape with several samples. */
  lemma BlendReadCaches<T>(st: TapeState<T>, time: real)
    requires Inv(st) && !st.Empty && !st.onlyOne
    ensures var (o, st2) := BlendRead(st, time);
      || st2 == st
      || (o.Returns? && 0 <= CacheSlot(st, time) < |st.samples| &&
          st2 == st.(samples := st.samples[CacheSlot(st, time) := Slot(true, o.value)]))
  {
    var s, a := st.samples, AbsTime(st, time);
    var f, c := Floor(a), Ceiling(a);
    Neighbours(a);
    if 0 <= f < |s| && 0 <= c < |s| && !(f == c && s[f].valid) {
      var start := Search(f, s[f].valid, s[f].val, false, c, s[c].valid, s[c].val, false);
      WalkNearest(s, start);
      if Walk(s, start).Returns? {
        var w := Walk(s, start).value;
        if w.flinvalid && w.clinvalid {
          assert false;
        }
      }
    }
  }

  /** Caching a value in any slot of a tape with several samples keeps
      the invariant. */
  lemma CachedInv<T>(st: TapeState<T>, k: int, v: T)
    requires Inv(st) && !st.Empty && !st.onlyOne && 0 <= k < |st.samples|
    ensures Inv(st.(samples := st.samples[k := Slot(true, v)]))
  {
    var s := st.samples;
    var s2 := s[k := Slot(true, v)];
    var i, j :| 0 <= i < j < |s| && s[i].valid && s[j].valid;
    assert s2[i].valid && s2[j].valid;
  }

  /** The double interpolator, at a weight in [0, 1], stays between its ends. */
  lemma LerpBetween(f: Interp<real>, x: real, y: real, p: real, lo: real, hi: real)
    requires forall a, b, q :: f(a, b, q) == a * (1.0 - q) + b * q
    requires 0.0 <= p <= 1.0 && lo <= x <= hi && lo <= y <= hi
    ensures lo <= f(x, y, p) <= hi
  {
    assert f(x, y, p) == x + p * (y - x);
    LerpWithin(x, y, p);
  }

  /** With the double interpolator a read never leaves the range of the
      samples written: both the nearest-sample read and the getter, when
      it returns. */
  lemma LerpReadWithinSamples(st: TapeState<real>, time: real, lo: real, hi: real)
    requires Inv(st) && !st.Empty
    requires st.Interpolator.Some? && forall a, b, p :: st.Interpolator.value(a, b, p) == a * (1.0 - p) + b * p
    requires forall k :: 0 <= k < |st.samples| && st.samples[k].valid ==> lo <= st.samples[k].val <= hi
    ensures lo <= NearestRead(st, time).value <= hi
    ensures Read(st, time).0.Returns? ==> lo <= Read(st, time).0.value <= hi
  {
    ReadThrowsOnlyAtEdges(st, time);
    if !st.onlyOne {
      var s, a := st.samples, AbsTime(st, time);
      var f, c := Floor(a), Ceiling(a);
      if 0 <= f < |s| && 0 <= c < |s| && !(f == c && s[f].valid) {
        match (NearestBelow(s, f), NearestAbove(s, c))
        case (Some(i), Some(j)) =>
          var p := Map(a, i as real, j as real, 0.0, 1.0, MapMode.Clamp);
          LerpBetween(st.Interpolator.value, s[i].val, s[j].val, p, lo, hi);
        case _ =>
      }
    }
  }

  /** A tape of four slots with samples 7 at time 1 and 9 at time 2. */
  function CrashTape(): (st: TapeState<int>)
    ensures st.samples == [Slot(false, 0), Slot(true, 7), Slot(true, 9), Slot(false, 0)]
    ensures !st.Empty && !st.onlyOne && st.Resolution == 1 && Inv(st)
  {
    var st0 := Fresh(4, 1, None, 0, None, false, 0);
    var st1 := Written(st0, 1.0, 7, None);
    FreshInv(4, 1, None, 0, None, false, 0, 0.0);
    WrittenInv(st0, 1.0, 7, None);
    WrittenInv(st1, 2.0, 9, None);
    assert RoundHalfEven(1.0) == 1 && RoundHalfEven(2.0) == 2;
    Written(st1, 2.0, 9, None)
  }

  /** On the crash tape reading at time 0 or at time 3 steps outside the
      array, where the nearest-sample read returns the first or the last
      sample. */
  lemma ReadCrashExample()
    ensures Read(CrashTape(), 0.0).0 == Throws(IndexOutOfRange) && NearestRead(CrashTape(), 0.0) == Returns(7)
    ensures Read(CrashTape(), 3.0).0 == Throws(IndexOutOfRange) && NearestRead(CrashTape(), 3.0) == Returns(9)
  {
    var st := CrashTape();
    assert AbsTime(st, 0.0) == 0.0 && Floor(0.0) == 0 && Ceiling(0.0) == 0;
    assert AbsTime(st, 3.0) == 3.0 && Floor(3.0) == 3 && Ceiling(3.0) == 3;
    ReadMatchesNearest(st, 0.0);
    ReadMatchesNearest(st, 3.0);
    assert NearestAbove(st.samples, 0) == Some(1);
    assert NearestBelow(st.samples, 3) == Some(2);
  }

  /** Samples 0 at time 0 and 4 at time 4 on a five-slot tape with the
      double interpolator. */
  function LineTape(): (st: TapeState<real>)
    ensures st.samples == [Slot(true, 0.0), Slot(false, 0.0), Slot(false, 0.0), Slot(false, 0.0), Slot(true, 4.0)]
    ensures !st.Empty && !st.onlyOne && st.Resolution == 1 && st.Interpolator == LerpMeta().Interpolator
  {
    var st0 := Fresh(5, 1, LerpMeta().Interpolator, 0.0, None, false, 0.0);
    assert RoundHalfEven(0.0) == 0 && RoundHalfEven(4.0) == 4;
    Written(Written(st0, 0.0, 0.0, None), 4.0, 4.0, None)
  }

  /** On the line tape time 1 reads 1. */
  lemma LineTapeReadsLine()
    ensures Read(LineTape(), 1.0).0 == Returns(1.0)
  {
    var st := LineTape();
    var s := st.samples;
    assert AbsTime(st, 1.0) == 1.0 && Floor(1.0) == 1 && Ceiling(1.0) == 1;
    assert !EdgeCrash(st, 1.0);
    assert NearestBelow(s, 1) == Some(0) && NearestAbove(s, 1) == Some(4);
    var p := Map(1.0, 0.0, 4.0, 0.0, 1.0, MapMode.Clamp);
    assert p == 0.25;
    assert NearestRead(st, 1.0) == Returns(Blended(st.Interpolator, 0.0, 4.0, p));
    assert Blended(st.Interpolator, 0.0, 4.0, p) == 1.0;
    ReadMatchesNearest(st, 1.0);
  }

  /** Reading time 1.4 returns 1.4 and caches it in slot 1. */
  lemma LineTapeCaches()
    ensures Read(LineTape(), 1.4) == (Returns(1.4), LineTape().(samples := LineTape().samples[1 := Slot(true, 1.4)]))
  {
    var st := LineTape();
    var s := st.samples;
    assert AbsTime(st, 1.4) == 1.4 && Floor(1.4) == 1 && Ceiling(1.4) == 2 && RoundHalfEven(1.4) == 1;
    var w0 := Search(1, false, 0.0, false, 2, false, 0.0, false);
    var w1 := Search(0, true, 0.0, false, 3, false, 0.0, false);
    var w2 := Search(0, true, 0.0, false, 4, true, 4.0, false);
    assert FloorStep(s, w0) == Some(w0.(floort := 0, flvalid := true, flval := 0.0));
    assert Walk(s, w0) == Walk(s, w1);
    assert Walk(s, w1) == Walk(s, w2);
    assert Map(1.4, 0.0, 4.0, 0.0, 1.0, MapMode.Clamp) == 0.35;
  }

  /** A read can change what a later read at another time returns: on the
      line tape time 1 reads 1 until a read at time 1.4 caches 1.4 in
      slot 1; from then on time 1 reads 1.4. */
  lemma ReadChangesOtherTimes()
    ensures Read(LineTape(), 1.0).0 == Returns(1.0)
    ensures Read(Read(LineTape(), 1.4).1, 1.0).0 == Returns(1.4)
  {
    LineTapeReadsLine();
    LineTapeCaches();
    var st := LineTape();
    var st2 := st.(samples := st.samples[1 := Slot(true, 1.4)]);
    assert AbsTime(st2, 1.0) == 1.0;
    ReadAtSample(st2, 1.0, 1);
  }

  /** At a whole slot position a repeated read returns what the first one
      did: the cached value lands on the very slot the second read hits. */
  lemma RereadAtSlot<T>(st: TapeState<T>, time: real)
    requires Inv(st)
    requires Floor(AbsTime(st, time)) as real == AbsTime(st, time)
    ensures Read(Read(st, time).1, time).0 == Read(st, time).0
  {
    if !st.Empty && !st.onlyOne {
      BlendReadCaches(st, time);
      var (o, st2) := BlendRead(st, time);
      if st2 != st {
        var a, k := AbsTime(st, time), CacheSlot(st, time);
        assert k as real == a by { Neighbours(a); }
        assert AbsTime(st2, time) == a;
        ReadAtSample(st2, time, k);
      }
    }
  }

  /** Off a whole slot position a repeated read can differ: on the line
      tape the second read at time 1.4 blends the cached 1.4 in slot 1 with
      the sample in slot 4. */
  lemma RereadBetweenSlots()
    ensures Read(LineTape(), 1.4).0 == Returns(1.4)
    ensures Read(Read(LineTape(), 1.4).1, 1.4).0 == Returns(1.4 * (1.0 - 2.0 / 15.0) + 4.0 * (2.0 / 15.0))
  {
    LineTapeCaches();
    var st2 := Read(LineTape(), 1.4).1;
    var s := st2.samples;
    assert s == [Slot(true, 0.0), Slot(true, 1.4), Slot(false, 0.0), Slot(false, 0.0), Slot(true, 4.0)];
    assert AbsTime(st2, 1.4) == 1.4 && Floor(1.4) == 1 && Ceiling(1.4) == 2;
    assert NearestBelow(s, 1) == Some(1) && NearestAbove(s, 2) == Some(4);
    assert Map(1.4, 1.0, 4.0, 0.0, 1.0, MapMode.Clamp) == 2.0 / 15.0;
    ReadMatchesNearest(st2, 1.4);
  }

  /** Without an interpolator a read halfway between two adjacent samples
      returns the earlier one: only a blend above 0.5 picks the later. */
  lemma HalfwayTieGoesToFloor<T>(st: TapeState<T>, time: real, i: int)
    requires !st.Empty && !st.onlyOne && st.Interpolator.None?
    requires 0 <= i && i + 1 < |st.samples| && st.samples[i].valid && st.samples[i + 1].valid
    requires AbsTime(st, time) == i as real + 0.5
    ensures Read(st, time) == (Returns(st.samples[i].val), st)
  {
    var a := AbsTime(st, time);
    assert Floor(a) == i && Ceiling(a) == i + 1;
    assert Map(a, i as real, (i + 1) as real, 0.0, 1.0, MapMode.Clamp) == 0.5;
    var w := Search(i, true, st.samples[i].val, false, i + 1, true, st.samples[i + 1].val, false);
    assert Walk(st.samples, w) == Returns(w);
  }
}
