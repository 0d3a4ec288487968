# Unimpressive.Core in Dafny

A Dafny model of the core of Unimpressive.Core, a C# utility library for
creative-coding hosts, with proofs about the model. The model covers:

- **the sample tape** `Tape<T>` and its metadata registry `TapeUtils`.
  The tape is a fixed array of `(valid, value)` slots addressed by time. A
  write goes to the nearest slot. A read blends the nearest valid neighbours
  and caches its result.
- **the delay line** `Delay<T>`. It is a time-ordered list of submissions.
  Old entries are evicted from the front. A read reports the value a given
  delay ago, found by a bracketing search.
- **the looper**. `Sequencer<T>` records a clip onto a tape against a clock
  and plays it back wrapped, ping-ponged or cross-faded.
  `StatefulSequencer<T>` drives it with an edge-triggered per-frame state
  machine.
- **the scalar helpers** of `UnMath` that the above rely on: `Zmod`,
  `Clamp`, `Frac`, `Fmod`, `Lerp`, `Ratio`/`Map` with their four modes, and
  `Factorial`.
- **the smaller helpers**:
  - bit packing of 32-bit words (`BitUtils`);
  - dictionary, set and list helpers (`Collections`);
  - a block-preserving split, line lookup and batch editing of strings
    (`StringExtensions`);
  - path slash normalisation (`FileSystem`);
  - hash-keyed change counters (`Objects`);
  - box tests (`Intersections`);
  - the trigger list of a seekable stopwatch (`StopwatchInteractive`).

There is one Dafny module per C# file:

| Module | C# file |
|---|---|
| `Tapes` | Tape.cs |
| `Delays` | Delay.cs |
| `Sequencers` | Sequencer.cs |
| `UnMath` | UnMath.cs |
| `BitUtils` | BitUtils.cs |
| `Collections` | Collections.cs |
| `Strings` | StringExtensions.cs |
| `FileSystem` | FileSystem.cs |
| `Objects` | Objects.cs |
| `Intersections` | Intersections.cs |
| `Stopwatch` | StopwatchInteractive.cs |

Two more modules are shared by all the others:

- `Wrappers` holds `Option` and `Outcome`. An `Outcome` is a return, a
  thrown .NET exception, or a call that never finishes.
- `DotNet` holds the .NET numeric primitives: banker's rounding,
  truncating casts, the truncating `%`, and 32-bit wrap-around.

Classes the source updates in place are Dafny classes: a tape over an
`array`, the delay line, both sequencers, the change table, the
stopwatch, and the `Dictionary`, `HashSet` and `List` that the collection
extensions update. `BitUtils.Split` fills a new `array`, and
`Collections.Fill` writes into an existing one. Each of their methods is specified by a pure function of the old
state, and the properties are lemmas about those functions.

The model follows these conventions:

- Times, ratios and coordinates are `real`.
- Interpolators and copiers are function values. A null delegate is `None`.
- A `while (true)` loop that can revisit a state is modelled exactly. A call
  whose loop comes back to a state it already held is `Diverges`.

With no interpolator, a tape read exactly halfway between two samples
returns the *earlier* sample, not the nearer-by-rounding later one, because
the getter picks the later sample only when `blend > 0.5`. The model follows
the code there.

## Model

| member | source | states |
|---|---|---|
| Tapes.StaticTable | Unimpressive.Core/Tape.cs:117-133 | The static table registers exactly the thirteen built-in types. Only the entry of T's own type is seen as a `TapeTypeMeta<T>`. |
| Tapes.LerpMeta | Unimpressive.Core/Tape.cs:119-120 | The double entry blends `a*(1-p)+b*p`, returning `a` at 0 and `b` at 1. Its default is 0 and it has no copier. |
| Tapes.StepMeta | Unimpressive.Core/Tape.cs:122-126 | The bool and integer entries return the later value exactly when `p > 0.5`. |
| Tapes.TapeUtils.constructor | Unimpressive.Core/Tape.cs:117-133 | The registry starts as the static table. |
| Tapes.TapeUtils.AddMeta | Unimpressive.Core/Tape.cs:100-115 | When typeof(T) is absent it is inserted with the new entry, which is returned. When it is present the result is null and the table is unchanged. |
| Tapes.Tape.constructor | Unimpressive.Core/Tape.cs:214-223 | The explicit constructor gives a new array of `(int)(maxTime*resolution)+1` invalid slots, `Empty` set and `OnlyOneEntry = (false, 0)`. |
| Tapes.NewFromRegistry | Unimpressive.Core/Tape.cs:182-204 | The registry constructor throws TypeNotFoundInStaticTable exactly when typeof(T) is registered with metadata of another type. Otherwise it adopts the entry for typeof(T), or it leaves the interpolator null and records the IBlendable flag. |
| Tapes.WriteSlot | Unimpressive.Core/Tape.cs:332-334 | A write has a slot iff the rounded position lies in [0, Length]. The slot is that position, or the last slot when the position equals Length. |
| Tapes.Tape.Set | Unimpressive.Core/Tape.cs:321-345 | The setter updates the array in place to the `Written` state. |
| Tapes.Tape.Place | Unimpressive.Core/Tape.cs:336-344 | Writing a slot in range stores the copied value there and updates the single-entry and empty flags, as `Placed` says; the array object is the same. |
| Tapes.WrittenInv | Unimpressive.Core/Tape.cs:336-344 | The setter keeps the flag invariant and the array length. `Empty` holds iff no slot is valid. `OnlyOneEntry.onlyOne` holds iff exactly one slot is valid, and that slot is `index`. |
| Tapes.WriteReadBack | Unimpressive.Core/Tape.cs:257-262 | After a write at a time whose position is a whole slot, a read there returns the stored value (copied when there is a copier). |
| Tapes.FirstSampleEverywhere | Unimpressive.Core/Tape.cs:250 | The first sample written to an empty tape sets `onlyOne`. It is then returned at every time, with nothing changed. |
| Tapes.FreshInv | Unimpressive.Core/Tape.cs:185-188 | A new tape satisfies the invariant and returns `Default` at every time. |
| Tapes.Tape.Clear | Unimpressive.Core/Tape.cs:353-369 | `noGc` resets the same array in place, otherwise a new array is made. Either way the state becomes `Cleared`. |
| Tapes.ClearedInv | Unimpressive.Core/Tape.cs:353-369 | A cleared tape keeps its length, satisfies the invariant, and returns `Default` at every time with nothing changed. |
| Tapes.ResetSlots | Unimpressive.Core/Tape.cs:357-360 | The in-place sweep makes every slot `(false, default)`. |
| Tapes.Walk | Unimpressive.Core/Tape.cs:269-292 | The search loop never runs forever. When it returns, both cursors stand on a valid slot or on an exhausted end. |
| Tapes.FindNeighbours | Unimpressive.Core/Tape.cs:269-292 | The loop over the array computes `Walk`. |
| Tapes.FloorStepNearest | Unimpressive.Core/Tape.cs:272-281 | A floor step fails exactly when the cursor is on an invalid slot 0. Otherwise it moves toward the nearest valid slot below. |
| Tapes.CeilStepNearest | Unimpressive.Core/Tape.cs:282-291 | A ceiling step fails exactly when the cursor is on an invalid last slot. Otherwise it moves toward the nearest valid slot above. |
| Tapes.WalkNearest | Unimpressive.Core/Tape.cs:269-292 | The search throws exactly when it starts on an invalid end slot. Otherwise it finds the nearest valid slot on each side, or marks that side exhausted. |
| Tapes.Neighbours | Unimpressive.Core/Tape.cs:252-255 | The rounded slot lies between floor and ceiling. These differ by at most one, and are equal exactly at a whole position. |
| Tapes.Tape.Get | Unimpressive.Core/Tape.cs:247-320 | The getter returns the `Read` result and leaves the `Read` state in the same array. |
| Tapes.Tape.ReadBlended | Unimpressive.Core/Tape.cs:252-319 | On a tape with two or more entries, the getter past the early returns yields the `BlendRead` result and state. |
| Tapes.Tape.Finish | Unimpressive.Core/Tape.cs:294-319 | After the neighbour search, the result and the cached slot are those of `Settle`: empty when both ends are missing, the one found neighbour, or the blend. |
| Tapes.StepFloor | Unimpressive.Core/Tape.cs:272-281 | One downward step of the search gives `FloorStep`, or nothing when the index leaves the array. |
| Tapes.StepCeil | Unimpressive.Core/Tape.cs:282-291 | One upward step of the search gives `CeilStep`, or nothing when the index leaves the array. |
| Tapes.NearestRead | Unimpressive.Core/Tape.cs:249-319 | This is the read the search is meant to perform. It blends the nearest valid samples below and above, using one side alone when the other has none. It always returns under the invariant. |
| Tapes.ReadMatchesNearest | Unimpressive.Core/Tape.cs:269-319 | On every tape and time the getter equals the nearest-sample read, except for the edge crash, where it throws IndexOutOfRange. |
| Tapes.ReadThrowsOnlyAtEdges | Unimpressive.Core/Tape.cs:269-298 | Under the invariant the getter throws iff its search starts on an invalid first or last slot. Otherwise it is the nearest-sample read. |
| Tapes.ReadCaches | Unimpressive.Core/Tape.cs:294-317 | A read keeps the invariant. It either changes nothing or caches the returned value as a valid slot at the rounded position. It never sets `Empty` on a tape with samples, so the both-exhausted branch is unreachable. |
| Tapes.LerpBetween | Unimpressive.Core/Tape.cs:120 | The double interpolator at a weight in [0, 1] stays between its end values. |
| Tapes.LerpReadWithinSamples | Unimpressive.Core/Tape.cs:311-314 | With the double interpolator each read lies within the range of the stored samples. The blend weight is a clamped ratio. |
| Tapes.HalfwayTieGoesToFloor | Unimpressive.Core/Tape.cs:311-313 | With no interpolator, a read halfway between two adjacent samples returns the floor one and changes nothing. |
| Tapes.RereadAtSlot | Unimpressive.Core/Tape.cs:237-243 | At a whole slot position, a second read returns what the first one did. |
| Tapes.RereadBetweenSlots | Unimpressive.Core/Tape.cs:316-317 | Off a whole slot position, a repeated read differs: 1.4 and then 1.4·(13/15)+4·(2/15). |
| Tapes.LineTape | Unimpressive.Core/Tape.cs:119-120 | This is a five-slot double tape with samples 0 at slot 0 and 4 at slot 4. |
| Tapes.LineTapeReadsLine | Unimpressive.Core/Tape.cs:311-319 | Example on one concrete tape. Halfway points blend linearly: time 1 reads 1. |
| Tapes.LineTapeCaches | Unimpressive.Core/Tape.cs:316-317 | Example on one concrete tape. A read at 1.4 returns 1.4 and writes it into slot 1. |
| Tapes.ReadChangesOtherTimes | Unimpressive.Core/Tape.cs:316-317 | The cache changes later reads at other times: time 1 reads 1.4 after a read at 1.4. |
| Tapes.ReadCrashExample | Unimpressive.Core/Tape.cs:274-285 | With samples at slots 1 and 2 of four, reads at 0 and 3 throw IndexOutOfRange, while the nearest-sample read gives 7 and 9. |
| Tapes.NearestBelow | Unimpressive.Core/Tape.cs:272-281 | Gives the highest valid slot at or below `k`, or none. |
| Tapes.NearestAbove | Unimpressive.Core/Tape.cs:282-291 | Gives the lowest valid slot at or above `k`, or none. |
| Delays.Delay.constructor | Unimpressive.Core/Delay.cs:87-94 | The explicit constructor stores the capacity, interpolator, default and copier. It starts with no samples and `Iterations` at 0. |
| Delays.NewDelayFromRegistry | Unimpressive.Core/Delay.cs:56-78 | The registry constructor throws TypeNotFoundInStaticTable unless typeof(T) has its own entry registered, and in that case adopts it. |
| Delays.DropAged | Unimpressive.Core/Delay.cs:199-208 | Eviction removes a leading run of samples, each at least `Capacity` old, and stops at one that is younger. |
| Delays.DropAgedSuffix | Unimpressive.Core/Delay.cs:205 | Eviction keeps a suffix of the list. |
| Delays.DropAgedAllYoung | Unimpressive.Core/Delay.cs:199-208 | On time-ordered samples, every kept sample is younger than `Capacity` and the order is kept. |
| Delays.AppendSorted | Unimpressive.Core/Delay.cs:210 | Appending at a clock reading no earlier than the newest sample keeps the keys in order. |
| Delays.Delay.Submit | Unimpressive.Core/Delay.cs:197-211 | The list becomes the evicted list plus `(now, Copier?(val))`, and the keys stay in clock order. The settings and `Iterations` are unchanged. |
| Delays.Evict | Unimpressive.Core/Delay.cs:199-208 | The eviction loop leaves exactly the samples `DropAged` keeps: the suffix after the leading ones at least `Capacity` old. |
| Delays.Interpolated | Unimpressive.Core/Delay.cs:129-135 | The local Interpolate uses weight `(target-older)/(newer-older)`. A null interpolator throws NullReference. Equal keys give the fault NotANumber. |
| Delays.DelayedAt | Unimpressive.Core/Delay.cs:126-168 | An empty list gives `Default` with unavailable. `unavailable` holds iff the delay is longer than the elapsed time or the target precedes the first sample, and then the first frame is returned. A zero or negative delay gives the last frame, and one sample gives itself. The search runs only with three or more samples. |
| Delays.TwoSamplesUnbracketed | Unimpressive.Core/Delay.cs:142 | Two samples blend without a bracket check: weight 1.5 past the newer sample, and the NaN weight 0/0 for a target at two equal arrival times. |
| Delays.NextCursorProgress | Unimpressive.Core/Delay.cs:157-167 | A round that moves the cursors keeps the loop invariant and shrinks the search measure. |
| Delays.Bracket | Unimpressive.Core/Delay.cs:148-168 | When the loop returns index `i`, `ps.Key < target < cs.Key`. Its only exception is the List indexer's ArgumentOutOfRange. |
| Delays.BracketIsNoKey | Unimpressive.Core/Delay.cs:153 | A bracketed target is not the arrival time of any sample. |
| Delays.BracketNotAfterLast | Unimpressive.Core/Delay.cs:148-168 | For a target not after the newest sample, the loop returns, or spins on an arrival time. |
| Delays.BracketAfterLast | Unimpressive.Core/Delay.cs:157-161 | For a target after the newest sample, `i` is driven to `Count` and the indexer throws. |
| Delays.BracketOutcome | Unimpressive.Core/Delay.cs:144-168 | For all targets from the first arrival on: the loop returns iff the target is before the newest sample and is no arrival time; it throws iff the target is after the newest sample; it spins iff the target is an arrival time. |
| Delays.BracketStep | Unimpressive.Core/Delay.cs:157-167 | One round of cursor moves leaves the outcome of the search unchanged. |
| Delays.MoveCursors | Unimpressive.Core/Delay.cs:157-167 | Moves up past a sample older than the target, then down past a newer one. |
| Delays.RunBracket | Unimpressive.Core/Delay.cs:144-168 | The loop computes `Bracket` and counts its rounds. A loop that recurs to a state it already held is reported as spinning. |
| Delays.Delay.SearchBracket | Unimpressive.Core/Delay.cs:147-168 | The search over the list leaves `Iterations` at the number of rounds. |
| Delays.Delay.GetAt | Unimpressive.Core/Delay.cs:126-191 | The value and `unavailable` are those of `DelayedAt`. `Iterations` holds the search's round count. Nothing else changes. |
| Delays.Delay.GetSearched | Unimpressive.Core/Delay.cs:144-191 | With three or more samples and a target inside the list, the bracketing loop gives the `DelayedAt` value and round count. Nothing else changes. |
| Delays.Delay.Update | Unimpressive.Core/Delay.cs:103-118 | Performs `Submit` and then `GetAt` at the same clock reading: the samples, the reading and `Iterations` are those of `DelayedAt` on the new samples. |
| Delays.FirstAfter | Unimpressive.Core/Delay.cs:153-156 | Gives the first sample from `k` on that arrived after `t`. The model's intended reading uses it to choose the pair to blend. |
| Delays.FirstAfterBracket | Unimpressive.Core/Delay.cs:153-156 | The first sample after a bracketed target is the bracket's upper end. |
| Delays.IntendedAt | Unimpressive.Core/Delay.cs:136-167 | This is the model's own reading of GetAt with a search that always ends. A target at or past the newest sample gives the newest frame. Any other target blends the first sample after it with the one before, so an arrival time blends with weight 0. The commented-out scan differs at arrival times (see `ScanAtArrival`). With an interpolator and at least three samples it always returns. |
| Delays.IntendedAgrees | Unimpressive.Core/Delay.cs:126-168 | Wherever the written search returns a value, it is the intended one. |
| Delays.DelayedAtSearch | Unimpressive.Core/Delay.cs:144-168 | With three or more samples, past the newest sample the read throws, at an arrival time it never returns, and otherwise it is the intended read. |
| Delays.ScanFrom | Unimpressive.Core/Delay.cs:171-180 | The commented-out scan, going down from pair `i`, finds a pair that brackets `t` strictly, or none when no pair in range does. |
| Delays.ScannedAt | Unimpressive.Core/Delay.cs:136-181 | GetAt with the commented-out scan in place of the search. With an interpolator and at least three samples it always returns. |
| Delays.BracketsApart | Unimpressive.Core/Delay.cs:175 | On sorted samples, two different pairs never both bracket a target strictly. |
| Delays.KeyUnbracketed | Unimpressive.Core/Delay.cs:175 | No pair brackets an arrival time strictly. |
| Delays.KeyNotBeforeFirst | Unimpressive.Core/Delay.cs:138 | No arrival time precedes the oldest sample. |
| Delays.ScanAtKey | Unimpressive.Core/Delay.cs:171-181 | At an arrival time the scan finds no pair. |
| Delays.ScanAtBracket | Unimpressive.Core/Delay.cs:171-181 | The scan finds exactly the pair that brackets the target. |
| Delays.ScanMatchesIntended | Unimpressive.Core/Delay.cs:171-181 | The scan gives the intended reading at every target that is no arrival time, and at or past the newest sample. |
| Delays.ScanAtArrival | Unimpressive.Core/Delay.cs:181 | At an arrival time, with three or more samples, the scan gives the newest frame. |
| Delays.ScanAgrees | Unimpressive.Core/Delay.cs:144-181 | Wherever the search as written returns a value, the scan it replaced gives the same reading. |
| Delays.ArrivalTimeSpins | Unimpressive.Core/Delay.cs:153-167 | On samples at 0, 10, 20 and 30 ms, a read 30 ms back at 40 ms spins forever. The intended reading gives the sample at 10 ms. |
| Delays.ArrivalTimeScansNewest | Unimpressive.Core/Delay.cs:171-181 | The same read with the commented-out scan gives the newest frame, 4. |
| Delays.PastNewestThrows | Unimpressive.Core/Delay.cs:151-161 | On the same samples, a read 2 ms back at 35 ms throws. The intended reading and the scan both give the newest frame. |
| Delays.HalfUp | Unimpressive.Core/Delay.cs:160 | `(int)Math.Ceiling(x / 2.0)` on a non-negative whole number `x` is `(x + 1) / 2`. |
| Sequencers.Sequencer.constructor | Unimpressive.Core/Sequencer.cs:34-37 | A new sequencer over a new tape has both clocks and `Duration` at 0. |
| Sequencers.NewSequencer | Unimpressive.Core/Sequencer.cs:34-37 | The constructor throws exactly as the registry tape constructor does. |
| Sequencers.Sequencer.Reset | Unimpressive.Core/Sequencer.cs:42-46 | `Duration` becomes 0 and the tape is cleared into a new array. The clocks are kept. |
| Sequencers.Sequencer.Record | Unimpressive.Core/Sequencer.cs:55-68 | The state becomes `Recorded`: a start restarts both clocks and clears the tape, an offset past `MaxTime` is dropped, and otherwise `Duration` is set and the tape is written at the offset. |
| Sequencers.RecordStartsClip | Unimpressive.Core/Sequencer.cs:57-67 | A start sets both clocks to `time` and `Duration` to 0. It leaves a single sample at offset 0, which the tape returns at every time. |
| Sequencers.RecordDropsLate | Unimpressive.Core/Sequencer.cs:63-64 | An offset beyond `MaxTime` leaves the tape and `Duration` untouched. |
| Sequencers.RecordWithin | Unimpressive.Core/Sequencer.cs:63-67 | Within `MaxTime`, `Duration` becomes the offset, or its rounding to within half a unit, and the tape becomes the tape written at the offset with the input, keeping its invariant. |
| Sequencers.RecordReadsBack | Unimpressive.Core/Sequencer.cs:63-67 | At a whole-slot offset within `MaxTime`, reading the recorded tape at the offset returns the stored (copied) input. |
| Sequencers.Sequencer.Play | Unimpressive.Core/Sequencer.cs:80-122 | The value and the new state are those of `Played`. |
| Sequencers.Sequencer.CrossFade | Unimpressive.Core/Sequencer.cs:97-120 | The overlap branch computes `CrossFaded`. |
| Sequencers.LoopPosition | Unimpressive.Core/Sequencer.cs:87-95 | Without ping-pong, the read position lies in `[0, Duration)` for a positive duration and in `(Duration, 0]` for a negative one. With ping-pong it lies between 0 and `Duration`. Without ping-pong a zero duration gives the NaN, `None`. |
| Sequencers.Wrapped | Unimpressive.Core/Sequencer.cs:88-95 | The same bounds, for an offset that is already shifted by the phase. |
| Sequencers.OverlapPositions | Unimpressive.Core/Sequencer.cs:99-119 | For `0 < overlap <= 1`, `trimmedTime` lies in `[absoverlap, Duration]`, `fadeInTime` in `[0, absoverlap]`, and the weight in [0, 1]. The weight is NaN iff `absoverlap` is 0. |
| Sequencers.OverlapBounds | Unimpressive.Core/Sequencer.cs:99-114 | The same bounds, stated as an implication. |
| Sequencers.OverlapWithin | Unimpressive.Core/Sequencer.cs:99-114 | The same bounds, under the conditions as preconditions. |
| Sequencers.ReadAtNaN | Unimpressive.Core/Sequencer.cs:121 | A tape read at a NaN position reads an empty or single-sample tape as any position does. Any other tape stops with NotANumber and is left unchanged. |
| Sequencers.CrossFadeBlends | Unimpressive.Core/Sequencer.cs:116-119 | When both tape reads return, the result is `Interpolator(tape[trimmed], tape[fade], fade/absoverlap)`, with a weight in [0, 1]. |
| Sequencers.OverlapPlayCrossFades | Unimpressive.Core/Sequencer.cs:87-97 | With an overlap and no ping-pong, a positive-length clip cross-fades at its loop position in `[0, Duration)`. |
| Sequencers.PlayIgnoresStart | Unimpressive.Core/Sequencer.cs:82-87 | `start` changes only `_playbackStartedAt`. The value and the tape are the same either way. |
| Sequencers.CrossFadeIgnoresStart | Unimpressive.Core/Sequencer.cs:97-120 | The cross-fade does not read `_playbackStartedAt`. |
| Sequencers.PlainLoopReads | Unimpressive.Core/Sequencer.cs:87-88 | With no overlap, no ping-pong and a positive `Duration`, a play reads the tape at `Fmod(time - recordStartedAt + Duration*phase, Duration)`. |
| Sequencers.PlainPosition | Unimpressive.Core/Sequencer.cs:87-88 | The plain loop position is that `Fmod`. |
| Sequencers.PlayedAtPlain | Unimpressive.Core/Sequencer.cs:121 | With no overlap, the play is a tape read at the position. |
| Sequencers.WrappedPeriodic | Unimpressive.Core/Sequencer.cs:88-95 | The wrap repeats every `Duration`, and the mirror every `2·Duration`. |
| Sequencers.LoopPositionPeriodic | Unimpressive.Core/Sequencer.cs:87-95 | The loop position repeats every `Duration`, or `2·Duration` with ping-pong. |
| Sequencers.PlayPeriodic | Unimpressive.Core/Sequencer.cs:80-122 | A play returns the same value and state one period later. |
| Sequencers.PlayAfterReset | Unimpressive.Core/Sequencer.cs:42-46 | After `Reset`, a play returns the default. An overlapping play fails on a null interpolator or on the NaN weight 0/0. |
| Sequencers.StatefulSequencer.constructor | Unimpressive.Core/Sequencer.cs:136-138 | All flags start false and `Phase`/`Overlap` at 0. |
| Sequencers.NewStatefulSequencer | Unimpressive.Core/Sequencer.cs:136-138 | Builds the stateful sequencer over a registry tape, throwing as the tape constructor does. |
| Sequencers.StatefulSequencer.Reset | Unimpressive.Core/Sequencer.cs:141-145 | The sequencer's `Reset` runs, then `Recording`, `_prevRecord`, `Playing` and `_prevPlay` become false. |
| Sequencers.StatefulSequencer.Update | Unimpressive.Core/Sequencer.cs:185-208 | The value, sequencer state and flags are those of `Stepped`. |
| Sequencers.StatefulSequencer.UpdateRecording | Unimpressive.Core/Sequencer.cs:187-196 | The recording half of a frame moves the sequencer and flags as `RecordPhase` says. |
| Sequencers.StatefulSequencer.UpdatePlaying | Unimpressive.Core/Sequencer.cs:198-207 | The playing half returns the input, or the playback when playing, as `PlayPhase` says. |
| Sequencers.UpdateWhileRecording | Unimpressive.Core/Sequencer.cs:187-191 | While `Recording`, the input is returned and `Playing` is forced off. The rising edge passes `start` to `Record`, and the other settings are unchanged. |
| Sequencers.UpdatePlays | Unimpressive.Core/Sequencer.cs:192-204 | A falling `Recording` edge with `AutoStart` sets `Playing`. While playing, the result is `Play`, with `start` on the rising `Playing` edge. |
| Sequencers.UpdateIdle | Unimpressive.Core/Sequencer.cs:195-207 | Neither recording nor playing, the input passes through and only the previous-frame flags change. |
| Sequencers.OneFrameClip | Unimpressive.Core/Sequencer.cs:185-208 | With `AutoStart` and no overlap, a frame recorded on a rising edge plays back on the next frame. |
| Sequencers.ResetIdles | Unimpressive.Core/Sequencer.cs:141-145 | After `Reset` the tape is empty and the next `Update` passes its input through. |
| UnMath.Zmod | Unimpressive.Core/UnMath.cs:210-221 | For `d > 0` the result is in `[0, d)` and congruent to `z`. `d == 0` throws DivideByZero, and `int.MinValue % -1` throws Overflow. The C# `%` truncates. |
| UnMath.EuclidUnique | Unimpressive.Core/UnMath.cs:215-216 | A remainder in `[0, d)` is unique. |
| UnMath.ZmodExample | Unimpressive.Core/UnMath.cs:205 | `Zmod(-2, 30) = 28`. |
| UnMath.ClampReal | Unimpressive.Core/UnMath.cs:247 | The result lies in `[min(lo,hi), max(lo,hi)]`. An inside value is unchanged, and an outside value goes to the nearer end. |
| UnMath.ClampInt | Unimpressive.Core/UnMath.cs:267-277 | The same for `int` and `long`. |
| UnMath.ClampSymmetric | Unimpressive.Core/UnMath.cs:247-277 | Swapping `lo` and `hi` does not change a clamp. |
| UnMath.Frac | Unimpressive.Core/UnMath.cs:227 | `Frac(a)` lies in `[0,1)` and differs from `a` by a whole number. |
| UnMath.Fmod | Unimpressive.Core/UnMath.cs:233 | For `b > 0` the result lies in `[0,b)`, and for `b < 0` in `(b,0]`. It differs from `a` by a whole multiple of `b`. |
| UnMath.FracShift | Unimpressive.Core/UnMath.cs:227 | Whole numbers do not change `Frac`. |
| UnMath.FmodPeriodic | Unimpressive.Core/UnMath.cs:233 | `Fmod(a+b, b) == Fmod(a, b)`. |
| UnMath.Lerp | Unimpressive.Core/UnMath.cs:357 | `Lerp(a,b,0)=a` and `Lerp(a,b,1)=b`. For `x` in [0,1] the result lies between `a` and `b`. |
| UnMath.LerpWithin | Unimpressive.Core/UnMath.cs:357 | Arithmetic helper for `Lerp`: `a + x(b-a)` lies between `a` and `b` for `x` in [0,1]. |
| UnMath.Ratio | Unimpressive.Core/UnMath.cs:412-443 | Gives 0 when `end == start`. Float mode is the raw ratio, Clamp is in [0,1], Wrap is the fractional part in [0,1), and Mirror is in [0,1]. This is Ratio with an exact whole part; see `RatioAsWritten` for the int conversion. |
| UnMath.RatioAsWritten | Unimpressive.Core/UnMath.cs:412-443 | Ratio with the whole part converted to an `int` in Wrap and Mirror mode. It equals `Ratio` in the other modes and whenever the whole part fits in an int. |
| UnMath.RatioCastOverflows | Unimpressive.Core/UnMath.cs:431-439 | For an input ten billion ranges past the start, the Wrap result is at least 1 and the Mirror result is negative, whatever int the conversion yields. The exact ratio wraps to 0. |
| DotNet.ToInt32 | Unimpressive.Core/UnMath.cs:431 | The `(int)` conversion is exact inside the int range and always yields an int. |
| UnMath.MirrorFold | Unimpressive.Core/UnMath.cs:434-442 | The Mirror fold lies in [0,1]. |
| UnMath.MirrorFolds | Unimpressive.Core/UnMath.cs:434-442 | Mirror mode rises over the range and falls back over the next. |
| UnMath.MirrorFoldPeriod | Unimpressive.Core/UnMath.cs:434-442 | The fold is the identity on [0,1] and `2 - r` on (1,2]. |
| UnMath.MirrorFoldPeriodic | Unimpressive.Core/UnMath.cs:434-442 | The fold repeats every 2. |
| UnMath.MirrorMapPeriodic | Unimpressive.Core/UnMath.cs:551-552 | The Mirror `Map` over `[0,d]` repeats every `2d`. |
| UnMath.Map | Unimpressive.Core/UnMath.cs:551-552 | `Lerp` of the output range at `Ratio`. An empty input range gives OutMin. In Clamp, Wrap and Mirror mode the result lies between OutMin and OutMax. |
| UnMath.MapBounds | Unimpressive.Core/UnMath.cs:551-552 | `Map` of an empty input range is OutMin. In Clamp, Wrap and Mirror mode the result lies between OutMin and OutMax. |
| UnMath.RatioBounds | Unimpressive.Core/UnMath.cs:417 | An input inside the range has a ratio in [0,1]. One in the next range has a ratio in (1,2]. |
| UnMath.MapFloatInvertsLerp | Unimpressive.Core/UnMath.cs:551-552 | Float-mode `Map` sends `InMin` to `OutMin` and `InMax` to `OutMax`. `Ratio` inverts `Lerp`. |
| UnMath.DivShift | Unimpressive.Core/UnMath.cs:233 | Arithmetic helper for the periodicity lemmas: `(a + k·b)/b = a/b + k`. |
| UnMath.Factorial | Unimpressive.Core/UnMath.cs:135 | Returns only for 0, giving 1. In the model every other argument recurses forever; `long.MinValue` is the exception in C#, where `Math.Abs` throws OverflowException. |
| UnMath.FactorialRecursesForever | Unimpressive.Core/UnMath.cs:135 | For `n != 0` the recursive argument `Abs(n)` is non-zero and is its own next argument. |
| UnMath.FactorialIntended | Unimpressive.Core/UnMath.cs:127-135 | The product `n·(n-1)·…·1` of `|n|` is at least 1. |
| UnMath.FactorialIntendedSymmetric | Unimpressive.Core/UnMath.cs:127-135 | The intended factorial of `n` depends only on the absolute value of `n`. |
| UnMath.FactorialIntendedDivisible | Unimpressive.Core/UnMath.cs:127-135 | The intended factorial of `n` is a multiple of every `k` from 1 to the absolute value of `n`, as the product `n·(n-1)·…·1` is. |
| UnMath.FactorialIntendedValues | Unimpressive.Core/UnMath.cs:127-135 | Examples: `0! = 1`, `5! = 120`, and `-3` gives 6. |
| BitUtils.Or | Unimpressive.Core/BitUtils.cs:12 | `Or()` is 0. |
| BitUtils.OrBit | Unimpressive.Core/BitUtils.cs:12 | `Or(vals)` has a bit iff some value has it. |
| BitUtils.And | Unimpressive.Core/BitUtils.cs:13 | An empty list throws InvalidOperation at `First()`. |
| BitUtils.AndBit | Unimpressive.Core/BitUtils.cs:13 | `And` of a non-empty list has a bit iff every value has it. |
| BitUtils.AndSeedIdempotent | Unimpressive.Core/BitUtils.cs:13 | Seeding with the first value is harmless: it is the fold of the rest from that value. |
| BitUtils.Xor | Unimpressive.Core/BitUtils.cs:14 | An empty list throws InvalidOperation. |
| BitUtils.XorAllBit | Unimpressive.Core/BitUtils.cs:14 | The XOR of all values has a bit iff an odd number of values have it. |
| BitUtils.XorDropsFirst | Unimpressive.Core/BitUtils.cs:14 | `Xor` as written is the XOR of `vals[1..]`. |
| BitUtils.XorOfOneIsZero | Unimpressive.Core/BitUtils.cs:14 | `Xor(0x80000000) = 0`, while the XOR of that one value is the value. |
| BitUtils.Join | Unimpressive.Core/BitUtils.cs:16-29 | The loop computes `Joined`. |
| BitUtils.JoinBit | Unimpressive.Core/BitUtils.cs:16-29 | For `n <= 32` booleans, the low `n` bits are the booleans, first boolean highest, and every higher bit is clear. |
| BitUtils.JoinOverlong | Unimpressive.Core/BitUtils.cs:23 | More than 32 booleans: the shift count is masked to 5 bits, so 33 set booleans give `0x1`. |
| BitUtils.ShiftCount | Unimpressive.Core/BitUtils.cs:23-24 | A C# shift count is the low five bits. |
| BitUtils.Split | Unimpressive.Core/BitUtils.cs:31-42 | Fills a new 32-element array with `SplitBits`. |
| BitUtils.SplitBits | Unimpressive.Core/BitUtils.cs:31-42 | Has length 32. |
| BitUtils.SplitBitsAreBits | Unimpressive.Core/BitUtils.cs:36-39 | `res[i]` is the bit of value `2^(31-i)`. |
| BitUtils.JoinSplit | Unimpressive.Core/BitUtils.cs:16-42 | `Join(Split(v)) == v`. |
| BitUtils.SplitJoin | Unimpressive.Core/BitUtils.cs:16-42 | `Split(Join(bs)) == bs` for 32 booleans. |
| BitUtils.JoinMaskBit | Unimpressive.Core/BitUtils.cs:22-24 | Join's mask is the single bit at the masked shift counts. |
| BitUtils.SplitMaskBit | Unimpressive.Core/BitUtils.cs:36-37 | Split's mask for `i` is the single bit `i` from the top. |
| Collections.Select | Unimpressive.Core/Collections.cs:28-39 | Throws DuplicateKey iff two keys map to one. Otherwise it maps `keymapper(k)` to `valuemapper(source[k])` and holds nothing else. |
| Collections.SelectKeepsCount | Unimpressive.Core/Collections.cs:35-38 | Without collisions, the count is kept. |
| Collections.Dictionary.Update | Unimpressive.Core/Collections.cs:50-71 | Afterwards `d[k] == v`, the other entries are unchanged, the keys are `old ∪ {k}`, and `v` is returned. |
| Collections.HashSet.Update | Unimpressive.Core/Collections.cs:80-84 | The set becomes `old ∪ {v}` and `v` is returned. |
| Collections.Filled | Unimpressive.Core/Collections.cs:96-100 | The length is kept. `list[start+i] = from[i]` within bounds, and every other position is unchanged. |
| Collections.Fill | Unimpressive.Core/Collections.cs:93-101 | A start at or past the end is a no-op. A negative start throws ArgumentOutOfRange on its first write iff `from` is non-empty and `Count - start` does not wrap past int.MaxValue; when it wraps the loop never runs. Otherwise `list` becomes `Filled` with the old `from` when `from` is another list, and `SelfFilled` when it is `list` itself. |
| Collections.WrapsNegative | Unimpressive.Core/Collections.cs:95 | Arithmetic helper: an unchecked int difference just past int.MaxValue wraps to a negative int, so the loop bound is negative. |
| Collections.SelfSource | Unimpressive.Core/Collections.cs:96-99 | A copy of a list into itself from `start` reads each position from below `start`, or from itself when `start` is 0. |
| Collections.SelfFilled | Unimpressive.Core/Collections.cs:96-99 | After `k` steps of a self copy, each written position holds the element at its `SelfSource`, and the others are unchanged. |
| Collections.SelfFilledStep | Unimpressive.Core/Collections.cs:98-99 | One more step writes position `start+k` with what position `k` holds by then. |
| Collections.SelfFillRepeats | Unimpressive.Core/Collections.cs:96-99 | `[1,2,3]` filled from itself at 1 becomes `[1,1,1]`, while a fill from a copy gives `[1,1,2]`. |
| Collections.List.AddResults | Unimpressive.Core/Collections.cs:103-114 | The list becomes `AddedResults`. |
| Collections.AddedResultsExtends | Unimpressive.Core/Collections.cs:106-113 | The old list stays a prefix and everything appended comes from `data`. |
| Collections.AddedResultsNoDuplicates | Unimpressive.Core/Collections.cs:108-112 | Comparing by equality adds no duplicates, and every element of `data` ends up present. |
| Collections.AddedResultsComparer | Unimpressive.Core/Collections.cs:110-112 | One-element case: with a comparer, an element is appended iff no present element compares equal to it. |
| Collections.AddedResultsComparerAll | Unimpressive.Core/Collections.cs:106-113 | With a comparer and any `data`, every appended element compares unequal to each element before it. Every element of `data` ends up in the list or compares equal to an element of it. |
| Strings.Chunks | Unimpressive.Core/StringExtensions.cs:52 | `String.Split` gives at least one piece, and no piece holds a separator. |
| Strings.ChunksCount | Unimpressive.Core/StringExtensions.cs:52 | There is one more piece than separators. |
| Strings.ChunksJoin | Unimpressive.Core/StringExtensions.cs:52 | Joining the pieces with the separator gives the input back. |
| Strings.DropEmpty | Unimpressive.Core/StringExtensions.cs:54 | RemoveEmptyEntries keeps exactly the non-empty pieces. |
| Strings.Expand | Unimpressive.Core/StringExtensions.cs:53-55 | Every element produced is a split element. |
| Strings.SplitIgnoringBetween | Unimpressive.Core/StringExtensions.cs:50-57 | Every element is either a non-empty piece with no separator or delimiter, or a whole block wrapped in `ignorebetween`. |
| Strings.SplitWithoutBlocks | Unimpressive.Core/StringExtensions.cs:52-54 | Without delimiters it is the plain split with empty entries dropped. |
| Strings.SplitKeepsBlock | Unimpressive.Core/StringExtensions.cs:53-55 | An odd chunk comes out whole and wrapped, separators included. |
| Strings.IndexOfLineBreak | Unimpressive.Core/StringExtensions.cs:85 | `IndexOfAny` gives the first `'\r'`/`'\n'` from `from` on, or -1. |
| Strings.LineRangeFromCharIndex | Unimpressive.Core/StringExtensions.cs:79-97 | Never throws. Returns iff `charid >= 0` and some line break lies at or after `charid`, and otherwise loops forever. A returned range has `Start <= charid < End` and `Length == End - Start`. It starts at 0 or after a line break, ends just after a line break, and holds no other line break. |
| Strings.MultiEdit | Unimpressive.Core/StringExtensions.cs:105-118 | The loop computes `Edited`. With no edits it returns the input. |
| Strings.MultiEditOne | Unimpressive.Core/StringExtensions.cs:109-116 | One edit gives `input[..Position] + InsertText + input[Position+Length..]`. Out of range, it throws. |
| Strings.MultiEditSplices | Unimpressive.Core/StringExtensions.cs:108-116 | Sorted non-overlapping edits each replace their original range. |
| Strings.SplicedLength | Unimpressive.Core/StringExtensions.cs:111-115 | The length grows by `Σ(|InsertText| - Length)`. |
| Strings.EditedFrom | Unimpressive.Core/StringExtensions.cs:109-116 | The loop invariant over the remaining edits. |
| FileSystem.ReplaceBackSlashes | Unimpressive.Core/FileSystem.cs:224-227 | Every `\` becomes `/`, and nothing else changes. |
| FileSystem.IndexOfSchemeSep | Unimpressive.Core/FileSystem.cs:202 | Gives the first `://`, or -1. |
| FileSystem.ReplaceDouble | Unimpressive.Core/FileSystem.cs:213 | One `Replace("//","/")` pass never lengthens the text and keeps its first character. |
| FileSystem.ReplaceDoubleShortens | Unimpressive.Core/FileSystem.cs:211-214 | Each pass over text with `//` shortens it, so the loop ends. |
| FileSystem.Collapsed | Unimpressive.Core/FileSystem.cs:211-214 | After the loop there is no `//`. |
| FileSystem.CollapsedIsSquashed | Unimpressive.Core/FileSystem.cs:211-214 | The loop turns every run of slashes into one. |
| FileSystem.RemoveRedundantSlashes | Unimpressive.Core/FileSystem.cs:198-222 | The method computes `Deduped`. |
| FileSystem.DedupedNoDouble | Unimpressive.Core/FileSystem.cs:198-222 | The text after the first `://` holds no `//`. Without `://`, the whole text holds none. |
| FileSystem.DedupedIdempotent | Unimpressive.Core/FileSystem.cs:198-222 | Removing redundant slashes twice is the same as once. |
| FileSystem.Normalize | Unimpressive.Core/FileSystem.cs:110-125 | Null and empty are returned unchanged. |
| FileSystem.NormalizeStripsOnePrefix | Unimpressive.Core/FileSystem.cs:117-120 | A path behind one leading `\??\` normalises as the path alone. A second prefix is not stripped: it stays as `/??/`. |
| FileSystem.NormalizeNoBackslash | Unimpressive.Core/FileSystem.cs:122 | The result has no backslash. |
| FileSystem.NormalizeIdempotent | Unimpressive.Core/FileSystem.cs:110-125 | `Normalize(Normalize(p)) == Normalize(p)`. |
| FileSystem.NormalizedNoDouble | Unimpressive.Core/FileSystem.cs:122-123 | Without `://`, the result holds no `//`. |
| FileSystem.PrependLeadingSlash | Unimpressive.Core/FileSystem.cs:131-141 | The result starts with `/` and is the normalised path, slash-prefixed if needed. |
| FileSystem.AppendTrailingSlash | Unimpressive.Core/FileSystem.cs:147-158 | The result ends with `/`. |
| FileSystem.RemoveLeadingSlash | Unimpressive.Core/FileSystem.cs:164-173 | Drops at most one leading slash from the normalised path. |
| FileSystem.RemoveTrailingSlash | Unimpressive.Core/FileSystem.cs:179-196 | Drops at most one trailing slash. |
| FileSystem.RemoveSlashNoScheme | Unimpressive.Core/FileSystem.cs:164-196 | Without `://`, the results neither start nor end with a slash. |
| Objects.ObjectChange.NotifyChange | Unimpressive.Core/Objects.cs:24-31 | The first call for a hash returns 1. Later calls increment (with int wrap-around) and return the counter. Other hashes are untouched. |
| Objects.ObjectChange.CheckChanged | Unimpressive.Core/Objects.cs:39-53 | An unknown hash gives `(false, -1)`. A known one gives whether its counter differs from `ref`, together with the counter as the next reference. |
| Objects.CheckChangedTwice | Unimpressive.Core/Objects.cs:42-47 | A second check with no notification in between returns false. |
| Objects.BumpChanges | Unimpressive.Core/Objects.cs:28 | Incrementing a 32-bit counter always changes it. |
| Intersections.AabbAabb2D | Unimpressive.Core/Intersections.cs:79-88 | For well-formed boxes, true implies overlap on X and Y. |
| Intersections.AabbAabb3D | Unimpressive.Core/Intersections.cs:98-110 | The 2D test on X and Y conjoined with the same rule on Z. |
| Intersections.AxisTestExactly | Unimpressive.Core/Intersections.cs:81-83 | The axis test accepts exactly the intervals where `b2min` is in `b1` or `b1max` is in `b2`. |
| Intersections.AxisTestSound | Unimpressive.Core/Intersections.cs:81-83 | The axis test accepts only overlapping intervals. |
| Intersections.AabbAabb3DSound | Unimpressive.Core/Intersections.cs:98-110 | For well-formed boxes, true implies overlap on every axis. |
| Intersections.AabbAabb2DMissesOverlap | Unimpressive.Core/Intersections.cs:79-88 | Boxes with x ranges [5,10] and [0,7] overlap, but the result is false. |
| Intersections.AabbOverlap2D | Unimpressive.Core/Intersections.cs:72-88 | This is the intended overlap test. It accepts whatever the written test accepts. |
| Intersections.AabbOverlap2DComplete | Unimpressive.Core/Intersections.cs:72-88 | Boxes sharing a point are accepted. |
| Intersections.AabbOverlap2DWitness | Unimpressive.Core/Intersections.cs:72-88 | Accepted boxes share a point. |
| Intersections.BoxPoint | Unimpressive.Core/Intersections.cs:120-125 | The same as `AabbPoint3D`. |
| Intersections.AabbPoint3D | Unimpressive.Core/Intersections.cs:134-139 | A point lies in a box only if the box is well formed. |
| Intersections.AabbPoint3DCorners | Unimpressive.Core/Intersections.cs:134-139 | A well-formed box holds both its corners, and a point in a box lies in every box containing that box's corners. |
| Intersections.BoxPointLimit | Unimpressive.Core/Intersections.cs:148-155 | For a well-formed box, the result lies inside it. |
| Intersections.BoxPointLimitFixes | Unimpressive.Core/Intersections.cs:134-155 | A point is in the box iff limiting it leaves it unchanged. |
| Stopwatch.StopwatchInteractive.constructor | Unimpressive.Core/StopwatchInteractive.cs:17-19 | A new stopwatch is stopped, with no offset and no triggers, and reads 0 at every moment. |
| Stopwatch.StopwatchInteractive.Elapsed | Unimpressive.Core/StopwatchInteractive.cs:23 | The base reading plus the offset. Stopped, it is the banked time plus the offset at every clock reading. Running, it is at least that much. |
| Stopwatch.StopwatchInteractive.SetTime | Unimpressive.Core/StopwatchInteractive.cs:33-44 | The offset becomes `time`, and the base stopwatch is restarted when running and reset when stopped. From then on `Elapsed` is `time` plus the time run since the call, or `time` when stopped. The running flag and the triggers are unchanged. |
| Stopwatch.StopwatchInteractive.WithTime | Unimpressive.Core/StopwatchInteractive.cs:50-54 | Performs `SetTime` and returns the stopwatch itself. |
| Stopwatch.StopwatchInteractive.Restart | Unimpressive.Core/StopwatchInteractive.cs:38 | The base reading is 0 at `now`, then advances with the clock. |
| Stopwatch.StopwatchInteractive.Reset | Unimpressive.Core/StopwatchInteractive.cs:42 | The base reading is 0 and stays there, and the stopwatch is stopped. |
| Stopwatch.StopwatchInteractive.Start | Unimpressive.Core/StopwatchInteractive.cs:17 | The inherited Start: the reading goes on from its value at `now`. |
| Stopwatch.StopwatchInteractive.Stop | Unimpressive.Core/StopwatchInteractive.cs:17 | The inherited Stop: the reading keeps its value at `now` from then on. |
| Stopwatch.ElapsedAdvances | Unimpressive.Core/StopwatchInteractive.cs:23 | While running, the reading advances by exactly the time between two clock readings. While stopped, it stands still. |
| Stopwatch.SeekThenLoop | Unimpressive.Core/StopwatchInteractive.cs:33-44 | After `SetTime(time)` at `now`, a main loop at `later` marks the triggers due at `time + (later - now)` when running, or at `time` when stopped. |
| Stopwatch.StopwatchInteractive.SetTrigger | Unimpressive.Core/StopwatchInteractive.cs:85-92 | The triggers become the given times, in order, all unpassed. |
| Stopwatch.StopwatchInteractive.ResetTriggers | Unimpressive.Core/StopwatchInteractive.cs:107-115 | Every passed flag is cleared, and the times and their order are kept. |
| Stopwatch.StopwatchInteractive.Mainloop | Unimpressive.Core/StopwatchInteractive.cs:118-135 | The triggers become `PassedAt` the elapsed time. The event fires `Firings` times. |
| Stopwatch.PassedAt | Unimpressive.Core/StopwatchInteractive.cs:122-132 | Every due trigger is passed. Later ones keep their flag and every time is kept. |
| Stopwatch.Firings | Unimpressive.Core/StopwatchInteractive.cs:126-130 | At most one firing per trigger. |
| Stopwatch.NoRefire | Unimpressive.Core/StopwatchInteractive.cs:126-130 | A loop at the same or an earlier time fires nothing again. |
| Stopwatch.PassedAtTwice | Unimpressive.Core/StopwatchInteractive.cs:122-132 | Two loops mark what one loop at the later time marks. |
| Stopwatch.FiringsSplit | Unimpressive.Core/StopwatchInteractive.cs:126-130 | Over two loops the firings add up to those of one loop, so each trigger fires once between resets. |

## Left out

- Floating point:
  - `double` and `float` are modelled as exact reals;
  - IEEE rounding, infinities and the `(float)` casts of blend weights are not modelled (Tape.cs:314, Delay.cs:133, Sequencer.cs:119);
  - a NaN the program would carry on with is modelled as the fault `NotANumber`, ending the call there. This happens for a weight of 0/0, and for a read of a non-trivial tape at the NaN of `Fmod` by a zero `Duration`.
- Delays.Interpolated: a zero span of keys is always the fault `NotANumber`. In C# only a target at the keys gives the NaN weight 0/0. A target past them gives plus or minus infinity, which a step interpolator would turn into the newer frame.
- Tapes.Tape.constructor: requires `(int)(maxTime*resolution)+1 >= 0`. A negative array length throws OverflowException in C#, and that path is not modelled.
- Tapes.NewFromRegistry: requires `(int)(maxTime*resolution)+1 >= 0`, because it builds its tape with the same array. The OverflowException path is not modelled.
- Sequencers.NewSequencer: requires `(int)(maxTime*resolution)+1 >= 0`, for its tape. The OverflowException path is not modelled.
- Sequencers.NewStatefulSequencer: requires `(int)(maxTime*resolution)+1 >= 0`, for the tape of its inner sequencer. The OverflowException path is not modelled.
- The `(int)` casts of a very large read position in the tape getter are not modelled. Positions are clamped to the array first.
- Reflection:
  - the type test `t.Is(typeof(IBlendable<T>))` is a boolean parameter;
  - the test `value is IBlendable<T>` in the setter is an `Option<Blendable<T>>` parameter;
  - types are the tags of `TypeTag`.
- Tapes.StaticTable: the entry for T's own type is an argument `own` supplied by the caller, as is `self`, so nothing ties the double entry to `LerpMeta` or the bool and integer entries to `StepMeta`. The same holds for Tapes.TapeUtils.constructor, and so Tapes.NewFromRegistry adopts whatever entry the caller gave.
- The interpolators of `decimal`, vectors, quaternions and matrices are not modelled. Their registry entries are present but are opaque to every other type.
- Clocks:
  - the `Stopwatch` of `Delay` is a `now` parameter, read once per call, although `Submit` and `GetAt` read it more than once;
  - `TimeSpan` values are real milliseconds.
- Delays.Delay.Submit: requires `now` to be no earlier than the newest key. The source gets this from its monotonic stopwatch.
- `Delay.Iterations` is an `int`. It is modelled unbounded, because a search that returns needs very few rounds.
- StatefulSequencer's inheritance from Sequencer is modelled by composition: it holds a `Sequencer` and overrides `Reset` by calling it.
- Stopwatch:
  - the clock under the base `Stopwatch` is the `now` argument of each call, a reading in ticks;
  - `ElapsedMilliseconds`, `ElapsedTicks` and `WithTriggers` are not modelled;
  - the timer thread of `WithInternalMainloop` is not modelled, and neither is the main-loop begin/end events;
  - `OnTriggerPassed` is modelled only as a count of firings;
  - `Elapsed` is read once per `Mainloop`.
- Objects:
  - `GetHashCode` is not modelled; the hash is an `int` argument;
  - the table is one object, not a static.
- UnMath.Fmod: requires a non-zero divisor. In C# a zero divisor gives NaN, which Sequencers.LoopPosition models as `None`.
- UnMath.Factorial: `long` overflow is not modelled, because the only argument that returns is 0. For `long.MinValue` C#'s `Math.Abs` throws OverflowException; the model recurses forever there too.
- UnMath.Ratio: the whole part is exact, as the code evidently intends, and the rest of the model uses this version. `UnMath.RatioAsWritten` keeps the `(int)` conversion. An out-of-range conversion depends on the runtime, and it is modelled as saturation. `RatioCastOverflows` uses only the int range, so it does not depend on that choice.
- Collections.Fill: both `IList<T>` arguments are modelled as arrays, since the loop only reads and writes elements by index. Writes go through the `IList<T>` indexer, which throws ArgumentOutOfRangeException for a list and for an array alike.
- Collections:
  - the null-key ArgumentNullException of `Update` is not modelled;
  - `Opaq`, `OpaqNonRecursive` and `ForeachConcurrent` are left out, because they are regex query plumbing and threads.
- Text is a sequence of Unicode scalar values, while .NET strings are sequences of UTF-16 code units. Positions, lengths and split points therefore agree with .NET only when no character lies above U+FFFF. The affected members are:
- Strings.Chunks: splits on scalar values. `ToCharArray()` also yields each half of a surrogate pair as a separator, and that half can split a different character sharing it.
- Strings.SplitIgnoringBetween: splits as `Strings.Chunks` does, so its pieces differ from .NET's when a separator or delimiter lies above U+FFFF.
- Strings.IndexOfLineBreak: the index counts scalar values, where `IndexOfAny` counts code units.
- Strings.LineRangeFromCharIndex: `charid` and the returned range count scalar values, so text with a character above U+FFFF before the line break gives different ranges, or a loop where .NET returns.
- Strings.MultiEdit: `Position` and `Length` count scalar values, where `Remove` and `Insert` count code units.
- Strings.MultiEdit: an edit whose `InsertText` is null throws NullReferenceException in C#. `InsertText` is a plain string here, so that path is not modelled.
- String.Split with an empty separator array splits on white space. The white-space set is that of .NET's `Char.IsWhiteSpace`.
- Uint words are modelled as 32 booleans, most significant first, rather than as bit-vectors.
- The vector overloads, random numbers, quadratic solving, `Bilerp`/`Trilerp` and the other numeric files are left out, because they are floating-point geometry outside this core.
- The I/O, JSON, YAML, reflection, Rx and PowerShell parts of the repository are left out.

## Findings

| source | as written | input that shows it | evidently intended | confidence | as-written member | corrected member |
|---|---|---|---|---|---|---|
| Unimpressive.Core/BitUtils.cs:14 | `Xor` seeds the fold with `First()` and then XORs it in again | `Xor(0x80000000)` returns 0 | the XOR of all values | not executed | BitUtils.XorOfOneIsZero | BitUtils.XorAllBit |
| Unimpressive.Core/Intersections.cs:79-88 | each axis tests only "b2min in b1 or b1max in b2" | x ranges [5,10] and [0,7], y ranges [0,1] | true for overlapping boxes | not executed | Intersections.AabbAabb2DMissesOverlap | Intersections.AabbOverlap2DComplete |
| Unimpressive.Core/UnMath.cs:135 | recurses on `Abs(n)` instead of `n-1` | `Factorial(5)` never returns | `5! = 120` | not executed | UnMath.FactorialRecursesForever | UnMath.FactorialIntendedValues |
| Unimpressive.Core/UnMath.cs:431-439 | Wrap and Mirror take the whole part of the ratio through an `int` | `Ratio(1e10, 0, 1, Wrap)` | the fractional part, 0 | not executed | UnMath.RatioCastOverflows | UnMath.Ratio |
| Unimpressive.Core/Tape.cs:274-285 | the search steps past slot 0 or past the last slot when it starts on an invalid end slot | four slots, samples at times 1 and 2, read at time 0 | the nearest sample, 7 | not executed | Tapes.ReadCrashExample | Tapes.ReadMatchesNearest |
| Unimpressive.Core/Delay.cs:153-167 | a target equal to an arrival time moves neither cursor | samples at 0, 10, 20, 30 ms; read 30 ms back at 40 ms | a returned reading; the scan the search replaced gives the newest frame, 4 | not executed | Delays.ArrivalTimeSpins | Delays.ScannedAt |
| Unimpressive.Core/Delay.cs:151-161 | a target after the newest sample drives `i` to `Count` | the same samples; read 2 ms back at 35 ms | the newest frame, as the replaced scan gives | not executed | Delays.PastNewestThrows | Delays.ScanMatchesIntended |
