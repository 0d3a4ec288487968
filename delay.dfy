/** The delay line: values submitted with the time they arrived, evicted
    once older than a capacity, and read back as they were some time ago
    by interpolating the two submissions around that moment.  Times are
    milliseconds on the delay's own clock, passed in as `now`. */
module Delays {
  import opened Wrappers
  import opened DotNet
  import opened Tapes

  /** One submission: its arrival time and its value. */
  datatype Sample<T> = Sample(Key: real, Frame: T)

  /** Arrival times never go back. */
  predicate Sorted<T>(s: seq<Sample<T>>)
  {
    forall i, j :: 0 <= i < j < |s| ==> s[i].Key <= s[j].Key
  }

  // ----------------------------------------------------------------- Submit

  /** The samples left once the leading ones at least `capacity` old at
      `now` are removed: a suffix of `s` whose first element is younger. */
  function DropAged<T>(s: seq<Sample<T>>, now: real, capacity: real): (r: seq<Sample<T>>)
    ensures |r| <= |s|
    ensures forall j :: 0 <= j < |s| - |r| ==> now - s[j].Key >= capacity
    ensures |r| > 0 ==> now - r[0].Key < capacity
    decreases |s|
  {
    if |s| == 0 || now - s[0].Key < capacity then s
    else DropAged(s[1..], now, capacity)
  }

  /** What is kept is the tail of what was there. */
  lemma {:induction false} DropAgedSuffix<T>(s: seq<Sample<T>>, now: real, capacity: real)
    ensures DropAged(s, now, capacity) == s[|s| - |DropAged(s, now, capacity)|..]
    decreases |s|
  {
    if |s| > 0 && now - s[0].Key >= capacity {
      DropAgedSuffix(s[1..], now, capacity);
      assert s[1..][|s| - 1 - |DropAged(s, now, capacity)|..] == s[|s| - |DropAged(s, now, capacity)|..];
    }
  }

  /** On sorted samples every sample kept is younger than the capacity. */
  lemma {:induction false} DropAgedAllYoung<T>(s: seq<Sample<T>>, now: real, capacity: real)
    requires Sorted(s)
    ensures Sorted(DropAged(s, now, capacity))
    ensures forall j :: 0 <= j < |DropAged(s, now, capacity)| ==> now - DropAged(s, now, capacity)[j].Key < capacity
  {
    var r := DropAged(s, now, capacity);
    DropAgedSuffix(s, now, capacity);
    SuffixSorted(s, |s| - |r|);
    if |r| > 0 {
      forall j | 0 <= j < |r|
        ensures now - r[j].Key < capacity
      {
        assert r[j] == s[|s| - |r| + j] && r[0] == s[|s| - |r|];
      }
    }
  }

  /** Submit's eviction loop: step past the front sample while it is at
      least `capacity` old at `now`. */
  method Evict<T>(s: seq<Sample<T>>, now: real, capacity: real) returns (kept: seq<Sample<T>>)
    ensures kept == DropAged(s, now, capacity)
  {
    kept := s;
    while |kept| > 0 && now - kept[0].Key >= capacity
      invariant DropAged(kept, now, capacity) == DropAged(s, now, capacity)
      decreases |kept|
    {
      kept := kept[1..];
    }
  }

  // ------------------------------------------------------------------ GetAt

  /** What GetAt reports: the value (or how it fails) and `unavailable`. */
  datatype Reading<T> = Reading(value: Outcome<T>, unavailable: bool)

  /** The local Interpolate: the weight of `newer` is one minus the share
      of the pair's span still ahead of the target.  A null interpolator
      throws; two equal arrival times divide by zero, which .NET turns into
      a non-finite weight. */
  function Interpolated<T>(interp: Option<Interp<T>>, older: Sample<T>, newer: Sample<T>, target: real): (r: Outcome<T>)
    ensures interp.None? ==> r == Throws(NullReference)
    ensures interp.Some? && newer.Key == older.Key ==> r == Throws(NotANumber)
    ensures interp.Some? && newer.Key != older.Key ==>
      r == Returns(interp.value(older.Frame, newer.Frame, (target - older.Key) / (newer.Key - older.Key)))
  {
    var wd := newer.Key - older.Key;
    var nd := newer.Key - target;
    match interp
    case None => Throws(NullReference)
    case Some(f) =>
      if wd == 0.0 then Throws(NotANumber)
      else
        OneMinusShare(wd, nd);
        Returns(f(older.Frame, newer.Frame, 1.0 - nd / wd))
  }

  lemma OneMinusShare(w: real, x: real)
    requires w != 0.0
    ensures 1.0 - x / w == (w - x) / w
  {
    assert (w - x) / w == w / w - x / w;
  }

  /** (int)Math.Ceiling(x / 2.0) on a whole number. */
  lemma HalfUp(x: int)
    requires x >= 0
    ensures Ceiling(x as real / 2.0) == (x + 1) / 2
  {
    var c := (x + 1) / 2;
    assert (c as real) - 1.0 < x as real / 2.0 <= c as real;
  }

  /** What holds at the head of the search loop on sorted samples whose
      first arrival is not after the target: `lo` is a sample before the
      target (or 0), `hi` one past a sample after it (or the end). */
  predicate SearchInv<T>(s: seq<Sample<T>>, t: real, i: int, lo: int, hi: int)
  {
    && 3 <= |s| && Sorted(s) && s[0].Key <= t
    && 0 <= lo < i <= hi <= |s|
    && (lo == 0 || t > s[lo].Key)
    && (hi == |s| || t < s[hi - 1].Key)
  }

  /** The cursor moves of one round of the search: up when the target is
      past the current sample, then down when it is before the previous. */
  function NextCursor<T>(s: seq<Sample<T>>, t: real, i: int, lo: int, hi: int): (int, int, int)
    requires 1 <= i < |s|
  {
    var cs, ps := s[i].Key, s[i - 1].Key;
    var lo1, i1 := if t > cs then i else lo, if t > cs then i + Ceiling((hi - i) as real / 2.0) else i;
    var hi2, i2 := if t < ps then i1 else hi, if t < ps then i1 - Ceiling((i1 - lo1) as real / 2.0) else i1;
    (i2, lo1, hi2)
  }

  /** A round that moves the cursors keeps the loop's invariant and brings
      it closer to the end. */
  lemma NextCursorProgress<T>(s: seq<Sample<T>>, t: real, i: int, lo: int, hi: int)
    requires SearchInv(s, t, i, lo, hi) && i < |s|
    requires !(s[i - 1].Key < t < s[i].Key) && (t > s[i].Key || t < s[i - 1].Key)
    ensures var (i', lo', hi') := NextCursor(s, t, i, lo, hi);
      SearchInv(s, t, i', lo', hi') && (hi' - lo' < hi - lo || (hi' - lo' == hi - lo && i' < i))
  {
    if t > s[i].Key {
      HalfUp(hi - i);
      assert hi > i;
    } else {
      HalfUp(i - lo);
      assert i - lo >= 2 || lo == 0;
    }
  }

  /** The search loop: Returns(i) when samples i - 1 and i bracket the
      target, ArgumentOutOfRange when the cursor reaches the end, and
      Diverges when a round moves nothing, since the next round is then the
      same.  The count is of the rounds run, as Iterations keeps it. */
  function Bracket<T>(s: seq<Sample<T>>, t: real, i: int, lo: int, hi: int, rounds: nat): (r: (Outcome<int>, nat))
    requires SearchInv(s, t, i, lo, hi)
    ensures r.0.Returns? ==> 1 <= r.0.value < |s| && s[r.0.value - 1].Key < t < s[r.0.value].Key
    ensures r.0.Throws? ==> r.0.fault == ArgumentOutOfRange
    ensures rounds < r.1
    decreases hi - lo, i
  {
    if i >= |s| then (Throws(ArgumentOutOfRange), rounds + 1)
    else if s[i - 1].Key < t < s[i].Key then (Returns(i), rounds + 1)
    else if !(t > s[i].Key) && !(t < s[i - 1].Key) then (Diverges, rounds + 1)
    else
      NextCursorProgress(s, t, i, lo, hi);
      var (i', lo', hi') := NextCursor(s, t, i, lo, hi);
      Bracket(s, t, i', lo', hi', rounds + 1)
  }

  /** GetAt(delaytime, out unavailable) at clock reading `now`, and the
      value Iterations is left with when the search runs. */
  function DelayedAt<T>(s: seq<Sample<T>>, interp: Option<Interp<T>>, def: T, now: real, delay: real): (r: (Reading<T>, Option<nat>))
    requires Sorted(s)
    ensures |s| == 0 ==> r.0 == Reading(Returns(def), true)
    ensures r.0.unavailable <==> |s| == 0 || delay > now || now - delay < s[0].Key
    ensures r.0.unavailable && |s| > 0 ==> r.0.value == Returns(s[0].Frame)
    ensures !r.0.unavailable && delay <= 0.0 ==> r.0.value == Returns(s[|s| - 1].Frame)
    ensures !r.0.unavailable && |s| == 1 ==> r.0.value == Returns(s[0].Frame)
    ensures r.1.Some? <==> !r.0.unavailable && delay > 0.0 && |s| >= 3
  {
    var target := now - delay;
    if |s| == 0 then (Reading(Returns(def), true), None)
    else if delay > now || target < s[0].Key then (Reading(Returns(s[0].Frame), true), None)
    else if delay <= 0.0 then (Reading(Returns(s[|s| - 1].Frame), false), None)
    else if |s| == 1 then (Reading(Returns(s[0].Frame), false), None)
    else if |s| == 2 then (Reading(Interpolated(interp, s[0], s[1], target), false), None)
    else
      var start := |s| / 2;
      var (found, rounds) := Bracket(s, target, start, 0, |s|, 0);
      var value := match found
        case Returns(i) => Interpolated(interp, s[i - 1], s[i], target)
        case Throws(f) => Throws(f)
        case Diverges => Diverges;
      (Reading(value, false), Some(rounds))
  }

  /** Some sample arrived exactly at `t`. */
  ghost predicate IsKey<T>(s: seq<Sample<T>>, t: real)
  {
    exists k :: 0 <= k < |s| && s[k].Key == t
  }

  /** On sorted samples no pair of neighbours brackets an arrival time. */
  lemma BracketIsNoKey<T>(s: seq<Sample<T>>, t: real, i: int)
    requires Sorted(s) && 1 <= i < |s| && s[i - 1].Key < t < s[i].Key
    ensures !IsKey(s, t)
  {
    forall k | 0 <= k < |s|
      ensures s[k].Key != t
    {
      if k < i {
        assert s[k].Key <= s[i - 1].Key;
      } else {
        assert s[i].Key <= s[k].Key;
      }
    }
  }

  /** A target not after the newest sample never runs the cursor off the
      end: the search brackets it, or spins forever on a target that is an
      arrival time. */
  lemma {:induction false} BracketNotAfterLast<T>(s: seq<Sample<T>>, t: real, i: int, lo: int, hi: int, rounds: nat)
    requires SearchInv(s, t, i, lo, hi) && i < hi && t <= s[|s| - 1].Key
    ensures Bracket(s, t, i, lo, hi, rounds).0.Returns? || (Bracket(s, t, i, lo, hi, rounds).0.Diverges? && IsKey(s, t))
    decreases hi - lo, i
  {
    if s[i - 1].Key < t < s[i].Key {
    } else if !(t > s[i].Key) && !(t < s[i - 1].Key) {
      if t == s[i].Key {
        assert s[i].Key == t;
      } else {
        assert s[i - 1].Key == t;
      }
    } else {
      NextCursorProgress(s, t, i, lo, hi);
      NextCursorBelowHi(s, t, i, lo, hi);
      var (i', lo', hi') := NextCursor(s, t, i, lo, hi);
      BracketMoves(s, t, i, lo, hi, rounds);
      BracketNotAfterLast(s, t, i', lo', hi', rounds + 1);
    }
  }

  /** A round that moves the cursor hands the search on to the next round. */
  lemma BracketMoves<T>(s: seq<Sample<T>>, t: real, i: int, lo: int, hi: int, rounds: nat)
    requires SearchInv(s, t, i, lo, hi) && i < |s|
    requires !(s[i - 1].Key < t < s[i].Key) && (t > s[i].Key || t < s[i - 1].Key)
    ensures var (i', lo', hi') := NextCursor(s, t, i, lo, hi);
      SearchInv(s, t, i', lo', hi') && Bracket(s, t, i, lo, hi, rounds) == Bracket(s, t, i', lo', hi', rounds + 1)
  {
    NextCursorProgress(s, t, i, lo, hi);
  }

  /** A round on a target not after the newest sample keeps the cursor
      below `hi`. */
  lemma NextCursorBelowHi<T>(s: seq<Sample<T>>, t: real, i: int, lo: int, hi: int)
    requires SearchInv(s, t, i, lo, hi) && i < hi && t <= s[|s| - 1].Key
    requires !(s[i - 1].Key < t < s[i].Key) && (t > s[i].Key || t < s[i - 1].Key)
    ensures var (i', lo', hi') := NextCursor(s, t, i, lo, hi); i' < hi'
  {
    if t > s[i].Key {
      assert t <= s[hi - 1].Key;
      assert i < hi - 1;
      HalfUp(hi - i);
      assert t >= s[i - 1].Key;
    } else {
      HalfUp(i - lo);
    }
  }

  /** A target after the newest sample is past every sample, so every
      round moves up until the cursor runs off the end: the list indexer
      then throws. */
  lemma {:induction false} BracketAfterLast<T>(s: seq<Sample<T>>, t: real, i: int, lo: int, hi: int, rounds: nat)
    requires SearchInv(s, t, i, lo, hi) && t > s[|s| - 1].Key
    ensures Bracket(s, t, i, lo, hi, rounds).0 == Throws(ArgumentOutOfRange)
    decreases hi - lo, i
  {
    if i < |s| {
      assert s[i].Key <= s[|s| - 1].Key;
      NextCursorProgress(s, t, i, lo, hi);
      var (i', lo', hi') := NextCursor(s, t, i, lo, hi);
      BracketAfterLast(s, t, i', lo', hi', rounds + 1);
    }
  }

  /** The search loop's outcome on every target from the first arrival on:
      it brackets exactly the targets before the newest sample that are no
      arrival time, throws exactly past the newest sample, and spins
      forever exactly on an arrival time that is not past the newest. */
  lemma BracketOutcome<T>(s: seq<Sample<T>>, t: real)
    requires 3 <= |s| && Sorted(s) && s[0].Key <= t
    ensures SearchInv(s, t, |s| / 2, 0, |s|)
    ensures Bracket(s, t, |s| / 2, 0, |s|, 0).0.Returns? <==> t < s[|s| - 1].Key && !IsKey(s, t)
    ensures Bracket(s, t, |s| / 2, 0, |s|, 0).0.Throws? <==> t > s[|s| - 1].Key
    ensures Bracket(s, t, |s| / 2, 0, |s|, 0).0.Diverges? <==> t <= s[|s| - 1].Key && IsKey(s, t)
  {
    var r := Bracket(s, t, |s| / 2, 0, |s|, 0).0;
    if t > s[|s| - 1].Key {
      BracketAfterLast(s, t, |s| / 2, 0, |s|, 0);
      forall k | 0 <= k < |s|
        ensures s[k].Key != t
      {
        assert s[k].Key <= s[|s| - 1].Key;
      }
    } else {
      BracketNotAfterLast(s, t, |s| / 2, 0, |s|, 0);
      if r.Returns? {
        BracketIsNoKey(s, t, r.value);
        assert s[r.value].Key <= s[|s| - 1].Key;
      } else {
        assert t == s[|s| - 1].Key || IsKey(s, t);
      }
      if t == s[|s| - 1].Key {
        assert IsKey(s, t) by { assert s[|s| - 1].Key == t; }
      }
    }
  }

  // ------------------------------------------- The search as it is meant

  /** The first sample from `k` on that arrived after `t`, or |s|. */
  function FirstAfter<T>(s: seq<Sample<T>>, t: real, k: nat): (r: nat)
    requires k <= |s|
    ensures k <= r <= |s|
    ensures forall j :: k <= j < r ==> s[j].Key <= t
    ensures r < |s| ==> s[r].Key > t
    decreases |s| - k
  {
    if k == |s| || s[k].Key > t then k else FirstAfter(s, t, k + 1)
  }

  /** GetAt with a search that always ends: a target at or past the newest
      sample reads the newest value, any other target interpolates the
      first sample after it with the one before.  At an arrival time this
      blends with weight 0, where the commented-out scan (`ScannedAt`)
      gives the newest frame instead. */
  function IntendedAt<T>(s: seq<Sample<T>>, interp: Option<Interp<T>>, def: T, now: real, delay: real): (r: Reading<T>)
    requires Sorted(s)
    ensures 3 <= |s| && interp.Some? ==> r.value.Returns?
    ensures !r.unavailable && 3 <= |s| && now - delay >= s[|s| - 1].Key ==> r.value == Returns(s[|s| - 1].Frame)
  {
    var target := now - delay;
    if |s| < 3 || delay <= 0.0 || delay > now || target < s[0].Key then DelayedAt(s, interp, def, now, delay).0
    else if target >= s[|s| - 1].Key then Reading(Returns(s[|s| - 1].Frame), false)
    else
      var i := FirstAfter(s, target, 0);
      assert 1 <= i < |s|;
      Reading(Interpolated(interp, s[i - 1], s[i], target), false)
  }

  /** The first sample after a bracketed target is the bracket's upper end. */
  lemma {:induction false} FirstAfterBracket<T>(s: seq<Sample<T>>, t: real, i: int, k: nat)
    requires Sorted(s) && 1 <= i < |s| && s[i - 1].Key < t < s[i].Key && k <= i
    ensures FirstAfter(s, t, k) == i
    decreases i - k
  {
    if k < i {
      assert s[k].Key <= s[i - 1].Key;
      FirstAfterBracket(s, t, i, k + 1);
    }
  }

  /** Wherever the search as written comes back with a value, the intended
      search gives the same reading. */
  lemma IntendedAgrees<T>(s: seq<Sample<T>>, interp: Option<Interp<T>>, def: T, now: real, delay: real)
    requires Sorted(s)
    ensures var written := DelayedAt(s, interp, def, now, delay).0;
      written.value.Diverges? || written.value == Throws(ArgumentOutOfRange) || written == IntendedAt(s, interp, def, now, delay)
  {
    var target := now - delay;
    if 3 <= |s| && delay > 0.0 && !(delay > now) && target >= s[0].Key {
      BracketOutcome(s, target);
      var found := Bracket(s, target, |s| / 2, 0, |s|, 0).0;
      if found.Returns? {
        IntendedAgreesOn(s, interp, def, now, delay, found.value);
      }
    }
  }

  /** IntendedAgrees where the search as written brackets the target
      between samples i - 1 and i. */
  lemma IntendedAgreesOn<T>(s: seq<Sample<T>>, interp: Option<Interp<T>>, def: T, now: real, delay: real, i: int)
    requires Sorted(s) && 3 <= |s| && 0.0 < delay <= now && s[0].Key <= now - delay
    requires SearchInv(s, now - delay, |s| / 2, 0, |s|) && Bracket(s, now - delay, |s| / 2, 0, |s|, 0).0 == Returns(i)
    ensures DelayedAt(s, interp, def, now, delay).0 == IntendedAt(s, interp, def, now, delay)
  {
    FirstAfterBracket(s, now - delay, i, 0);
    assert s[i].Key <= s[|s| - 1].Key;
  }

  /** The search as written, on every available target with at least three
      samples: past the newest sample it throws, on an arrival time it
      never returns, and otherwise it reads as intended. */
  lemma DelayedAtSearch<T>(s: seq<Sample<T>>, interp: Option<Interp<T>>, def: T, now: real, delay: real)
    requires Sorted(s) && 3 <= |s| && delay > 0.0 && !(delay > now) && now - delay >= s[0].Key
    ensures now - delay > s[|s| - 1].Key ==> DelayedAt(s, interp, def, now, delay).0.value == Throws(ArgumentOutOfRange)
    ensures now - delay <= s[|s| - 1].Key && IsKey(s, now - delay) ==> DelayedAt(s, interp, def, now, delay).0.value == Diverges
    ensures now - delay < s[|s| - 1].Key && !IsKey(s, now - delay) ==>
      DelayedAt(s, interp, def, now, delay).0 == IntendedAt(s, interp, def, now, delay)
  {
    BracketOutcome(s, now - delay);
    IntendedAgrees(s, interp, def, now, delay);
  }

  // ------------------------------------------------ The scan it replaced

  /** The linear scan left commented out after the search: from pair `i`
      down to pair 1, the first pair that strictly brackets `t`. */
  function ScanFrom<T>(s: seq<Sample<T>>, t: real, i: int): (r: Option<int>)
    requires i < |s|
    ensures r.Some? ==> 1 <= r.value <= i && s[r.value - 1].Key < t < s[r.value].Key
    ensures r.None? ==> forall j :: 1 <= j <= i ==> !(s[j - 1].Key < t < s[j].Key)
    decreases i
  {
    if i < 1 then None
    else if s[i - 1].Key < t < s[i].Key then Some(i)
    else ScanFrom(s, t, i - 1)
  }

  /** GetAt with the commented-out scan in place of the search: the same
      early returns, then the bracketing pair, or the newest frame when no
      pair brackets the target. */
  function ScannedAt<T>(s: seq<Sample<T>>, interp: Option<Interp<T>>, def: T, now: real, delay: real): (r: Reading<T>)
    requires Sorted(s)
    ensures 3 <= |s| && interp.Some? ==> r.value.Returns?
  {
    var target := now - delay;
    if |s| < 3 || delay <= 0.0 || delay > now || target < s[0].Key then DelayedAt(s, interp, def, now, delay).0
    else match ScanFrom(s, target, |s| - 1)
      case None => Reading(Returns(s[|s| - 1].Frame), false)
      case Some(i) => Reading(Interpolated(interp, s[i - 1], s[i], target), false)
  }

  /** On sorted samples at most one pair brackets a target strictly. */
  lemma BracketsApart<T>(s: seq<Sample<T>>, t: real, i: int, j: int)
    requires Sorted(s) && 1 <= i < j < |s|
    ensures !(s[i - 1].Key < t < s[i].Key && s[j - 1].Key < t < s[j].Key)
  {
    assert s[i].Key <= s[j - 1].Key;
  }

  /** A target that is an arrival time lies in no pair strictly. */
  lemma KeyUnbracketed<T>(s: seq<Sample<T>>, t: real, j: int)
    requires Sorted(s) && IsKey(s, t) && 1 <= j < |s|
    ensures !(s[j - 1].Key < t < s[j].Key)
  {
    var k :| 0 <= k < |s| && s[k].Key == t;
    if k <= j - 1 {
      assert s[k].Key <= s[j - 1].Key;
    } else {
      assert s[j].Key <= s[k].Key;
    }
  }

  /** No sample arrived before the oldest one. */
  lemma KeyNotBeforeFirst<T>(s: seq<Sample<T>>, t: real)
    requires Sorted(s) && IsKey(s, t)
    ensures s[0].Key <= t
  {
    var k :| 0 <= k < |s| && s[k].Key == t;
    assert s[0].Key <= s[k].Key;
  }

  /** The scan finds no pair around an arrival time. */
  lemma ScanAtKey<T>(s: seq<Sample<T>>, t: real)
    requires Sorted(s) && IsKey(s, t)
    ensures ScanFrom(s, t, |s| - 1).None?
  {
    var found := ScanFrom(s, t, |s| - 1);
    if found.Some? {
      KeyUnbracketed(s, t, found.value);
    }
  }

  /** The scan finds the one pair that brackets the target. */
  lemma ScanAtBracket<T>(s: seq<Sample<T>>, t: real, i: int)
    requires Sorted(s) && 1 <= i < |s| && s[i - 1].Key < t < s[i].Key
    ensures ScanFrom(s, t, |s| - 1) == Some(i)
  {
    var found := ScanFrom(s, t, |s| - 1);
    if found.Some? && found.value < i {
      BracketsApart(s, t, found.value, i);
    }
  }

  /** The scan and the model's intended reading agree except at an arrival
      time before the newest one (see ScanAtArrival). */
  lemma ScanMatchesIntended<T>(s: seq<Sample<T>>, interp: Option<Interp<T>>, def: T, now: real, delay: real)
    requires Sorted(s)
    ensures !IsKey(s, now - delay) || now - delay >= s[|s| - 1].Key ==>
      ScannedAt(s, interp, def, now, delay) == IntendedAt(s, interp, def, now, delay)
  {
    var target := now - delay;
    if 3 <= |s| && 0.0 < delay <= now && target >= s[0].Key {
      if IsKey(s, target) {
        ScanAtKey(s, target);
      } else if target < s[|s| - 1].Key {
        var i := FirstAfter(s, target, 0);
        assert 1 <= i < |s| && s[i - 1].Key != target;
        ScanAtBracket(s, target, i);
      }
    }
  }

  /** At an arrival time the scan finds no pair and gives the newest frame,
      where the intended reading takes the sample that arrived then. */
  lemma ScanAtArrival<T>(s: seq<Sample<T>>, interp: Option<Interp<T>>, def: T, now: real, delay: real)
    requires Sorted(s)
    ensures IsKey(s, now - delay) && 3 <= |s| && 0.0 < delay <= now ==>
      ScannedAt(s, interp, def, now, delay) == Reading(Returns(s[|s| - 1].Frame), false)
  {
    var target := now - delay;
    if IsKey(s, target) && 3 <= |s| && 0.0 < delay <= now {
      KeyNotBeforeFirst(s, target);
      ScanAtKey(s, target);
    }
  }

  /** Wherever the search as written comes back with a value, the scan it
      replaced gives the same reading. */
  lemma ScanAgrees<T>(s: seq<Sample<T>>, interp: Option<Interp<T>>, def: T, now: real, delay: real)
    requires Sorted(s)
    ensures var written := DelayedAt(s, interp, def, now, delay).0;
      written.value.Diverges? || written.value == Throws(ArgumentOutOfRange) || written == ScannedAt(s, interp, def, now, delay)
  {
    var target := now - delay;
    IntendedAgrees(s, interp, def, now, delay);
    if 3 <= |s| && delay > 0.0 && !(delay > now) && target >= s[0].Key {
      DelayedAtSearch(s, interp, def, now, delay);
    }
    ScanMatchesIntended(s, interp, def, now, delay);
  }

  /** Four samples ten milliseconds apart. */
  function Ramp(): seq<Sample<real>>
  {
    [Sample(0.0, 1.0), Sample(10.0, 2.0), Sample(20.0, 3.0), Sample(30.0, 4.0)]
  }

  /** Reading 30 ms back at 40 ms asks for the second arrival exactly, and
      the search never comes back; the model's intended reading gives that
      sample's value. */
  lemma ArrivalTimeSpins(interp: Interp<real>)
    ensures DelayedAt(Ramp(), Some(interp), 0.0, 40.0, 30.0).0 == Reading(Diverges, false)
    ensures IntendedAt(Ramp(), Some(interp), 0.0, 40.0, 30.0) == Reading(Returns(interp(2.0, 3.0, 0.0)), false)
  {
    var s := Ramp();
    assert Sorted(s);
    assert s[1].Key == 40.0 - 30.0;
    DelayedAtSearch(s, Some(interp), 0.0, 40.0, 30.0);
    assert FirstAfter(s, 10.0, 2) == 2;
    assert |s| == 4 && s[0].Key == 0.0 && s[1].Key == 10.0 && s[2].Key == 20.0;
    assert FirstAfter(s, 10.0, 1) == FirstAfter(s, 10.0, 2);
    assert FirstAfter(s, 10.0, 0) == FirstAfter(s, 10.0, 1);
    assert (10.0 - s[1].Key) / (s[2].Key - s[1].Key) == 0.0;
    assert Interpolated(Some(interp), s[1], s[2], 10.0) == Returns(interp(2.0, 3.0, 0.0));
  }

  /** The same read with the scan the search replaced gives the newest
      frame, since no pair brackets an arrival time strictly. */
  lemma ArrivalTimeScansNewest(interp: Interp<real>)
    ensures ScannedAt(Ramp(), Some(interp), 0.0, 40.0, 30.0) == Reading(Returns(4.0), false)
  {
    var s := Ramp();
    assert Sorted(s);
    assert s[1].Key == 40.0 - 30.0;
    ScanAtArrival(s, Some(interp), 0.0, 40.0, 30.0);
  }

  /** Reading 2 ms back at 35 ms asks for a moment after the newest
      arrival, and the list indexer throws; the intended reading and the
      scan both give the newest value. */
  lemma PastNewestThrows(interp: Interp<real>)
    ensures DelayedAt(Ramp(), Some(interp), 0.0, 35.0, 2.0).0 == Reading(Throws(ArgumentOutOfRange), false)
    ensures IntendedAt(Ramp(), Some(interp), 0.0, 35.0, 2.0) == Reading(Returns(4.0), false)
    ensures ScannedAt(Ramp(), Some(interp), 0.0, 35.0, 2.0) == Reading(Returns(4.0), false)
  {
    var s := Ramp();
    assert Sorted(s);
    DelayedAtSearch(s, Some(interp), 0.0, 35.0, 2.0);
    ScanMatchesIntended(s, Some(interp), 0.0, 35.0, 2.0);
  }

  /** With exactly two samples nothing checks that the target lies between
      them: 15 ms after the older of two samples 10 ms apart blends with
      weight 1.5, and two samples with one arrival time give the NaN weight
      of 0 / 0. */
  lemma TwoSamplesUnbracketed(interp: Interp<real>)
    ensures DelayedAt([Sample(0.0, 1.0), Sample(10.0, 2.0)], Some(interp), 0.0, 17.0, 2.0).0 ==
      Reading(Returns(interp(1.0, 2.0, 1.5)), false)
    ensures DelayedAt([Sample(5.0, 1.0), Sample(5.0, 2.0)], Some(interp), 0.0, 7.0, 2.0).0 ==
      Reading(Throws(NotANumber), false)
  {
    assert Sorted([Sample(0.0, 1.0), Sample(10.0, 2.0)]);
    assert Sorted([Sample(5.0, 1.0), Sample(5.0, 2.0)]);
    assert (15.0 - 0.0) / (10.0 - 0.0) == 1.5;
  }

  lemma SuffixSorted<T>(s: seq<Sample<T>>, k: int)
    requires Sorted(s) && 0 <= k <= |s|
    ensures Sorted(s[k..])
  {
    forall i, j | 0 <= i < j < |s| - k
      ensures s[k..][i].Key <= s[k..][j].Key
    {
      assert s[k..][i] == s[k + i] && s[k..][j] == s[k + j];
    }
  }

  lemma AppendSorted<T>(s: seq<Sample<T>>, x: Sample<T>)
    requires Sorted(s) && (|s| > 0 ==> s[|s| - 1].Key <= x.Key)
    ensures Sorted(s + [x])
  {
    forall i, j | 0 <= i < j < |s| + 1
      ensures (s + [x])[i].Key <= (s + [x])[j].Key
    {
      if j == |s| {
        assert s[i].Key <= s[|s| - 1].Key;
      }
    }
  }

  /** A round that moves the cursors leaves the search's outcome as it was. */
  lemma BracketStep<T>(s: seq<Sample<T>>, t: real, i: int, lo: int, hi: int, rounds: nat)
    requires SearchInv(s, t, i, lo, hi) && i < |s|
    requires !(s[i - 1].Key < t < s[i].Key) && (t > s[i].Key || t < s[i - 1].Key)
    ensures var (i', lo', hi') := NextCursor(s, t, i, lo, hi);
      SearchInv(s, t, i', lo', hi') && (hi' - lo' < hi - lo || (hi' - lo' == hi - lo && i' < i))
      && Bracket(s, t, i, lo, hi, rounds) == Bracket(s, t, i', lo', hi', rounds + 1)
  {
    NextCursorProgress(s, t, i, lo, hi);
  }

  /** One round's cursor moves: up past the current sample, then down
      below the previous one, each by half the remaining span rounded up. */
  method MoveCursors<T>(s: seq<Sample<T>>, t: real, i0: int, lo0: int, hi0: int) returns (i: int, lo: int, hi: int)
    requires 1 <= i0 < |s|
    ensures (i, lo, hi) == NextCursor(s, t, i0, lo0, hi0)
  {
    i, lo, hi := i0, lo0, hi0;
    var cs := s[i];
    var ps := s[i - 1];
    if t > cs.Key {
      lo := i;
      i := i + Ceiling((hi - i) as real / 2.0);
    }
    if t < ps.Key {
      hi := i;
      i := i - Ceiling((i - lo) as real / 2.0);
    }
  }

  /** The loop of GetAt on the samples `s`, counting its rounds. */
  method RunBracket<T>(s: seq<Sample<T>>, t: real) returns (found: Outcome<int>, rounds: nat)
    requires SearchInv(s, t, |s| / 2, 0, |s|)
    ensures !found.Diverges? ==> (found, rounds) == Bracket(s, t, |s| / 2, 0, |s|, 0)
    ensures found.Diverges? ==> Bracket(s, t, |s| / 2, 0, |s|, 0).0 == Diverges
  {
    var i := Floor(|s| as real / 2.0);
    assert i == |s| / 2;
    var lo := 0;
    var hi := |s|;
    rounds := 0;
    while true
      invariant SearchInv(s, t, i, lo, hi)
      invariant Bracket(s, t, |s| / 2, 0, |s|, 0) == Bracket(s, t, i, lo, hi, rounds)
      decreases hi - lo, i
    {
      if i >= |s| {
        return Throws(ArgumentOutOfRange), rounds + 1;
      }
      var cs := s[i];
      var ps := s[i - 1];
      if t > ps.Key && t < cs.Key {
        return Returns(i), rounds + 1;
      }
      if !(t > cs.Key) && !(t < ps.Key) {
        // nothing moves, so every later round is this one again
        return Diverges, rounds + 1;
      }
      BracketStep(s, t, i, lo, hi, rounds);
      i, lo, hi := MoveCursors(s, t, i, lo, hi);
      rounds := rounds + 1;
    }
  }

  // ------------------------------------------------------------ The class

  class Delay<T> {
    var Interpolator: Option<Interp<T>>
    var Copier: Option<T -> T>
    var Default: T
    var Samples: seq<Sample<T>>
    /** Capacity.TotalMilliseconds */
    var Capacity: real
    var Iterations: int

    /** Submissions arrive in clock order. */
    predicate Valid()
      reads this
    {
      Sorted(Samples)
    }

    /** Delay(capacity, interp, def, copier): never throws. */
    constructor (capacity: real, interp: Option<Interp<T>>, def: T, copier: Option<T -> T>)
      ensures Valid() && Samples == [] && Iterations == 0
      ensures Capacity == capacity && Interpolator == interp && Default == def && Copier == copier
    {
      Capacity := capacity;
      Interpolator := interp;
      Copier := copier;
      Default := def;
      Samples := [];
      Iterations := 0;
    }

    /** Submit(val) at clock reading `now`: evict from the front while the
        oldest sample is at least Capacity old, then append. */
    method Submit(val: T, now: real)
      requires Valid() && (|Samples| > 0 ==> Samples[|Samples| - 1].Key <= now)
      modifies this
      ensures Valid()
      ensures Samples == DropAged(old(Samples), now, Capacity) + [Sample(now, Stored(Copier, val))]
      ensures Capacity == old(Capacity) && Interpolator == old(Interpolator) && Copier == old(Copier)
      ensures Default == old(Default) && Iterations == old(Iterations)
    {
      var kept := Evict(Samples, now, Capacity);
      DropAgedSuffix(Samples, now, Capacity);
      SuffixSorted(Samples, |Samples| - |kept|);
      assert |kept| > 0 ==> kept[|kept| - 1] == Samples[|Samples| - 1];
      var actual := if Copier.None? then val else Copier.value(val);
      AppendSorted(kept, Sample(now, actual));
      Samples := kept + [Sample(now, actual)];
    }

    /** GetAt(delaytime, out unavailable) at clock reading `now`. */
    method GetAt(delay: real, now: real) returns (o: Outcome<T>, unavailable: bool)
      requires Valid()
      modifies this
      ensures Reading(o, unavailable) == DelayedAt(old(Samples), Interpolator, Default, now, delay).0
      ensures !o.Diverges? ==> Iterations == match DelayedAt(old(Samples), Interpolator, Default, now, delay).1
        case None => old(Iterations)
        case Some(rounds) => rounds
      ensures Valid() && Samples == old(Samples)
      ensures Capacity == old(Capacity) && Interpolator == old(Interpolator) && Copier == old(Copier) && Default == old(Default)
    {
      var absdeltime := now - delay;
      unavailable := true;
      if |Samples| == 0 {
        return Returns(Default), unavailable;
      }
      unavailable := delay > now || absdeltime < Samples[0].Key;
      if unavailable {
        return Returns(Samples[0].Frame), unavailable;
      }
      if delay <= 0.0 {
        return Returns(Samples[|Samples| - 1].Frame), unavailable;
      }
      if |Samples| == 1 {
        return Returns(Samples[0].Frame), unavailable;
      }
      if |Samples| == 2 {
        o := Interpolated(Interpolator, Samples[0], Samples[1], absdeltime);
        return o, unavailable;
      }
      o := GetSearched(delay, now);
    }

    /** GetAt past its shortcuts: at least three samples and a target
        inside the buffered span, so the search runs. */
    method GetSearched(delay: real, now: real) returns (o: Outcome<T>)
      requires Valid() && 3 <= |Samples| && 0.0 < delay <= now && Samples[0].Key <= now - delay
      modifies this
      ensures Reading(o, false) == DelayedAt(old(Samples), Interpolator, Default, now, delay).0
      ensures !o.Diverges? ==> Iterations == DelayedAt(old(Samples), Interpolator, Default, now, delay).1.value
      ensures Valid() && Samples == old(Samples)
      ensures Capacity == old(Capacity) && Interpolator == old(Interpolator) && Copier == old(Copier) && Default == old(Default)
    {
      var absdeltime := now - delay;
      var found := SearchBracket(absdeltime);
      match found
      case Returns(i) =>
        o := Interpolated(Interpolator, Samples[i - 1], Samples[i], absdeltime);
      case Throws(f) =>
        o := Throws(f);
      case Diverges =>
        o := Diverges;
    }

    /** The search loop of GetAt, for a target not before the first sample
        and at least three samples; it counts its rounds in Iterations. */
    method SearchBracket(absdeltime: real) returns (found: Outcome<int>)
      requires SearchInv(Samples, absdeltime, |Samples| / 2, 0, |Samples|)
      modifies this
      ensures Samples == old(Samples) && Capacity == old(Capacity) && Interpolator == old(Interpolator)
      ensures Copier == old(Copier) && Default == old(Default)
      ensures !found.Diverges? ==> (found, Iterations) == Bracket(Samples, absdeltime, |Samples| / 2, 0, |Samples|, 0)
      ensures found.Diverges? ==> Bracket(Samples, absdeltime, |Samples| / 2, 0, |Samples|, 0).0 == Diverges
    {
      var rounds;
      found, rounds := RunBracket(Samples, absdeltime);
      Iterations := rounds;
    }

    /** Update(val, delaytime): Submit, then GetAt at the same clock reading. */
    method Update(val: T, delay: real, now: real) returns (o: Outcome<T>, unavailable: bool)
      requires Valid() && (|Samples| > 0 ==> Samples[|Samples| - 1].Key <= now)
      modifies this
      ensures Valid()
      ensures Samples == DropAged(old(Samples), now, Capacity) + [Sample(now, Stored(Copier, val))]
      ensures Reading(o, unavailable) == DelayedAt(Samples, Interpolator, Default, now, delay).0
      ensures !o.Diverges? ==> Iterations == match DelayedAt(Samples, Interpolator, Default, now, delay).1
        case None => old(Iterations)
        case Some(rounds) => rounds
      ensures Capacity == old(Capacity) && Interpolator == old(Interpolator) && Copier == old(Copier) && Default == old(Default)
    {
      Submit(val, now);
      o, unavailable := GetAt(delay, now);
    }
  }

  /** The registry constructor Delay(capacity): T needs its own entry in
      the tape metadata table, otherwise it throws. */
  method NewDelayFromRegistry<T>(utils: TapeUtils<T>, capacity: real) returns (o: Outcome<Delay<T>>)
    ensures o.Throws? <==> !(utils.self in utils.typeMeta && utils.typeMeta[utils.self].OfType?)
    ensures o.Throws? ==> o.fault == TypeNotFoundInStaticTable
    ensures o.Diverges? == false
    ensures o.Returns? ==> fresh(o.value) && o.value.Valid() && o.value.Samples == [] && o.value.Capacity == capacity
    ensures o.Returns? ==> var m := utils.typeMeta[utils.self].meta;
      o.value.Interpolator == m.Interpolator && o.value.Default == m.Default && o.value.Copier == m.Copier
  {
    var tag := utils.self;
    if tag in utils.typeMeta {
      match utils.typeMeta[tag]
      case OfType(m) =>
        var d := new Delay(capacity, m.Interpolator, m.Default, m.Copier);
        return Returns(d);
      case OfOtherType =>
        return Throws(TypeNotFoundInStaticTable);
    }
    return Throws(TypeNotFoundInStaticTable);
  }
}
