/** Scalar helpers of UnMath.cs: modulo, clamping, linear interpolation and
    the range-mapping function with its four modes.  Doubles and floats are
    exact reals here; C# `long`/`int` are unbounded integers except where a
    wrap-around or an exception of the 32-bit operation matters. */
module UnMath {
  import opened Wrappers
  import opened DotNet

  /** How Ratio treats an input outside [start, end]. */
  datatype MapMode = Float | Clamp | Wrap | Mirror

  // ---------------------------------------------------------------- Zmod

  /** Zmod(z, d): a remainder that is never negative for d > 0, built on the
      C# truncating `%`.  `%` by zero throws; so does int.MinValue % -1. */
  function Zmod(z: int, d: int): (r: Outcome<int>)
    requires IsInt32(z) && IsInt32(d)
    ensures r.Throws? <==> d == 0 || (z == Int32Min && d == -1)
    ensures r.Throws? ==> r.fault == (if d == 0 then DivideByZero else Overflow)
    ensures d > 0 ==> r.Returns? && 0 <= r.value < d && r.value == z % d
  {
    if d == 0 then Throws(DivideByZero)
    else if z == Int32Min && d == -1 then Throws(Overflow)
    else
      if d > 0 then ZmodPositive(z, d); Returns(ZmodValue(z, d))
      else Returns(ZmodValue(z, d))
  }

  /** The three branches of Zmod once `%` cannot throw. */
  function ZmodValue(z: int, d: int): int
    requires d != 0
  {
    if z >= d then Rem(z, d)
    else if z < 0 then
      var remainder := Rem(z, d);
      if remainder == 0 then 0 else WrapInt32(remainder + d)
    else z
  }

  /** For a positive divisor every branch gives the Euclidean remainder. */
  lemma ZmodPositive(z: int, d: int)
    requires IsInt32(z) && IsInt32(d) && d > 0
    ensures 0 <= ZmodValue(z, d) < d && ZmodValue(z, d) == z % d
  {
    if z >= d {
      EuclidUnique(z, d, Quot(z, d), Rem(z, d));
    } else if z < 0 {
      var q, remainder := Quot(z, d), Rem(z, d);
      if remainder == 0 {
        EuclidUnique(z, d, q, 0);
      } else {
        assert (q - 1) * d + (remainder + d) == q * d + remainder;
        EuclidUnique(z, d, q - 1, remainder + d);
      }
    } else {
      EuclidUnique(z, d, 0, z);
    }
  }

  /** Quotient and remainder of a division by a positive divisor are unique. */
  lemma EuclidUnique(z: int, d: int, q: int, r: int)
    requires d > 0 && 0 <= r < d && z == q * d + r
    ensures r == z % d
  {
    var q0, r0 := z / d, z % d;
    assert (q - q0) * d == r0 - r;
    if q > q0 {
      MulAtLeast(q - q0, d);
    } else if q < q0 {
      MulAtLeast(q0 - q, d);
    }
  }

  lemma MulAtLeast(k: int, d: int)
    requires k >= 1 && d > 0
    ensures k * d >= d
  {
    assert k * d == (k - 1) * d + d;
    assert (k - 1) * d >= 0;
  }

  /** The example of the documentation comment. */
  lemma ZmodExample()
    ensures Zmod(-2, 30) == Returns(28)
  {
    assert Quot(-2, 30) == 0;
  }

  // ---------------------------------------------------------------- Clamp

  function Min(a: real, b: real): real { if a <= b then a else b }
  function Max(a: real, b: real): real { if a >= b then a else b }

  /** Clamp(x, min, max) for double and float: into [min..max], whichever
      order the bounds come in. */
  function ClampReal(x: real, lo: real, hi: real): (r: real)
    ensures Min(lo, hi) <= r <= Max(lo, hi)
    ensures Min(lo, hi) <= x <= Max(lo, hi) ==> r == x
    ensures x < Min(lo, hi) ==> r == Min(lo, hi)
    ensures x > Max(lo, hi) ==> r == Max(lo, hi)
  {
    Min(Max(x, Min(lo, hi)), Max(lo, hi))
  }

  function MinInt(a: int, b: int): int { if a <= b then a else b }
  function MaxInt(a: int, b: int): int { if a >= b then a else b }

  /** Clamp(x, min, max) for int and long. */
  function ClampInt(x: int, lo: int, hi: int): (r: int)
    ensures MinInt(lo, hi) <= r <= MaxInt(lo, hi)
    ensures MinInt(lo, hi) <= x <= MaxInt(lo, hi) ==> r == x
    ensures x < MinInt(lo, hi) ==> r == MinInt(lo, hi)
    ensures x > MaxInt(lo, hi) ==> r == MaxInt(lo, hi)
  {
    MinInt(MaxInt(x, MinInt(lo, hi)), MaxInt(lo, hi))
  }

  /** Swapping the bounds never changes a clamp. */
  lemma ClampSymmetric(x: real, lo: real, hi: real, i: int, ilo: int, ihi: int)
    ensures ClampReal(x, lo, hi) == ClampReal(x, hi, lo)
    ensures ClampInt(i, ilo, ihi) == ClampInt(i, ihi, ilo)
  {
  }

  // ---------------------------------------------------------------- Frac / Fmod

  /** Frac(a) = a - Floor(a): the fractional part. */
  function Frac(a: real): (r: real)
    ensures 0.0 <= r < 1.0
    ensures (a - r).Floor as real == a - r
  {
    a - Floor(a) as real
  }

  /** Fmod(a, b) = Frac(a / b) * b.  A zero divisor gives NaN in C#; it is
      excluded here and handled by the callers that can meet it. */
  function Fmod(a: real, b: real): (r: real)
    requires b != 0.0
    ensures b > 0.0 ==> 0.0 <= r < b
    ensures b < 0.0 ==> b < r <= 0.0
    ensures ((a - r) / b).Floor as real == (a - r) / b
  {
    var q := a / b;
    var f := Frac(q);
    SubMulDiv(a, b, f);
    ScaleUnit(f, b);
    FmodQuotient(q, f, (a - f * b) / b);
    f * b
  }

  lemma FmodQuotient(q: real, f: real, k: real)
    requires (q - f).Floor as real == q - f && k == q - f
    ensures k.Floor as real == k
  {
  }

  lemma SubMulDiv(a: real, b: real, f: real)
    requires b != 0.0
    ensures (a - f * b) / b == a / b - f
  {
    var q := a / b;
    assert q * b == a;
    assert a - f * b == (q - f) * b;
    DivCancel(q - f, b);
  }

  // ---------------------------------------------------------------- Lerp / Ratio / Map

  lemma MulBelow(x: real, y: real, c: real)
    requires 0.0 <= x < y && c > 0.0
    ensures 0.0 <= x * c < y * c
  {
  }

  lemma MulStrict(x: real, y: real, c: real)
    requires c > 0.0
    ensures x < y ==> x * c < y * c
  {
    if x < y {
      assert (y - x) * c > 0.0;
      assert (y - x) * c == y * c - x * c;
    }
  }

  lemma ScaleUnit(f: real, b: real)
    requires 0.0 <= f < 1.0 && b != 0.0
    ensures b > 0.0 ==> 0.0 <= f * b < b
    ensures b < 0.0 ==> b < f * b <= 0.0
  {
    if b > 0.0 {
      MulBelow(f, 1.0, b);
    } else {
      MulBelow(f, 1.0, -b);
      assert f * (-b) == -(f * b);
    }
  }

  lemma LerpWithin(a: real, b: real, x: real)
    requires 0.0 <= x <= 1.0
    ensures Min(a, b) <= a + x * (b - a) <= Max(a, b)
  {
    var c := if a <= b then b - a else a - b;
    var p := x * c;
    MulWithin(x, c);
    assert 0.0 <= p <= c;
    assert a + x * (b - a) == if a <= b then a + p else a - p;
  }

  lemma DivCancel(x: real, w: real)
    requires w != 0.0
    ensures w / w == 1.0 && (x * w) / w == x && (x / w) * w == x
  {
  }

  lemma DivUnit(x: real, d: real)
    requires 0.0 <= x <= d && d > 0.0
    ensures 0.0 <= x / d <= 1.0
  {
    var q := x / d;
    assert q * d == x;
    assert (1.0 - q) * d == d - x;
  }

  lemma MulWithin(x: real, c: real)
    requires 0.0 <= x <= 1.0
    ensures c >= 0.0 ==> 0.0 <= x * c <= c
    ensures c < 0.0 ==> c <= x * c <= 0.0
  {
    if c >= 0.0 {
      assert x * c <= 1.0 * c;
    } else {
      assert x * (-c) <= 1.0 * (-c);
    }
  }

  /** Lerp(a, b, x) = a + x * (b - a). */
  function Lerp(a: real, b: real, x: real): (r: real)
    ensures x == 0.0 ==> r == a
    ensures x == 1.0 ==> r == b
    ensures 0.0 <= x <= 1.0 ==> Min(a, b) <= r <= Max(a, b)
  {
    if 0.0 <= x <= 1.0 then LerpWithin(a, b, x); a + x * (b - a)
    else a + x * (b - a)
  }

  /** Ratio: the position of `input` relative to [start, end], where 0 is
      start and 1 is end, then bounded according to `mode`. */
  function Ratio(input: real, start: real, end: real, mode: MapMode): (r: real)
    ensures end == start ==> r == 0.0
    ensures end != start && mode == MapMode.Float ==> r == (input - start) / (end - start)
    ensures end != start && mode == MapMode.Clamp ==> r == ClampReal((input - start) / (end - start), 0.0, 1.0)
    ensures mode == MapMode.Clamp ==> 0.0 <= r <= 1.0
    ensures mode == MapMode.Wrap ==> 0.0 <= r < 1.0
    ensures end != start && mode == MapMode.Wrap ==> r == Frac((input - start) / (end - start))
    ensures mode == MapMode.Mirror ==> 0.0 <= r <= 1.0
  {
    if end == start then 0.0
    else
      var ratio := (input - start) / (end - start);
      match mode
      case Float => ratio
      case Clamp => if ratio < 0.0 then 0.0 else if ratio > 1.0 then 1.0 else ratio
      case Wrap =>
        var rangeCount := Floor(ratio);
        ratio - rangeCount as real
      case Mirror => MirrorFold(ratio)
  }

  /** The Mirror mode of Ratio on an unbounded ratio: even periods are
      kept, odd periods reflected.  `rangeCount & 1` on a two's-complement
      int is its Euclidean remainder by 2. */
  function MirrorFold(ratio: real): (r: real)
    ensures 0.0 <= r <= 1.0
  {
    var rangeCount := Floor(ratio);
    var even := rangeCount - rangeCount % 2;
    var folded := ratio - even as real;
    if folded > 1.0 then 2.0 - folded else folded
  }

  /** Ratio as written: in Wrap and Mirror mode the whole part of the
      ratio is converted to an `int` before it is subtracted, so a ratio
      beyond the int range is no longer brought back into [0, 1]. */
  function RatioAsWritten(input: real, start: real, end: real, mode: MapMode): (r: real)
    ensures !mode.Wrap? && !mode.Mirror? ==> r == Ratio(input, start, end, mode)
    ensures end == start || IsInt32(Floor((input - start) / (end - start))) ==> r == Ratio(input, start, end, mode)
  {
    if end == start then 0.0
    else
      var ratio := (input - start) / (end - start);
      match mode
      case Float => ratio
      case Clamp => if ratio < 0.0 then 0.0 else if ratio > 1.0 then 1.0 else ratio
      case Wrap =>
        var rangeCount := ToInt32(Floor(ratio));
        ratio - rangeCount as real
      case Mirror =>
        var rangeCount := ToInt32(Floor(ratio));
        var even := rangeCount - rangeCount % 2;
        var folded := ratio - even as real;
        if folded > 1.0 then 2.0 - folded else folded
  }

  /** Ten billion ranges past the start, the int conversion overflows
      whatever int it yields: Wrap mode gives a ratio of at least 1 and
      Mirror mode a negative one, where the fractional part is 0. */
  lemma RatioCastOverflows()
    ensures RatioAsWritten(1e10, 0.0, 1.0, MapMode.Wrap) >= 1.0
    ensures RatioAsWritten(1e10, 0.0, 1.0, MapMode.Mirror) < 0.0
    ensures Ratio(1e10, 0.0, 1.0, MapMode.Wrap) == 0.0
  {
    var ratio := (1e10 - 0.0) / (1.0 - 0.0);
    assert ratio == 1e10;
    var rangeCount := ToInt32(Floor(ratio));
    assert rangeCount <= Int32Max;
    assert rangeCount - rangeCount % 2 <= Int32Max;
    assert Floor(1e10) == 10000000000;
  }

  /** Map: transform `input` from [inMin, inMax] to [outMin, outMax]. */
  function Map(input: real, inMin: real, inMax: real, outMin: real, outMax: real, mode: MapMode): (r: real)
    ensures inMin == inMax ==> r == outMin
    ensures !mode.Float? ==> Min(outMin, outMax) <= r <= Max(outMin, outMax)
  {
    Lerp(outMin, outMax, Ratio(input, inMin, inMax, mode))
  }

  /** An empty input range maps everything to OutMin, and every mode but
      Float keeps the result within the output range. */
  lemma MapBounds(input: real, inMin: real, inMax: real, outMin: real, outMax: real, mode: MapMode)
    ensures inMin == inMax ==> Map(input, inMin, inMax, outMin, outMax, mode) == outMin
    ensures !mode.Float? ==> Min(outMin, outMax) <= Map(input, inMin, inMax, outMin, outMax, mode) <= Max(outMin, outMax)
  {
  }

  /** In Float mode Map sends the ends of the input range to the ends of the
      output range, and undoes a Lerp over the input range. */
  lemma MapFloatInvertsLerp(inMin: real, inMax: real, outMin: real, outMax: real, x: real)
    requires inMin != inMax
    ensures Map(inMin, inMin, inMax, outMin, outMax, MapMode.Float) == outMin
    ensures Map(inMax, inMin, inMax, outMin, outMax, MapMode.Float) == outMax
    ensures Ratio(Lerp(inMin, inMax, x), inMin, inMax, MapMode.Float) == x
    ensures Map(Lerp(inMin, inMax, x), inMin, inMax, outMin, outMax, MapMode.Float) == Lerp(outMin, outMax, x)
  {
    var w := inMax - inMin;
    DivCancel(x, w);
    assert (Lerp(inMin, inMax, x) - inMin) == x * w;
  }

  /** In Mirror mode the map is a triangle wave: inside one period it is
      the identity on the way up and the reflection on the way down. */
  lemma MirrorFolds(input: real, start: real, end: real)
    requires start < end
    ensures start <= input <= end ==> Ratio(input, start, end, MapMode.Mirror) == (input - start) / (end - start)
    ensures end < input <= 2.0 * end - start ==> Ratio(input, start, end, MapMode.Mirror) == 2.0 - (input - start) / (end - start)
  {
    var ratio := (input - start) / (end - start);
    RatioBounds(input, start, end);
    MirrorFoldPeriod(ratio);
  }

  /** Where the input lies against the range tells where the ratio lies against [0, 2]. */
  lemma RatioBounds(input: real, start: real, end: real)
    requires start < end
    ensures start <= input <= end ==> 0.0 <= (input - start) / (end - start) <= 1.0
    ensures end < input <= 2.0 * end - start ==> 1.0 < (input - start) / (end - start) <= 2.0
  {
    var x, w := input - start, end - start;
    if start <= input <= end {
      DivUnit(x, w);
    }
    if end < input <= 2.0 * end - start {
      RatioAbove(x, w);
    }
  }

  lemma RatioAbove(x: real, d: real)
    requires d > 0.0 && d < x <= 2.0 * d
    ensures 1.0 < x / d <= 2.0
  {
    DivShift(x - d, d, 1.0);
    assert x - d + 1.0 * d == x;
    DivUnit(x - d, d);
    assert (x - d) / d != 0.0 by {
      assert ((x - d) / d) * d == x - d;
    }
  }

  /** The fold inside the first two periods. */
  lemma MirrorFoldPeriod(ratio: real)
    ensures 0.0 <= ratio <= 1.0 ==> MirrorFold(ratio) == ratio
    ensures 1.0 < ratio <= 2.0 ==> MirrorFold(ratio) == 2.0 - ratio
  {
    if 0.0 <= ratio < 1.0 {
      assert Floor(ratio) == 0;
    } else if ratio == 1.0 {
      assert Floor(ratio) == 1;
    } else if 1.0 < ratio < 2.0 {
      assert Floor(ratio) == 1;
    } else if ratio == 2.0 {
      assert Floor(ratio) == 2;
    }
  }

  /** Whole periods do not change the fractional part, Fmod by the same
      divisor, or the mirror fold of a ratio shifted by two. */
  lemma FracShift(x: real, k: int)
    ensures Frac(x + k as real) == Frac(x)
  {
    assert Floor(x + k as real) == Floor(x) + k;
  }

  lemma DivShift(a: real, b: real, k: real)
    requires b != 0.0
    ensures (a + k * b) / b == a / b + k
  {
    var q := a / b;
    assert q * b == a;
    assert (q + k) * b == a + k * b;
  }

  lemma FmodPeriodic(a: real, b: real)
    requires b != 0.0
    ensures Fmod(a + b, b) == Fmod(a, b)
  {
    DivShift(a, b, 1.0);
    FracShift(a / b, 1);
  }

  lemma MirrorFoldPeriodic(ratio: real)
    ensures MirrorFold(ratio + 2.0) == MirrorFold(ratio)
  {
    var f := Floor(ratio);
    assert Floor(ratio + 2.0) == f + 2;
    assert (f + 2) - (f + 2) % 2 == f - f % 2 + 2;
  }

  /** The mirror Map over [0, d] repeats every 2d. */
  lemma MirrorMapPeriodic(x: real, d: real)
    requires d != 0.0
    ensures Map(x + 2.0 * d, 0.0, d, 0.0, d, MapMode.Mirror) == Map(x, 0.0, d, 0.0, d, MapMode.Mirror)
  {
    DivShift(x, d, 2.0);
    MirrorFoldPeriodic(x / d);
  }

  // ---------------------------------------------------------------- Factorial

  /** The argument of the recursive call in Factorial: `Abs(n)`. */
  function FactorialCallArgument(n: int): int { Abs(n) }

  /** Factorial(n) => n == 0 ? 1 : Abs(n) * Factorial(Abs(n)).  For n != 0
      the recursive call is on Abs(n), which is again non-zero and maps to
      itself, so the recursion never reaches the base case and the call
      ends in a stack overflow. */
  function Factorial(n: int): (r: Outcome<int>)
    ensures r.Returns? <==> n == 0
    ensures r.Returns? ==> r.value == 1
  {
    if n == 0 then Returns(1) else Diverges
  }

  /** Why Factorial diverges: from any n != 0 the recursion reaches a
      non-zero argument that it calls again with the same argument. */
  lemma FactorialRecursesForever(n: int)
    requires n != 0
    ensures FactorialCallArgument(n) != 0
    ensures FactorialCallArgument(FactorialCallArgument(n)) == FactorialCallArgument(n)
  {
  }

  /** The product n * (n-1) * ... * 1 that the documentation promises, for |n|. */
  function FactorialIntended(n: int): (r: nat)
    decreases Abs(n)
    ensures r >= 1
  {
    if n == 0 then 1
    else
      var rest := FactorialIntended(Abs(n) - 1);
      MulAtLeast(Abs(n), rest);
      Abs(n) * rest
  }

  /** The intended factorial depends only on |n|. */
  lemma FactorialIntendedSymmetric(n: int)
    ensures FactorialIntended(n) == FactorialIntended(-n)
  {
  }

  /** The intended factorial of n is a multiple of every k in 1..|n|, as a
      product n * (n-1) * ... * 1 is. */
  lemma FactorialIntendedDivisible(n: int, k: int)
    requires 1 <= k <= Abs(n)
    ensures FactorialIntended(n) % k == 0
  {
    var q := FactorialIntendedQuotient(n, k);
    EuclidUnique(FactorialIntended(n), k, q, 0);
  }

  /** The cofactor of k in the intended factorial of n. */
  lemma {:induction false} FactorialIntendedQuotient(n: int, k: int) returns (q: int)
    requires 1 <= k <= Abs(n)
    ensures FactorialIntended(n) == q * k
    decreases Abs(n)
  {
    var m := Abs(n);
    var rest := FactorialIntended(m - 1);
    assert FactorialIntended(n) == m * rest;
    if k == m {
      q := rest;
    } else {
      var q0 := FactorialIntendedQuotient(m - 1, k);
      q := m * q0;
      calc {
        FactorialIntended(n);
        m * rest;
        m * (q0 * k);
        { MulAssoc(m, q0, k); }
        (m * q0) * k;
      }
    }
  }

  lemma MulAssoc(a: int, b: int, c: int)
    ensures a * (b * c) == (a * b) * c
  {
  }

  lemma FactorialIntendedValues()
    ensures FactorialIntended(0) == 1 && FactorialIntended(5) == 120 && FactorialIntended(-3) == 6
  {
  }
}
