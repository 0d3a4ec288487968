/** Bit packing on 32-bit unsigned words: folds of OR, AND and XOR over a
    list of words, and packing a list of booleans into one word and back.

    A `uint` is modelled as its 32 bits, most significant first: `w[0]` is
    the bit of value 2^31 and `w[31]` the bit of value 1. */
module BitUtils {
  import opened Wrappers

  /** A 32-bit unsigned word, most significant bit first. */
  type Word = w: seq<bool> | |w| == 32 witness seq(32, _ => false)

  /** The word 0x0. */
  function Zero(): (z: Word)
    ensures forall i :: 0 <= i < 32 ==> !z[i]
  {
    seq(32, _ => false)
  }

  /** The word 0x80000000. */
  function HighBit(): (h: Word)
    ensures forall i :: 0 <= i < 32 ==> (h[i] <==> i == 0)
  {
    seq(32, i => i == 0)
  }

  function OrW(a: Word, b: Word): (r: Word)
    ensures forall i :: 0 <= i < 32 ==> (r[i] <==> a[i] || b[i])
  {
    seq(32, i requires 0 <= i < 32 => a[i] || b[i])
  }

  function AndW(a: Word, b: Word): (r: Word)
    ensures forall i :: 0 <= i < 32 ==> (r[i] <==> a[i] && b[i])
  {
    seq(32, i requires 0 <= i < 32 => a[i] && b[i])
  }

  function XorW(a: Word, b: Word): (r: Word)
    ensures forall i :: 0 <= i < 32 ==> (r[i] <==> a[i] != b[i])
  {
    seq(32, i requires 0 <= i < 32 => a[i] != b[i])
  }

  /** `w >> k` for a shift count below 32: k zero bits enter at the top. */
  function ShrW(w: Word, k: nat): (r: Word)
    requires k < 32
    ensures forall i :: 0 <= i < 32 ==> (r[i] <==> k <= i && w[i - k])
  {
    seq(32, i requires 0 <= i < 32 => k <= i && w[i - k])
  }

  /** `w > 0` on an unsigned word: some bit is set. */
  predicate Positive(w: Word)
  {
    true in w
  }

  // ------------------------------------------------------------------ folds

  /** The left fold `Aggregate(seed, (current, v) => current | v)`. */
  function FoldOr(acc: Word, vals: seq<Word>): Word
    decreases |vals|
  {
    if |vals| == 0 then acc else FoldOr(OrW(acc, vals[0]), vals[1..])
  }

  /** The left fold with `&`. */
  function FoldAnd(acc: Word, vals: seq<Word>): Word
    decreases |vals|
  {
    if |vals| == 0 then acc else FoldAnd(AndW(acc, vals[0]), vals[1..])
  }

  /** The left fold with `^`. */
  function FoldXor(acc: Word, vals: seq<Word>): Word
    decreases |vals|
  {
    if |vals| == 0 then acc else FoldXor(XorW(acc, vals[0]), vals[1..])
  }

  /** Or(vals): seeded with 0, so the empty list gives 0. */
  function Or(vals: seq<Word>): (r: Word)
    ensures |vals| == 0 ==> r == Zero()
  {
    FoldOr(Zero(), vals)
  }

  /** And(vals): seeded with `vals.First()`, which throws on an empty list. */
  function And(vals: seq<Word>): (r: Outcome<Word>)
    ensures r.Throws? <==> |vals| == 0
    ensures r.Throws? ==> r.fault == InvalidOperation
  {
    if |vals| == 0 then Throws(InvalidOperation) else Returns(FoldAnd(vals[0], vals))
  }

  /** Xor(vals) as written: seeded with `vals.First()` and then folded over
      all of `vals`, so the first word is combined twice. */
  function Xor(vals: seq<Word>): (r: Outcome<Word>)
    ensures r.Throws? <==> |vals| == 0
    ensures r.Throws? ==> r.fault == InvalidOperation
  {
    if |vals| == 0 then Throws(InvalidOperation) else Returns(FoldXor(vals[0], vals))
  }

  /** The XOR of all words, which the name promises: seeded with 0. */
  function XorAll(vals: seq<Word>): Word
  {
    FoldXor(Zero(), vals)
  }

  /** How many words of `vals` have bit `i` set. */
  function Holders(vals: seq<Word>, i: nat): (r: nat)
    requires i < 32
    ensures r <= |vals|
    decreases |vals|
  {
    if |vals| == 0 then 0
    else (if vals[0][i] then 1 else 0) + Holders(vals[1..], i)
  }

  lemma {:induction false} FoldOrBit(acc: Word, vals: seq<Word>, i: nat)
    requires i < 32
    ensures FoldOr(acc, vals)[i] <==> acc[i] || Holders(vals, i) > 0
    decreases |vals|
  {
    if |vals| > 0 {
      FoldOrBit(OrW(acc, vals[0]), vals[1..], i);
    }
  }

  /** Or(vals) has bit `i` iff some word has it. */
  lemma OrBit(vals: seq<Word>, i: nat)
    requires i < 32
    ensures Or(vals)[i] <==> Holders(vals, i) > 0
  {
    FoldOrBit(Zero(), vals, i);
  }

  lemma {:induction false} FoldAndBit(acc: Word, vals: seq<Word>, i: nat)
    requires i < 32
    ensures FoldAnd(acc, vals)[i] <==> acc[i] && Holders(vals, i) == |vals|
    decreases |vals|
  {
    if |vals| > 0 {
      FoldAndBit(AndW(acc, vals[0]), vals[1..], i);
    }
  }

  /** And of a non-empty list has bit `i` iff every word has it: the first
      word, used once as seed and once as element, counts once. */
  lemma AndBit(vals: seq<Word>, i: nat)
    requires |vals| > 0 && i < 32
    ensures And(vals).Returns?
    ensures And(vals).value[i] <==> Holders(vals, i) == |vals|
  {
    FoldAndBit(vals[0], vals, i);
  }

  /** Seeding And with its first word is harmless: x & x == x. */
  lemma AndSeedIdempotent(vals: seq<Word>)
    requires |vals| > 0
    ensures And(vals) == Returns(FoldAnd(vals[0], vals[1..]))
  {
    assert AndW(vals[0], vals[0]) == vals[0];
  }

  lemma {:induction false} FoldXorBit(acc: Word, vals: seq<Word>, i: nat)
    requires i < 32
    ensures FoldXor(acc, vals)[i] <==> acc[i] != (Holders(vals, i) % 2 == 1)
    decreases |vals|
  {
    if |vals| > 0 {
      FoldXorBit(XorW(acc, vals[0]), vals[1..], i);
    }
  }

  /** XorAll is the XOR of all words: bit `i` is set iff an odd number of
      the words have it. */
  lemma XorAllBit(vals: seq<Word>, i: nat)
    requires i < 32
    ensures XorAll(vals)[i] <==> Holders(vals, i) % 2 == 1
  {
    FoldXorBit(Zero(), vals, i);
  }

  /** Xor as written drops the first word: it is the XOR of `vals[1..]`. */
  lemma XorDropsFirst(vals: seq<Word>)
    requires |vals| > 0
    ensures Xor(vals) == Returns(XorAll(vals[1..]))
  {
    assert XorW(vals[0], vals[0]) == Zero();
  }

  /** The counterexample: Xor of the single word 0x80000000 is 0, while the
      XOR of all words is that word. */
  lemma XorOfOneIsZero()
    ensures Xor([HighBit()]) == Returns(Zero())
    ensures XorAll([HighBit()]) == HighBit()
  {
    XorDropsFirst([HighBit()]);
    assert [HighBit()][1..] == [];
    assert XorW(Zero(), HighBit()) == HighBit();
  }

  // ------------------------------------------------------------ Join, Split

  /** A shift count as C# uses it: the low five bits of the int, which on
      a two's-complement int is its Euclidean remainder by 32. */
  function ShiftCount(x: int): (r: nat)
    ensures r < 32
    ensures 0 <= x < 32 ==> r == x
  {
    x % 32
  }

  /** `0x80000000 >> (32 - n) >> i`, the mask Join uses for element `i` of `n`. */
  function JoinMask(n: int, i: int): Word
  {
    ShrW(ShrW(HighBit(), ShiftCount(32 - n)), ShiftCount(i))
  }

  /** `acc | mask` when `b` holds, else `acc`. */
  function OrIf(acc: Word, b: bool, mask: Word): Word
  {
    if b then OrW(acc, mask) else acc
  }

  /** The word Join holds after its first `k` iterations. */
  function JoinPrefix(bools: seq<bool>, k: nat): Word
    requires k <= |bools|
  {
    if k == 0 then Zero()
    else OrIf(JoinPrefix(bools, k - 1), bools[k - 1], JoinMask(|bools|, k - 1))
  }

  /** The word Join returns. */
  function Joined(bools: seq<bool>): Word
  {
    JoinPrefix(bools, |bools|)
  }

  /** Join: for each boolean, OR its mask into the result when it is set. */
  method Join(bools: seq<bool>) returns (res: Word)
    ensures res == Joined(bools)
  {
    res := Zero();
    var i := 0;
    while i < |bools|
      invariant 0 <= i <= |bools|
      invariant res == JoinPrefix(bools, i)
    {
      var mask := HighBit();
      mask := ShrW(mask, ShiftCount(32 - |bools|));
      mask := ShrW(mask, ShiftCount(i));
      if bools[i] {
        res := OrW(res, mask);
      }
      i := i + 1;
    }
  }

  /** `0x80000000 >> i`, the mask Split uses for element `i`. */
  function SplitMask(i: int): Word
  {
    ShrW(HighBit(), ShiftCount(i))
  }

  /** The booleans Split returns: element `i` tells whether `val` meets
      the mask `0x80000000 >> i`. */
  function SplitBits(val: Word): (r: seq<bool>)
    ensures |r| == 32
  {
    seq(32, i requires 0 <= i < 32 => Positive(AndW(val, SplitMask(i))))
  }

  /** Split: fill a fresh 32-element array from the top bit down. */
  method Split(val: Word) returns (res: array<bool>)
    ensures fresh(res) && res[..] == SplitBits(val)
  {
    res := new bool[32];
    var i := 0;
    while i < 32
      invariant 0 <= i <= 32
      invariant forall j :: 0 <= j < i ==> res[j] == SplitBits(val)[j]
    {
      var mask := HighBit();
      mask := ShrW(mask, ShiftCount(i));
      var masked := AndW(val, mask);
      res[i] := Positive(masked);
      i := i + 1;
    }
  }

  /** Join's mask for element `i` has the single bit at position
      `ShiftCount(32 - n) + ShiftCount(i)` from the top, or none when that
      lies beyond the word. */
  lemma JoinMaskBit(n: int, i: int, b: nat)
    requires b < 32
    ensures JoinMask(n, i)[b] <==> b == ShiftCount(32 - n) + ShiftCount(i)
  {
  }

  /** Split's mask for element `i` of [0, 32) is the single bit `i` from
      the top, that is the bit of value 2^(31 - i). */
  lemma SplitMaskBit(i: int, b: nat)
    requires 0 <= i < 32 && b < 32
    ensures SplitMask(i)[b] <==> b == i
  {
  }

  /** Split puts the bit of value 2^(31 - i) of `val` at index `i`. */
  lemma SplitBitsAreBits(val: Word)
    ensures SplitBits(val) == val
  {
    forall i | 0 <= i < 32
      ensures SplitBits(val)[i] == val[i]
    {
      var masked := AndW(val, SplitMask(i));
      if val[i] {
        SplitMaskBit(i, i);
        assert masked[i];
      } else {
        forall b | 0 <= b < 32
          ensures !masked[b]
        {
          SplitMaskBit(i, b);
        }
      }
    }
  }

  /** For n <= 32 booleans, after `k` iterations Join has the bit at
      position `b` from the top iff `b` is `32 - n + j` for a set
      `bools[j]` with `j < k`. */
  lemma {:induction false} JoinPrefixBit(bools: seq<bool>, k: nat, b: nat)
    requires k <= |bools| <= 32 && b < 32
    ensures JoinPrefix(bools, k)[b] <==> 32 - |bools| <= b < 32 - |bools| + k && bools[b - (32 - |bools|)]
  {
    if k > 0 {
      JoinPrefixBit(bools, k - 1, b);
      JoinMaskBit(|bools|, k - 1, b);
    }
  }

  /** Join of n <= 32 booleans sets the bit of value 2^(n - 1 - j)
      (position 32 - n + j from the top) iff `bools[j]`, and leaves every
      bit of value 2^n or more clear, so the result is below 2^n. */
  lemma JoinBit(bools: seq<bool>, b: nat)
    requires |bools| <= 32 && b < 32
    ensures b < 32 - |bools| ==> !Joined(bools)[b]
    ensures b >= 32 - |bools| ==> (Joined(bools)[b] <==> bools[b - (32 - |bools|)])
  {
    JoinPrefixBit(bools, |bools|, b);
  }

  /** Round trip: Join undoes Split. */
  lemma JoinSplit(val: Word)
    ensures Joined(SplitBits(val)) == val
  {
    SplitBitsAreBits(val);
    forall b | 0 <= b < 32
      ensures Joined(val)[b] == val[b]
    {
      JoinBit(val, b);
    }
  }

  /** Round trip: Split undoes Join on exactly 32 booleans. */
  lemma SplitJoin(bools: seq<bool>)
    requires |bools| == 32
    ensures SplitBits(Joined(bools)) == bools
  {
    SplitBitsAreBits(Joined(bools));
    forall b | 0 <= b < 32
      ensures Joined(bools)[b] == bools[b]
    {
      JoinBit(bools, b);
    }
  }

  /** More than 32 booleans: the shift counts wrap, so 33 set booleans
      put the bit of value 1 in twice (for elements 0 and 32) and nothing
      else. */
  lemma JoinOverlong()
    ensures Joined(seq(33, _ => true)) == ShrW(HighBit(), 31)
  {
    var bs := seq(33, _ => true);
    var one := ShrW(HighBit(), 31);
    assert JoinMask(33, 0) == one;
    assert JoinPrefix(bs, 1) == one by {
      assert OrW(Zero(), one) == one;
    }
    var k := 1;
    while k < 32
      invariant 1 <= k <= 32
      invariant JoinPrefix(bs, k) == one
    {
      assert JoinMask(33, k) == Zero() by {
        forall b | 0 <= b < 32
          ensures !JoinMask(33, k)[b]
        {
          JoinMaskBit(33, k, b);
        }
      }
      assert OrW(one, Zero()) == one;
      k := k + 1;
    }
    assert JoinMask(33, 32) == one;
    assert OrW(one, one) == one;
  }
}
