/** Dictionary, set and list helpers: a key/value projection of a
    dictionary, add-or-set on dictionaries and sets, an in-place fill of
    a list from another, and appending query results without repeats. */
module Collections {
  import opened Wrappers
  import opened DotNet

  // ----------------------------------------------------------------- Select

  /** Whether `keymapper` sends two different keys of `source` to one key. */
  predicate Collides<K, V, K2(==)>(source: map<K, V>, keymapper: K -> K2)
  {
    exists k1, k2 :: k1 in source && k2 in source && k1 != k2 && keymapper(k1) == keymapper(k2)
  }

  /** Select: project every entry through `keymapper` and `valuemapper`
      into a new dictionary.  `ToDictionary` throws when two entries land
      on the same new key. */
  function Select<K, V, K2(==), V2>(source: map<K, V>, keymapper: K -> K2, valuemapper: V -> V2): (r: Outcome<map<K2, V2>>)
    ensures r.Throws? <==> Collides(source, keymapper)
    ensures r.Throws? ==> r.fault == DuplicateKey
    ensures r.Diverges? == false
    ensures r.Returns? ==> forall k :: k in source ==> keymapper(k) in r.value && r.value[keymapper(k)] == valuemapper(source[k])
    ensures r.Returns? ==> forall k2 :: k2 in r.value ==> exists k :: k in source && keymapper(k) == k2
  {
    if Collides(source, keymapper) then Throws(DuplicateKey)
    else Returns(map k | k in source :: keymapper(k) := valuemapper(source[k]))
  }

  /** Without collisions Select keeps the number of entries. */
  lemma SelectKeepsCount<K, V, K2, V2>(source: map<K, V>, keymapper: K -> K2, valuemapper: V -> V2)
    requires !Collides(source, keymapper)
    ensures Select(source, keymapper, valuemapper).Returns?
    ensures |Select(source, keymapper, valuemapper).value| == |source|
  {
    var r := Select(source, keymapper, valuemapper).value;
    ImageCount(source.Keys, keymapper);
    assert r.Keys == set k | k in source :: keymapper(k);
  }

  /** An injective image of a finite set has as many elements. */
  lemma {:induction false} ImageCount<K, K2>(s: set<K>, f: K -> K2)
    requires forall k1, k2 :: k1 in s && k2 in s && k1 != k2 ==> f(k1) != f(k2)
    ensures |set k | k in s :: f(k)| == |s|
    decreases |s|
  {
    if s != {} {
      var k :| k in s;
      var rest := s - {k};
      ImageCount(rest, f);
      assert (set x | x in s :: f(x)) == (set x | x in rest :: f(x)) + {f(k)};
      assert f(k) !in (set x | x in rest :: f(x));
    }
  }

  // ------------------------------------------------ Update on dictionaries

  /** A dictionary whose entries are updated in place. */
  class Dictionary<K(==), V> {
    var entries: map<K, V>

    constructor (initial: map<K, V>)
      ensures entries == initial
    {
      entries := initial;
    }

    /** Update: set the entry of `k` when present, add it otherwise, and
        pass `v` through.  The non-generic and the generic overloads have
        the same body. */
    method Update(k: K, v: V) returns (r: V)
      modifies this
      ensures r == v
      ensures k in entries && entries[k] == v
      ensures entries.Keys == old(entries).Keys + {k}
      ensures forall k' :: k' in old(entries) && k' != k ==> entries[k'] == old(entries)[k']
    {
      if k in entries {
        entries := entries[k := v];
      } else {
        entries := entries[k := v];
      }
      r := v;
    }
  }

  /** A set whose elements are added in place. */
  class HashSet<T(==)> {
    var elems: set<T>

    constructor (initial: set<T>)
      ensures elems == initial
    {
      elems := initial;
    }

    /** Update: add `v` unless present, and pass it through. */
    method Update(v: T) returns (r: T)
      modifies this
      ensures r == v
      ensures elems == old(elems) + {v}
    {
      if v !in elems {
        elems := elems + {v};
      }
      r := v;
    }
  }

  // ------------------------------------------------------------------- Fill

  /** `list` after copying `from` into it from index `start` on, for as
      many elements as fit. */
  function Filled<T>(list: seq<T>, from: seq<T>, start: nat): (r: seq<T>)
    ensures |r| == |list|
    ensures forall j :: 0 <= j < |list| && start <= j < start + |from| ==> r[j] == from[j - start]
    ensures forall j :: 0 <= j < |list| && !(start <= j < start + |from|) ==> r[j] == list[j]
  {
    seq(|list|, j requires 0 <= j < |list| => if start <= j < start + |from| then from[j - start] else list[j])
  }

  /** Where the copy into `list` itself reads position `j` from: a start
      of 0 copies every element onto itself, and any other start repeats
      the first `start` elements. */
  function SelfSource(j: nat, start: nat): (r: nat)
    ensures start == 0 ==> r == j
    ensures start > 0 ==> r < start && (j < start ==> r == j)
    decreases j
  {
    if start == 0 || j < start then j else SelfSource(j - start, start)
  }

  /** `list` after its first `k` steps of copying itself into itself from
      index `start` on: each step reads a position the copy may already
      have written. */
  function SelfFilled<T>(list: seq<T>, start: nat, k: nat): (r: seq<T>)
    ensures |r| == |list|
    ensures forall j :: 0 <= j < |list| && start <= j < start + k ==> r[j] == list[SelfSource(j, start)]
    ensures forall j :: 0 <= j < |list| && !(start <= j < start + k) ==> r[j] == list[j]
  {
    seq(|list|, j requires 0 <= j < |list| => if start <= j < start + k then list[SelfSource(j, start)] else list[j])
  }

  /** One more step of the self copy writes position start + k with what
      position k holds by then. */
  lemma SelfFilledStep<T>(list: seq<T>, start: nat, k: nat)
    requires start + k < |list|
    ensures SelfFilled(list, start, k)[start + k := SelfFilled(list, start, k)[k]] == SelfFilled(list, start, k + 1)
  {
    var cur := SelfFilled(list, start, k);
    assert cur[k] == list[SelfSource(start + k, start)];
  }

  /** Filling a list from itself is not filling it from a copy: [1, 2, 3]
      filled from itself at 1 becomes [1, 1, 1], and from a copy [1, 1, 2]. */
  lemma SelfFillRepeats()
    ensures SelfFilled([1, 2, 3], 1, 3) == [1, 1, 1]
    ensures Filled([1, 2, 3], [1, 2, 3], 1) == [1, 1, 2]
  {
    assert SelfFilled([1, 2, 3], 1, 3)[2] == 1;
  }

  /** Fill: copy `from` into `list` starting at `start`.  A start at or
      past the end does nothing.  A negative start fails on the first
      write through the `IList<T>` indexer, unless there is nothing to copy
      or the unchecked bound `Count - start` wraps around to a negative
      int, in which case the loop never runs.  `from` is read as the copy
      goes, so a `from` that is `list` itself sees the elements already
      written. */
  method Fill<T>(list: array<T>, from: array<T>, start: int) returns (o: Outcome<()>)
    requires IsInt32(start) && list.Length <= Int32Max
    modifies list
    ensures o.Throws? <==> start < 0 && from.Length > 0 && list.Length - start <= Int32Max
    ensures o.Throws? ==> o.fault == ArgumentOutOfRange && list[..] == old(list[..])
    ensures o.Diverges? == false
    ensures o.Returns? && (start >= list.Length || start < 0) ==> list[..] == old(list[..])
    ensures o.Returns? && start >= 0 && from != list ==> list[..] == Filled(old(list[..]), old(from[..]), start)
    ensures o.Returns? && start >= 0 && from == list ==> list[..] == SelfFilled(old(list[..]), start, list.Length)
  {
    if start >= list.Length {
      return Returns(());
    }
    var room := WrapInt32(list.Length - start);
    if list.Length - start > Int32Max {
      WrapsNegative(list.Length - start);
    }
    var n := if room < from.Length then room else from.Length;
    var i := 0;
    while i < n
      invariant 0 <= i <= from.Length && (n > 0 ==> i <= n)
      invariant start >= 0 ==> i <= n && n == if list.Length - start < from.Length then list.Length - start else from.Length
      invariant from != list ==> from[..] == old(from[..])
      invariant start < 0 ==> i == 0 && list[..] == old(list[..])
      invariant start >= 0 && from != list ==> list[..] == Filled(old(list[..]), old(from[..])[..i], start)
      invariant start >= 0 && from == list ==> list[..] == SelfFilled(old(list[..]), start, i)
    {
      var ii := i + start;
      if ii < 0 {
        return Throws(ArgumentOutOfRange);
      }
      if from == list {
        SelfFilledStep(old(list[..]), start, i);
      } else {
        assert old(from[..])[..i + 1] == old(from[..])[..i] + [from[i]];
      }
      list[ii] := from[i];
      i := i + 1;
    }
    if start >= 0 {
      if from == list {
        assert SelfFilled(old(list[..]), start, i) == SelfFilled(old(list[..]), start, list.Length);
      } else {
        assert Filled(old(list[..]), old(from[..])[..i], start) == Filled(old(list[..]), old(from[..]), start);
      }
    }
    return Returns(());
  }

  /** An int difference just past int.MaxValue wraps to a negative int. */
  lemma WrapsNegative(x: int)
    requires Int32Max < x <= Int32Max + 0x8000_0000
    ensures WrapInt32(x) == x - 0x1_0000_0000 && WrapInt32(x) < 0
  {
    var y := x - Int32Min;
    assert 0x1_0000_0000 <= y < 2 * 0x1_0000_0000;
    assert y % 0x1_0000_0000 == y - 0x1_0000_0000;
  }

  // ----------------------------------------------------------- AddResults

  /** Whether `d` counts as already present in `results`: by equality, or
      by the caller's comparer applied as `comparer(d, o)`. */
  predicate Present<T(==)>(results: seq<T>, d: T, comparer: Option<(T, T) -> bool>)
  {
    match comparer
    case None => d in results
    case Some(eq) => exists j :: 0 <= j < |results| && eq(d, results[j])
  }

  /** `results` after appending, in order, each element of `data` not
      already present in the growing list. */
  function AddedResults<T(==)>(results: seq<T>, data: seq<T>, comparer: Option<(T, T) -> bool>): seq<T>
    decreases |data|
  {
    if |data| == 0 then results
    else
      var next := if Present(results, data[0], comparer) then results else results + [data[0]];
      AddedResults(next, data[1..], comparer)
  }

  /** A list of query results, extended in place. */
  class List<T(==)> {
    var items: seq<T>

    constructor (initial: seq<T>)
      ensures items == initial
    {
      items := initial;
    }

    /** opaqAddResults: append each element of `data` that is not already
        present. */
    method AddResults(data: seq<T>, comparer: Option<(T, T) -> bool>)
      modifies this
      ensures items == AddedResults(old(items), data, comparer)
    {
      var k := 0;
      while k < |data|
        invariant 0 <= k <= |data|
        invariant AddedResults(old(items), data, comparer) == AddedResults(items, data[k..], comparer)
      {
        var d := data[k];
        var contains := match comparer
          case None => d in items
          case Some(eq) => exists j :: 0 <= j < |items| && eq(d, items[j]);
        assert data[k..][1..] == data[k + 1..];
        if !contains {
          items := items + [d];
        }
        k := k + 1;
      }
    }
  }

  /** The list given is kept as a prefix, and every element after it comes
      from `data`. */
  lemma {:induction false} AddedResultsExtends<T>(results: seq<T>, data: seq<T>, comparer: Option<(T, T) -> bool>)
    ensures var r := AddedResults(results, data, comparer);
      |results| <= |r| <= |results| + |data| && r[..|results|] == results &&
      forall j :: |results| <= j < |r| ==> r[j] in data
    decreases |data|
  {
    if |data| > 0 {
      var next := if Present(results, data[0], comparer) then results else results + [data[0]];
      AddedResultsExtends(next, data[1..], comparer);
      var r := AddedResults(results, data, comparer);
      assert r[..|results|] == r[..|next|][..|results|];
      forall j | |results| <= j < |r|
        ensures r[j] in data
      {
        if j >= |next| {
          assert r[j] in data[1..];
        } else {
          assert r[j] == data[0];
        }
      }
    }
  }

  /** Whether no element occurs twice. */
  predicate NoDuplicates<T(==)>(s: seq<T>)
  {
    forall i, j :: 0 <= i < j < |s| ==> s[i] != s[j]
  }

  /** Comparing by equality introduces no duplicates, and afterwards every
      element of `data` is present. */
  lemma {:induction false} AddedResultsNoDuplicates<T>(results: seq<T>, data: seq<T>)
    requires NoDuplicates(results)
    ensures NoDuplicates(AddedResults(results, data, None))
    ensures forall d :: d in data ==> d in AddedResults(results, data, None)
    decreases |data|
  {
    if |data| > 0 {
      var next := if data[0] in results then results else results + [data[0]];
      assert NoDuplicates(next);
      AddedResultsNoDuplicates(next, data[1..]);
      AddedResultsExtends(next, data[1..], None);
      var r := AddedResults(results, data, None);
      assert data[0] in next;
      assert data[0] in r by {
        var j :| 0 <= j < |next| && next[j] == data[0];
        assert r[..|next|][j] == data[0];
      }
      forall d | d in data
        ensures d in r
      {
        if d != data[0] {
          assert d in data[1..];
        }
      }
    }
  }

  /** With a comparer, an element is dropped only if some element already
      in the list compares equal to it, and every later element of the
      list compared unequal when it was added. */
  lemma AddedResultsComparer<T>(results: seq<T>, d: T, eq: (T, T) -> bool)
    ensures (exists j :: 0 <= j < |results| && eq(d, results[j])) ==> AddedResults(results, [d], Some(eq)) == results
    ensures (forall j :: 0 <= j < |results| ==> !eq(d, results[j])) ==> AddedResults(results, [d], Some(eq)) == results + [d]
  {
    assert [d][1..] == [];
  }

  /** With a comparer, over any `data`: every appended element compared
      unequal to each element before it, and every element of `data` ends
      up in the list or compares equal to an element of it. */
  lemma {:induction false} AddedResultsComparerAll<T>(results: seq<T>, data: seq<T>, eq: (T, T) -> bool)
    ensures var r := AddedResults(results, data, Some(eq));
      (forall j, i :: |results| <= j < |r| && 0 <= i < j ==> !eq(r[j], r[i])) &&
      (forall d :: d in data ==> d in r || exists i :: 0 <= i < |r| && eq(d, r[i]))
    decreases |data|
  {
    if |data| > 0 {
      var d0 := data[0];
      var next := if Present(results, d0, Some(eq)) then results else results + [d0];
      AddedResultsComparerAll(next, data[1..], eq);
      AddedResultsExtends(next, data[1..], Some(eq));
      var r := AddedResults(results, data, Some(eq));
      assert r == AddedResults(next, data[1..], Some(eq));
      assert forall i :: 0 <= i < |next| ==> r[i] == next[i] by {
        forall i | 0 <= i < |next|
          ensures r[i] == next[i]
        {
          assert r[..|next|][i] == r[i];
        }
      }
      forall j, i | |results| <= j < |r| && 0 <= i < j
        ensures !eq(r[j], r[i])
      {
        if j < |next| {
          assert r[j] == d0 && r[i] == results[i];
        }
      }
      forall d | d in data
        ensures d in r || exists i :: 0 <= i < |r| && eq(d, r[i])
      {
        if d == d0 {
          if Present(results, d0, Some(eq)) {
            var i :| 0 <= i < |results| && eq(d0, results[i]);
            assert eq(d, r[i]);
          } else {
            assert r[|results|] == d0;
          }
        } else {
          assert d in data[1..];
        }
      }
    }
  }
}
