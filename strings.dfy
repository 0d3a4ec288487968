/** String helpers: a split that keeps delimited blocks whole, the line
    around a character position, and a batch of range replacements. */
module Strings {
  import opened Wrappers

  // --------------------------------------------------------------- Splitting

  /** Char.IsWhiteSpace: the separators String.Split uses when it is given
      no separator characters at all. */
  predicate IsWhiteSpace(c: char)
  {
    c == ' ' || '\t' <= c <= '\r' || c == '\U{0085}' || c == '\U{00A0}' || c == '\U{1680}' ||
    '\U{2000}' <= c <= '\U{200A}' || c == '\U{2028}' || c == '\U{2029}' || c == '\U{202F}' ||
    c == '\U{205F}' || c == '\U{3000}'
  }

  /** Whether `c` separates chunks when String.Split is given the
      characters of `chars`. */
  predicate IsSeparator(c: char, chars: string)
  {
    if |chars| == 0 then IsWhiteSpace(c) else c in chars
  }

  /** Whether `s` holds no separator of `chars`. */
  predicate Free(s: string, chars: string)
  {
    forall i :: 0 <= i < |s| ==> !IsSeparator(s[i], chars)
  }

  /** String.Split(chars): the pieces between separators, empty pieces
      included. */
  function Chunks(s: string, chars: string): (r: seq<string>)
    ensures |r| >= 1
    ensures forall k :: 0 <= k < |r| ==> Free(r[k], chars)
    decreases |s|
  {
    if |s| == 0 then [""]
    else
      var rest := Chunks(s[1..], chars);
      if IsSeparator(s[0], chars) then [""] + rest
      else [[s[0]] + rest[0]] + rest[1..]
  }

  /** The number of separators of `chars` in `s`. */
  function SeparatorCount(s: string, chars: string): nat
    decreases |s|
  {
    if |s| == 0 then 0
    else (if IsSeparator(s[0], chars) then 1 else 0) + SeparatorCount(s[1..], chars)
  }

  /** The pieces with `c` put back between neighbours. */
  function JoinWith(pieces: seq<string>, c: char): string
    decreases |pieces|
  {
    if |pieces| == 0 then ""
    else if |pieces| == 1 then pieces[0]
    else pieces[0] + [c] + JoinWith(pieces[1..], c)
  }

  /** There is one more chunk than there are separators. */
  lemma {:induction false} ChunksCount(s: string, chars: string)
    ensures |Chunks(s, chars)| == SeparatorCount(s, chars) + 1
    decreases |s|
  {
    if |s| > 0 {
      ChunksCount(s[1..], chars);
    }
  }

  /** With one separator character, putting it back between the chunks
      gives the input again. */
  lemma {:induction false} ChunksJoin(s: string, c: char)
    ensures JoinWith(Chunks(s, [c]), c) == s
    decreases |s|
  {
    if |s| > 0 {
      var rest := Chunks(s[1..], [c]);
      ChunksJoin(s[1..], c);
      assert s == [s[0]] + s[1..];
      if s[0] == c {
        JoinCons("", rest, c);
      } else {
        JoinExtendHead(s[0], rest, c);
      }
    }
  }

  /** Joining a piece in front of non-empty pieces. */
  lemma JoinCons(p: string, rest: seq<string>, c: char)
    requires |rest| >= 1
    ensures JoinWith([p] + rest, c) == p + [c] + JoinWith(rest, c)
  {
    assert ([p] + rest)[1..] == rest;
  }

  /** Growing the first piece by one character grows the joined text by it. */
  lemma JoinExtendHead(x: char, rest: seq<string>, c: char)
    requires |rest| >= 1
    ensures JoinWith([[x] + rest[0]] + rest[1..], c) == [x] + JoinWith(rest, c)
  {
    var r := [[x] + rest[0]] + rest[1..];
    if |rest| > 1 {
      assert r[1..] == rest[1..];
    }
  }

  /** Pieces of a string free of `other` are free of it too. */
  lemma {:induction false} ChunksKeepFree(s: string, chars: string, other: string)
    requires Free(s, other)
    ensures forall k :: 0 <= k < |Chunks(s, chars)| ==> Free(Chunks(s, chars)[k], other)
    decreases |s|
  {
    if |s| > 0 {
      ChunksKeepFree(s[1..], chars, other);
      var rest := Chunks(s[1..], chars);
      if !IsSeparator(s[0], chars) {
        var h := [s[0]] + rest[0];
        assert forall i :: 1 <= i < |h| ==> h[i] == rest[0][i - 1];
        assert Free(h, other);
      }
    }
  }

  /** StringSplitOptions.RemoveEmptyEntries: the non-empty pieces, in order. */
  function DropEmpty(pieces: seq<string>): (r: seq<string>)
    ensures forall k :: 0 <= k < |r| ==> |r[k]| > 0 && r[k] in pieces
    ensures forall p :: p in pieces && |p| > 0 ==> p in r
    decreases |pieces|
  {
    if |pieces| == 0 then []
    else if |pieces[0]| == 0 then DropEmpty(pieces[1..])
    else [pieces[0]] + DropEmpty(pieces[1..])
  }

  /** Whether `e` is an element the split may produce: a non-empty piece
      free of both kinds of separator, or a whole block wrapped in the
      block delimiter. */
  predicate SplitElement(e: string, separator: string, ignorebetween: string)
  {
    (|e| > 0 && Free(e, separator) && Free(e, ignorebetween)) ||
    (|e| >= 2 * |ignorebetween| && e[..|ignorebetween|] == ignorebetween &&
     e[|e| - |ignorebetween|..] == ignorebetween &&
     Free(e[|ignorebetween|..|e| - |ignorebetween|], ignorebetween))
  }

  /** The chunks after the ignorebetween split: those at even positions
      (counting the first as 0) are split again on `separator` with empty
      entries dropped, those at odd positions are kept whole and wrapped
      in `ignorebetween`. */
  function Expand(chunks: seq<string>, even: bool, separator: string, ignorebetween: string): (r: seq<string>)
    requires forall k :: 0 <= k < |chunks| ==> Free(chunks[k], ignorebetween)
    ensures forall k :: 0 <= k < |r| ==> SplitElement(r[k], separator, ignorebetween)
    decreases |chunks|
  {
    if |chunks| == 0 then []
    else
      var c := chunks[0];
      var head := Head(c, even, separator, ignorebetween);
      HeadElements(c, even, separator, ignorebetween);
      head + Expand(chunks[1..], !even, separator, ignorebetween)
  }

  /** What one chunk contributes to the split. */
  function Head(c: string, even: bool, separator: string, ignorebetween: string): seq<string>
  {
    if even then DropEmpty(Chunks(c, separator))
    else [ignorebetween + c + ignorebetween]
  }

  /** Every element one chunk contributes is a split element. */
  lemma HeadElements(c: string, even: bool, separator: string, ignorebetween: string)
    requires Free(c, ignorebetween)
    ensures forall k :: 0 <= k < |Head(c, even, separator, ignorebetween)| ==>
      SplitElement(Head(c, even, separator, ignorebetween)[k], separator, ignorebetween)
  {
    if !even {
      var e := ignorebetween + c + ignorebetween;
      assert e[..|ignorebetween|] == ignorebetween;
      assert e[|e| - |ignorebetween|..] == ignorebetween;
      assert e[|ignorebetween|..|e| - |ignorebetween|] == c;
    } else {
      ChunksKeepFree(c, separator, ignorebetween);
    }
  }

  /** SplitIgnoringBetween: split `input` on the characters of `separator`,
      except inside blocks delimited by characters of `ignorebetween`. */
  function SplitIgnoringBetween(input: string, separator: string, ignorebetween: string): (r: seq<string>)
    ensures forall k :: 0 <= k < |r| ==> SplitElement(r[k], separator, ignorebetween)
  {
    Expand(Chunks(input, ignorebetween), true, separator, ignorebetween)
  }

  /** Without any block delimiter in the input, the split is a plain split
      on `separator` with empty entries dropped. */
  lemma SplitWithoutBlocks(input: string, separator: string, ignorebetween: string)
    requires Free(input, ignorebetween)
    ensures SplitIgnoringBetween(input, separator, ignorebetween) == DropEmpty(Chunks(input, separator))
  {
    ChunksOfFree(input, ignorebetween);
    var chunks := Chunks(input, ignorebetween);
    assert chunks[1..] == [];
    assert Expand([], false, separator, ignorebetween) == [];
  }

  /** A string free of the separators is a single chunk. */
  lemma {:induction false} ChunksOfFree(s: string, chars: string)
    requires Free(s, chars)
    ensures Chunks(s, chars) == [s]
    decreases |s|
  {
    if |s| > 0 {
      ChunksOfFree(s[1..], chars);
      assert s == [s[0]] + s[1..];
    }
  }

  /** A block between two delimiters comes out whole and wrapped. */
  lemma SplitKeepsBlock(a: string, b: string, separator: string, q: char)
    requires Free(a, [q]) && Free(b, [q]) && Free(a, separator)
    requires |a| > 0
    ensures SplitIgnoringBetween(a + [q] + b, separator, [q]) == [a, [q] + b + [q]]
  {
    ChunksSplitAt(a, b, [q], q);
    ChunksOfFree(a, separator);
    var chunks := [a, b];
    assert chunks[1..] == [b] && chunks[1..][1..] == [];
    assert [a][1..] == [];
    assert DropEmpty([a]) == [a] + DropEmpty([]);
    assert Head(a, true, separator, [q]) == [a];
    assert Expand([b], false, separator, [q]) == [[q] + b + [q]] + Expand([], true, separator, [q]);
  }

  /** Chunks of `a + [q] + b` when neither part holds a separator. */
  lemma {:induction false} ChunksSplitAt(a: string, b: string, chars: string, q: char)
    requires Free(a, chars) && Free(b, chars) && IsSeparator(q, chars)
    ensures Chunks(a + [q] + b, chars) == [a, b]
    decreases |a|
  {
    if |a| == 0 {
      assert ([] + [q] + b)[1..] == b;
      ChunksOfFree(b, chars);
    } else {
      assert (a + [q] + b)[1..] == a[1..] + [q] + b;
      ChunksSplitAt(a[1..], b, chars, q);
      assert a == [a[0]] + a[1..];
    }
  }

  // ------------------------------------------------------------- Line lookup

  predicate IsLineBreak(c: char)
  {
    c == '\r' || c == '\n'
  }

  /** String.IndexOfAny(new[] { '\r', '\n' }, from): the first line break
      at or after `from`, or -1. */
  function IndexOfLineBreak(s: string, from: nat): (r: int)
    requires from <= |s|
    ensures r == -1 || (from <= r < |s| && IsLineBreak(s[r]))
    ensures r == -1 ==> forall j :: from <= j < |s| ==> !IsLineBreak(s[j])
    ensures r != -1 ==> forall j :: from <= j < r ==> !IsLineBreak(s[j])
    decreases |s| - from
  {
    if from == |s| then -1
    else if IsLineBreak(s[from]) then from
    else IndexOfLineBreak(s, from + 1)
  }

  /** A line: where it starts, one past its line break, and its length. */
  datatype LineRange = LineRange(Start: int, End: int, Length: int)

  /** LineRangeFromCharIndex: walk the lines from the start of `input` until
      `charid` falls inside one.  When no line break lies at or after
      `charid` the search finds none, restarts from 0 and repeats its
      first state, so the loop runs forever. */
  method LineRangeFromCharIndex(input: string, charid: int) returns (o: Outcome<LineRange>)
    ensures o.Throws? == false
    ensures o.Returns? <==> 0 <= charid && exists j :: charid <= j < |input| && IsLineBreak(input[j])
    ensures o.Returns? ==> var l := o.value;
      0 <= l.Start <= charid < l.End <= |input| && l.Length == l.End - l.Start &&
      IsLineBreak(input[l.End - 1]) &&
      (l.Start == 0 || IsLineBreak(input[l.Start - 1])) &&
      forall j :: l.Start <= j < l.End - 1 ==> !IsLineBreak(input[j])
  {
    var linestart := 0;
    var lineend := 0;
    while true
      invariant 0 <= linestart == lineend <= |input|
      invariant linestart == 0 || IsLineBreak(input[linestart - 1])
      invariant 0 <= charid ==> linestart <= charid
      decreases |input| - lineend
    {
      var found := IndexOfLineBreak(input, lineend);
      lineend := found + 1;
      if charid >= linestart && charid < lineend {
        return Returns(LineRange(linestart, lineend, lineend - linestart));
      }
      if lineend == 0 {
        // linestart becomes 0 again: the loop is back in its first state
        return Diverges;
      }
      linestart := lineend;
    }
  }

  // -------------------------------------------------------------- MultiEdit

  /** One replacement: `Length` characters at `Position` become `InsertText`. */
  datatype EditInsert = EditInsert(Position: int, Length: int, InsertText: string)

  /** The edits applied one after the other to `res`, each at its position
      shifted by `offs`, the growth so far.  String.Remove throws unless
      its range lies inside the current text; String.Insert then cannot
      fail. */
  function Edited(res: string, edits: seq<EditInsert>, offs: int): Outcome<string>
    decreases |edits|
  {
    if |edits| == 0 then Returns(res)
    else
      var e := edits[0];
      var pos := e.Position + offs;
      if pos < 0 || e.Length < 0 || pos + e.Length > |res| then Throws(ArgumentOutOfRange)
      else
        var removed := res[..pos] + res[pos + e.Length..];
        var inserted := removed[..pos] + e.InsertText + removed[pos..];
        Edited(inserted, edits[1..], offs + |e.InsertText| - e.Length)
  }

  /** MultiEdit: apply the edits in order, shifting each by the growth of
      the text through the earlier ones. */
  method MultiEdit(input: string, edits: seq<EditInsert>) returns (o: Outcome<string>)
    ensures o == Edited(input, edits, 0)
    ensures |edits| == 0 ==> o == Returns(input)
  {
    var offs := 0;
    var res := input;
    var k := 0;
    while k < |edits|
      invariant 0 <= k <= |edits|
      invariant Edited(input, edits, 0) == Edited(res, edits[k..], offs)
    {
      var edit := edits[k];
      assert edits[k..][0] == edit && edits[k..][1..] == edits[k + 1..];
      var diff := |edit.InsertText| - edit.Length;
      var pos := edit.Position + offs;
      if pos < 0 || edit.Length < 0 || pos + edit.Length > |res| {
        return Throws(ArgumentOutOfRange);
      }
      res := res[..pos] + res[pos + edit.Length..];
      res := res[..pos] + edit.InsertText + res[pos..];
      offs := offs + diff;
      k := k + 1;
    }
    return Returns(res);
  }

  /** Edits that lie inside `input` from `from` on, in increasing position
      and without overlap. */
  predicate Disjoint(input: string, edits: seq<EditInsert>, from: int)
    decreases |edits|
  {
    |edits| == 0 ||
    (from <= edits[0].Position && 0 <= edits[0].Length &&
     edits[0].Position + edits[0].Length <= |input| &&
     Disjoint(input, edits[1..], edits[0].Position + edits[0].Length))
  }

  /** The reference meaning of a batch of edits: `input` from `from` on with
      every edit's original range replaced by its text. */
  function Spliced(input: string, edits: seq<EditInsert>, from: nat): string
    requires from <= |input|
    requires Disjoint(input, edits, from)
    decreases |edits|
  {
    if |edits| == 0 then input[from..]
    else
      var e := edits[0];
      input[from..e.Position] + e.InsertText + Spliced(input, edits[1..], e.Position + e.Length)
  }

  /** The total growth of the text under the edits. */
  function Growth(edits: seq<EditInsert>): int
    decreases |edits|
  {
    if |edits| == 0 then 0 else |edits[0].InsertText| - edits[0].Length + Growth(edits[1..])
  }

  /** One edit inside the text replaces its range; one outside throws. */
  lemma MultiEditOne(input: string, e: EditInsert)
    ensures 0 <= e.Position && 0 <= e.Length && e.Position + e.Length <= |input| ==>
      Edited(input, [e], 0) == Returns(input[..e.Position] + e.InsertText + input[e.Position + e.Length..])
    ensures !(0 <= e.Position && 0 <= e.Length && e.Position + e.Length <= |input|) ==>
      Edited(input, [e], 0) == Throws(ArgumentOutOfRange)
  {
    if 0 <= e.Position && 0 <= e.Length && e.Position + e.Length <= |input| {
      assert [e][1..] == [];
      assert Disjoint(input, [e], 0);
      MultiEditSplices(input, [e]);
      assert Spliced(input, [e], 0) == input[0..e.Position] + e.InsertText + input[e.Position + e.Length..];
    }
  }

  /** Sorted, non-overlapping edits inside the text each replace their
      range of the original input. */
  lemma MultiEditSplices(input: string, edits: seq<EditInsert>)
    requires Disjoint(input, edits, 0)
    ensures Edited(input, edits, 0) == Returns(Spliced(input, edits, 0))
  {
    assert input == [] + input[0..];
    EditedFrom(input, [], 0, edits, 0);
    assert [] + Spliced(input, edits, 0) == Spliced(input, edits, 0);
  }

  /** The step behind MultiEditSplices: with the edits before `from` done,
      the text is the spliced part so far followed by the rest of the
      input, and the offset is the difference of their lengths. */
  lemma {:induction false} EditedFrom(input: string, prefix: string, from: nat, edits: seq<EditInsert>, offs: int)
    requires from <= |input|
    requires |prefix| == from + offs
    requires Disjoint(input, edits, from)
    ensures Edited(prefix + input[from..], edits, offs) == Returns(prefix + Spliced(input, edits, from))
    decreases |edits|
  {
    if |edits| > 0 {
      var e := edits[0];
      var prefix' := prefix + input[from..e.Position] + e.InsertText;
      var next := e.Position + e.Length;
      EditedStep(input, prefix, from, edits, offs);
      assert prefix + input[from..e.Position] + e.InsertText + input[next..] == prefix' + input[next..];
      EditedFrom(input, prefix', next, edits[1..], offs + |e.InsertText| - e.Length);
      SplicedStep(input, prefix, from, edits);
      assert prefix + input[from..e.Position] + e.InsertText + Spliced(input, edits[1..], next) ==
        prefix' + Spliced(input, edits[1..], next);
    }
  }

  /** Unfolding Spliced once behind a prefix. */
  lemma SplicedStep(input: string, prefix: string, from: nat, edits: seq<EditInsert>)
    requires from <= |input|
    requires Disjoint(input, edits, from) && |edits| > 0
    ensures var e := edits[0];
      prefix + Spliced(input, edits, from) ==
      prefix + input[from..e.Position] + e.InsertText + Spliced(input, edits[1..], e.Position + e.Length)
  {
  }

  /** One step of EditedFrom: the first edit turns the text into the next
      spliced prefix followed by the rest of the input. */
  lemma EditedStep(input: string, prefix: string, from: nat, edits: seq<EditInsert>, offs: int)
    requires from <= |input|
    requires |prefix| == from + offs
    requires Disjoint(input, edits, from) && |edits| > 0
    ensures var e := edits[0];
      Edited(prefix + input[from..], edits, offs) ==
      Edited(prefix + input[from..e.Position] + e.InsertText + input[e.Position + e.Length..], edits[1..], offs + |e.InsertText| - e.Length)
  {
    var e := edits[0];
    var gap, cut, tail := input[from..e.Position], input[e.Position..e.Position + e.Length], input[e.Position + e.Length..];
    assert input[from..] == gap + cut + tail;
    RemoveInsert(prefix, gap, cut, tail, e.InsertText);
    var res := prefix + input[from..];
    assert res == prefix + gap + cut + tail;
  }

  /** Removing `cut` and inserting `text` at its place, as String.Remove
      and String.Insert do at one position. */
  lemma RemoveInsert(prefix: string, gap: string, cut: string, tail: string, text: string)
    ensures var res := prefix + gap + cut + tail;
      var pos := |prefix| + |gap|;
      var removed := res[..pos] + res[pos + |cut|..];
      removed[..pos] + text + removed[pos..] == prefix + gap + text + tail
  {
    var res := prefix + gap + cut + tail;
    var pos := |prefix| + |gap|;
    assert res[..pos] == prefix + gap;
    assert res[pos + |cut|..] == tail;
    var removed := res[..pos] + res[pos + |cut|..];
    assert removed[..pos] == prefix + gap;
    assert removed[pos..] == tail;
  }

  /** The spliced text grows by the total growth of the edits. */
  lemma {:induction false} SplicedLength(input: string, edits: seq<EditInsert>, from: nat)
    requires from <= |input|
    requires Disjoint(input, edits, from)
    ensures |Spliced(input, edits, from)| == |input| - from + Growth(edits)
    decreases |edits|
  {
    if |edits| > 0 {
      SplicedLength(input, edits[1..], edits[0].Position + edits[0].Length);
    }
  }
}
