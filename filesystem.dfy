/** Path text normalisation: forward slashes only, no repeated slashes
    after the scheme, and helpers that add or drop one leading or trailing
    slash.  Paths are plain text here; nothing touches a file system. */
module FileSystem {
  import opened Wrappers

  // ------------------------------------------------ String primitives used

  /** String.Replace("\\", "/") */
  function ReplaceBackSlashes(path: string): (r: string)
    ensures |r| == |path|
    ensures forall i :: 0 <= i < |r| ==> r[i] != '\\'
    ensures forall i :: 0 <= i < |r| ==> r[i] == (if path[i] == '\\' then '/' else path[i])
  {
    seq(|path|, i requires 0 <= i < |path| => if path[i] == '\\' then '/' else path[i])
  }

  /** Whether `s` holds "//" at `i`. */
  predicate DoubleAt(s: string, i: int)
  {
    0 <= i < |s| - 1 && s[i] == '/' && s[i + 1] == '/'
  }

  /** String.Contains("//") */
  predicate ContainsDouble(s: string)
  {
    exists i :: 0 <= i < |s| - 1 && DoubleAt(s, i)
  }

  /** Whether `s` holds "://" at `i`. */
  predicate SchemeSepAt(s: string, i: int)
  {
    0 <= i <= |s| - 3 && s[i] == ':' && s[i + 1] == '/' && s[i + 2] == '/'
  }

  /** String.IndexOf("://", StringComparison.Ordinal) from `from` on: the
      first position of the separator, or -1. */
  function IndexOfSchemeSep(s: string, from: nat): (r: int)
    requires from <= |s|
    ensures r == -1 || (from <= r && SchemeSepAt(s, r))
    ensures forall j :: from <= j && (r == -1 || j < r) ==> !SchemeSepAt(s, j)
    decreases |s| - from
  {
    if from + 3 > |s| then -1
    else if SchemeSepAt(s, from) then from
    else IndexOfSchemeSep(s, from + 1)
  }

  /** String.Replace("//", "/"): one left-to-right pass over
      non-overlapping occurrences. */
  function ReplaceDouble(s: string): (r: string)
    ensures |r| <= |s|
    ensures |s| > 0 ==> |r| > 0 && r[0] == s[0]
    ensures forall i :: 0 <= i < |r| ==> r[i] in s
    decreases |s|
  {
    if |s| < 2 then s
    else if s[0] == '/' && s[1] == '/' then "/" + ReplaceDouble(s[2..])
    else [s[0]] + ReplaceDouble(s[1..])
  }

  /** A pass over text holding "//" makes it shorter. */
  lemma {:induction false} ReplaceDoubleShortens(s: string)
    requires ContainsDouble(s)
    ensures |ReplaceDouble(s)| < |s|
    decreases |s|
  {
    if !(s[0] == '/' && s[1] == '/') {
      var i :| 0 <= i < |s| - 1 && DoubleAt(s, i);
      assert i >= 1;
      assert s[1..][i - 1] == s[i] && s[1..][i] == s[i + 1];
      assert DoubleAt(s[1..], i - 1);
      ReplaceDoubleShortens(s[1..]);
    }
  }

  // ------------------------------------------------- Redundant slashes

  /** The text after repeating String.Replace("//", "/") while it still
      holds "//". */
  function Collapsed(s: string): (r: string)
    ensures !ContainsDouble(r)
    ensures forall i :: 0 <= i < |r| ==> r[i] in s
    decreases |s|
  {
    if ContainsDouble(s) then
      ReplaceDoubleShortens(s);
      Collapsed(ReplaceDouble(s))
    else s
  }

  /** The reference meaning of Collapsed: every slash that is followed by
      another slash is dropped, so each run of slashes becomes one. */
  function Squashed(s: string): (r: string)
    ensures |s| > 0 ==> |r| > 0 && r[0] == s[0]
    decreases |s|
  {
    if |s| < 2 then s
    else if s[0] == '/' && s[1] == '/' then Squashed(s[1..])
    else [s[0]] + Squashed(s[1..])
  }

  /** Squashed leaves text without "//" as it is. */
  lemma {:induction false} SquashedFixed(s: string)
    requires !ContainsDouble(s)
    ensures Squashed(s) == s
    decreases |s|
  {
    if |s| >= 2 {
      assert !DoubleAt(s, 0);
      forall i | DoubleAt(s[1..], i)
        ensures false
      {
        assert DoubleAt(s, i + 1);
      }
      SquashedFixed(s[1..]);
      assert s == [s[0]] + s[1..];
    }
  }

  /** One Replace pass does not change what Squashed makes of the text. */
  lemma {:induction false} SquashedReplace(s: string)
    ensures Squashed(ReplaceDouble(s)) == Squashed(s)
    decreases |s|
  {
    if |s| >= 2 {
      if s[0] == '/' && s[1] == '/' {
        var rest := s[2..];
        SquashedReplace(rest);
        assert s[1..] == "/" + rest;
        SquashedSlashCons(rest, ReplaceDouble(rest));
      } else {
        var rest := s[1..];
        SquashedReplace(rest);
        assert ReplaceDouble(s) == [s[0]] + ReplaceDouble(rest);
        var t := ReplaceDouble(rest);
        assert t[0] == rest[0];
        assert ([s[0]] + t)[1..] == t;
      }
    }
  }

  /** Squashed of a slash in front of two texts that agree in their first
      character and in what Squashed makes of them. */
  lemma SquashedSlashCons(x: string, y: string)
    requires Squashed(x) == Squashed(y)
    requires |x| == 0 <==> |y| == 0
    requires |x| > 0 ==> x[0] == y[0]
    ensures Squashed("/" + x) == Squashed("/" + y)
  {
    if |x| > 0 {
      assert ("/" + x)[1..] == x;
      assert ("/" + y)[1..] == y;
    }
  }

  /** Collapsed agrees with the reference: runs of slashes become one. */
  lemma {:induction false} CollapsedIsSquashed(s: string)
    ensures Collapsed(s) == Squashed(s)
    decreases |s|
  {
    if ContainsDouble(s) {
      ReplaceDoubleShortens(s);
      CollapsedIsSquashed(ReplaceDouble(s));
      SquashedReplace(s);
    } else {
      SquashedFixed(s);
    }
  }

  /** RemoveRedundantSlashes as a value: the scheme and its "://" are kept
      and repeated slashes after them collapse. */
  function Deduped(path: string): (r: string)
  {
    var p := IndexOfSchemeSep(path, 0);
    if p >= 0 then path[..p] + "://" + Collapsed(path[p + 3..]) else Collapsed(path)
  }

  /** RemoveRedundantSlashes: split off the scheme, replace "//" by "/"
      until none is left, and put the scheme back. */
  method RemoveRedundantSlashes(path: string) returns (r: string)
    ensures r == Deduped(path)
  {
    var schemeSepPosition := IndexOfSchemeSep(path, 0);
    var scheme := "";
    var rest := path;
    if schemeSepPosition >= 0 {
      scheme := path[..schemeSepPosition];
      rest := path[schemeSepPosition + 3..];
    }
    ghost var target := Collapsed(rest);
    while ContainsDouble(rest)
      invariant Collapsed(rest) == target
      decreases |rest|
    {
      ReplaceDoubleShortens(rest);
      rest := ReplaceDouble(rest);
    }
    if schemeSepPosition >= 0 {
      rest := scheme + "://" + rest;
    }
    return rest;
  }

  /** The text after the first "://" (the whole text when there is none)
      holds no "//". */
  lemma DedupedNoDouble(path: string)
    ensures var p := IndexOfSchemeSep(path, 0);
      var r := Deduped(path);
      (p >= 0 ==> |r| >= p + 3 && r[..p + 3] == path[..p + 3] && !ContainsDouble(r[p + 3..])) &&
      (p < 0 ==> !ContainsDouble(r))
  {
    var p := IndexOfSchemeSep(path, 0);
    if p >= 0 {
      var r := Deduped(path);
      assert r[p + 3..] == Collapsed(path[p + 3..]);
    }
  }

  /** Every character of the result comes from the input. */
  lemma DedupedChars(path: string)
    ensures forall i :: 0 <= i < |Deduped(path)| ==> Deduped(path)[i] in path
  {
    var p := IndexOfSchemeSep(path, 0);
    if p >= 0 {
      var pre := path[..p + 3];
      assert pre == path[..p] + "://";
      var c := Collapsed(path[p + 3..]);
      assert forall i :: 0 <= i < |c| ==> c[i] in path by {
        forall i | 0 <= i < |c|
          ensures c[i] in path
        {
          assert c[i] in path[p + 3..];
        }
      }
      ConcatChars(pre, c, path);
    }
  }

  lemma ConcatChars(a: string, b: string, s: string)
    requires forall i :: 0 <= i < |a| ==> a[i] in s
    requires forall i :: 0 <= i < |b| ==> b[i] in s
    ensures forall i :: 0 <= i < |a + b| ==> (a + b)[i] in s
  {
    forall i | 0 <= i < |a + b|
      ensures (a + b)[i] in s
    {
      if i < |a| {
        assert (a + b)[i] == a[i];
      } else {
        assert (a + b)[i] == b[i - |a|];
      }
    }
  }

  lemma NoDoubleNoScheme(s: string)
    requires !ContainsDouble(s)
    ensures IndexOfSchemeSep(s, 0) == -1
  {
    var p := IndexOfSchemeSep(s, 0);
    if p >= 0 {
      assert DoubleAt(s, p + 1);
    }
  }

  /** The first "://" is found again in any text that agrees up to and
      including it. */
  lemma SchemeSepSamePrefix(s: string, t: string, p: nat)
    requires IndexOfSchemeSep(s, 0) == p
    requires |t| >= p + 3 && t[..p + 3] == s[..p + 3]
    ensures IndexOfSchemeSep(t, 0) == p
  {
    assert SchemeSepAt(t, p) by {
      assert t[p] == s[p] && t[p + 1] == s[p + 1] && t[p + 2] == s[p + 2];
    }
    var q := IndexOfSchemeSep(t, 0);
    if q != p {
      assert q < p;
      assert SchemeSepAt(s, q) by {
        assert s[q] == t[q] && s[q + 1] == t[q + 1] && s[q + 2] == t[q + 2];
      }
    }
  }

  /** Removing redundant slashes twice is removing them once. */
  lemma DedupedIdempotent(path: string)
    ensures Deduped(Deduped(path)) == Deduped(path)
  {
    var p := IndexOfSchemeSep(path, 0);
    var r := Deduped(path);
    DedupedNoDouble(path);
    if p >= 0 {
      SchemeSepSamePrefix(path, r, p);
      assert r[..p] == path[..p];
      assert r[p + 3..] == Collapsed(path[p + 3..]);
      assert r == r[..p] + "://" + r[p + 3..];
    } else {
      NoDoubleNoScheme(r);
    }
  }

  // --------------------------------------------------------------- Normalize

  /** Normalize: a null or empty path is returned as it is; otherwise one
      leading `\??\` is stripped, backslashes become slashes, and redundant
      slashes go. */
  function Normalize(path: Option<string>): (r: Option<string>)
    ensures path.None? ==> r.None?
    ensures path == Some("") ==> r == path
    ensures path.Some? ==> r.Some?
  {
    match path
    case None => None
    case Some(p) =>
      if |p| == 0 then path
      else
        var stripped := if |p| >= 4 && p[..4] == "\\??\\" then p[4..] else p;
        Some(Deduped(ReplaceBackSlashes(stripped)))
  }

  /** The `\??\` prefix is stripped once: a path behind one such prefix
      normalises as the path alone, and a second prefix stays in the path
      as ordinary text, its backslashes turned into slashes. */
  lemma NormalizeStripsOnePrefix(x: string)
    requires !(|x| >= 4 && x[..4] == "\\??\\")
    ensures Normalize(Some("\\??\\" + x)) == Normalize(Some(x))
    ensures Normalize(Some("\\??\\" + "\\??\\" + x)) == Normalize(Some("/??/" + x))
  {
    var p := "\\??\\";
    assert (p + x)[..4] == p;
    assert (p + x)[4..] == x;
    var pp := p + p + x;
    assert pp[..4] == p && pp[4..] == p + x;
    assert ReplaceBackSlashes(p + x) == "/??/" + ReplaceBackSlashes(x);
    assert ("/??/" + x)[..4] != p by {
      assert ("/??/" + x)[0] == '/';
    }
    assert ReplaceBackSlashes("/??/" + x) == "/??/" + ReplaceBackSlashes(x);
    if |x| == 0 {
      assert ReplaceBackSlashes(x) == "";
      assert Deduped("") == "";
    }
  }

  /** A normalised path holds no backslash. */
  lemma NormalizeNoBackslash(path: string)
    ensures forall i :: 0 <= i < |Normalize(Some(path)).value| ==> Normalize(Some(path)).value[i] != '\\'
  {
    if |path| > 0 {
      var stripped := if |path| >= 4 && path[..4] == "\\??\\" then path[4..] else path;
      DedupedChars(ReplaceBackSlashes(stripped));
    }
  }

  /** Normalising twice is normalising once. */
  lemma NormalizeIdempotent(path: Option<string>)
    ensures Normalize(Normalize(path)) == Normalize(path)
  {
    if path.Some? && |path.value| > 0 {
      var n := Normalize(path).value;
      NormalizeNoBackslash(path.value);
      if |n| > 0 {
        assert n[0] != '\\';
        assert !(|n| >= 4 && n[..4] == "\\??\\") by {
          assert |n| >= 4 ==> n[..4][0] == n[0];
        }
        assert ReplaceBackSlashes(n) == n;
        var stripped := if |path.value| >= 4 && path.value[..4] == "\\??\\" then path.value[4..] else path.value;
        DedupedIdempotent(ReplaceBackSlashes(stripped));
      }
    }
  }

  /** A normalised path without "://" holds no "//". */
  lemma NormalizedNoDouble(path: string)
    requires IndexOfSchemeSep(Normalize(Some(path)).value, 0) == -1
    ensures !ContainsDouble(Normalize(Some(path)).value)
  {
    if |path| > 0 {
      var stripped := if |path| >= 4 && path[..4] == "\\??\\" then path[4..] else path;
      var x := ReplaceBackSlashes(stripped);
      DedupedNoDouble(x);
      var p := IndexOfSchemeSep(x, 0);
      if p >= 0 {
        var n := Deduped(x);
        assert SchemeSepAt(n, p) by {
          assert n[..p + 3][p] == n[p] && n[..p + 3][p + 1] == n[p + 1] && n[..p + 3][p + 2] == n[p + 2];
        }
      }
    }
  }

  // ---------------------------------------------------- Slash helpers

  /** PrependLeadingSlash: the normalised path with a slash in front unless
      it already starts with one. */
  function PrependLeadingSlash(path: string): (r: string)
    ensures |r| > 0 && r[0] == '/'
    ensures var n := Normalize(Some(path)).value;
      r == n || r == "/" + n
  {
    var n := Normalize(Some(path)).value;
    if |n| == 0 || n[0] != '/' then "/" + n else n
  }

  /** AppendTrailingSlash: the normalised path with a slash at the end
      unless it already ends with one. */
  function AppendTrailingSlash(folderPath: string): (r: string)
    ensures |r| > 0 && r[|r| - 1] == '/'
    ensures var n := Normalize(Some(folderPath)).value;
      r == n || r == n + "/"
  {
    var n := Normalize(Some(folderPath)).value;
    if |n| == 0 || n[|n| - 1] != '/' then n + "/" else n
  }

  /** RemoveLeadingSlash: the normalised path without its first character
      when that is a slash. */
  function RemoveLeadingSlash(path: string): (r: string)
    ensures var n := Normalize(Some(path)).value;
      r == n || n == "/" + r
  {
    DropLeadingSlash(Normalize(Some(path)).value)
  }

  /** The slash test of RemoveLeadingSlash on the normalised text. */
  function DropLeadingSlash(n: string): (r: string)
    ensures r == n || n == "/" + r
    ensures !ContainsDouble(n) ==> |r| == 0 || r[0] != '/'
  {
    if |n| > 0 && n[0] == '/' then
      assert n == "/" + n[1..];
      assert !ContainsDouble(n) && |n| >= 2 ==> !DoubleAt(n, 0);
      n[1..]
    else n
  }

  /** RemoveTrailingSlash: the normalised path without its last character
      when that is a slash. */
  function RemoveTrailingSlash(folderPath: string): (r: string)
    ensures var n := Normalize(Some(folderPath)).value;
      r == n || n == r + "/"
  {
    DropTrailingSlash(Normalize(Some(folderPath)).value)
  }

  /** The slash test of RemoveTrailingSlash on the normalised text. */
  function DropTrailingSlash(n: string): (r: string)
    ensures r == n || n == r + "/"
    ensures !ContainsDouble(n) ==> |r| == 0 || r[|r| - 1] != '/'
  {
    if |n| == 0 then n
    else if n[|n| - 1] == '/' then
      assert n == n[..|n| - 1] + "/";
      assert !ContainsDouble(n) && |n| >= 2 ==> !DoubleAt(n, |n| - 2);
      n[..|n| - 1]
    else n
  }

  /** Without "://", the result of RemoveLeadingSlash does not start with a
      slash and that of RemoveTrailingSlash does not end with one. */
  lemma RemoveSlashNoScheme(path: string)
    requires IndexOfSchemeSep(Normalize(Some(path)).value, 0) == -1
    ensures var r := RemoveLeadingSlash(path); |r| == 0 || r[0] != '/'
    ensures var r := RemoveTrailingSlash(path); |r| == 0 || r[|r| - 1] != '/'
  {
    NormalizedNoDouble(path);
  }
}
