/**
  Python's `str.replace(pattern, replacement)` with no count: every
  non-overlapping occurrence of `pattern` is replaced, scanning from the left.
  An empty pattern matches before every character and at the end, so the
  replacement is inserted between all characters and at both ends.

  The reference definition beside it is Python's own identity
  `s.replace(p, r) == r.join(s.split(p))`, with `split` characterised as the
  unique decomposition of `s` around leftmost occurrences of `p`.
*/
module PyReplace {
  import opened Strings

  /** `s.replace(pattern, replacement)`. */
  function Replace(s: string, pattern: string, replacement: string): string
    decreases |s|
  {
    if pattern == [] then
      if s == [] then replacement else replacement + [s[0]] + Replace(s[1..], pattern, replacement)
    else if |s| < |pattern| then s
    else if s[..|pattern|] == pattern then replacement + Replace(s[|pattern|..], pattern, replacement)
    else [s[0]] + Replace(s[1..], pattern, replacement)
  }

  /** `s.split(pattern)` for a non-empty pattern: the pieces between the
      occurrences found scanning from the left. */
  function Split(s: string, pattern: string): (parts: seq<string>)
    requires pattern != []
    decreases |s|
    ensures |parts| >= 1
  {
    if |s| < |pattern| then [s]
    else if s[..|pattern|] == pattern then [[]] + Split(s[|pattern|..], pattern)
    else
      var rest := Split(s[1..], pattern);
      [[s[0]] + rest[0]] + rest[1..]
  }

  /** `separator.join(parts)`. */
  function Join(parts: seq<string>, separator: string): string
    requires |parts| >= 1
  {
    if |parts| == 1 then parts[0] else parts[0] + separator + Join(parts[1..], separator)
  }

  /** The pieces are those of a left-to-right scan: no piece holds the pattern,
      and no occurrence of the pattern starts inside a piece and runs into the
      separator after it (that occurrence would have been found first). */
  ghost predicate LeftmostPieces(parts: seq<string>, pattern: string)
    requires |parts| >= 1 && pattern != []
  {
    (forall i :: 0 <= i < |parts| - 1 ==> Free(parts[i] + pattern[..|pattern| - 1], pattern)) &&
    Free(parts[|parts| - 1], pattern)
  }

  /** Prepending a character to the first piece prepends it to the join. */
  lemma JoinPrepend(c: char, parts: seq<string>, separator: string)
    requires |parts| >= 1
    ensures Join([[c] + parts[0]] + parts[1..], separator) == [c] + Join(parts, separator)
  {
    var q := [[c] + parts[0]] + parts[1..];
    if |parts| > 1 {
      assert q[1..] == parts[1..];
    }
  }

  /** Joining the pieces with the pattern gives back the string. */
  lemma {:induction false} JoinSplit(s: string, pattern: string)
    requires pattern != []
    decreases |s|
    ensures Join(Split(s, pattern), pattern) == s
  {
    var n := |pattern|;
    if |s| < n {
    } else if s[..n] == pattern {
      JoinSplit(s[n..], pattern);
      assert ([[]] + Split(s[n..], pattern))[1..] == Split(s[n..], pattern);
      assert s == s[..n] + s[n..];
    } else {
      JoinSplit(s[1..], pattern);
      JoinPrepend(s[0], Split(s[1..], pattern), pattern);
      assert s == [s[0]] + s[1..];
    }
  }

  /** For a non-empty pattern, replacing is joining the pieces with the
      replacement. */
  lemma {:induction false} ReplaceIsJoinOfSplit(s: string, pattern: string, replacement: string)
    requires pattern != []
    decreases |s|
    ensures Replace(s, pattern, replacement) == Join(Split(s, pattern), replacement)
  {
    var n := |pattern|;
    if |s| < n {
    } else if s[..n] == pattern {
      ReplaceIsJoinOfSplit(s[n..], pattern, replacement);
      assert ([[]] + Split(s[n..], pattern))[1..] == Split(s[n..], pattern);
    } else {
      ReplaceIsJoinOfSplit(s[1..], pattern, replacement);
      JoinPrepend(s[0], Split(s[1..], pattern), replacement);
    }
  }

  /** A string without the pattern stays free of it after one more character
      in front, unless the pattern then starts at the front. */
  lemma FreePrepend(c: char, t: string, pattern: string)
    requires Free(t, pattern)
    requires !OccursAt([c] + t, 0, pattern)
    ensures Free([c] + t, pattern)
  {
    var u := [c] + t;
    assert u[1..] == t;
    forall i | 1 <= i ensures OccursAt(u, i, pattern) == OccursAt(t, i - 1, pattern) {
      if i + |pattern| <= |u| {
        assert u[i..i + |pattern|] == u[1..][i - 1..i - 1 + |pattern|];
      }
    }
  }

  /** A string shorter than the pattern cannot hold it. */
  lemma FreeShort(t: string, pattern: string)
    requires |t| < |pattern|
    ensures Free(t, pattern)
  {
  }

  /** An empty piece in front of a left-to-right decomposition: the pattern
      was found at the very start. */
  lemma LeftmostEmptyFirst(rest: seq<string>, pattern: string)
    requires |rest| >= 1 && pattern != [] && LeftmostPieces(rest, pattern)
    ensures LeftmostPieces([[]] + rest, pattern)
  {
    var parts := [[]] + rest;
    var tail := pattern[..|pattern| - 1];
    forall i | 0 <= i < |parts| - 1 ensures Free(parts[i] + tail, pattern) {
      if i == 0 {
        FreeShort(parts[0] + tail, pattern);
      } else {
        assert parts[i] == rest[i - 1];
      }
    }
    assert parts[|parts| - 1] == rest[|rest| - 1];
  }

  /** A character in front of a left-to-right decomposition, when the pattern
      does not start at that character. */
  lemma LeftmostCharFirst(c: char, rest: seq<string>, pattern: string)
    requires |rest| >= 1 && pattern != [] && LeftmostPieces(rest, pattern)
    requires !OccursAt([c] + Join(rest, pattern), 0, pattern)
    ensures LeftmostPieces([[c] + rest[0]] + rest[1..], pattern)
  {
    var s := [c] + Join(rest, pattern);
    var parts := [[c] + rest[0]] + rest[1..];
    var tail := pattern[..|pattern| - 1];
    assert forall i :: 1 <= i < |parts| ==> parts[i] == rest[i];
    if |rest| == 1 {
      assert parts[0] == s;
      FreePrepend(c, rest[0], pattern);
    } else {
      var u := [c] + (rest[0] + tail);
      assert s == [c] + rest[0] + pattern + Join(rest[1..], pattern);
      assert u == s[..|u|];
      assert OccursAt(u, 0, pattern) ==> OccursAt(s, 0, pattern);
      FreePrepend(c, rest[0] + tail, pattern);
      assert u == parts[0] + tail;
    }
  }

  /** The pieces of `Split` are the pieces of a left-to-right scan. */
  lemma {:induction false} SplitIsLeftmost(s: string, pattern: string)
    requires pattern != []
    decreases |s|
    ensures LeftmostPieces(Split(s, pattern), pattern)
  {
    var n := |pattern|;
    if |s| < n {
      FreeShort(s, pattern);
    } else if s[..n] == pattern {
      SplitIsLeftmost(s[n..], pattern);
      LeftmostEmptyFirst(Split(s[n..], pattern), pattern);
    } else {
      SplitIsLeftmost(s[1..], pattern);
      JoinSplit(s[1..], pattern);
      assert s == [s[0]] + s[1..];
      LeftmostCharFirst(s[0], Split(s[1..], pattern), pattern);
    }
  }

  /** A separator occurrence that starts inside the first piece contradicts a
      left-to-right scan; so among two scans of the same string, the first
      piece of one is no longer than the first piece of the other. */
  lemma FirstPieceShortest(a: seq<string>, b: seq<string>, pattern: string)
    requires |a| >= 1 && |b| >= 1 && pattern != []
    requires Join(a, pattern) == Join(b, pattern)
    requires LeftmostPieces(a, pattern) && LeftmostPieces(b, pattern)
    ensures |a[0]| <= |b[0]|
  {
    var s, n := Join(a, pattern), |pattern|;
    var j := |b[0]|;
    if j < |a[0]| {
      assert s[..|a[0]|] == a[0];
      if |b| == 1 {
        assert false;
      }
      assert s == b[0] + pattern + Join(b[1..], pattern);
      assert s[j..j + n] == pattern;
      if |a| == 1 {
        assert OccursAt(a[0], j, pattern);
        assert false;
      }
      var u := a[0] + pattern[..n - 1];
      assert s == a[0] + pattern + Join(a[1..], pattern);
      assert s[..|u|] == u;
      assert u[j..j + n] == s[j..j + n];
      assert OccursAt(u, j, pattern);
      assert false;
    }
  }

  /** There is only one left-to-right decomposition of a string. */
  lemma {:induction false} LeftmostPiecesUnique(a: seq<string>, b: seq<string>, pattern: string)
    requires |a| >= 1 && |b| >= 1 && pattern != []
    requires Join(a, pattern) == Join(b, pattern)
    requires LeftmostPieces(a, pattern) && LeftmostPieces(b, pattern)
    decreases |a|
    ensures a == b
  {
    var s, n := Join(a, pattern), |pattern|;
    FirstPieceShortest(a, b, pattern);
    FirstPieceShortest(b, a, pattern);
    var m := |a[0]|;
    assert a[0] == s[..m] == b[0];
    assert |a| == 1 <==> |s| == m;
    assert |b| == 1 <==> |s| == m;
    if |a| > 1 {
      assert s[m + n..] == Join(a[1..], pattern) == Join(b[1..], pattern);
      assert LeftmostPieces(a[1..], pattern) by {
        assert forall i :: 0 <= i < |a| - 2 ==> a[1..][i] == a[i + 1];
      }
      assert LeftmostPieces(b[1..], pattern) by {
        assert forall i :: 0 <= i < |b| - 2 ==> b[1..][i] == b[i + 1];
      }
      LeftmostPiecesUnique(a[1..], b[1..], pattern);
      assert a == [a[0]] + a[1..] && b == [b[0]] + b[1..];
    }
  }

  /** `replace` is fully determined by the decomposition: for any left-to-right
      decomposition of `s` around `pattern`, replacing joins its pieces with the
      replacement. */
  lemma ReplaceJoinsLeftmostPieces(s: string, pattern: string, replacement: string, parts: seq<string>)
    requires pattern != [] && |parts| >= 1
    requires Join(parts, pattern) == s && LeftmostPieces(parts, pattern)
    ensures Replace(s, pattern, replacement) == Join(parts, replacement)
  {
    JoinSplit(s, pattern);
    SplitIsLeftmost(s, pattern);
    LeftmostPiecesUnique(parts, Split(s, pattern), pattern);
    ReplaceIsJoinOfSplit(s, pattern, replacement);
  }

  /** Scanning from the left: when the pattern first occurs right after `a`,
      `a` is kept, that occurrence is replaced, and the scan goes on after it. */
  lemma ReplaceFirstOccurrence(a: string, pattern: string, b: string, replacement: string)
    requires pattern != [] && Free(a + pattern[..|pattern| - 1], pattern)
    ensures Replace(a + pattern + b, pattern, replacement) == a + replacement + Replace(b, pattern, replacement)
  {
    var rest := Split(b, pattern);
    var parts := [a] + rest;
    JoinSplit(b, pattern);
    SplitIsLeftmost(b, pattern);
    assert parts[1..] == rest;
    assert forall i :: 1 <= i < |parts| ==> parts[i] == rest[i - 1];
    assert LeftmostPieces(parts, pattern);
    ReplaceJoinsLeftmostPieces(a + pattern + b, pattern, replacement, parts);
    ReplaceIsJoinOfSplit(b, pattern, replacement);
  }

  /** The pattern cannot start inside a string that lacks its first character,
      even when a proper prefix of the pattern follows. */
  lemma FreeWithoutFirstChar(a: string, pattern: string)
    requires pattern != [] && pattern[0] !in a
    ensures Free(a, pattern) && Free(a + pattern[..|pattern| - 1], pattern)
  {
    forall i | 0 <= i < |a| ensures !OccursAt(a, i, pattern) {
      assert a[i] in a;
      if i + |pattern| <= |a| {
        assert a[i..i + |pattern|][0] == a[i];
      }
    }
    var u := a + pattern[..|pattern| - 1];
    forall i | 0 <= i < |a| ensures !OccursAt(u, i, pattern) {
      assert a[i] in a;
      if i + |pattern| <= |u| {
        assert u[i..i + |pattern|][0] == a[i];
      }
    }
  }

  /** A string in which the (non-empty) pattern does not occur is unchanged. */
  lemma ReplaceAbsent(s: string, pattern: string, replacement: string)
    requires pattern != [] && Free(s, pattern)
    ensures Replace(s, pattern, replacement) == s
  {
    ReplaceJoinsLeftmostPieces(s, pattern, replacement, [s]);
  }

  /** The characters of `s`, each as a one-character piece. */
  function Chars(s: string): (pieces: seq<string>)
    ensures |pieces| == |s|
  {
    seq(|s|, i requires 0 <= i < |s| => [s[i]])
  }

  /** With an empty pattern the replacement goes before every character and
      at the end: `Replace(s, "", r) == r.join([""] + list(s) + [""])`. */
  lemma {:induction false} ReplaceEmptyPattern(s: string, replacement: string)
    decreases |s|
    ensures Replace(s, [], replacement) == Join([[]] + Chars(s) + [[]], replacement)
  {
    var parts := [[]] + Chars(s) + [[]];
    assert parts[1..] == Chars(s) + [[]];
    if s != [] {
      ReplaceEmptyPattern(s[1..], replacement);
      var later := [[]] + Chars(s[1..]) + [[]];
      assert later[1..] == Chars(s[1..]) + [[]];
      assert (Chars(s) + [[]])[1..] == Chars(s[1..]) + [[]];
      assert (Chars(s) + [[]])[0] == [s[0]];
    }
  }

  /** Replacing a pattern by itself changes nothing. */
  lemma {:induction false} ReplaceByItself(s: string, pattern: string)
    decreases |s|
    ensures Replace(s, pattern, pattern) == s
  {
    if pattern != [] {
      ReplaceIsJoinOfSplit(s, pattern, pattern);
      JoinSplit(s, pattern);
    } else if s != [] {
      ReplaceByItself(s[1..], pattern);
      assert s == [s[0]] + s[1..];
    }
  }
}
