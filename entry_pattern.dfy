/**
  Entry extraction: the pattern `"(.*?)": "(.*?(?<!\\))"` applied to one line
  with Python's `re.search`.

  The search tries start positions from left to right; at a start it tries keys
  from shortest to longest (lazy `.*?`), and for each key values from shortest to
  longest. `.` does not match a newline, and the negative lookbehind `(?<!\\)`
  rejects a closing quote that follows a backslash. The match found is therefore
  the lexicographically smallest triple (start, key end, value end) of positions
  at which the pattern fits.
*/
module EntryPattern {
  import opened Wrappers
  import opened Strings

  /** The two groups of a match: group 1 (the key) and group 2 (the value). */
  datatype Entry = Entry(key: string, value: string)

  /** Where a match lies: the key's opening quote is at `start`, the separator
      `": "` begins at `keyEnd`, and the value's closing quote is at `valueEnd`. */
  datatype Span = Span(start: nat, keyEnd: nat, valueEnd: nat)

  /** Quote, colon, space, quote: what lies between the two groups. */
  const Separator: string := "\": \""

  /** No character of `line[lo..hi]` is a newline (what `.*?` may cover). */
  predicate NoNewline(line: string, lo: int, hi: int)
    requires 0 <= lo <= hi <= |line|
  {
    forall j | lo <= j < hi :: line[j] != '\n'
  }

  /** A key opened by the quote at `s` can end at `k`: the separator follows it
      and the key text holds no newline. */
  predicate KeyEndsAt(line: string, s: int, k: int)
  {
    0 <= s && s + 1 <= k && k + 4 <= |line| &&
    line[s] == '"' && line[k..k + 4] == Separator && NoNewline(line, s + 1, k)
  }

  /** A value that starts after the separator at `k` can be closed by the quote
      at `e`: that quote is not preceded by a backslash and the value text holds
      no newline. */
  predicate ValueEndsAt(line: string, k: int, e: int)
  {
    0 <= k && k + 4 <= e < |line| &&
    line[e] == '"' && line[e - 1] != '\\' && NoNewline(line, k + 4, e)
  }

  /** The pattern fits `line` with these three positions. */
  predicate IsMatch(line: string, s: int, k: int, e: int)
  {
    KeyEndsAt(line, s, k) && ValueEndsAt(line, k, e)
  }

  /** `m` comes no later than the triple (s, k, e) in the order in which the
      regular-expression engine tries them. */
  predicate Precedes(m: Span, s: int, k: int, e: int)
  {
    m.start < s || (m.start == s && (m.keyEnd < k || (m.keyEnd == k && m.valueEnd <= e)))
  }

  /** `m` is the match `re.search` reports: it fits, and every fit comes after it. */
  ghost predicate IsLeftmostMatch(line: string, m: Span)
  {
    IsMatch(line, m.start, m.keyEnd, m.valueEnd) &&
    forall s, k, e :: IsMatch(line, s, k, e) ==> Precedes(m, s, k, e)
  }

  /** At most one span is the leftmost match. */
  lemma LeftmostMatchUnique(line: string, m1: Span, m2: Span)
    requires IsLeftmostMatch(line, m1) && IsLeftmostMatch(line, m2)
    ensures m1 == m2
  {
    assert Precedes(m1, m2.start, m2.keyEnd, m2.valueEnd);
    assert Precedes(m2, m1.start, m1.keyEnd, m1.valueEnd);
  }

  /** The lazy value group: the first closing quote at or after `e`. */
  function FindValueEnd(line: string, k: nat, e: nat): (r: Option<nat>)
    requires k + 4 <= e <= |line| && NoNewline(line, k + 4, e)
    decreases |line| - e
    ensures r.Some? ==> e <= r.value && ValueEndsAt(line, k, r.value)
    ensures r.Some? ==> forall e' :: e <= e' < r.value ==> !ValueEndsAt(line, k, e')
    ensures r.None? ==> forall e' :: e <= e' ==> !ValueEndsAt(line, k, e')
  {
    if e == |line| then None
    else if line[e] == '"' && line[e - 1] != '\\' then Some(e)
    else if line[e] == '\n' then None
    else FindValueEnd(line, k, e + 1)
  }

  /** The lazy key group for the quote at `s`: the first key end at or after `k`
      for which a value can be found, with the first value for it. */
  function FindKeyEnd(line: string, s: nat, k: nat): (r: Option<Span>)
    requires s < |line| && line[s] == '"'
    requires s + 1 <= k <= |line| && NoNewline(line, s + 1, k)
    decreases |line| - k
    ensures r.Some? ==> r.value.start == s && k <= r.value.keyEnd
    ensures r.Some? ==> IsMatch(line, s, r.value.keyEnd, r.value.valueEnd)
    ensures r.Some? ==> forall k', e' :: k <= k' && IsMatch(line, s, k', e') ==> Precedes(r.value, s, k', e')
    ensures r.None? ==> forall k', e' :: k <= k' ==> !IsMatch(line, s, k', e')
  {
    if k + 4 > |line| then None
    else
      var v := if line[k..k + 4] == Separator then FindValueEnd(line, k, k + 4) else None;
      if v.Some? then Some(Span(s, k, v.value))
      else if line[k] == '\n' then None
      else FindKeyEnd(line, s, k + 1)
  }

  /** The scan over start positions at or after `s`. */
  function FindStart(line: string, s: nat): (r: Option<Span>)
    requires s <= |line|
    decreases |line| - s
    ensures r.Some? ==> s <= r.value.start && IsMatch(line, r.value.start, r.value.keyEnd, r.value.valueEnd)
    ensures r.Some? ==> forall s', k', e' :: s <= s' && IsMatch(line, s', k', e') ==> Precedes(r.value, s', k', e')
    ensures r.None? ==> forall s', k', e' :: s <= s' ==> !IsMatch(line, s', k', e')
  {
    if s == |line| then None
    else
      var m := if line[s] == '"' then FindKeyEnd(line, s, s + 1) else None;
      if m.Some? then m else FindStart(line, s + 1)
  }

  /** `re.search` of the entry pattern: the leftmost match, if there is one. */
  function FirstMatch(line: string): (r: Option<Span>)
    ensures r.Some? ==> IsLeftmostMatch(line, r.value)
    ensures r.None? ==> forall s, k, e :: !IsMatch(line, s, k, e)
  {
    FindStart(line, 0)
  }

  /** The two groups of a match. */
  function EntryAt(line: string, m: Span): Entry
    requires IsMatch(line, m.start, m.keyEnd, m.valueEnd)
  {
    Entry(line[m.start + 1..m.keyEnd], line[m.keyEnd + 4..m.valueEnd])
  }

  /** The text the pattern matches for an entry. */
  function Render(entry: Entry): string
  {
    "\"" + entry.key + Separator + entry.value + "\""
  }

  /** A newline-free stretch of a line, as a slice, holds no newline. */
  lemma NoNewlineSlice(line: string, lo: int, hi: int)
    requires 0 <= lo <= hi <= |line| && NoNewline(line, lo, hi)
    ensures '\n' !in line[lo..hi]
  {
    assert forall j | 0 <= j < hi - lo :: line[lo..hi][j] == line[lo + j];
  }

  /** What a match covers is exactly the rendering of its groups. */
  lemma MatchCoversRender(line: string, m: Span)
    requires IsMatch(line, m.start, m.keyEnd, m.valueEnd)
    ensures OccursAt(line, m.start, Render(EntryAt(line, m)))
    ensures '\n' !in EntryAt(line, m).key && '\n' !in EntryAt(line, m).value
    ensures EntryAt(line, m).value == [] || EntryAt(line, m).value[|EntryAt(line, m).value| - 1] != '\\'
  {
    var s, k, e := m.start, m.keyEnd, m.valueEnd;
    if k + 4 < e {
      assert EntryAt(line, m).value[e - k - 5] == line[e - 1];
    }
    RenderOfSlices(line, s, k, e);
    NoNewlineSlice(line, s + 1, k);
    NoNewlineSlice(line, k + 4, e);
  }

  /** Quotes at `s` and `e` around a key, the separator and a value render the
      entry they hold. */
  lemma RenderOfSlices(line: string, s: int, k: int, e: int)
    requires 0 <= s < k && k + 4 <= e < |line|
    requires line[s] == '"' && line[k..k + 4] == Separator && line[e] == '"'
    ensures line[s..e + 1] == Render(Entry(line[s + 1..k], line[k + 4..e]))
  {
    assert line[s..s + 1] == "\"" && line[e..e + 1] == "\"";
    SliceConcat(line, s, s + 1, k);
    SliceConcat(line, s, k, k + 4);
    SliceConcat(line, s, k + 4, e);
    SliceConcat(line, s, e, e + 1);
  }

  /** Adjacent slices join into one. */
  lemma SliceConcat(line: string, a: int, b: int, c: int)
    requires 0 <= a <= b <= c <= |line|
    ensures line[a..b] + line[b..c] == line[a..c]
  {
  }

  /** Group 1 and group 2 of `re.search(r'"(.*?)": "(.*?(?<!\\))"', line)`, or
      `None` when the pattern does not match. */
  function Extract(line: string): Option<Entry>
  {
    match FirstMatch(line)
    case None => None
    case Some(m) => Some(EntryAt(line, m))
  }

  /** What `Extract` promises: no entry exactly when the pattern fits nowhere;
      otherwise the groups of the leftmost match, whose text `"key": "value"`
      occurs in the line, whose key and value hold no newline, and whose value
      does not end in a backslash (its closing quote is not escaped). */
  lemma ExtractSpec(line: string)
    ensures Extract(line).None? <==> forall s, k, e :: !IsMatch(line, s, k, e)
    ensures Extract(line).Some? ==> exists m :: IsLeftmostMatch(line, m) && Extract(line).value == EntryAt(line, m)
    ensures Extract(line).Some? ==> exists i :: OccursAt(line, i, Render(Extract(line).value))
    ensures Extract(line).Some? ==> '\n' !in Extract(line).value.key && '\n' !in Extract(line).value.value
    ensures Extract(line).Some? ==> Extract(line).value.value == [] || Extract(line).value.value[|Extract(line).value.value| - 1] != '\\'
  {
    if FirstMatch(line).Some? {
      var m := FirstMatch(line).value;
      var entry := EntryAt(line, m);
      assert Extract(line) == Some(entry);
      MatchCoversRender(line, m);
      assert OccursAt(line, m.start, Render(entry));
    } else {
      assert Extract(line) == None;
    }
  }

  /** The span at which a rendered entry, placed after `prefix`, matches. */
  function RenderedSpan(prefix: string, entry: Entry): Span
  {
    Span(|prefix|, |prefix| + 1 + |entry.key|, |prefix| + 5 + |entry.key| + |entry.value|)
  }

  /** A slice without a newline is a newline-free stretch. */
  lemma SliceNoNewline(line: string, lo: int, hi: int)
    requires 0 <= lo <= hi <= |line| && '\n' !in line[lo..hi]
    ensures NoNewline(line, lo, hi)
  {
    forall j | lo <= j < hi ensures line[j] != '\n' {
      assert line[j] == line[lo..hi][j - lo];
    }
  }

  /** The middle part of a concatenation, as a slice. */
  lemma MiddleSlice(a: string, b: string, c: string)
    ensures (a + b + c)[|a|..|a| + |b|] == b
  {
  }

  /** A slice of a slice is a slice. */
  lemma SliceOfSlice(x: string, lo: int, hi: int, i: int, j: int)
    requires 0 <= lo <= hi <= |x| && 0 <= i <= j <= hi - lo
    ensures x[lo..hi][i..j] == x[lo + i..lo + j]
  {
    assert forall n | 0 <= n < j - i :: x[lo..hi][i..j][n] == x[lo + i + n];
  }

  /** The parts of a rendered entry, as slices. */
  lemma RenderPieces(entry: Entry)
    ensures var r, n := Render(entry), |entry.key|;
      |r| == n + |entry.value| + 6 && r[0] == '"' && r[|r| - 1] == '"' &&
      r[1..1 + n] == entry.key && r[1 + n..5 + n] == Separator &&
      r[5 + n..5 + n + |entry.value|] == entry.value
  {
    var r, n := Render(entry), |entry.key|;
    MiddleSlice("\"", entry.key, Separator + entry.value + "\"");
    MiddleSlice("\"" + entry.key, Separator, entry.value + "\"");
    MiddleSlice("\"" + entry.key + Separator, entry.value, "\"");
    assert r == "\"" + entry.key + (Separator + entry.value + "\"");
    assert r == "\"" + entry.key + Separator + (entry.value + "\"");
  }

  /** The pieces of a rendered entry, placed after `prefix`, in the line. */
  lemma RenderedSlices(prefix: string, entry: Entry, rest: string)
    ensures var line, m := prefix + Render(entry) + rest, RenderedSpan(prefix, entry);
      m.valueEnd < |line| && line[m.start] == '"' && line[m.valueEnd] == '"' &&
      line[m.start + 1..m.keyEnd] == entry.key && line[m.keyEnd..m.keyEnd + 4] == Separator &&
      line[m.keyEnd + 4..m.valueEnd] == entry.value
  {
    var line, r := prefix + Render(entry) + rest, Render(entry);
    var s, n := |prefix|, |entry.key|;
    MiddleSlice(prefix, r, rest);
    RenderPieces(entry);
    assert line[s] == r[0] && line[s + |r| - 1] == r[|r| - 1];
    SliceOfSlice(line, s, s + |r|, 1, 1 + n);
    SliceOfSlice(line, s, s + |r|, 1 + n, 5 + n);
    SliceOfSlice(line, s, s + |r|, 5 + n, 5 + n + |entry.value|);
  }

  /** A rendered entry fits the pattern where it was placed, with its own
      groups, when its key and value hold no newline and the value does not end
      in a backslash. */
  lemma RenderedIsMatch(prefix: string, entry: Entry, rest: string)
    requires '\n' !in entry.key && '\n' !in entry.value
    requires entry.value == [] || entry.value[|entry.value| - 1] != '\\'
    ensures var line, m := prefix + Render(entry) + rest, RenderedSpan(prefix, entry);
      IsMatch(line, m.start, m.keyEnd, m.valueEnd) && EntryAt(line, m) == entry
  {
    var line, m := prefix + Render(entry) + rest, RenderedSpan(prefix, entry);
    var s, k, e := m.start, m.keyEnd, m.valueEnd;
    RenderedSlices(prefix, entry, rest);
    SliceNoNewline(line, s + 1, k);
    SliceNoNewline(line, k + 4, e);
    if entry.value == [] {
      assert line[e - 1] == line[k..k + 4][3];
    } else {
      assert line[e - 1] == line[k + 4..e][|entry.value| - 1];
    }
  }

  /** A value whose every quote is escaped by the backslash before it. */
  predicate QuotesEscaped(value: string)
  {
    forall j :: 0 <= j < |value| && value[j] == '"' ==> 0 < j && value[j - 1] == '\\'
  }

  /** Before a quote-free prefix no match can start. */
  lemma NoStartInPrefix(prefix: string, tail: string)
    requires '"' !in prefix
    ensures forall s', k', e' :: 0 <= s' < |prefix| ==> !IsMatch(prefix + tail, s', k', e')
  {
    var line := prefix + tail;
    forall s' | 0 <= s' < |prefix| ensures line[s'] != '"' {
      assert line[s'] == prefix[s'];
      assert prefix[s'] in prefix;
    }
  }

  /** A key without quotes cannot end before its own end. */
  lemma NoShorterKey(prefix: string, entry: Entry, rest: string)
    requires '"' !in entry.key
    ensures var line, m := prefix + Render(entry) + rest, RenderedSpan(prefix, entry);
      forall k' :: m.start + 1 <= k' < m.keyEnd ==> !KeyEndsAt(line, m.start, k')
  {
    var line := prefix + Render(entry) + rest;
    var m := RenderedSpan(prefix, entry);
    RenderedSlices(prefix, entry, rest);
    forall k' | m.start + 1 <= k' < m.keyEnd ensures !KeyEndsAt(line, m.start, k') {
      assert line[k'] == line[m.start + 1..m.keyEnd][k' - m.start - 1];
      assert line[k'] in entry.key;
      assert k' + 4 <= |line| ==> line[k'..k' + 4][0] == line[k'];
    }
  }

  /** Where the characters of a rendered value lie in the line. */
  lemma RenderedValueAt(prefix: string, entry: Entry, rest: string, j: int)
    requires 0 <= j < |entry.value|
    ensures var line, m := prefix + Render(entry) + rest, RenderedSpan(prefix, entry);
      m.keyEnd + 4 + j < |line| && line[m.keyEnd + 4 + j] == entry.value[j]
  {
    var line, m := prefix + Render(entry) + rest, RenderedSpan(prefix, entry);
    RenderedSlices(prefix, entry, rest);
    assert line[m.keyEnd + 4 + j] == line[m.keyEnd + 4..m.valueEnd][j];
  }

  /** A value whose quotes are escaped cannot be closed before its own end. */
  lemma NoShorterValue(prefix: string, entry: Entry, rest: string)
    requires QuotesEscaped(entry.value)
    ensures var line, m := prefix + Render(entry) + rest, RenderedSpan(prefix, entry);
      forall e' :: m.keyEnd + 4 <= e' < m.valueEnd ==> !ValueEndsAt(line, m.keyEnd, e')
  {
    var line := prefix + Render(entry) + rest;
    var m := RenderedSpan(prefix, entry);
    var k := m.keyEnd;
    forall e' | k + 4 <= e' < m.valueEnd ensures !ValueEndsAt(line, k, e') {
      var j := e' - k - 4;
      RenderedValueAt(prefix, entry, rest, j);
      if entry.value[j] == '"' {
        RenderedValueAt(prefix, entry, rest, j - 1);
      }
    }
  }

  /** A rendered entry is read back whole, escaped quotes included, when the text
      before it holds no quote, the key holds no quote and no newline, the value
      holds no newline, every quote in the value is escaped and the value does
      not end in a backslash. Whatever follows the entry is irrelevant. */
  lemma {:induction false} ExtractRendered(prefix: string, entry: Entry, rest: string)
    requires '"' !in prefix
    requires '"' !in entry.key && '\n' !in entry.key
    requires '\n' !in entry.value && QuotesEscaped(entry.value)
    requires entry.value == [] || entry.value[|entry.value| - 1] != '\\'
    ensures Extract(prefix + Render(entry) + rest) == Some(entry)
  {
    var line := prefix + Render(entry) + rest;
    var m := RenderedSpan(prefix, entry);
    RenderedIsMatch(prefix, entry, rest);
    assert line == prefix + (Render(entry) + rest);
    NoStartInPrefix(prefix, Render(entry) + rest);
    NoShorterKey(prefix, entry, rest);
    NoShorterValue(prefix, entry, rest);
    assert IsLeftmostMatch(line, m);
    LeftmostMatchUnique(line, m, FirstMatch(line).value);
  }
}
