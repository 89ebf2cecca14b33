/**
  The merge run of the translation worker: build the translation table from the
  OLD TRANSLATION lines, then walk the NEW lines and, for each one whose entry
  also appears with the same key and the same value in the OLD lines, replace
  the value by its translation. One progress value is reported per NEW line.

  The three documents are taken as sequences of lines (each line as read, with
  its line terminator); reading and writing files is reduced to the outcomes
  that the run reacts to.
*/
module TranslationWorker {
  import opened Wrappers
  import opened EntryPattern
  import opened PyReplace

  // ---------------------------------------------------------------------------
  // Translation table

  /** The table after reading `lines` in order: each line with an entry assigns
      its key, so a later line overwrites an earlier one. */
  function TableOf(lines: seq<string>): map<string, string>
    decreases |lines|
  {
    if lines == [] then map[]
    else
      var table := TableOf(lines[..|lines| - 1]);
      match Extract(lines[|lines| - 1])
      case None => table
      case Some(entry) => table[entry.key := entry.value]
  }

  /** `line` has an entry, and its key is `key`. */
  predicate DefinesKey(line: string, key: string)
  {
    Extract(line).Some? && Extract(line).value.key == key
  }

  /** Line `i` is the last of `lines` that has an entry for `key`. */
  ghost predicate LastDefinition(lines: seq<string>, i: int, key: string)
  {
    0 <= i < |lines| && DefinesKey(lines[i], key) &&
    forall j :: i < j < |lines| ==> !DefinesKey(lines[j], key)
  }

  /** One more line: it assigns its key, or leaves the table as it was. */
  lemma TableOfStep(lines: seq<string>, key: string)
    requires lines != []
    ensures var init, last := lines[..|lines| - 1], lines[|lines| - 1];
      if DefinesKey(last, key) then
        key in TableOf(lines) && TableOf(lines)[key] == Extract(last).value.value
      else
        (key in TableOf(lines) <==> key in TableOf(init)) &&
        (key in TableOf(init) ==> TableOf(lines)[key] == TableOf(init)[key])
  {
  }

  /** A key is in the table exactly when some line has an entry for it. */
  lemma {:induction false} TableOfKeys(lines: seq<string>, key: string)
    decreases |lines|
    ensures key in TableOf(lines) <==> exists i :: 0 <= i < |lines| && DefinesKey(lines[i], key)
  {
    if lines != [] {
      var n := |lines| - 1;
      var init := lines[..n];
      assert forall j :: 0 <= j < n ==> init[j] == lines[j];
      TableOfKeys(init, key);
      TableOfStep(lines, key);
      if key in TableOf(lines) && !DefinesKey(lines[n], key) {
        var i :| 0 <= i < n && DefinesKey(init[i], key);
        assert DefinesKey(lines[i], key);
      }
    }
  }

  /** A key in the table maps to the value of the last line with an entry for
      it; lines without an entry, and lines for other keys, do not matter. */
  lemma {:induction false} TableOfLastWriteWins(lines: seq<string>, key: string)
    decreases |lines|
    requires key in TableOf(lines)
    ensures exists i :: LastDefinition(lines, i, key) && TableOf(lines)[key] == Extract(lines[i]).value.value
  {
    var n := |lines| - 1;
    var init := lines[..n];
    TableOfStep(lines, key);
    if DefinesKey(lines[n], key) {
      assert LastDefinition(lines, n, key);
    } else {
      TableOfLastWriteWins(init, key);
      var i :| LastDefinition(init, i, key) && TableOf(init)[key] == Extract(init[i]).value.value;
      assert forall j :: 0 <= j < n ==> init[j] == lines[j];
      assert LastDefinition(lines, i, key);
    }
  }

  /** SV_i18n_Translation_Merger.py, lines 45-51: fill the table line by line,
      overwriting. */
  method BuildTranslationTable(translationLines: seq<string>) returns (table: map<string, string>)
    ensures table == TableOf(translationLines)
  {
    table := map[];
    for i := 0 to |translationLines|
      invariant table == TableOf(translationLines[..i])
    {
      assert translationLines[..i + 1][..i] == translationLines[..i];
      var translationMatch := Extract(translationLines[i]);
      if translationMatch.Some? {
        var key := translationMatch.value.key;
        var translation := translationMatch.value.value;
        table := table[key := translation];
      }
    }
    assert translationLines[..|translationLines|] == translationLines;
  }

  // ---------------------------------------------------------------------------
  // Merging one line

  /** Some OLD line has exactly this entry: the same key and the same value. */
  predicate OldHasEntry(oldLines: seq<string>, entry: Entry)
  {
    exists j | 0 <= j < |oldLines| :: Extract(oldLines[j]) == Some(entry)
  }

  /** The NEW line is rewritten: it has an entry, the key has a translation, and
      some OLD line carries the same key with the same value. */
  predicate Rewrites(line: string, oldLines: seq<string>, table: map<string, string>)
  {
    match Extract(line)
    case None => false
    case Some(entry) => entry.key in table && OldHasEntry(oldLines, entry)
  }

  /** What the merge makes of one NEW line: `line.replace(value, table[key])`
      when it is rewritten, the line itself otherwise. */
  function MergedLine(line: string, oldLines: seq<string>, table: map<string, string>): string
  {
    if Rewrites(line, oldLines, table) then
      var entry := Extract(line).value;
      Replace(line, entry.value, table[entry.key])
    else line
  }

  /** A NEW line without an entry is emitted unchanged. */
  lemma PassThroughWithoutEntry(line: string, oldLines: seq<string>, table: map<string, string>)
    requires Extract(line).None?
    ensures !Rewrites(line, oldLines, table) && MergedLine(line, oldLines, table) == line
  {
  }

  /** Any OLD line with the same key and value suffices, wherever it stands and
      whatever other OLD lines say about the key. */
  lemma RewriteOnMatchingOldLine(line: string, oldLines: seq<string>, table: map<string, string>, j: int)
    requires Extract(line).Some? && Extract(line).value.key in table
    requires 0 <= j < |oldLines| && Extract(oldLines[j]) == Extract(line)
    ensures Rewrites(line, oldLines, table)
    ensures MergedLine(line, oldLines, table) ==
            Replace(line, Extract(line).value.value, table[Extract(line).value.key])
  {
  }

  /** Without an OLD line carrying the same key and value, or without a
      translation for the key, the NEW line is emitted unchanged. */
  lemma PassThroughWithoutOldMatch(line: string, oldLines: seq<string>, table: map<string, string>)
    requires Extract(line).Some?
    requires forall j :: 0 <= j < |oldLines| ==>
      !(Extract(line).value.key in table && Extract(oldLines[j]) == Extract(line))
    ensures !Rewrites(line, oldLines, table) && MergedLine(line, oldLines, table) == line
  {
  }

  /** A rewritten line is the NEW line with every non-overlapping occurrence of
      its value, found from the left, replaced by the translation; text around
      the occurrences, the key included, stays as it was. */
  lemma RewrittenLineReplacesEveryOccurrence(line: string, oldLines: seq<string>, table: map<string, string>, pieces: seq<string>)
    requires Rewrites(line, oldLines, table)
    requires Extract(line).value.value != [] && |pieces| >= 1
    requires Join(pieces, Extract(line).value.value) == line
    requires LeftmostPieces(pieces, Extract(line).value.value)
    ensures MergedLine(line, oldLines, table) == Join(pieces, table[Extract(line).value.key])
  {
    var entry := Extract(line).value;
    ReplaceJoinsLeftmostPieces(line, entry.value, table[entry.key], pieces);
  }

  /** A rewritten line whose value is empty gets the translation before every
      character and at the end. */
  lemma RewrittenLineWithEmptyValue(line: string, oldLines: seq<string>, table: map<string, string>)
    requires Rewrites(line, oldLines, table) && Extract(line).value.value == []
    ensures MergedLine(line, oldLines, table) == Join([[]] + Chars(line) + [[]], table[Extract(line).value.key])
  {
    ReplaceEmptyPattern(line, table[Extract(line).value.key]);
  }

  /** The merged document: NEW line by NEW line, in order. */
  function Merged(newLines: seq<string>, oldLines: seq<string>, translationLines: seq<string>): (r: seq<string>)
    ensures |r| == |newLines|
  {
    var table := TableOf(translationLines);
    seq(|newLines|, i requires 0 <= i < |newLines| => MergedLine(newLines[i], oldLines, table))
  }

  // ---------------------------------------------------------------------------
  // Progress

  /** The percentage reported after `processed` of `total` lines, in integer
      arithmetic. */
  function Percent(processed: int, total: int): int
    requires 0 < total
  {
    (100 * processed) / total
  }

  /** A positive multiple of `d` is at least `d`. */
  lemma MulAtLeast(d: int, c: int)
    requires 0 < d && 1 <= c
    ensures d * c >= d
  {
  }

  /** Integer division by a positive number is monotone. */
  lemma DivMonotone(x: int, y: int, d: int)
    requires 0 <= x <= y && 0 < d
    ensures x / d <= y / d
  {
    var qx, qy := x / d, y / d;
    assert x == d * qx + x % d;
    assert y == d * qy + y % d;
    if qx > qy {
      MulAtLeast(d, qx - qy);
      assert false;
    }
  }

  /** Dividing a multiple of `d` by `d` is exact. */
  lemma DivExact(a: int, d: int)
    requires 0 < d
    ensures (a * d) / d == a
  {
    var q := (a * d) / d;
    assert a * d == d * q + (a * d) % d;
    assert d * (a - q) == (a * d) % d;
    if a - q >= 1 {
      MulAtLeast(d, a - q);
      assert false;
    } else if a - q <= -1 {
      MulAtLeast(d, q - a);
      assert false;
    }
  }

  /** Reporting more lines never reports a smaller percentage. */
  lemma PercentMonotone(p: int, q: int, total: int)
    requires 0 <= p <= q && 0 < total
    ensures Percent(p, total) <= Percent(q, total)
  {
    DivMonotone(100 * p, 100 * q, total);
  }

  /** All lines processed is 100 percent. */
  lemma PercentComplete(total: int)
    requires 0 < total
    ensures Percent(total, total) == 100
  {
    DivExact(100, total);
    assert 100 * total == 100 * total;
  }

  /** Between no lines and all lines the percentage stays within 0..100. */
  lemma PercentBounded(p: int, total: int)
    requires 0 <= p <= total && 0 < total
    ensures 0 <= Percent(p, total) <= 100
  {
    PercentMonotone(p, total, total);
    PercentComplete(total);
  }

  /** The values reported for a document of `total` lines: one per line, after
      the line is processed. */
  function ProgressReport(total: nat): (r: seq<int>)
    ensures |r| == total
  {
    seq(total, i requires 0 <= i < total => Percent(i + 1, total))
  }

  /** The reported values never decrease, stay within 0..100 and end at 100;
      an empty document reports nothing. */
  lemma ProgressReportShape(total: nat)
    ensures total == 0 ==> ProgressReport(total) == []
    ensures forall i, j :: 0 <= i <= j < total ==> ProgressReport(total)[i] <= ProgressReport(total)[j]
    ensures forall i :: 0 <= i < total ==> 0 <= ProgressReport(total)[i] <= 100
    ensures total > 0 ==> ProgressReport(total)[total - 1] == 100
  {
    var r := ProgressReport(total);
    forall i, j | 0 <= i <= j < total ensures r[i] <= r[j] {
      PercentMonotone(i + 1, j + 1, total);
    }
    forall i | 0 <= i < total ensures 0 <= r[i] <= 100 {
      PercentBounded(i + 1, total);
    }
    if total > 0 {
      PercentComplete(total);
    }
  }

  // ---------------------------------------------------------------------------
  // The merge loop

  /** SV_i18n_Translation_Merger.py, lines 54-76: patch a copy of the NEW lines
      in place. For each line with an entry, scan the OLD lines; the first one
      with the same key and the same value, when the key has a translation,
      rewrites the line and ends the scan. Afterwards the processed-lines
      counter goes up and a progress value is reported. `writes` counts, per
      line, the assignments to the copy. */
  method MergeLines(newLines: seq<string>, oldLines: seq<string>, table: map<string, string>)
    returns (output: seq<string>, progress: seq<int>, ghost writes: seq<nat>)
    ensures |output| == |newLines|
    ensures forall i :: 0 <= i < |newLines| ==> output[i] == MergedLine(newLines[i], oldLines, table)
    ensures progress == ProgressReport(|newLines|)
    ensures |writes| == |newLines|
    ensures forall i :: 0 <= i < |newLines| ==>
      writes[i] <= 1 && (writes[i] == 1 <==> Rewrites(newLines[i], oldLines, table))
  {
    var copy := new string[|newLines|](k requires 0 <= k < |newLines| => newLines[k]);
    var total := copy.Length;
    var processed := 0;
    progress := [];
    writes := [];
    for i := 0 to copy.Length
      invariant processed == i && total == |newLines|
      invariant |progress| == i && forall k :: 0 <= k < i ==> progress[k] == Percent(k + 1, total)
      invariant |writes| == i
      invariant forall k :: 0 <= k < i ==>
        writes[k] <= 1 && (writes[k] == 1 <==> Rewrites(newLines[k], oldLines, table))
      invariant forall k :: 0 <= k < i ==> copy[k] == MergedLine(newLines[k], oldLines, table)
      invariant forall k :: i <= k < copy.Length ==> copy[k] == newLines[k]
    {
      var line := copy[i];
      ghost var before := copy[..];
      ghost var written := 0;
      var match_ := Extract(line);
      if match_.Some? {
        var key := match_.value.key;
        var currentI18n := match_.value.value;
        assert match_ == Some(Entry(key, currentI18n));
        for j := 0 to |oldLines|
          invariant copy[..] == before && written == 0
          invariant forall jj :: 0 <= jj < j ==>
            !(key in table && Extract(oldLines[jj]) == Some(Entry(key, currentI18n)))
        {
          var oldModMatch := Extract(oldLines[j]);
          if oldModMatch.Some? && oldModMatch.value.key == key {
            var oldI18n := oldModMatch.value.value;
            if currentI18n == oldI18n && key in table {
              assert oldModMatch == Some(Entry(key, currentI18n));
              RewriteOnMatchingOldLine(line, oldLines, table, j);
              var newLine := Replace(line, currentI18n, table[key]);
              copy[i] := newLine;
              written := written + 1;
              break;
            }
          }
        }
        if written == 0 {
          PassThroughWithoutOldMatch(line, oldLines, table);
        }
      } else {
        PassThroughWithoutEntry(line, oldLines, table);
      }
      assert written <= 1 && (written == 1 <==> Rewrites(line, oldLines, table));
      assert copy[i] == MergedLine(line, oldLines, table);
      assert forall k :: 0 <= k < copy.Length && k != i ==> copy[k] == before[k];
      writes := writes + [written];
      processed := processed + 1;
      progress := progress + [Percent(processed, total)];
    }
    output := copy[..];
    assert progress == ProgressReport(total);
  }

  // ---------------------------------------------------------------------------
  // The whole run

  /** A document as the run finds it: it cannot be opened, cannot be decoded,
      or is read as a list of lines. An error carries the exception's
      description (type name, message and traceback). */
  datatype Document = Unopenable(error: string) | Undecodable(error: string) | Loaded(lines: seq<string>)

  /** What the worker signals: a progress value, a log message, the end. */
  datatype Event = ProgressUpdated(percent: int) | LogMessage(text: string) | Finished

  /** The log text for a caught exception. */
  function ErrorMessage(description: string): string
  {
    "Error:\n" + description
  }

  /** The log text after the output file was written. */
  function SavedMessage(outputPath: string): string
  {
    "File saved: " + outputPath
  }

  /** The exception the reading phase raises: the three files are opened in the
      order NEW, OLD, OLD TRANSLATION, then read in that order. */
  function ReadFailure(newMod: Document, oldMod: Document, oldTranslation: Document): (r: Option<string>)
    ensures r.None? <==> newMod.Loaded? && oldMod.Loaded? && oldTranslation.Loaded?
  {
    if newMod.Unopenable? then Some(newMod.error)
    else if oldMod.Unopenable? then Some(oldMod.error)
    else if oldTranslation.Unopenable? then Some(oldTranslation.error)
    else if newMod.Undecodable? then Some(newMod.error)
    else if oldMod.Undecodable? then Some(oldMod.error)
    else if oldTranslation.Undecodable? then Some(oldTranslation.error)
    else None
  }

  /** The progress signals for a document of `total` lines. */
  function ProgressEvents(total: nat): (r: seq<Event>)
    ensures |r| == total
  {
    seq(total, i requires 0 <= i < total => ProgressUpdated(ProgressReport(total)[i]))
  }

  /** SV_i18n_Translation_Merger.py, lines 32-92. `writeError` is the outcome of
      writing the output file (`None` when it succeeds); `merged` is the
      document handed to the writer, `None` when reading failed. Every run ends
      with exactly one `Finished`. */
  method Run(newMod: Document, oldMod: Document, oldTranslation: Document,
             outputPath: string, writeError: Option<string>)
    returns (merged: Option<seq<string>>, events: seq<Event>)
    ensures merged.Some? <==> newMod.Loaded? && oldMod.Loaded? && oldTranslation.Loaded?
    ensures merged.Some? ==> merged.value == Merged(newMod.lines, oldMod.lines, oldTranslation.lines)
    ensures merged.Some? ==>
      events == ProgressEvents(|newMod.lines|) +
                [LogMessage(if writeError.None? then SavedMessage(outputPath) else ErrorMessage(writeError.value)), Finished]
    ensures merged.None? ==>
      events == [LogMessage(ErrorMessage(ReadFailure(newMod, oldMod, oldTranslation).value)), Finished]
    ensures events != [] && events[|events| - 1] == Finished
    ensures forall k :: 0 <= k < |events| - 1 ==> events[k] != Finished
  {
    var failure := ReadFailure(newMod, oldMod, oldTranslation);
    if failure.Some? {
      merged := None;
      events := [LogMessage(ErrorMessage(failure.value))];
    } else {
      var translationDict := BuildTranslationTable(oldTranslation.lines);
      var output, progress, _ := MergeLines(newMod.lines, oldMod.lines, translationDict);
      merged := Some(output);
      events := seq(|progress|, i requires 0 <= i < |progress| => ProgressUpdated(progress[i]));
      if writeError.None? {
        events := events + [LogMessage(SavedMessage(outputPath))];
      } else {
        events := events + [LogMessage(ErrorMessage(writeError.value))];
      }
    }
    events := events + [Finished];
  }
}
