# Translation merger: a verified model of the merge run

The i18n translation merger (`SV_i18n_Translation_Merger.py`) helps with
updating a mod's translation. It takes three JSON-style `i18n` files: the mod's
NEW default file, its OLD default file and the OLD translation. It writes a new
translation file. The worker thread (`TranslationWorker.run`) does this in five steps:

1. It reads the three files as lists of lines.
2. It builds a table from key to translated text out of the OLD translation.
   Each line that matches the pattern `"(.*?)": "(.*?(?<!\\))"` assigns its
   key, so the last write wins.
3. It walks a copy of the NEW lines. A NEW line is rewritten as
   `line.replace(value, table[key])` when two things hold:
   - some OLD line has the same key with the same value;
   - the key has a translation.

   Otherwise the NEW line is kept as it is. In both cases one progress
   percentage is reported per line.
4. It writes the result.
5. It logs either "File saved" or the error, then signals that it has finished.

The Dafny project models that run:

- `strings.dfy`, module `Strings`: occurrences of a substring.
- `entry_pattern.dfy`, module `EntryPattern`: the entry pattern under Python's
  `re.search`. This is a lazy, leftmost search. `.` does not match a newline,
  and a closing quote preceded by a backslash is rejected. The operational
  search (`FindStart`, `FindKeyEnd`, `FindValueEnd`) is proved equal to a
  declarative definition: the lexicographically smallest match. Extraction is
  also proved to read a rendered entry back.
- `py_replace.dfy`, module `PyReplace`: Python's `str.replace` without a count.
  It covers the empty-pattern case, where the replacement goes between every
  pair of characters and at both ends (`ReplaceEmptyPattern`). For a non-empty
  pattern it is proved equal to `replacement.join(s.split(pattern))`, where the
  split is the unique decomposition around leftmost occurrences; Python's
  `split` refuses an empty pattern, so that identity is not claimed for it.
- `translation_worker.dfy`, module `TranslationWorker`:
  - the table-building loop and the merge loop as methods. The merge loop
    patches a local array copy in place and stops its inner scan with `break`;
  - each of them proved against a specification function (`TableOf`,
    `MergedLine`, `ProgressReport`);
  - the whole run, with its error paths, as a method producing the worker's
    signals.
- `merge_examples.dfy`, module `MergeExamples`: worked cases derived from the
  general lemmas.
- `wrappers.dfy`, module `Wrappers`: `Option`.

The worker's inputs are taken as values:
- each file is a `Document`: it cannot be opened, cannot be decoded, or is a
  list of lines with their terminators;
- the outcome of writing the output is a parameter;
- the signals form the output sequence `events`.

### Behaviour of the code worth knowing

- Only a successful rewrite ends the scan of the OLD lines, so any OLD line
  with the same key and the same value triggers the translation, whatever
  earlier OLD lines with that key hold (SV_i18n_Translation_Merger.py:65-73;
  see `MergeExamples.LaterOldLineStillMatches`).
- `str.replace` replaces every occurrence of the value in the line, the key
  included when it contains the value
  (`MergeExamples.KeyEqualToValueIsReplacedToo`). An empty value inserts the
  translation between every pair of characters and at both ends
  (`TranslationWorker.RewrittenLineWithEmptyValue`).
- A value group never ends in a backslash, because of the `(?<!\\)` lookbehind
  (SV_i18n_Translation_Merger.py:47; `EntryPattern.MatchCoversRender`). A JSON
  value ending in an escaped backslash, such as `"C:\\"`, is therefore never
  read as that value: the line has no entry, or the value runs on to a later
  quote.
- Progress is truncated by `int(...)`, not rounded.
- An empty NEW file is not an error: it reports no progress and writes an empty
  file.

## Model

| member | source | states |
|---|---|---|
| EntryPattern.Extract | SV_i18n_Translation_Merger.py:47-50 | `re.search(r'"(.*?)": "(.*?(?<!\\))"', line)` followed by `group(1)` and `group(2)`: the key and value of the leftmost match, or `None` when there is no match (also used at lines 59-62 and 66-68); its properties are stated by `ExtractSpec` |
| EntryPattern.FindValueEnd | SV_i18n_Translation_Merger.py:47 | the lazy value group: the first closing quote not preceded by a backslash, before any newline; no earlier position closes the value; `None` when none can |
| EntryPattern.FindKeyEnd | SV_i18n_Translation_Merger.py:47 | for a given opening quote, the first key end for which some value fits, with the shortest value; every other fit from that quote comes after it; `None` when nothing fits |
| EntryPattern.FindStart | SV_i18n_Translation_Merger.py:47 | the scan over start positions returns a fit that precedes every fit starting at or after the position, or `None` when there is none |
| EntryPattern.FirstMatch | SV_i18n_Translation_Merger.py:47 | `re.search` gives the leftmost match (smallest start, then shortest key, then shortest value) or no match when the pattern fits nowhere |
| EntryPattern.LeftmostMatchUnique | SV_i18n_Translation_Merger.py:47 | the leftmost match is unique, so the groups are well defined |
| EntryPattern.MatchCoversRender | SV_i18n_Translation_Merger.py:47 | the text a match covers is `"key": "value"` with its own groups; the groups hold no newline; the value does not end in a backslash |
| EntryPattern.ExtractSpec | SV_i18n_Translation_Merger.py:47-50 | `Extract` gives no entry exactly when the pattern fits nowhere; otherwise it gives the groups of the leftmost match, whose rendering occurs in the line, with no newline in key or value and no backslash before the closing quote |
| EntryPattern.ExtractRendered | SV_i18n_Translation_Merger.py:47-50 | round trip: `"key": "value"` placed after text without quotes is read back whole, whatever follows it, when the key holds no quote and no newline, the value holds no newline, every quote in the value is escaped by a backslash before it, and the value does not end in a backslash |
| PyReplace.Replace | SV_i18n_Translation_Merger.py:71 | `s.replace(pattern, replacement)` with no count: scanning from the left, each non-overlapping occurrence is replaced; an empty pattern puts the replacement before every character and at the end; its properties are stated by the lemmas below |
| PyReplace.Split | SV_i18n_Translation_Merger.py:71 | the reference definition `s.split(pattern)` for a non-empty pattern: the pieces between occurrences found from the left, always at least one piece |
| PyReplace.Join | SV_i18n_Translation_Merger.py:71 | the reference definition `separator.join(parts)` of a non-empty list of pieces |
| PyReplace.JoinSplit | SV_i18n_Translation_Merger.py:71 | joining the split pieces with the pattern gives back the string |
| PyReplace.ReplaceIsJoinOfSplit | SV_i18n_Translation_Merger.py:71 | `s.replace(p, r) == r.join(s.split(p))` for a non-empty pattern |
| PyReplace.SplitIsLeftmost | SV_i18n_Translation_Merger.py:71 | the split pieces cut at leftmost occurrences: no piece, extended by all but the last character of the pattern, holds an occurrence, and the last piece holds none |
| PyReplace.LeftmostPiecesUnique | SV_i18n_Translation_Merger.py:71 | two leftmost decompositions of the same string are equal |
| PyReplace.ReplaceJoinsLeftmostPieces | SV_i18n_Translation_Merger.py:71 | replacing occurrences in any leftmost decomposition gives the pieces joined with the replacement |
| PyReplace.ReplaceFirstOccurrence | SV_i18n_Translation_Merger.py:71 | the first occurrence is replaced and the scan resumes after it |
| PyReplace.ReplaceAbsent | SV_i18n_Translation_Merger.py:71 | a string without the pattern is unchanged |
| PyReplace.ReplaceEmptyPattern | SV_i18n_Translation_Merger.py:71 | an empty pattern puts the replacement before every character and at the end |
| PyReplace.ReplaceByItself | SV_i18n_Translation_Merger.py:71 | replacing a pattern by itself changes nothing |
| TranslationWorker.TableOf | SV_i18n_Translation_Merger.py:45-51 | the translation dictionary after the loop: the fold over the translation lines in order, each line with an entry assigning its key; its properties are stated by `TableOfKeys` and `TableOfLastWriteWins` |
| TranslationWorker.TableOfStep | SV_i18n_Translation_Merger.py:46-51 | one more translation line assigns its key or leaves the table as it was |
| TranslationWorker.TableOfKeys | SV_i18n_Translation_Merger.py:45-51 | a key is in the table exactly when some translation line has an entry for it |
| TranslationWorker.TableOfLastWriteWins | SV_i18n_Translation_Merger.py:51 | a key maps to the value of the last translation line with an entry for it |
| TranslationWorker.BuildTranslationTable | SV_i18n_Translation_Merger.py:45-51 | the loop builds exactly the table `TableOf` describes |
| TranslationWorker.Rewrites | SV_i18n_Translation_Merger.py:58-70 | the condition under which a NEW line is rewritten: it has an entry, its key has a translation, and some OLD line has an entry with the same key and the same value |
| TranslationWorker.MergedLine | SV_i18n_Translation_Merger.py:58-73 | what one NEW line becomes: `line.replace(value, table[key])` when it is rewritten, the line unchanged otherwise |
| TranslationWorker.PassThroughWithoutEntry | SV_i18n_Translation_Merger.py:59-60 | a NEW line without an entry is not rewritten and is emitted unchanged |
| TranslationWorker.RewriteOnMatchingOldLine | SV_i18n_Translation_Merger.py:65-72 | any OLD line with the same key and value, when the key has a translation, makes the line `line.replace(value, translation)`, whatever the other OLD lines hold |
| TranslationWorker.PassThroughWithoutOldMatch | SV_i18n_Translation_Merger.py:65-70 | without such an OLD line, or without a translation for the key, the line is not rewritten and is emitted unchanged |
| TranslationWorker.RewrittenLineReplacesEveryOccurrence | SV_i18n_Translation_Merger.py:71-72 | a rewritten line is its leftmost decomposition around the value joined with the translation: every occurrence is replaced and the text between occurrences is kept |
| TranslationWorker.RewrittenLineWithEmptyValue | SV_i18n_Translation_Merger.py:71-72 | with an empty value the translation is inserted before every character and at the end |
| TranslationWorker.Merged | SV_i18n_Translation_Merger.py:54-58 | the merged document has one line per NEW line |
| TranslationWorker.Percent | SV_i18n_Translation_Merger.py:76 | the percentage after `processed` of `total` lines, `(100 * processed) / total` in integer arithmetic (see `## Left out`) |
| TranslationWorker.PercentMonotone | SV_i18n_Translation_Merger.py:75-76 | more processed lines never report a smaller percentage |
| TranslationWorker.PercentComplete | SV_i18n_Translation_Merger.py:75-76 | all lines processed reports 100 |
| TranslationWorker.PercentBounded | SV_i18n_Translation_Merger.py:76 | the reported percentage stays within 0..100 |
| TranslationWorker.ProgressReport | SV_i18n_Translation_Merger.py:58-76 | one progress value per NEW line |
| TranslationWorker.ProgressReportShape | SV_i18n_Translation_Merger.py:55-76 | the values never decrease, lie within 0..100 and end with 100; an empty file reports none |
| TranslationWorker.MergeLines | SV_i18n_Translation_Merger.py:54-76 | the in-place loop turns each NEW line into `MergedLine` of it; it writes a line at most once, and exactly when the line is rewritten; it reports `ProgressReport` of the line count |
| TranslationWorker.ReadFailure | SV_i18n_Translation_Merger.py:35-42 | reading fails exactly when some file cannot be opened or decoded; open failures are met in file order before any decoding error |
| TranslationWorker.ErrorMessage | SV_i18n_Translation_Merger.py:86-89 | the logged error text: `"Error:\n"` followed by the exception's description |
| TranslationWorker.SavedMessage | SV_i18n_Translation_Merger.py:82 | the logged text after saving: `"File saved: "` followed by the output path |
| TranslationWorker.ProgressEvents | SV_i18n_Translation_Merger.py:76 | one progress signal per NEW line |
| TranslationWorker.Run | SV_i18n_Translation_Merger.py:32-92 | a document is handed to the writer iff all three files are read, whatever the outcome of the write; that document is `Merged` of them; the signals are the progress values, then "File saved" or the write error, then finished; a read failure signals only the error and finished; exactly one finished signal, and it comes last |
| MergeExamples.EscapedQuoteExample | SV_i18n_Translation_Merger.py:47 | `"a": "He said \"hi\""` yields the value `He said \"hi\"` |
| MergeExamples.ExtractEntryLine | SV_i18n_Translation_Merger.py:47-50 | an indented entry line with a trailing comma and newline yields its key and value when key and value hold no quote and no newline and the value does not end in a backslash |
| MergeExamples.SingleLineTable | SV_i18n_Translation_Merger.py:45-51 | one translation line gives a one-entry table |
| MergeExamples.TwoLineTable | SV_i18n_Translation_Merger.py:45-51 | two translation lines are written in order, so with the same key the second one's value is kept |
| MergeExamples.LastTranslationWins | SV_i18n_Translation_Merger.py:51 | of two translations for one key, the later is kept |
| MergeExamples.OneLineMerge | SV_i18n_Translation_Merger.py:58-73 | a NEW line whose entry also appears in the OLD file gets the translation of its key |
| MergeExamples.EntryLineReplaced | SV_i18n_Translation_Merger.py:71 | replacing the value of an entry line by a translation gives the entry line of the translation when the value is non-empty and its first character appears nowhere else in the line (not in the indentation, quotes, key, separator, closing quote, comma or newline) |
| MergeExamples.UnchangedValueIsTranslated | SV_i18n_Translation_Merger.py:58-73 | an unchanged text is translated |
| MergeExamples.EditedValueIsKept | SV_i18n_Translation_Merger.py:65-70 | an edited text keeps the NEW line |
| MergeExamples.LaterOldLineStillMatches | SV_i18n_Translation_Merger.py:65-73 | an earlier OLD line with the same key and another value does not block a later exact match |
| MergeExamples.KeyEqualToValueReplaced | SV_i18n_Translation_Merger.py:71 | when the key equals a non-empty value whose first character is none of the indentation, quote, colon, space, comma or newline characters of the line, both key and value are replaced |
| MergeExamples.KeyEqualToValueIsReplacedToo | SV_i18n_Translation_Merger.py:58-73 | the merge rewrites the key too when it equals the value |

## Left out

- The window (`MainWindow`): file dialogs, buttons, log view and progress bar. It only collects paths and shows signals.
- Threading and Qt signals: `QThread` and `pyqtSignal` are modelled as the returned sequence of events, in emission order.
- File I/O: opening and reading (UTF-8 decoding, universal newlines) and writing are reduced to `Document` values and a write outcome. The lines are taken as `readlines` gives them.
- Exception text: the exception's type, message and the traceback of at most 10 frames are one opaque description string after `"Error:\n"`.
- A write that fails after writing part of the output: the partial file is not modelled, only the logged error.
- The constructor's path fields (SV_i18n_Translation_Merger.py:25-30): `output_path` is the `outputPath` parameter of `Run`; the three input paths are not modelled as such, because each input file appears only as the `Document` it yields (the outcome of opening and reading it).
- TranslationWorker.Percent: it is `(100 * p) / t` in integer arithmetic, where the source truncates the float `(p / t) * 100`. Float rounding can make the two differ by one (for example at p = 29, t = 100). Only the order, the 0..100 bounds and the final 100 are claimed.
