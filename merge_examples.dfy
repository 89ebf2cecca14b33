/** Worked cases of the merge, each proved from the general lemmas. */
module MergeExamples {
  import opened Wrappers
  import opened EntryPattern
  import opened PyReplace
  import opened TranslationWorker

  /** A JSON-style line as the files hold it: indented, with a trailing comma
      and the line terminator kept by `readlines`. */
  function EntryLine(key: string, value: string): string
  {
    "  " + Render(Entry(key, value)) + ",\n"
  }

  /** The value `He said \"hi\"` escapes both of its quotes. */
  lemma EscapedValue()
    ensures QuotesEscaped("He said \\\"hi\\\"")
  {
  }

  /** The line `"a": "He said \"hi\""` is the rendering of its entry. */
  lemma EscapedLine()
    ensures "\"a\": \"He said \\\"hi\\\"\"" == Render(Entry("a", "He said \\\"hi\\\""))
  {
  }

  /** Escaped quotes stay inside the value: `"a": "He said \"hi\""` has the
      value `He said \"hi\"`. */
  lemma EscapedQuoteExample()
    ensures Extract("\"a\": \"He said \\\"hi\\\"\"") == Some(Entry("a", "He said \\\"hi\\\""))
  {
    var entry := Entry("a", "He said \\\"hi\\\"");
    EscapedValue();
    EscapedLine();
    ExtractRendered([], entry, []);
    assert [] + Render(entry) + [] == Render(entry);
  }

  /** An entry line with quote-free key and value is read back whole. */
  lemma ExtractEntryLine(key: string, value: string)
    requires '"' !in key && '\n' !in key && '"' !in value && '\n' !in value
    requires value == [] || value[|value| - 1] != '\\'
    ensures Extract(EntryLine(key, value)) == Some(Entry(key, value))
  {
    assert QuotesEscaped(value) by {
      forall j | 0 <= j < |value| ensures value[j] != '"' {
        assert value[j] in value;
      }
    }
    ExtractRendered("  ", Entry(key, value), ",\n");
  }

  /** The entry lines of the examples are read back whole. */
  lemma ExampleLine(key: string, value: string)
    requires key == "greeting" || key == "Hello"
    requires value == "Hello" || value == "Hi" || value == "Bonjour"
    ensures Extract(EntryLine(key, value)) == Some(Entry(key, value))
  {
    ExtractEntryLine(key, value);
  }

  /** The translation table of a single line. */
  lemma SingleLineTable(line: string, entry: Entry)
    requires Extract(line) == Some(entry)
    ensures TableOf([line]) == map[entry.key := entry.value]
  {
    assert [line][..0] == [];
  }

  /** One NEW line, one OLD line with the same entry and one translation line
      for its key: the NEW line gets the translation. */
  lemma OneLineMerge(newLine: string, oldLine: string, translationLine: string, entry: Entry, translation: string)
    requires Extract(newLine) == Some(entry) && Extract(oldLine) == Some(entry)
    requires Extract(translationLine) == Some(Entry(entry.key, translation))
    ensures Merged([newLine], [oldLine], [translationLine]) == [Replace(newLine, entry.value, translation)]
  {
    SingleLineTable(translationLine, Entry(entry.key, translation));
    RewriteOnMatchingOldLine(newLine, [oldLine], map[entry.key := translation], 0);
  }

  /** Replacing the value of an entry line touches only the value, when the
      value's first character appears nowhere else in the line. */
  lemma EntryLineReplaced(key: string, value: string, translation: string)
    requires value != [] && value[0] !in "  \"" + key + "\": \"" && value[0] !in "\",\n"
    ensures Replace(EntryLine(key, value), value, translation) == EntryLine(key, translation)
  {
    var front, back := "  \"" + key + "\": \"", "\",\n";
    assert EntryLine(key, value) == front + value + back;
    assert EntryLine(key, translation) == front + translation + back;
    FreeWithoutFirstChar(front, value);
    ReplaceFirstOccurrence(front, value, back, translation);
    FreeWithoutFirstChar(back, value);
    ReplaceAbsent(back, value, translation);
  }

  /** Replacing `Hello` in the greeting line gives the `Bonjour` line. */
  lemma GreetingReplaced()
    ensures Replace(EntryLine("greeting", "Hello"), "Hello", "Bonjour") == EntryLine("greeting", "Bonjour")
  {
    EntryLineReplaced("greeting", "Hello", "Bonjour");
  }

  /** Unchanged value: the translation is carried over. */
  lemma UnchangedValueIsTranslated()
    ensures Merged([EntryLine("greeting", "Hello")], [EntryLine("greeting", "Hello")],
                   [EntryLine("greeting", "Bonjour")])
         == [EntryLine("greeting", "Bonjour")]
  {
    ExampleLine("greeting", "Hello");
    ExampleLine("greeting", "Bonjour");
    OneLineMerge(EntryLine("greeting", "Hello"), EntryLine("greeting", "Hello"),
                 EntryLine("greeting", "Bonjour"), Entry("greeting", "Hello"), "Bonjour");
    GreetingReplaced();
  }

  /** Edited value: the NEW line is kept as it is. */
  lemma EditedValueIsKept()
    ensures Merged([EntryLine("greeting", "Hi")], [EntryLine("greeting", "Hello")],
                   [EntryLine("greeting", "Bonjour")])
         == [EntryLine("greeting", "Hi")]
  {
    ExampleLine("greeting", "Hi");
    ExampleLine("greeting", "Hello");
    PassThroughWithoutOldMatch(EntryLine("greeting", "Hi"), [EntryLine("greeting", "Hello")],
                               map["greeting" := "Bonjour"]);
  }

  /** An earlier OLD line with the same key and another value does not stop the
      scan: a later OLD line with the same value still brings the translation. */
  lemma LaterOldLineStillMatches()
    ensures Merged([EntryLine("greeting", "Hello")],
                   [EntryLine("greeting", "Hi"), EntryLine("greeting", "Hello")],
                   [EntryLine("greeting", "Bonjour")])
         == [EntryLine("greeting", "Bonjour")]
  {
    ExampleLine("greeting", "Hello");
    ExampleLine("greeting", "Hi");
    ExampleLine("greeting", "Bonjour");
    SingleLineTable(EntryLine("greeting", "Bonjour"), Entry("greeting", "Bonjour"));
    RewriteOnMatchingOldLine(EntryLine("greeting", "Hello"),
                             [EntryLine("greeting", "Hi"), EntryLine("greeting", "Hello")],
                             map["greeting" := "Bonjour"], 1);
    GreetingReplaced();
  }

  /** The translation table of two lines: the second entry is written last, so
      it wins when both lines have the same key. */
  lemma TwoLineTable(first: string, second: string, e1: Entry, e2: Entry)
    requires Extract(first) == Some(e1) && Extract(second) == Some(e2)
    ensures TableOf([first, second]) == map[e1.key := e1.value][e2.key := e2.value]
    ensures e1.key == e2.key ==> TableOf([first, second]) == map[e2.key := e2.value]
  {
    assert [first, second][..1] == [first];
    SingleLineTable(first, e1);
    if e1.key == e2.key {
      assert map[e1.key := e1.value][e2.key := e2.value] == map[e2.key := e2.value];
    }
  }

  /** The last translation of a key wins. */
  lemma LastTranslationWins()
    ensures TableOf([EntryLine("greeting", "Hi"), EntryLine("greeting", "Bonjour")])
         == map["greeting" := "Bonjour"]
  {
    ExampleLine("greeting", "Hi");
    ExampleLine("greeting", "Bonjour");
    TwoLineTable(EntryLine("greeting", "Hi"), EntryLine("greeting", "Bonjour"),
                 Entry("greeting", "Hi"), Entry("greeting", "Bonjour"));
  }

  /** When the key equals the value, both are replaced. */
  lemma KeyEqualToValueReplaced(value: string, translation: string)
    requires value != [] && value[0] !in "  \"" && value[0] !in "\": \"" && value[0] !in "\",\n"
    ensures Replace(EntryLine(value, value), value, translation) == EntryLine(translation, translation)
  {
    var front, middle, back := "  \"", "\": \"", "\",\n";
    assert EntryLine(value, value) == front + value + (middle + value + back);
    assert EntryLine(translation, translation) == front + translation + (middle + translation + back);
    FreeWithoutFirstChar(front, value);
    ReplaceFirstOccurrence(front, value, middle + value + back, translation);
    FreeWithoutFirstChar(middle, value);
    ReplaceFirstOccurrence(middle, value, back, translation);
    FreeWithoutFirstChar(back, value);
    ReplaceAbsent(back, value, translation);
  }

  /** Replacing `Hello` in the line `"Hello": "Hello"` rewrites key and value. */
  lemma KeyLineReplaced()
    ensures Replace(EntryLine("Hello", "Hello"), "Hello", "Bonjour") == EntryLine("Bonjour", "Bonjour")
  {
    KeyEqualToValueReplaced("Hello", "Bonjour");
  }

  /** `str.replace` does not stop at the value: a key equal to its own value is
      translated as well. */
  lemma KeyEqualToValueIsReplacedToo()
    ensures Merged([EntryLine("Hello", "Hello")], [EntryLine("Hello", "Hello")],
                   [EntryLine("Hello", "Bonjour")])
         == [EntryLine("Bonjour", "Bonjour")]
  {
    var line := EntryLine("Hello", "Hello");
    ExampleLine("Hello", "Hello");
    ExampleLine("Hello", "Bonjour");
    OneLineMerge(line, line, EntryLine("Hello", "Bonjour"), Entry("Hello", "Hello"), "Bonjour");
    KeyLineReplaced();
  }
}
