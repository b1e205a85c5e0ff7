/** The file emitter (`generateLocalizationFiles`): for each language, projects the rows onto
    that language's column, renders one `.strings` line per value, and writes the buffer to
    `<out>/Resources/<language>.lproj/Localizable.strings`. The file system is a value: the
    files it holds and the directories and files it will refuse to create or write. */
module FileEmitter {
  import opened Text
  import opened TableReader

  // ---------------------------------------------------------------------------
  // Quote escaping
  // ---------------------------------------------------------------------------

  /** `replacingOccurrences(of: "\"", with: "\\\"")`: a backslash goes before every quote. */
  function Escape(value: string): string {
    if value == [] then []
    else (if value[0] == '"' then ['\\', '"'] else [value[0]]) + Escape(value[1..])
  }

  /** Deletes the backslash in front of every escaped quote, scanning left to right. */
  function Unescape(s: string): string {
    if s == [] then []
    else if |s| >= 2 && s[0] == '\\' && s[1] == '"' then ['"'] + Unescape(s[2..])
    else [s[0]] + Unescape(s[1..])
  }

  /** Escaping lengthens the value by its number of quotes. */
  lemma {:induction false} EscapeLength(value: string)
    ensures |Escape(value)| == |value| + Occurrences(value, {'"'})
  {
    if value != [] {
      EscapeLength(value[1..]);
    }
  }

  /** Every quote of an escaped value is preceded by a backslash. */
  lemma {:induction false} EscapedQuotesPreceded(value: string)
    ensures forall k :: 0 <= k < |Escape(value)| && Escape(value)[k] == '"' ==>
              k > 0 && Escape(value)[k - 1] == '\\'
  {
    if value != [] {
      EscapedQuotesPreceded(value[1..]);
      var head := if value[0] == '"' then ['\\', '"'] else [value[0]];
      var e := Escape(value);
      assert e == head + Escape(value[1..]);
      forall k | 0 <= k < |e| && e[k] == '"'
        ensures k > 0 && e[k - 1] == '\\'
      {
        if k >= |head| {
          assert e[k] == Escape(value[1..])[k - |head|];
          if k - |head| > 0 {
            assert e[k - 1] == Escape(value[1..])[k - |head| - 1];
          }
        }
      }
    }
  }

  /** Removing the escaping backslashes gives back the original value. */
  lemma {:induction false} UnescapeEscape(value: string)
    ensures Unescape(Escape(value)) == value
  {
    if value != [] {
      var rest := Escape(value[1..]);
      UnescapeEscape(value[1..]);
      if value[0] == '"' {
        assert Escape(value) == ['\\', '"'] + rest;
        assert (['\\', '"'] + rest)[2..] == rest;
      } else {
        EscapedQuotesPreceded(value[1..]);
        assert Escape(value) == [value[0]] + rest;
        assert ([value[0]] + rest)[1..] == rest;
        assert rest != [] ==> rest[0] != '"';
      }
      assert [value[0]] + value[1..] == value;
    }
  }

  /** Escaping works character by character, so it distributes over concatenation. */
  lemma {:induction false} EscapeAppend(a: string, b: string)
    ensures Escape(a + b) == Escape(a) + Escape(b)
  {
    if a == [] {
      assert a + b == b;
    } else {
      assert (a + b)[0] == a[0] && (a + b)[1..] == a[1..] + b;
      EscapeAppend(a[1..], b);
    }
  }

  /** A value without quotes is written unchanged. */
  lemma {:induction false} EscapeQuoteFree(value: string)
    requires NoneIn(value, {'"'})
    ensures Escape(value) == value
  {
    if value != [] {
      EscapeQuoteFree(value[1..]);
      assert [value[0]] + value[1..] == value;
    }
  }

  /** Escaping adds only backslashes and quotes, so it cannot add any other character. */
  lemma {:induction false} EscapeKeepsNoneIn(value: string, cs: set<char>)
    requires NoneIn(value, cs)
    requires '"' !in cs && '\\' !in cs
    ensures NoneIn(Escape(value), cs)
  {
    if value != [] {
      EscapeKeepsNoneIn(value[1..], cs);
      var head := if value[0] == '"' then ['\\', '"'] else [value[0]];
      assert Escape(value) == head + Escape(value[1..]);
      assert forall k :: 0 <= k < |head| ==> head[k] !in cs;
    }
  }

  // ---------------------------------------------------------------------------
  // The per-language buffer
  // ---------------------------------------------------------------------------

  /** One key/value pair of a language's `.strings` file. */
  datatype Entry = Entry(key: string, value: string)

  /** `"<key>" = "<escaped value>";` and a line feed; the key is not escaped. */
  function StringsLine(key: string, value: string): string {
    "\"" + key + "\" = \"" + Escape(value) + "\";\n"
  }

  /** A line holds the key and the escaped value between fixed delimiters, so both can be read
      back: the key right after the opening quote, the value (unescaped) between `= "` and the
      closing `";`. The line ends in its only line feed when key and value have none. */
  lemma StringsLineParts(key: string, value: string)
    ensures |StringsLine(key, value)| == |key| + |value| + Occurrences(value, {'"'}) + 9
    ensures StringsLine(key, value)[1..|key| + 1] == key
    ensures Unescape(StringsLine(key, value)[|key| + 6..|StringsLine(key, value)| - 3]) == value
    ensures StringsLine(key, value)[|StringsLine(key, value)| - 1] == '\n'
  {
    EscapeLength(value);
    UnescapeEscape(value);
    var prefix := "\"" + key + "\" = \"";
    var e := Escape(value);
    var line := StringsLine(key, value);
    assert line == prefix + e + "\";\n";
    assert |prefix| == |key| + 6;
    assert line[|prefix|..|prefix| + |e|] == e;
    assert line[1..|key| + 1] == prefix[1..|key| + 1] == key;
  }

  /** A line of a key and a value without line feeds holds exactly one line feed. */
  lemma StringsLineBreaks(key: string, value: string)
    requires NoneIn(key, {'\n'}) && NoneIn(value, {'\n'})
    ensures Occurrences(StringsLine(key, value), {'\n'}) == 1
  {
    var lf: set<char> := {'\n'};
    EscapeKeepsNoneIn(value, lf);
    var e := Escape(value);
    OccurrencesNone(key, lf);
    OccurrencesNone(e, lf);
    OccurrencesAppend("\"" + key + "\" = \"" + e, "\";\n", lf);
    OccurrencesAppend("\"" + key + "\" = \"", e, lf);
    OccurrencesAppend("\"" + key, "\" = \"", lf);
    OccurrencesAppend("\"", key, lf);
  }

  /** The entry a row contributes to language `index`: none when the row has no value there. */
  function EntryOf(row: LocalizationRow, index: nat): seq<Entry> {
    if |row.values| > index then [Entry(row.key, row.values[index])] else []
  }

  /** The entries of language `index`, in row order. */
  function Entries(rows: seq<LocalizationRow>, index: nat): seq<Entry> {
    if rows == [] then []
    else Entries(rows[..|rows| - 1], index) + EntryOf(rows[|rows| - 1], index)
  }

  /** The text of a `.strings` file: one line per entry, in order. */
  function Render(entries: seq<Entry>): string {
    if entries == [] then []
    else
      var last := entries[|entries| - 1];
      Render(entries[..|entries| - 1]) + StringsLine(last.key, last.value)
  }

  /** Builds the buffer of language `index` by walking the rows in order and appending the
      line of every row that has a value for that language. */
  method BuildStringsContent(rows: seq<LocalizationRow>, index: nat) returns (content: string)
    ensures content == Render(Entries(rows, index))
  {
    content := [];
    for r := 0 to |rows|
      invariant content == Render(Entries(rows[..r], index))
    {
      var row := rows[r];
      ghost var done := Entries(rows[..r], index);
      assert rows[..r + 1][..r] == rows[..r];
      assert Entries(rows[..r + 1], index) == done + EntryOf(row, index);
      if |row.values| > index {
        content := content + StringsLine(row.key, row.values[index]);
        assert (done + EntryOf(row, index))[..|done|] == done;
      } else {
        assert done + EntryOf(row, index) == done;
      }
    }
    assert rows[..|rows|] == rows;
  }

  /** The entries of a concatenation of row lists are the concatenation of their entries. */
  lemma {:induction false} EntriesAppend(a: seq<LocalizationRow>, b: seq<LocalizationRow>, index: nat)
    ensures Entries(a + b, index) == Entries(a, index) + Entries(b, index)
  {
    if b == [] {
      assert a + b == a;
    } else {
      var b' := b[..|b| - 1];
      assert (a + b)[..|a + b| - 1] == a + b';
      assert (a + b)[|a + b| - 1] == b[|b| - 1];
      EntriesAppend(a, b', index);
    }
  }

  /** Appending an entry appends its line to the rendering. */
  lemma RenderSnoc(entries: seq<Entry>, last: Entry)
    ensures Render(entries + [last]) == Render(entries) + StringsLine(last.key, last.value)
  {
    assert (entries + [last])[..|entries|] == entries;
  }

  /** The rendering of a concatenation of entry lists is the concatenation of their renderings. */
  lemma {:induction false} RenderAppend(a: seq<Entry>, b: seq<Entry>)
    ensures Render(a + b) == Render(a) + Render(b)
  {
    if b == [] {
      assert a + b == a;
    } else {
      var b' := b[..|b| - 1];
      var last := b[|b| - 1];
      var line := StringsLine(last.key, last.value);
      assert a + b == (a + b') + [last];
      assert b == b' + [last];
      calc {
        Render(a + b);
        { RenderSnoc(a + b', last); }
        Render(a + b') + line;
        { RenderAppend(a, b'); }
        Render(a) + Render(b') + line;
        { RenderSnoc(b', last); }
        Render(a) + Render(b);
      }
    }
  }

  /** A row with no value for the language contributes nothing to its buffer; in particular
      the blank row that an empty line becomes never appears in any buffer. */
  lemma ShortRowSkipped(before: seq<LocalizationRow>, row: LocalizationRow,
                        after: seq<LocalizationRow>, index: nat)
    requires |row.values| <= index
    ensures Render(Entries(before + [row] + after, index))
         == Render(Entries(before, index)) + Render(Entries(after, index))
  {
    assert Entries([row], index) == [] by {
      assert [row][..0] == [];
    }
    calc {
      Entries(before + [row] + after, index);
      { EntriesAppend(before + [row], after, index); }
      Entries(before + [row], index) + Entries(after, index);
      { EntriesAppend(before, [row], index); }
      Entries(before, index) + [] + Entries(after, index);
      Entries(before, index) + Entries(after, index);
    }
    RenderAppend(Entries(before, index), Entries(after, index));
  }

  /** When no row has a value for the language, its buffer is empty. */
  lemma {:induction false} NoQualifyingRows(rows: seq<LocalizationRow>, index: nat)
    requires forall k :: 0 <= k < |rows| ==> |rows[k].values| <= index
    ensures Render(Entries(rows, index)) == []
  {
    if rows != [] {
      NoQualifyingRows(rows[..|rows| - 1], index);
    }
  }

  /** The positions of the rows that have a value for the language, in increasing order. */
  function QualifyingRows(rows: seq<LocalizationRow>, index: nat): seq<nat> {
    if rows == [] then []
    else
      var n := |rows| - 1;
      QualifyingRows(rows[..n], index) + (if |rows[n].values| > index then [n] else [])
  }

  /** The positions are exactly those of the rows with a value for the language, each once,
      in increasing order. */
  lemma {:induction false} QualifyingRowsExact(rows: seq<LocalizationRow>, index: nat)
    ensures forall j :: 0 <= j < |QualifyingRows(rows, index)| ==>
              QualifyingRows(rows, index)[j] < |rows| && |rows[QualifyingRows(rows, index)[j]].values| > index
    ensures forall j, j' :: 0 <= j < j' < |QualifyingRows(rows, index)| ==>
              QualifyingRows(rows, index)[j] < QualifyingRows(rows, index)[j']
    ensures forall k :: 0 <= k < |rows| && |rows[k].values| > index ==> k in QualifyingRows(rows, index)
  {
    if rows != [] {
      var n := |rows| - 1;
      var init := rows[..n];
      QualifyingRowsExact(init, index);
      var prev := QualifyingRows(init, index);
      assert QualifyingRows(rows, index) == prev + (if |rows[n].values| > index then [n] else []);
      forall k | 0 <= k < n
        ensures rows[k] == init[k]
      {
      }
    }
  }

  /** Entry `j` of the buffer comes from row `QualifyingRows(rows, index)[j]`: with
      QualifyingRowsExact, the entries are one per row with a value, in row order. */
  lemma {:induction false} EntriesFollowRows(rows: seq<LocalizationRow>, index: nat)
    ensures |QualifyingRows(rows, index)| == |Entries(rows, index)|
    ensures forall j :: 0 <= j < |QualifyingRows(rows, index)| ==>
              var k := QualifyingRows(rows, index)[j];
              k < |rows| && |rows[k].values| > index
              && Entries(rows, index)[j] == Entry(rows[k].key, rows[k].values[index])
  {
    QualifyingRowsExact(rows, index);
    if rows != [] {
      var n := |rows| - 1;
      var init := rows[..n];
      EntriesFollowRows(init, index);
      var prev := QualifyingRows(init, index);
      var entries := Entries(init, index);
      assert Entries(rows, index) == entries + EntryOf(rows[n], index);
      assert QualifyingRows(rows, index) == prev + (if |rows[n].values| > index then [n] else []);
      forall j | 0 <= j < |prev|
        ensures rows[prev[j]] == init[prev[j]]
      {
      }
    }
  }

  /** When no key or value holds a line feed, the buffer holds one line feed per entry: one
      line per row with a value for the language. */
  lemma {:induction false} ContentLineCount(entries: seq<Entry>)
    requires forall j :: 0 <= j < |entries| ==>
               NoneIn(entries[j].key, {'\n'}) && NoneIn(entries[j].value, {'\n'})
    ensures Occurrences(Render(entries), {'\n'}) == |entries|
  {
    if entries != [] {
      var n := |entries| - 1;
      ContentLineCount(entries[..n]);
      StringsLineBreaks(entries[n].key, entries[n].value);
      OccurrencesAppend(Render(entries[..n]), StringsLine(entries[n].key, entries[n].value), {'\n'});
    }
  }

  // ---------------------------------------------------------------------------
  // Paths and the file system
  // ---------------------------------------------------------------------------

  function ResourcesDirectory(outputDirectory: string): string {
    outputDirectory + "/Resources"
  }

  function LanguageFolder(outputDirectory: string, language: string): string {
    ResourcesDirectory(outputDirectory) + "/" + language + ".lproj"
  }

  /** The file of one language, inside its folder. */
  function OutputPath(outputDirectory: string, language: string): string {
    LanguageFolder(outputDirectory, language) + "/Localizable.strings"
  }

  /** The pieces add up to `<out>/Resources/<language>.lproj/Localizable.strings`. */
  lemma OutputPathShape(outputDirectory: string, language: string)
    ensures OutputPath(outputDirectory, language)
         == outputDirectory + "/Resources/" + language + ".lproj/Localizable.strings"
  {
  }

  /** Different languages are written to different files. */
  lemma OutputPathInjective(outputDirectory: string, l1: string, l2: string)
    requires OutputPath(outputDirectory, l1) == OutputPath(outputDirectory, l2)
    ensures l1 == l2
  {
    OutputPathShape(outputDirectory, l1);
    OutputPathShape(outputDirectory, l2);
    var p1 := OutputPath(outputDirectory, l1);
    var start := |outputDirectory| + 11;
    assert |l1| == |l2|;
    assert p1[start..start + |l1|] == l1;
    assert OutputPath(outputDirectory, l2)[start..start + |l2|] == l2;
  }

  /** What the file system refuses: directories it cannot create and files it cannot write.
      Creating a directory that exists already succeeds. */
  datatype Faults = Faults(directories: set<string>, files: set<string>)

  /** The files on disk (path to content) and the faults the file system will raise. */
  datatype FileSystem = FileSystem(files: map<string, string>, faults: Faults)

  datatype LanguageOutcome =
    | Generated(language: string, path: string)
    | FolderFailed(language: string)
    | WriteFailed(language: string)

  datatype Report = ResourcesFailed | Processed(outcomes: seq<LanguageOutcome>)

  /** The fate of one language: its folder is created, then its file is written. */
  function LanguageOutcomeFor(faults: Faults, outputDirectory: string, language: string): LanguageOutcome {
    if LanguageFolder(outputDirectory, language) in faults.directories then FolderFailed(language)
    else if OutputPath(outputDirectory, language) in faults.files then WriteFailed(language)
    else Generated(language, OutputPath(outputDirectory, language))
  }

  /** The files written for the first `k` languages; a later language with the same path
      overwrites an earlier one. */
  function Written(rows: seq<LocalizationRow>, languages: seq<string>, outputDirectory: string,
                   faults: Faults, k: nat): map<string, string>
    requires k <= |languages|
  {
    if k == 0 then map[]
    else
      var prev := Written(rows, languages, outputDirectory, faults, k - 1);
      var language := languages[k - 1];
      if LanguageOutcomeFor(faults, outputDirectory, language).Generated?
      then prev[OutputPath(outputDirectory, language) := Render(Entries(rows, k - 1))]
      else prev
  }

  /** The outcomes of all languages, in language order. */
  function Outcomes(languages: seq<string>, outputDirectory: string, faults: Faults): seq<LanguageOutcome> {
    seq(|languages|, i requires 0 <= i < |languages| => LanguageOutcomeFor(faults, outputDirectory, languages[i]))
  }

  /** The whole generation: nothing happens when the resources directory cannot be created;
      otherwise every written file replaces whatever was at its path. */
  function Generation(rows: seq<LocalizationRow>, languages: seq<string>, outputDirectory: string,
                      fs: FileSystem): (FileSystem, Report)
  {
    if ResourcesDirectory(outputDirectory) in fs.faults.directories then (fs, ResourcesFailed)
    else
      (fs.(files := fs.files + Written(rows, languages, outputDirectory, fs.faults, |languages|)),
       Processed(Outcomes(languages, outputDirectory, fs.faults)))
  }

  /** Creates the resources directory, then for each language in order builds its buffer,
      creates its folder and writes its file; a failure skips only that language. */
  method GenerateLocalizationFiles(rows: seq<LocalizationRow>, languages: seq<string>,
                                   outputDirectory: string, fs: FileSystem)
    returns (result: FileSystem, report: Report)
    ensures ResourcesDirectory(outputDirectory) in fs.faults.directories ==>
              result == fs && report == ResourcesFailed
    ensures (result, report) == Generation(rows, languages, outputDirectory, fs)
  {
    var resourcesDirectory := ResourcesDirectory(outputDirectory);
    if resourcesDirectory in fs.faults.directories {
      return fs, ResourcesFailed;
    }
    var files := fs.files;
    var outcomes: seq<LanguageOutcome> := [];
    for index := 0 to |languages|
      invariant files == fs.files + Written(rows, languages, outputDirectory, fs.faults, index)
      invariant |outcomes| == index
      invariant forall j :: 0 <= j < index ==>
                  outcomes[j] == LanguageOutcomeFor(fs.faults, outputDirectory, languages[j])
    {
      ghost var written := Written(rows, languages, outputDirectory, fs.faults, index);
      var outcome;
      files, outcome := EmitLanguage(rows, index, languages[index], outputDirectory, fs.faults, files);
      if outcome.Generated? {
        MergeUpdate(fs.files, written, OutputPath(outputDirectory, languages[index]),
                    Render(Entries(rows, index)));
      }
      outcomes := outcomes + [outcome];
    }
    assert outcomes == Outcomes(languages, outputDirectory, fs.faults);
    result := fs.(files := files);
    report := Processed(outcomes);
  }

  /** One language of the loop: builds the buffer of column `index`, creates the language's
      folder, then writes the file; a failing step skips the rest for that language. */
  method EmitLanguage(rows: seq<LocalizationRow>, index: nat, language: string,
                      outputDirectory: string, faults: Faults, files: map<string, string>)
    returns (result: map<string, string>, outcome: LanguageOutcome)
    ensures outcome == LanguageOutcomeFor(faults, outputDirectory, language)
    ensures result == if outcome.Generated?
                      then files[OutputPath(outputDirectory, language) := Render(Entries(rows, index))]
                      else files
  {
    var stringsContent := BuildStringsContent(rows, index);
    var languageFolder := LanguageFolder(outputDirectory, language);
    if languageFolder in faults.directories {
      return files, FolderFailed(language);
    }
    var outputPath := languageFolder + "/Localizable.strings";
    if outputPath in faults.files {
      return files, WriteFailed(language);
    }
    result := files[outputPath := stringsContent];
    outcome := Generated(language, outputPath);
  }

  /** Writing one more file after a merge is merging the updated map. */
  lemma MergeUpdate(files: map<string, string>, written: map<string, string>, path: string, content: string)
    ensures (files + written)[path := content] == files + written[path := content]
  {
  }

  // ---------------------------------------------------------------------------
  // Properties of the generation
  // ---------------------------------------------------------------------------

  /** Only the files of generated languages are touched. */
  lemma {:induction false} WrittenPaths(rows: seq<LocalizationRow>, languages: seq<string>,
                                        outputDirectory: string, faults: Faults, k: nat)
    requires k <= |languages|
    ensures forall p :: p in Written(rows, languages, outputDirectory, faults, k) ==>
              exists i :: 0 <= i < k && LanguageOutcomeFor(faults, outputDirectory, languages[i]).Generated?
                          && p == OutputPath(outputDirectory, languages[i])
  {
    if k > 0 {
      WrittenPaths(rows, languages, outputDirectory, faults, k - 1);
    }
  }

  /** The file of a generated language holds its buffer, whatever happens to the other
      languages, as long as no later language has the same name. */
  lemma {:induction false} WrittenContent(rows: seq<LocalizationRow>, languages: seq<string>,
                                          outputDirectory: string, faults: Faults, i: nat, k: nat)
    requires i < k <= |languages|
    requires forall j :: i < j < k ==> languages[j] != languages[i]
    requires LanguageOutcomeFor(faults, outputDirectory, languages[i]).Generated?
    ensures OutputPath(outputDirectory, languages[i]) in Written(rows, languages, outputDirectory, faults, k)
    ensures Written(rows, languages, outputDirectory, faults, k)[OutputPath(outputDirectory, languages[i])]
         == Render(Entries(rows, i))
  {
    if k - 1 > i {
      WrittenContent(rows, languages, outputDirectory, faults, i, k - 1);
      if OutputPath(outputDirectory, languages[k - 1]) == OutputPath(outputDirectory, languages[i]) {
        OutputPathInjective(outputDirectory, languages[k - 1], languages[i]);
      }
    }
  }

  /** A language that fails leaves its file as it was: every language of the same name fails
      too, so nothing writes to that path. */
  lemma {:induction false} FailedLanguageUntouched(rows: seq<LocalizationRow>, languages: seq<string>,
                                                   outputDirectory: string, faults: Faults, i: nat, k: nat)
    requires i < |languages| && k <= |languages|
    requires !LanguageOutcomeFor(faults, outputDirectory, languages[i]).Generated?
    ensures OutputPath(outputDirectory, languages[i]) !in Written(rows, languages, outputDirectory, faults, k)
  {
    if k > 0 {
      FailedLanguageUntouched(rows, languages, outputDirectory, faults, i, k - 1);
      if OutputPath(outputDirectory, languages[k - 1]) == OutputPath(outputDirectory, languages[i]) {
        OutputPathInjective(outputDirectory, languages[k - 1], languages[i]);
      }
    }
  }

  /** Failure isolation: once the resources directory exists, a language whose folder and
      file can be made gets exactly its own buffer, however the other languages fare and
      whatever the file held before, as long as no later language has the same name; a
      language that fails keeps its old file. */
  lemma GenerationIsolation(rows: seq<LocalizationRow>, languages: seq<string>,
                            outputDirectory: string, fs: FileSystem, i: nat)
    requires ResourcesDirectory(outputDirectory) !in fs.faults.directories
    requires i < |languages|
    requires forall j :: i < j < |languages| ==> languages[j] != languages[i]
    ensures var files := Generation(rows, languages, outputDirectory, fs).0.files;
            var path := OutputPath(outputDirectory, languages[i]);
            if LanguageOutcomeFor(fs.faults, outputDirectory, languages[i]).Generated?
            then path in files && files[path] == Render(Entries(rows, i))
            else (path in files <==> path in fs.files) && (path in files ==> files[path] == fs.files[path])
  {
    if LanguageOutcomeFor(fs.faults, outputDirectory, languages[i]).Generated? {
      WrittenContent(rows, languages, outputDirectory, fs.faults, i, |languages|);
    } else {
      FailedLanguageUntouched(rows, languages, outputDirectory, fs.faults, i, |languages|);
    }
  }

  /** Paths that are not the file of a generated language keep their content. */
  lemma OtherFilesUntouched(rows: seq<LocalizationRow>, languages: seq<string>,
                            outputDirectory: string, fs: FileSystem, p: string)
    requires forall i :: 0 <= i < |languages| ==> p != OutputPath(outputDirectory, languages[i])
    ensures var files := Generation(rows, languages, outputDirectory, fs).0.files;
            (p in files <==> p in fs.files) && (p in files ==> files[p] == fs.files[p])
  {
    WrittenPaths(rows, languages, outputDirectory, fs.faults, |languages|);
  }

  /** Running the generation a second time on its own result changes nothing: files are
      replaced, never appended to. */
  lemma GenerationIdempotent(rows: seq<LocalizationRow>, languages: seq<string>,
                             outputDirectory: string, fs: FileSystem)
    ensures var once := Generation(rows, languages, outputDirectory, fs);
            Generation(rows, languages, outputDirectory, once.0) == once
  {
    var w := Written(rows, languages, outputDirectory, fs.faults, |languages|);
    assert fs.files + w + w == fs.files + w;
  }
}
