# Localization table to `.strings` files, in Dafny

This project models `LocalizationStrings.swift`, a command-line script. The script reads a
tab-separated localization table and writes one `Localizable.strings` file per language.
The table's header line lists the languages after an initial key column. Every later line
holds a translation key and one value per language. The script's only call to `main()`
(LocalizationStrings.swift:99) is commented out. `Cli.Run` models `main` as if that call
were enabled.

The model has five modules:

- `Text` (`text.dfy`): the Foundation string operations the script relies on.
  These are splitting on a character set (`components(separatedBy:)`), trimming
  (`trimmingCharacters(in:)`), and the `newlines` and `whitespacesAndNewlines` character
  sets. A join function is the inverse of splitting on one character.
- `TableReader` (`table_reader.dfy`): `LocalizationRow` and `readLocalizationTSV`.
  The reader is a method with `readLocalizationTSV`'s accumulating loop. It is proved equal to the
  specification functions `Rows` and `Languages`, and lemmas state what those functions
  guarantee.
- `FileEmitter` (`file_emitter.dfy`): `generateLocalizationFiles`.
  - Quote escaping, the `"<key>" = "<value>";` line and the per-language buffer.
    The buffer is built by a loop method proved against `Render(Entries(rows, index))`.
  - The output paths.
  - The outer loop over languages, run against a file system value. That value holds the
    files on disk and the directories and files the system will refuse to create or write.
- `Cli` (`cli.dfy`): `main`'s argument-count guard, composed with reading the table and
  running the emitter. An end-to-end lemma links the table text to a generated file's lines.
- `Scenarios` (`scenarios.dfy`): a two-language example on concrete rows, the layout of a
  two-line buffer, and the `He said "hi"` quote-escaping example.

The definitions that carry the model, and the source lines they follow:

- `Text.Split`: `components(separatedBy:)` at LocalizationStrings.swift:17 and :23.
- `Text.Trim`: `trimmingCharacters(in: .whitespacesAndNewlines)` at LocalizationStrings.swift:26.
- `TableReader.Languages`: the header's columns after the first, LocalizationStrings.swift:20.
- `TableReader.ParseRow`: one data line becomes a row, LocalizationStrings.swift:23-26.
- `TableReader.Rows`: one row per line after the header, LocalizationStrings.swift:22-27.
- `FileEmitter.Escape`: the quote escaping of LocalizationStrings.swift:56.
- `FileEmitter.StringsLine`: the `.strings` line of LocalizationStrings.swift:57.
- `FileEmitter.Entries` and `FileEmitter.Render`: the buffer of LocalizationStrings.swift:53-58.
- `FileEmitter.OutputPath`: the paths of LocalizationStrings.swift:44, :62 and :71.
- `FileEmitter.LanguageOutcomeFor`: one language's folder and write steps,
  LocalizationStrings.swift:63-77.
- `FileEmitter.Generation`: the whole of `generateLocalizationFiles`,
  LocalizationStrings.swift:43-79.

The model follows the code, which behaves as follows:

- An empty input is not a failure. Splitting `""` gives one empty line, so the header exists
  and the result has no languages and no rows.
- Every character in Foundation's `newlines` set separates lines, including `\r`. A CR LF
  break therefore yields an extra blank line.
- The guard `guard let key = columns.first else { continue }` never skips a line, because
  splitting always yields at least one column. Every blank line, including the one after a
  final newline, becomes a row with an empty key and no values. Such a row never reaches a
  `.strings` file, because it has no value for any language.
- A language's folder is `<out>/Resources/<language>.lproj`.
- Duplicate keys are kept. Each one yields its own line, in row order.
- Keys are written unescaped; only values have their quotes escaped.

## Model

| member | source | states |
|---|---|---|
| `Text.Split` | LocalizationStrings.swift:23-24 | Splitting always yields at least one piece, so `columns.first` always exists and the guard never skips a line |
| `Text.SplitAppend` | LocalizationStrings.swift:17 | A separator character divides the text into the pieces before it and the pieces after it (so a final newline adds an empty line, and CR LF adds one between CR and LF) |
| `Text.SplitNoSeparator` | LocalizationStrings.swift:17 | Text without a separator is one piece |
| `Text.SplitCount` | LocalizationStrings.swift:17 | There is exactly one piece more than there are separator characters |
| `Text.SplitPiecesFree` | LocalizationStrings.swift:17 | No piece contains a separator character |
| `Text.SplitKeepsNoneIn` | LocalizationStrings.swift:23 | The pieces of a text that avoids a character set avoid it too |
| `Text.JoinSplit` | LocalizationStrings.swift:23 | Splitting on the tab and joining with tabs gives back the line: splitting loses nothing |
| `Text.SplitJoin` | LocalizationStrings.swift:23 | Joining tab-free pieces with tabs and splitting again gives back the pieces |
| `Text.LeadingCount` | LocalizationStrings.swift:26 | The count is the longest prefix made only of trimmable characters |
| `Text.TrailingCount` | LocalizationStrings.swift:26 | The count is the longest suffix made only of trimmable characters |
| `Text.Trim` | LocalizationStrings.swift:26 | The result neither starts nor ends with whitespace. It is the part of the input left after removing a leading and a trailing run of whitespace, and it is empty exactly when the input is all whitespace |
| `Text.TrimIsTrimming` | LocalizationStrings.swift:26 | Trimming removes only whitespace, and only from the two ends: the text is the removed prefix, the result and the removed suffix |
| `Text.TrimNoop` | LocalizationStrings.swift:26 | A value without whitespace at its ends is unchanged by trimming |
| `Text.TrimIdempotent` | LocalizationStrings.swift:26 | Trimming twice equals trimming once |
| `Text.TrimKeepsNoneIn` | LocalizationStrings.swift:26 | Trimming adds no character, so a value without newlines stays without newlines |
| `TableReader.ReadLocalizationTSV` | LocalizationStrings.swift:17-30 | The loop returns exactly `Rows(content)` and `Languages(content)`. It produces one row per newline character of the input |
| `TableReader.RowCount` | LocalizationStrings.swift:22-27 | The number of rows equals the number of newline characters, which is the line count minus 1 |
| `TableReader.ParseRowShape` | LocalizationStrings.swift:23-26 | A row's key is the first tab field, unchanged. It has one value per tab in its line. Value `j` is field `j + 1` with only whitespace removed from its two ends, and no whitespace is left at either end |
| `TableReader.ParseRowRoundTrip` | LocalizationStrings.swift:23-26 | A row whose key and values have no tab, with values already trimmed, is read back exactly from its tab-joined line |
| `TableReader.HeaderRoundTrip` | LocalizationStrings.swift:20 | The header line is its first field joined by tabs with the languages, and no language holds a tab. So the languages are the header's remaining fields, in order and untrimmed |
| `TableReader.EmptyInput` | LocalizationStrings.swift:17-22 | Empty input gives no languages and no rows, not a fault |
| `TableReader.HeaderOnly` | LocalizationStrings.swift:20-22 | Input without a newline gives no rows. Its languages are its tab fields after the first |
| `TableReader.BlankLineRow` | LocalizationStrings.swift:23-27 | A blank line becomes the row with an empty key and no values |
| `TableReader.TrailingNewline` | LocalizationStrings.swift:17-27 | A final newline appends exactly one blank row and leaves the languages unchanged |
| `TableReader.RowsAppend` | LocalizationStrings.swift:17-27 | A newline character divides the rows: those of the text before it, the row of the first line after it, then the rows of the rest |
| `TableReader.LeadingBreak` | LocalizationStrings.swift:17-27 | A text that starts with a newline has an empty header line. Its rows are the row of the line after the break, then the rows of the rest |
| `TableReader.DoubleBreak` | LocalizationStrings.swift:17-27 | Two consecutive newline characters put a blank row between the rows of the text before and after them |
| `TableReader.CarriageReturnLineFeed` | LocalizationStrings.swift:17 | The rows around a CR LF break are exactly the rows before it, a blank row, the row of the next line and the rows after that. The blank row sits at the index equal to the number of newlines before the break |
| `TableReader.RowsNewlineFree` | LocalizationStrings.swift:17-26 | No key or value of any row contains a newline character |
| `FileEmitter.EscapeLength` | LocalizationStrings.swift:56 | Escaping lengthens a value by its number of quotes |
| `FileEmitter.EscapedQuotesPreceded` | LocalizationStrings.swift:56 | Every quote in an escaped value has a backslash before it |
| `FileEmitter.UnescapeEscape` | LocalizationStrings.swift:56 | Deleting the backslash before each escaped quote gives back the original value |
| `FileEmitter.EscapeAppend` | LocalizationStrings.swift:56 | Escaping works character by character: it distributes over concatenation |
| `FileEmitter.EscapeQuoteFree` | LocalizationStrings.swift:56 | A value without quotes is written unchanged |
| `FileEmitter.EscapeKeepsNoneIn` | LocalizationStrings.swift:56 | Escaping adds only backslashes and quotes |
| `FileEmitter.StringsLineParts` | LocalizationStrings.swift:57 | A line is 9 characters longer than its key and escaped value. The key sits right after the opening quote, the value unescapes from between `= "` and `";`, and the line ends in a line feed |
| `FileEmitter.StringsLineBreaks` | LocalizationStrings.swift:57 | A line built from a key and a value without line feeds holds exactly one line feed |
| `FileEmitter.BuildStringsContent` | LocalizationStrings.swift:53-59 | The buffer-building loop yields exactly the rendering of the language's entries, in row order |
| `FileEmitter.EntriesAppend` | LocalizationStrings.swift:54-58 | The entries of concatenated row lists are the concatenation of their entries: rows contribute independently and in order |
| `FileEmitter.RenderSnoc` | LocalizationStrings.swift:57 | One more entry appends exactly its line to the buffer, as `stringsContent +=` does |
| `FileEmitter.RenderAppend` | LocalizationStrings.swift:57 | The buffer of concatenated entry lists is the concatenation of their buffers |
| `FileEmitter.ShortRowSkipped` | LocalizationStrings.swift:55 | A row with no value at the language's index contributes nothing to that language's buffer |
| `FileEmitter.NoQualifyingRows` | LocalizationStrings.swift:53-58 | When no row has a value for the language, its buffer is empty |
| `FileEmitter.QualifyingRowsExact` | LocalizationStrings.swift:54-55 | The qualifying positions are exactly the rows with more than `index` values, each once, in increasing order |
| `FileEmitter.EntriesFollowRows` | LocalizationStrings.swift:54-58 | There is one entry per qualifying position, in order. Each entry carries that row's key and its value at `index` |
| `FileEmitter.ContentLineCount` | LocalizationStrings.swift:57 | If no key or value has a line feed, the buffer holds one line feed per entry |
| `FileEmitter.OutputPathShape` | LocalizationStrings.swift:62-71 | The file path equals `out + "/Resources/" + language + ".lproj/Localizable.strings"` |
| `FileEmitter.OutputPathInjective` | LocalizationStrings.swift:62-71 | Different languages are written to different paths |
| `FileEmitter.GenerateLocalizationFiles` | LocalizationStrings.swift:43-79 | If the Resources directory cannot be created, nothing changes. Otherwise the loop yields exactly `Generation`: the files written by the languages that succeed, and one outcome per language |
| `FileEmitter.EmitLanguage` | LocalizationStrings.swift:53-77 | One language's step. Its outcome is a folder failure, a write failure or success, decided in that order. Only on success is the language's path set to its buffer, and nothing else changes |
| `FileEmitter.WrittenPaths` | LocalizationStrings.swift:52-78 | Only the output paths of languages whose folder and file could be made are written |
| `FileEmitter.WrittenContent` | LocalizationStrings.swift:52-77 | A successful language's file holds its own buffer, whatever the other languages do, unless a later language has the same name |
| `FileEmitter.FailedLanguageUntouched` | LocalizationStrings.swift:63-77 | A language whose folder or write fails has nothing written to its path |
| `FileEmitter.GenerationIsolation` | LocalizationStrings.swift:63-77 | A failure skips only that language. A successful language's file holds exactly its buffer when no later language has the same name, and a failed language's old file is left as it was |
| `FileEmitter.OtherFilesUntouched` | LocalizationStrings.swift:71-73 | Paths that are not a language's output file keep their content |
| `FileEmitter.GenerationIdempotent` | LocalizationStrings.swift:73 | Running the generation again on its own result changes nothing: files are replaced, never appended to |
| `Cli.Run` | LocalizationStrings.swift:82-97 | An empty argument list traps, because the usage message reads `arguments[0]`. Any other count but 3 means a usage error. An unreadable TSV file means a read error. None of these changes anything. Otherwise the result is the generation over the parsed table |
| `Cli.GeneratedFileLines` | LocalizationStrings.swift:92-93 | End to end, a successful language's file has one line feed per table row with a value for that language, when no later language has the same name |
| `Scenarios.ProjectionExample` | LocalizationStrings.swift:52-58 | For languages `en` and `fr`, the entries follow row order. A row with only an English value, and a blank row, have no French entry |
| `Scenarios.TwoLineBuffer` | LocalizationStrings.swift:53-58 | Two entries without quotes in their values give exactly the text `"<key1>" = "<value1>";` LF `"<key2>" = "<value2>";` LF |
| `Scenarios.EscapeQuotedWord` | LocalizationStrings.swift:56 | A value like `He said "hi"` is written `He said \"hi\"` |

## Left out

- Reading the file from disk (`String(contentsOfFile:)`). The TSV text is looked up in the
  file system value, and a missing path stands for every read failure. Text-decoding
  failures are not distinguished from missing files.
- Directory creation and file writing (`FileManager.createDirectory`,
  `write(toFile:atomically:encoding:)`). Their success or failure is given in advance as sets
  of failing directories and files. A successful write replaces the file's whole content in
  one step, and that single step is all the model says about atomicity. Directories are not
  tracked as state, so creating an existing directory is not a distinct case.
- All `print` diagnostics and the usage message. The model returns them as a `Status` and
  `Report` values instead.
- `CommandLine.arguments` is a parameter. The program name in `arguments[0]` is used only
  for the usage message. The message's text is left out, but its out-of-range read on an empty
  command line is the `Trapped` status.
- Foundation's character sets are fixed sets of code points taken from its documentation.
  Swift's grapheme-cluster view of strings is not modelled. Strings are sequences of Unicode
  scalar values, and Foundation's splitting and trimming treat CR LF as two characters.
- Paths are compared as strings. There is no normalisation, no case folding and no symbolic
  link. So `OutputPathInjective`, `GenerationIsolation`, `WrittenContent` and
  `FailedLanguageUntouched` speak of path strings. On a real volume, two such strings
  can name one file: `en` and `EN` on a case-insensitive volume, `a` and `./a`, a trailing
  `/` on the output directory, or a link.
- The fault sets are fixed in advance and do not react to writes. So the model cannot show a
  written file blocking a later language's folder. An example is the languages `x` and
  `x.lproj/Localizable.strings/y`.
- UTF-8 encoding of the output files. Contents are modelled as character sequences.
