/** The entry point (`main`): checks the argument count, reads the TSV file and runs the
    emitter. The command line is a sequence whose first element is the program name; reading
    the TSV file is a lookup in the same file system the emitter writes to. The script's own
    call to `main()` is commented out; `Run` is the run that call would start. */
module Cli {
  import opened Text
  import opened TableReader
  import opened FileEmitter

  /** How a run ends. `Trapped` is the runtime trap of the usage message, which reads the
      program name `arguments[0]` even when the command line is empty. */
  datatype Status = Trapped | UsageError | ReadError | Finished(report: Report)

  /** Does work only for exactly three arguments (program, TSV path, output directory); any
      other count prints the usage message, which traps on an empty command line. A TSV file
      that cannot be read stops the run before any output. */
  method Run(arguments: seq<string>, fs: FileSystem) returns (status: Status, result: FileSystem)
    ensures |arguments| == 0 ==> status == Trapped && result == fs
    ensures 1 <= |arguments| != 3 ==> status == UsageError && result == fs
    ensures |arguments| == 3 && arguments[1] !in fs.files ==> status == ReadError && result == fs
    ensures |arguments| == 3 && arguments[1] in fs.files ==>
              var content := fs.files[arguments[1]];
              var generation := Generation(Rows(content), Languages(content), arguments[2], fs);
              status == Finished(generation.1) && result == generation.0
  {
    if |arguments| != 3 {
      if |arguments| == 0 {
        return Trapped, fs;
      }
      return UsageError, fs;
    }
    var tsvFilePath := arguments[1];
    var outputDirectory := arguments[2];
    if tsvFilePath !in fs.files {
      return ReadError, fs;
    }
    var rows, languages := ReadLocalizationTSV(fs.files[tsvFilePath]);
    var report;
    result, report := GenerateLocalizationFiles(rows, languages, outputDirectory, fs);
    status := Finished(report);
  }

  /** From table to file: when the language's folder and file can be made, its file holds
      one line per row of the table that has a value for that language, whatever happens to
      the other languages. */
  lemma GeneratedFileLines(content: string, outputDirectory: string, fs: FileSystem, i: nat)
    requires ResourcesDirectory(outputDirectory) !in fs.faults.directories
    requires i < |Languages(content)|
    requires forall j :: i < j < |Languages(content)| ==> Languages(content)[j] != Languages(content)[i]
    requires LanguageOutcomeFor(fs.faults, outputDirectory, Languages(content)[i]).Generated?
    ensures var files := Generation(Rows(content), Languages(content), outputDirectory, fs).0.files;
            var path := OutputPath(outputDirectory, Languages(content)[i]);
            path in files && Occurrences(files[path], {'\n'}) == |Entries(Rows(content), i)|
  {
    var rows := Rows(content);
    GenerationIsolation(rows, Languages(content), outputDirectory, fs, i);
    RowsNewlineFree(content);
    var entries := Entries(rows, i);
    EntriesFollowRows(rows, i);
    var idx := QualifyingRows(rows, i);
    forall j | 0 <= j < |entries|
      ensures NoneIn(entries[j].key, {'\n'}) && NoneIn(entries[j].value, {'\n'})
    {
      assert NewlineFree(rows[idx[j]]);
    }
    ContentLineCount(entries);
  }
}
