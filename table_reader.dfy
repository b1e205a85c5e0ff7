/** The table reader (`readLocalizationTSV`): turns the text of a TSV file into the
    language list of its header line and one `LocalizationRow` per later line. Reading the
    file from disk happens in the caller (module Cli); here the text is the input. */
module TableReader {
  import opened Text

  /** One translation key and its values, positionally matched to the language list. */
  datatype LocalizationRow = LocalizationRow(key: string, values: seq<string>)

  /** The blank row: what an empty line of the table becomes. */
  const BlankRow: LocalizationRow := LocalizationRow([], [])

  /** The lines of the file: every newline character is a separator, so CR LF yields an
      empty line between the CR and the LF. */
  function Lines(content: string): seq<string> {
    Split(content, Newlines)
  }

  /** The tab-separated columns of one line. */
  function Fields(line: string): seq<string> {
    Split(line, {Tab})
  }

  /** The language list: the header line's columns after the first, verbatim. */
  function Languages(content: string): seq<string> {
    Fields(Lines(content)[0])[1..]
  }

  /** One data line: the first column is the key as written, each later column is a value
      trimmed of whitespace and newlines. */
  function ParseRow(line: string): LocalizationRow {
    var columns := Fields(line);
    LocalizationRow(columns[0], TrimAll(columns[1..]))
  }

  /** Each column trimmed of whitespace and newlines, in order. */
  function TrimAll(columns: seq<string>): seq<string> {
    seq(|columns|, j requires 0 <= j < |columns| => Trim(columns[j], WhitespacesAndNewlines))
  }

  /** The rows of the table: one per line after the header, in line order. */
  function Rows(content: string): seq<LocalizationRow> {
    var lines := Lines(content);
    seq(|lines| - 1, k requires 0 <= k < |lines| - 1 => ParseRow(lines[k + 1]))
  }

  /** Reads the table by appending one row per line after the header. `readLocalizationTSV`
      guards against a line with no columns, but splitting always yields at least one column,
      so that guard never skips a line and is not repeated here. */
  method ReadLocalizationTSV(content: string) returns (rows: seq<LocalizationRow>, languages: seq<string>)
    ensures rows == Rows(content)
    ensures languages == Languages(content)
    ensures |rows| == Occurrences(content, Newlines)
  {
    var lines := Lines(content);
    rows := [];
    languages := Fields(lines[0])[1..];
    ghost var spec := Rows(content);
    for i := 1 to |lines|
      invariant rows == spec[..i - 1]
    {
      assert spec[..i] == spec[..i - 1] + [ParseRow(lines[i])];
      rows := rows + [ParseRow(lines[i])];
    }
    assert spec[..|lines| - 1] == spec;
    RowCount(content);
  }

  /** There is one row per newline character of the file. */
  lemma RowCount(content: string)
    ensures |Rows(content)| == Occurrences(content, Newlines)
  {
    SplitCount(content, Newlines);
  }

  /** A row keeps its first column as the key, unchanged; it has one value per tab of its
      line, and value `j` is column `j + 1` with the whitespace at both of its ends removed. */
  lemma ParseRowShape(line: string)
    ensures ParseRow(line).key == Fields(line)[0]
    ensures |ParseRow(line).values| == Occurrences(line, {Tab})
    ensures forall j :: 0 <= j < |ParseRow(line).values| ==>
              IsTrimmed(ParseRow(line).values[j], WhitespacesAndNewlines)
    ensures forall j :: 0 <= j < |ParseRow(line).values| ==>
              IsTrimmingOf(ParseRow(line).values[j], Fields(line)[j + 1], WhitespacesAndNewlines)
  {
    SplitCount(line, {Tab});
    var values := ParseRow(line).values;
    forall j | 0 <= j < |values|
      ensures IsTrimmed(values[j], WhitespacesAndNewlines)
      ensures IsTrimmingOf(values[j], Fields(line)[j + 1], WhitespacesAndNewlines)
    {
      assert values[j] == Trim(Fields(line)[j + 1], WhitespacesAndNewlines);
      TrimIsTrimming(Fields(line)[j + 1], WhitespacesAndNewlines);
    }
  }

  /** Writing a row as a TSV line and reading it back gives the row again, when neither
      key nor values contain a tab and the values have no whitespace at their ends. */
  lemma ParseRowRoundTrip(key: string, values: seq<string>)
    requires NoneIn(key, {Tab})
    requires forall j :: 0 <= j < |values| ==> NoneIn(values[j], {Tab})
    requires forall j :: 0 <= j < |values| ==> IsTrimmed(values[j], WhitespacesAndNewlines)
    ensures ParseRow(Join([key] + values, Tab)) == LocalizationRow(key, values)
  {
    var parts := [key] + values;
    forall j | 0 <= j < |parts|
      ensures NoneIn(parts[j], {Tab})
    {
      if j > 0 {
        assert parts[j] == values[j - 1];
      }
    }
    SplitJoin(parts, Tab);
    assert Fields(Join(parts, Tab)) == parts;
    assert parts[1..] == values;
    var trimmed := TrimAll(values);
    forall j | 0 <= j < |values|
      ensures trimmed[j] == values[j]
    {
      TrimNoop(values[j], WhitespacesAndNewlines);
    }
    assert trimmed == values;
  }

  /** The header line is its first column followed by the languages, tab-separated, and no
      language holds a tab: the languages are the header's columns, in order and untrimmed. */
  lemma HeaderRoundTrip(content: string)
    ensures Join([Fields(Lines(content)[0])[0]] + Languages(content), Tab) == Lines(content)[0]
    ensures forall j :: 0 <= j < |Languages(content)| ==> NoneIn(Languages(content)[j], {Tab})
  {
    var header := Lines(content)[0];
    assert [Fields(header)[0]] + Fields(header)[1..] == Fields(header);
    JoinSplit(header, Tab);
    SplitPiecesFree(header, {Tab});
    forall j | 0 <= j < |Languages(content)|
      ensures NoneIn(Languages(content)[j], {Tab})
    {
      assert Languages(content)[j] == Fields(header)[j + 1];
    }
  }

  /** An empty file has one empty line, hence no languages and no rows. */
  lemma EmptyInput()
    ensures Languages([]) == []
    ensures Rows([]) == []
  {
  }

  /** A file without a newline is a header only: it has no rows. */
  lemma HeaderOnly(content: string)
    requires NoneIn(content, Newlines)
    ensures Rows(content) == []
    ensures Languages(content) == Fields(content)[1..]
  {
    SplitNoSeparator(content, Newlines);
  }

  /** A blank line becomes a row with an empty key and no values. */
  lemma BlankLineRow()
    ensures ParseRow([]) == BlankRow
  {
  }

  /** A newline at the end of the file adds one blank row and changes nothing else. */
  lemma TrailingNewline(content: string, c: char)
    requires c in Newlines
    ensures Rows(content + [c]) == Rows(content) + [BlankRow]
    ensures Languages(content + [c]) == Languages(content)
  {
    SplitAppend(content, c, [], Newlines);
    assert content + [c] + [] == content + [c];
    var lines := Lines(content);
    assert Lines(content + [c]) == lines + [[]];
    BlankLineRow();
  }

  /** A newline character divides the rows: the rows of the text before it, then the row of
      the first line after it, then the rows of the text after it. */
  lemma RowsAppend(before: string, c: char, after: string)
    requires c in Newlines
    ensures Rows(before + [c] + after) == Rows(before) + [ParseRow(Lines(after)[0])] + Rows(after)
  {
    var lb, la := Lines(before), Lines(after);
    SplitAppend(before, c, after, Newlines);
    var lines := Lines(before + [c] + after);
    assert lines == lb + la;
    var rows := Rows(before + [c] + after);
    var expected := Rows(before) + [ParseRow(la[0])] + Rows(after);
    forall k | 0 <= k < |rows|
      ensures rows[k] == expected[k]
    {
      if k < |lb| - 1 {
        assert lines[k + 1] == lb[k + 1];
      } else if k == |lb| - 1 {
        assert lines[k + 1] == la[0];
      } else {
        assert lines[k + 1] == la[k + 1 - |lb|];
      }
    }
  }

  /** A text that starts with a newline character has an empty header line; its rows are the
      row of the first line after the break, then the rows of the rest. */
  lemma LeadingBreak(d: char, after: string)
    requires d in Newlines
    ensures Lines([d] + after)[0] == []
    ensures Rows([d] + after) == [ParseRow(Lines(after)[0])] + Rows(after)
  {
    var empty: string := [];
    assert empty + [d] + after == [d] + after;
    SplitAppend(empty, d, after, Newlines);
    RowsAppend(empty, d, after);
    EmptyInput();
  }

  /** Two consecutive newline characters enclose an empty line, which becomes a blank row. */
  lemma DoubleBreak(before: string, c: char, d: char, after: string)
    requires c in Newlines && d in Newlines
    ensures Rows(before + [c, d] + after)
         == Rows(before) + [BlankRow] + [ParseRow(Lines(after)[0])] + Rows(after)
  {
    var tail := [d] + after;
    assert before + [c, d] + after == before + [c] + tail;
    LeadingBreak(d, after);
    BlankLineRow();
    RowsAppend(before, c, tail);
  }

  /** A CR LF line break produces a blank row between the rows of the line before it and
      the line after it. */
  lemma CarriageReturnLineFeed(before: string, after: string)
    ensures Rows(before + ['\r', '\n'] + after)
         == Rows(before) + [BlankRow] + [ParseRow(Lines(after)[0])] + Rows(after)
    ensures |Rows(before + ['\r', '\n'] + after)| > Occurrences(before, Newlines)
    ensures Rows(before + ['\r', '\n'] + after)[Occurrences(before, Newlines)] == BlankRow
  {
    DoubleBreak(before, '\r', '\n', after);
    RowCount(before);
  }

  /** Neither the key nor any value of a row contains a newline character. */
  predicate NewlineFree(row: LocalizationRow) {
    NoneIn(row.key, Newlines) && forall j :: 0 <= j < |row.values| ==> NoneIn(row.values[j], Newlines)
  }

  /** Keys and values never contain a newline character, since lines do not. */
  lemma RowsNewlineFree(content: string)
    ensures forall k :: 0 <= k < |Rows(content)| ==> NewlineFree(Rows(content)[k])
  {
    var lines := Lines(content);
    SplitPiecesFree(content, Newlines);
    forall k | 0 <= k < |Rows(content)|
      ensures NewlineFree(Rows(content)[k])
    {
      var columns := Fields(lines[k + 1]);
      assert NoneIn(lines[k + 1], Newlines);
      SplitKeepsNoneIn(lines[k + 1], {Tab}, Newlines);
      var values := TrimAll(columns[1..]);
      forall j | 0 <= j < |values|
        ensures NoneIn(values[j], Newlines)
      {
        assert columns[1..][j] == columns[j + 1];
        TrimKeepsNoneIn(columns[j + 1], WhitespacesAndNewlines, Newlines);
      }
      assert Rows(content)[k] == ParseRow(lines[k + 1]);
      assert ParseRow(lines[k + 1]) == LocalizationRow(columns[0], values);
      assert NoneIn(columns[0], Newlines);
    }
  }
}
