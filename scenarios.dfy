/** Worked examples of the tool's behaviour on a concrete table. */
module Scenarios {
  import opened TableReader
  import opened FileEmitter
  import opened Text

  /** With languages `en` and `fr`, each language's entries follow the row order, and the row
      with only an English value, like the blank row, has no French entry. */
  lemma ProjectionExample(rows: seq<LocalizationRow>)
    requires rows == [LocalizationRow("hello", ["Hi", "Salut"]),
                      LocalizationRow("bye", ["Bye", "Au revoir"]),
                      LocalizationRow("x", ["only-en-value"]), BlankRow]
    ensures Entries(rows, 0) == [Entry("hello", "Hi"), Entry("bye", "Bye"), Entry("x", "only-en-value")]
    ensures Entries(rows, 1) == [Entry("hello", "Salut"), Entry("bye", "Au revoir")]
  {
    assert rows == [rows[0], rows[1], rows[2], rows[3]];
    EntriesOfFour(rows[0], rows[1], rows[2], rows[3], 0);
    EntriesOfFour(rows[0], rows[1], rows[2], rows[3], 1);
  }

  /** The buffer of two entries whose values have no quotes, as in the French column above:
      the first entry's line, then the second's, each written as `"<key>" = "<value>";`. */
  lemma TwoLineBuffer(first: Entry, second: Entry)
    requires NoneIn(first.value, {'"'}) && NoneIn(second.value, {'"'})
    ensures Render([first, second]) ==
              "\"" + first.key + "\" = \"" + first.value + "\";\n" +
              "\"" + second.key + "\" = \"" + second.value + "\";\n"
  {
    EscapeQuoteFree(first.value);
    EscapeQuoteFree(second.value);
    var firstLine := "\"" + first.key + "\" = \"" + first.value + "\";\n";
    var secondLine := "\"" + second.key + "\" = \"" + second.value + "\";\n";
    assert [first, second][..1] == [first];
    assert [first][..0] == [];
    assert Render([first]) == [] + StringsLine(first.key, first.value) == firstLine;
    assert Render([first, second]) == Render([first]) + StringsLine(second.key, second.value);
    assert StringsLine(second.key, second.value) == secondLine;
  }

  lemma EntriesOfFour(a: LocalizationRow, b: LocalizationRow, c: LocalizationRow, d: LocalizationRow, index: nat)
    ensures Entries([a, b, c, d], index) == EntryOf(a, index) + EntryOf(b, index) + EntryOf(c, index) + EntryOf(d, index)
  {
    assert [a][..0] == [];
    assert Entries([a], index) == EntryOf(a, index);
    assert [a, b][..1] == [a];
    assert Entries([a, b], index) == Entries([a], index) + EntryOf(b, index);
    assert [a, b, c][..2] == [a, b];
    assert Entries([a, b, c], index) == Entries([a, b], index) + EntryOf(c, index);
    assert [a, b, c, d][..3] == [a, b, c];
    assert Entries([a, b, c, d], index) == Entries([a, b, c], index) + EntryOf(d, index);
  }

  /** A quoted word inside a value, as in `He said "hi"`, is written with a backslash
      before each of its two quotes: `He said \"hi\"`. */
  lemma EscapeQuotedWord(text: string, word: string)
    requires NoneIn(text, {'"'}) && NoneIn(word, {'"'})
    ensures Escape(text + "\"" + word + "\"") == text + "\\\"" + word + "\\\""
  {
    EscapeAppend(text + "\"" + word, "\"");
    EscapeAppend(text + "\"", word);
    EscapeAppend(text, "\"");
    EscapeQuoteFree(text);
    EscapeQuoteFree(word);
  }
}
