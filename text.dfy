/** Character classes and the string operations the tool borrows from Foundation:
    splitting on a character set (`components(separatedBy:)`), joining, and trimming
    (`trimmingCharacters(in:)`). Strings are sequences of Unicode scalar values. */
module Text {

  const Tab: char := '\t'

  /** Foundation's `newlines` set: U+000A to U+000D, U+0085, U+2028 and U+2029. */
  const Newlines: set<char> :=
    {'\n', '\U{000B}', '\U{000C}', '\r', '\U{0085}', '\U{2028}', '\U{2029}'}

  /** Foundation's `whitespacesAndNewlines` set: the newlines above, the tab and the
      Unicode space separators (general category Zs). */
  const WhitespacesAndNewlines: set<char> :=
    Newlines + {'\t', ' ', '\U{00A0}', '\U{1680}',
                '\U{2000}', '\U{2001}', '\U{2002}', '\U{2003}', '\U{2004}', '\U{2005}',
                '\U{2006}', '\U{2007}', '\U{2008}', '\U{2009}', '\U{200A}',
                '\U{202F}', '\U{205F}', '\U{3000}'}

  /** No character of `s` belongs to `cs`. */
  predicate NoneIn(s: string, cs: set<char>) {
    forall k :: 0 <= k < |s| ==> s[k] !in cs
  }

  /** Every character of `s` belongs to `cs`. */
  predicate AllIn(s: string, cs: set<char>) {
    forall k :: 0 <= k < |s| ==> s[k] in cs
  }

  /** Neither end of `s` is a character of `cs`. */
  predicate IsTrimmed(s: string, cs: set<char>) {
    s == [] || (s[0] !in cs && s[|s| - 1] !in cs)
  }

  /** How many characters of `s` belong to `cs`. */
  function Occurrences(s: string, cs: set<char>): nat {
    if s == [] then 0 else (if s[0] in cs then 1 else 0) + Occurrences(s[1..], cs)
  }

  lemma {:induction false} OccurrencesAppend(a: string, b: string, cs: set<char>)
    ensures Occurrences(a + b, cs) == Occurrences(a, cs) + Occurrences(b, cs)
  {
    if a == [] {
      assert a + b == b;
    } else {
      var head := if a[0] in cs then 1 else 0;
      assert (a + b)[0] == a[0] && (a + b)[1..] == a[1..] + b;
      calc {
        Occurrences(a + b, cs);
        head + Occurrences(a[1..] + b, cs);
        { OccurrencesAppend(a[1..], b, cs); }
        head + Occurrences(a[1..], cs) + Occurrences(b, cs);
      }
    }
  }

  lemma {:induction false} OccurrencesNone(s: string, cs: set<char>)
    requires NoneIn(s, cs)
    ensures Occurrences(s, cs) == 0
  {
    if s != [] {
      OccurrencesNone(s[1..], cs);
    }
  }

  // ---------------------------------------------------------------------------
  // Splitting
  // ---------------------------------------------------------------------------

  /** `components(separatedBy:)`: every character of `seps` ends one piece and starts the
      next, so the empty string gives one empty piece and there is always at least one. */
  function Split(s: string, seps: set<char>): (parts: seq<string>)
    ensures |parts| >= 1
  {
    if s == [] then [[]]
    else
      var rest := Split(s[1..], seps);
      if s[0] in seps then [[]] + rest
      else [[s[0]] + rest[0]] + rest[1..]
  }

  /** A separator splits the text into the pieces before it and the pieces after it. */
  lemma {:induction false} SplitAppend(a: string, c: char, b: string, seps: set<char>)
    requires c in seps
    ensures Split(a + [c] + b, seps) == Split(a, seps) + Split(b, seps)
  {
    if a == [] {
      assert a + [c] + b == [c] + b;
      assert ([c] + b)[1..] == b;
    } else {
      assert (a + [c] + b)[1..] == a[1..] + [c] + b;
      SplitAppend(a[1..], c, b, seps);
    }
  }

  /** Text without a separator is a single piece. */
  lemma {:induction false} SplitNoSeparator(s: string, seps: set<char>)
    requires NoneIn(s, seps)
    ensures Split(s, seps) == [s]
  {
    if s != [] {
      SplitNoSeparator(s[1..], seps);
      assert [s[0]] + s[1..] == s;
    }
  }

  /** There is one piece more than there are separators. */
  lemma {:induction false} SplitCount(s: string, seps: set<char>)
    ensures |Split(s, seps)| == Occurrences(s, seps) + 1
  {
    if s != [] {
      SplitCount(s[1..], seps);
    }
  }

  /** No piece contains a separator. */
  lemma {:induction false} SplitPiecesFree(s: string, seps: set<char>)
    ensures forall j :: 0 <= j < |Split(s, seps)| ==> NoneIn(Split(s, seps)[j], seps)
  {
    if s != [] {
      SplitPiecesFree(s[1..], seps);
    }
  }

  /** Pieces of a text that avoids `cs` avoid `cs` too. */
  lemma {:induction false} SplitKeepsNoneIn(s: string, seps: set<char>, cs: set<char>)
    requires NoneIn(s, cs)
    ensures forall j :: 0 <= j < |Split(s, seps)| ==> NoneIn(Split(s, seps)[j], cs)
  {
    if s != [] {
      SplitKeepsNoneIn(s[1..], seps, cs);
    }
  }

  /** Puts `sep` between consecutive pieces; the inverse of splitting on one character. */
  function Join(parts: seq<string>, sep: char): string {
    if parts == [] then []
    else if |parts| == 1 then parts[0]
    else parts[0] + [sep] + Join(parts[1..], sep)
  }

  /** Splitting on one character and joining the pieces back gives the text again. */
  lemma {:induction false} JoinSplit(s: string, sep: char)
    ensures Join(Split(s, {sep}), sep) == s
  {
    if s != [] {
      var rest := Split(s[1..], {sep});
      JoinSplit(s[1..], sep);
      if s[0] == sep {
        assert Split(s, {sep}) == [[]] + rest;
        assert ([[]] + rest)[1..] == rest;
      } else {
        assert Split(s, {sep}) == [[s[0]] + rest[0]] + rest[1..];
        if |rest| > 1 {
          assert ([[s[0]] + rest[0]] + rest[1..])[1..] == rest[1..];
        }
      }
    }
  }

  /** Joining pieces that do not contain the separator and splitting again gives the pieces. */
  lemma {:induction false} SplitJoin(parts: seq<string>, sep: char)
    requires |parts| >= 1
    requires forall j :: 0 <= j < |parts| ==> NoneIn(parts[j], {sep})
    ensures Split(Join(parts, sep), {sep}) == parts
  {
    SplitNoSeparator(parts[0], {sep});
    if |parts| > 1 {
      SplitJoin(parts[1..], sep);
      SplitAppend(parts[0], sep, Join(parts[1..], sep), {sep});
      assert [parts[0]] + parts[1..] == parts;
    }
  }

  // ---------------------------------------------------------------------------
  // Trimming
  // ---------------------------------------------------------------------------

  /** Length of the longest prefix of `s` made of characters of `cs`. */
  function LeadingCount(s: string, cs: set<char>): (n: nat)
    ensures n <= |s| && AllIn(s[..n], cs)
    ensures n < |s| ==> s[n] !in cs
  {
    if s == [] || s[0] !in cs then 0
    else
      var m := LeadingCount(s[1..], cs);
      assert s[..m + 1] == [s[0]] + s[1..][..m];
      m + 1
  }

  /** Length of the longest suffix of `s` made of characters of `cs`. */
  function TrailingCount(s: string, cs: set<char>): (n: nat)
    ensures n <= |s| && AllIn(s[|s| - n..], cs)
    ensures n < |s| ==> s[|s| - 1 - n] !in cs
  {
    if s == [] || s[|s| - 1] !in cs then 0
    else
      var t := s[..|s| - 1];
      var m := TrailingCount(t, cs);
      assert s[|s| - (m + 1)..] == t[|t| - m..] + [s[|s| - 1]];
      m + 1
  }

  /** `trimmingCharacters(in: cs)`: drops the characters of `cs` from both ends. The result
      is the part of `s` between the longest prefix made only of `cs` and a suffix made only
      of `cs`; it neither starts nor ends with a character of `cs`, and it is empty exactly
      when all of `s` is in `cs`. */
  function Trim(s: string, cs: set<char>): (r: string)
    ensures IsTrimmed(r, cs)
    ensures r == [] <==> AllIn(s, cs)
    ensures LeadingCount(s, cs) + |r| <= |s|
    ensures s[LeadingCount(s, cs)..LeadingCount(s, cs) + |r|] == r
    ensures AllIn(s[LeadingCount(s, cs) + |r|..], cs)
  {
    var i := LeadingCount(s, cs);
    var t := s[i..];
    var r := t[..|t| - TrailingCount(t, cs)];
    assert s[i..i + |r|] == r;
    assert AllIn(s, cs) ==> i == |s|;
    assert forall k :: 0 <= k < |s| - (i + |r|) ==> s[i + |r|..][k] == t[|r|..][k];
    r
  }

  /** `v` is `s` with only characters of `cs` removed from its two ends. */
  ghost predicate IsTrimmingOf(v: string, s: string, cs: set<char>) {
    exists before, after :: s == before + v + after && AllIn(before, cs) && AllIn(after, cs)
  }

  /** Trimming removes characters of `cs` from the ends only: the rest of the text is kept. */
  lemma TrimIsTrimming(s: string, cs: set<char>)
    ensures IsTrimmingOf(Trim(s, cs), s, cs)
  {
    var r := Trim(s, cs);
    var i := LeadingCount(s, cs);
    var before, after := s[..i], s[i + |r|..];
    assert s == before + r + after;
  }

  /** A text that already has no trimmable character at its ends is left as it is. */
  lemma TrimNoop(s: string, cs: set<char>)
    requires IsTrimmed(s, cs)
    ensures Trim(s, cs) == s
  {
    assert LeadingCount(s, cs) == 0;
    assert s[0..] == s;
  }

  /** Trimming twice is trimming once. */
  lemma TrimIdempotent(s: string, cs: set<char>)
    ensures Trim(Trim(s, cs), cs) == Trim(s, cs)
  {
    TrimNoop(Trim(s, cs), cs);
  }

  /** Trimming keeps only characters of the original, so it cannot add a character of `cs`. */
  lemma TrimKeepsNoneIn(s: string, ws: set<char>, cs: set<char>)
    requires NoneIn(s, cs)
    ensures NoneIn(Trim(s, ws), cs)
  {
    var r := Trim(s, ws);
    var i := LeadingCount(s, ws);
    forall k | 0 <= k < |r|
      ensures r[k] !in cs
    {
      assert r[k] == s[i..i + |r|][k] == s[i + k];
    }
  }
}
