/** The dictionary-line parser `ReadEntries`, which both programs carry
    verbatim: a line is cut at its first `#`, split on tabs, kept when it
    has at least two fields, and turned into a (word, code) entry. */
module Entries {
  import opened Wrappers
  import opened Strings
  import opened Seqs

  /** One dictionary entry: a word and one of its codes. */
  datatype Entry = Entry(word: string, code: string)

  /** The part of `line` in front of its first `#` (all of `line` when it has none). */
  function StripComment(line: string): (r: string)
    ensures r <= line && '#' !in r
    ensures r == line || line[|r|] == '#'
  {
    if '#' in line then line[..IndexOf(line, '#')] else line
  }

  /** The `Where` filter, as written: two or more tab-separated fields in the
      comment-free part of the line. */
  predicate Keep(line: string)
  {
    || ('#' in line && |Split(line[..IndexOf(line, '#')], '\t')| >= 2)
    || ('#' !in line && |Split(line, '\t')| >= 2)
  }

  /** The `Select` projection: the first two fields of a kept line. */
  function ToEntry(line: string): Entry
    requires Keep(line)
  {
    var parts := Split(StripComment(line), '\t');
    Entry(parts[0], parts[1])
  }

  /** A line's entry, or `None` when the filter drops it. */
  function ParseLine(line: string): (r: Option<Entry>)
    ensures r.Some? <==> Keep(line)
  {
    if Keep(line) then Some(ToEntry(line)) else None
  }

  /** The entries of the kept lines, in line order (`ReadEntriesMembers` and
      `ReadEntriesClean` state which entries come out). Every line is either
      kept or dropped: no line makes the parser fail. */
  function ReadEntries(lines: seq<string>): (r: seq<Entry>)
    ensures |r| <= |lines|
  {
    FilterMap(ParseLine, lines)
  }

  /** An entry is parsed exactly when some kept line projects to it. */
  lemma ReadEntriesMembers(lines: seq<string>, e: Entry)
    ensures e in ReadEntries(lines) <==> exists i :: 0 <= i < |lines| && Keep(lines[i]) && ToEntry(lines[i]) == e
  {
    FilterMapMembers(ParseLine, lines, e);
  }

  /** No parsed word or code holds a tab or a `#`. */
  lemma ReadEntriesClean(lines: seq<string>)
    ensures forall e :: e in ReadEntries(lines) ==> '\t' !in e.word && '#' !in e.word && '\t' !in e.code && '#' !in e.code
  {
    forall e | e in ReadEntries(lines)
      ensures '\t' !in e.word && '#' !in e.word && '\t' !in e.code && '#' !in e.code
    {
      ReadEntriesMembers(lines, e);
      var i :| 0 <= i < |lines| && Keep(lines[i]) && ToEntry(lines[i]) == e;
      ToEntryClean(lines[i]);
    }
  }

  /** A line is kept exactly when its comment-free part holds a tab. */
  lemma KeepIffTab(line: string)
    ensures Keep(line) <==> '\t' in StripComment(line)
  {
    SplitOne(StripComment(line), '\t');
  }

  /** The fields of a kept line hold neither a tab nor a `#`. */
  lemma ToEntryClean(line: string)
    requires Keep(line)
    ensures var e := ToEntry(line);
      '\t' !in e.word && '#' !in e.word && '\t' !in e.code && '#' !in e.code
  {
    KeepIffTab(line);
    var s := StripComment(line);
    FieldsWithin(s, '\t');
    SplitFields(s, '\t');
  }

  /** Where the fields of a kept line come from: the word is the text before
      the first tab of the comment-free part, and the code is the text after
      that tab up to the next tab or to the end of that part. */
  lemma ToEntryLayout(line: string)
    requires Keep(line)
    ensures var e, s := ToEntry(line), StripComment(line);
      var k := IndexOf(s, '\t');
      var t := s[k + 1..];
      && 0 <= k
      && e.word == s[..k]
      && e.code == if '\t' in t then t[..IndexOf(t, '\t')] else t
  {
    KeepIffTab(line);
    FieldsLayout(StripComment(line), '\t');
  }

  /** Parsing distributes over concatenation of line lists. */
  lemma ReadEntriesAppend(a: seq<string>, b: seq<string>)
    ensures ReadEntries(a + b) == ReadEntries(a) + ReadEntries(b)
  {
    FilterMapAppend(ParseLine, a, b);
  }

  /** The order of the lines only reorders the entries: the parallel query
      that reads them may deliver them in any order. */
  lemma ReadEntriesPermutation(a: seq<string>, b: seq<string>)
    requires multiset(a) == multiset(b)
    ensures multiset(ReadEntries(a)) == multiset(ReadEntries(b))
  {
    FilterMapPermutation(ParseLine, a, b);
  }
}
