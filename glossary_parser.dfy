/**
 * The line-by-line parser inside `loadVocabulary` (script.js:11-40), as a specification:
 * `Step` is one turn of its loop, `ParseState` the loop run over a prefix of the lines.
 * `Quiz.QuizState.LoadVocabulary` is the loop itself and is proved to compute `Parse`.
 */
module GlossaryParser {
  import opened Wrappers
  import opened Text
  import opened Vocabularies

  /** What the loop carries from one line to the next: the dictionary and `currentWord`. */
  datatype ParserState = ParserState(vocabulary: Vocabulary, currentWord: Option<string>)

  function Initial(): ParserState {
    ParserState(Empty(), None)
  }

  /** A key the parser can store: non-empty, trimmed, lower-case and free of colons. */
  predicate IsTerm(t: string) {
    t != [] && IsTrimmed(t) && IsLower(t) && ':' !in t
  }

  /** What holds after every line: stored keys are terms, stored definitions non-empty and trimmed, a pending word is a term. */
  predicate WellFormed(st: ParserState) {
    && Valid(st.vocabulary)
    && (forall k | k in st.vocabulary.defs :: IsTerm(k))
    && (forall k | k in st.vocabulary.defs :: st.vocabulary.defs[k] != [] && IsTrimmed(st.vocabulary.defs[k]))
    && (st.currentWord.Some? ==> IsTerm(st.currentWord.value))
  }

  /**
   * `line.replace(/^[^:]+:\s*\/, '')`: when at least one non-colon character precedes the first
   * colon, everything up to that colon, the colon and the whitespace after it are removed;
   * otherwise the line is kept whole.
   */
  function StripLabel(line: string): (d: string)
    ensures ':' !in line || line[0] == ':' ==> d == line
    ensures ':' in line && line[0] != ':' ==>
              && |d| < |line|
              && d == line[|line| - |d|..]
              && FirstIndex(line, ':') < |line| - |d|
              && AllSpace(line[FirstIndex(line, ':') + 1..|line| - |d|])
              && (d == [] || !IsSpace(d[0]))
  {
    if ':' in line && line[0] != ':' then
      var k := SkipSpaces(line, FirstIndex(line, ':') + 1);
      line[k..]
    else
      line
  }

  /** One turn of the loop (script.js:16-34) on the raw line `raw`. */
  function Step(st: ParserState, raw: string): (r: ParserState)
    requires WellFormed(st)
    ensures WellFormed(r)
  {
    var line := Trim(raw);
    if line == [] then st
    else if ':' in line then
      if st.currentWord.Some? then
        var definition := StripLabel(line);
        StripLabelTrimmed(line);
        if definition != [] then ParserState(Put(st.vocabulary, st.currentWord.value, definition), None)
        else ParserState(st.vocabulary, None)
      else st
    else if st.currentWord.None? then
      LowerKeepsClasses(line);
      ParserState(st.vocabulary, Some(Lower(line)))
    else st
  }

  lemma StripLabelTrimmed(line: string)
    requires IsTrimmed(line)
    ensures IsTrimmed(StripLabel(line))
  {
  }

  /** The loop run over the first `|lines|` lines. */
  function ParseState(lines: seq<string>): (r: ParserState)
    ensures WellFormed(r)
  {
    if lines == [] then Initial()
    else Step(ParseState(lines[..|lines| - 1]), lines[|lines| - 1])
  }

  /** The dictionary the loop leaves; a word still pending at the end is only warned about. */
  function Parse(lines: seq<string>): (r: Vocabulary)
    ensures Valid(r)
    ensures forall k | k in r.defs :: IsTerm(k) && r.defs[k] != [] && IsTrimmed(r.defs[k])
  {
    ParseState(lines).vocabulary
  }

  lemma ParseStateSnoc(lines: seq<string>, line: string)
    ensures ParseState(lines + [line]) == Step(ParseState(lines), line)
  {
    assert (lines + [line])[..|lines|] == lines;
  }

  /** Blank lines never change the state. */
  lemma BlankLine(lines: seq<string>, raw: string)
    requires AllSpace(raw)
    ensures ParseState(lines + [raw]) == ParseState(lines)
  {
    ParseStateSnoc(lines, raw);
    assert Trim(raw) == [];
  }

  /**
   * A colon line while `t` is pending stores the line without its label under `t`, replacing any
   * earlier definition of `t` and leaving every other key alone, when that text is non-empty;
   * either way `t` is no longer pending.
   */
  lemma DefinitionLine(lines: seq<string>, raw: string, t: string)
    requires ParseState(lines).currentWord == Some(t)
    requires ':' in Trim(raw)
    ensures ParseState(lines + [raw]).currentWord == None
    ensures var d := StripLabel(Trim(raw));
            && (d != [] ==> Lookup(Parse(lines + [raw]), t) == Some(d))
            && (d == [] ==> Parse(lines + [raw]) == Parse(lines))
            && (forall k | k != t :: Lookup(Parse(lines + [raw]), k) == Lookup(Parse(lines), k))
            && (t in Parse(lines).defs ==> Parse(lines + [raw]).keys == Parse(lines).keys)
  {
    ParseStateSnoc(lines, raw);
  }

  /** A colon line with nothing pending changes nothing. */
  lemma OrphanDefinitionLine(lines: seq<string>, raw: string)
    requires ParseState(lines).currentWord == None
    requires ':' in Trim(raw)
    ensures ParseState(lines + [raw]) == ParseState(lines)
  {
    ParseStateSnoc(lines, raw);
  }

  /** A non-blank line without a colon becomes the pending term, lower-cased, only if none is pending. */
  lemma TermLine(lines: seq<string>, raw: string)
    requires Trim(raw) != [] && ':' !in Trim(raw)
    ensures Parse(lines + [raw]) == Parse(lines)
    ensures ParseState(lines + [raw]).currentWord ==
              if ParseState(lines).currentWord.None? then Some(Lower(Trim(raw))) else ParseState(lines).currentWord
  {
    ParseStateSnoc(lines, raw);
  }

  /** Where one step's entries and pending word come from: the old state, or this line. */
  lemma StepSources(st: ParserState, raw: string)
    requires WellFormed(st)
    ensures StepFrom(st, Step(st, raw), raw)
  {
  }

  /** Some line of `lines` lower-cases to `k` and a later one, label stripped, gives `d`. */
  ghost predicate EntryFromLines(lines: seq<string>, k: string, d: string) {
    exists i, j | 0 <= i < j < |lines| :: Lower(Trim(lines[i])) == k && StripLabel(Trim(lines[j])) == d
  }

  /** Some line of `lines` lower-cases to `t`. */
  ghost predicate TermFromLines(lines: seq<string>, t: string) {
    exists i | 0 <= i < |lines| :: Lower(Trim(lines[i])) == t
  }

  lemma SourcesExtend(lines: seq<string>)
    requires lines != []
    ensures var prev, raw := lines[..|lines| - 1], lines[|lines| - 1];
            && (forall k, d | EntryFromLines(prev, k, d) :: EntryFromLines(lines, k, d))
            && (forall t | TermFromLines(prev, t) :: TermFromLines(lines, t))
            && (forall t | TermFromLines(prev, t) :: EntryFromLines(lines, t, StripLabel(Trim(raw))))
            && TermFromLines(lines, Lower(Trim(raw)))
  {
    var n := |lines| - 1;
    var prev := lines[..n];
    forall k, d | EntryFromLines(prev, k, d) ensures EntryFromLines(lines, k, d) {
      var i, j :| 0 <= i < j < |prev| && Lower(Trim(prev[i])) == k && StripLabel(Trim(prev[j])) == d;
      assert lines[i] == prev[i] && lines[j] == prev[j];
    }
    forall t | TermFromLines(prev, t)
      ensures TermFromLines(lines, t) && EntryFromLines(lines, t, StripLabel(Trim(lines[n])))
    {
      var i :| 0 <= i < |prev| && Lower(Trim(prev[i])) == t;
      assert lines[i] == prev[i];
    }
  }

  /** Where one step's entries and pending word come from, stated over two states. */
  ghost predicate StepFrom(before: ParserState, after: ParserState, raw: string) {
    && (forall k | k in after.vocabulary.defs ::
          || (k in before.vocabulary.defs && after.vocabulary.defs[k] == before.vocabulary.defs[k])
          || (before.currentWord == Some(k) && after.vocabulary.defs[k] == StripLabel(Trim(raw))))
    && (after.currentWord.Some? ==> after.currentWord == before.currentWord || after.currentWord == Some(Lower(Trim(raw))))
  }

  /** The states' contents all come from `lines`. */
  ghost predicate FromLines(st: ParserState, lines: seq<string>) {
    && (forall k | k in st.vocabulary.defs :: EntryFromLines(lines, k, st.vocabulary.defs[k]))
    && (st.currentWord.Some? ==> TermFromLines(lines, st.currentWord.value))
  }

  lemma FromLinesStep(before: ParserState, after: ParserState, lines: seq<string>)
    requires lines != []
    requires FromLines(before, lines[..|lines| - 1])
    requires StepFrom(before, after, lines[|lines| - 1])
    ensures FromLines(after, lines)
  {
    SourcesExtend(lines);
  }

  /**
   * Every stored key is the lower-cased text of some input line, and its definition the
   * label-stripped text of a later line; a pending word also comes from some line.
   */
  lemma {:induction false} ParsedFromLines(lines: seq<string>)
    ensures FromLines(ParseState(lines), lines)
  {
    if lines != [] {
      var n := |lines| - 1;
      ParsedFromLines(lines[..n]);
      StepSources(ParseState(lines[..n]), lines[n]);
      FromLinesStep(ParseState(lines[..n]), ParseState(lines), lines);
    }
  }

  /** Text without any colon-bearing line yields an empty glossary. */
  lemma {:induction false} NoColonNoEntries(lines: seq<string>)
    requires forall l | l in lines :: ':' !in l
    ensures Parse(lines) == Empty()
  {
    if lines != [] {
      var n := |lines| - 1;
      assert forall l | l in lines[..n] :: l in lines;
      NoColonNoEntries(lines[..n]);
      assert lines[n] in lines;
      assert ':' !in Trim(lines[n]);
    }
  }

  /** A glossary entry as the text file writes it: a term line, then `term: definition`. */
  datatype Entry = Entry(term: string, definition: string)

  /** A term line and a definition line the parser reads as intended. */
  predicate WellFormedEntry(e: Entry) {
    e.term != [] && IsTrimmed(e.term) && ':' !in e.term && e.definition != [] && IsTrimmed(e.definition)
  }

  /** The lines of a glossary file holding `entries`, in order. */
  function Render(entries: seq<Entry>): (lines: seq<string>)
  {
    if entries == [] then []
    else
      var e := entries[|entries| - 1];
      Render(entries[..|entries| - 1]) + [e.term] + [e.term + ": " + e.definition]
  }

  /** The dictionary `entries` denote: each lower-cased term assigned its definition, in order. */
  function Denotation(entries: seq<Entry>): (v: Vocabulary)
    ensures Valid(v)
  {
    if entries == [] then Empty()
    else
      var e := entries[|entries| - 1];
      Put(Denotation(entries[..|entries| - 1]), Lower(e.term), e.definition)
  }

  /** The definition line of a well-formed entry loses exactly its `term: ` label. */
  lemma DefinitionLineOfEntry(e: Entry)
    requires WellFormedEntry(e)
    ensures var line := e.term + ": " + e.definition;
            Trim(line) == line && ':' in line && StripLabel(line) == e.definition
  {
    var line := e.term + ": " + e.definition;
    assert line == e.term + [':'] + (" " + e.definition);
    FirstIndexPastPrefix(e.term, " " + e.definition, ':');
    assert line[..|e.term| + 2] + e.definition == line;
    assert SkipSpaces(line, |e.term| + 1) == |e.term| + 2 by {
      assert line[|e.term| + 1] == ' ' && line[|e.term| + 2] == e.definition[0];
    }
  }

  /** With nothing pending, an entry's two lines assign its definition to its lower-cased term. */
  lemma ParseEntryLines(lines: seq<string>, e: Entry)
    requires WellFormedEntry(e)
    requires ParseState(lines).currentWord == None
    ensures ParseState(lines + [e.term] + [e.term + ": " + e.definition]) ==
              ParserState(Put(Parse(lines), Lower(e.term), e.definition), None)
  {
    var line := e.term + ": " + e.definition;
    ParseStateSnoc(lines, e.term);
    ParseStateSnoc(lines + [e.term], line);
    LowerKeepsClasses(e.term);
    var mid := ParseState(lines + [e.term]);
    assert mid == ParserState(Parse(lines), Some(Lower(e.term)));
    DefinitionLineOfEntry(e);
  }

  lemma RenderSnoc(entries: seq<Entry>)
    requires entries != []
    ensures var e := entries[|entries| - 1];
            Render(entries) == Render(entries[..|entries| - 1]) + [e.term] + [e.term + ": " + e.definition]
  {
  }

  /** Parsing a rendered glossary gives back exactly its entries, with nothing left pending. */
  lemma {:induction false} ParseRender(entries: seq<Entry>)
    requires forall i | 0 <= i < |entries| :: WellFormedEntry(entries[i])
    ensures ParseState(Render(entries)) == ParserState(Denotation(entries), None)
  {
    if entries != [] {
      var n := |entries| - 1;
      var init := entries[..n];
      assert forall i | 0 <= i < |init| :: init[i] == entries[i];
      ParseRender(init);
      var prev := Render(init);
      var e := entries[n];
      assert WellFormedEntry(e);
      ParseEntryLines(prev, e);
      RenderSnoc(entries);
    }
  }
}
