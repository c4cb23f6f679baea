# Vocabulary quiz — a Dafny model of its core

The quiz page reads a glossary text file (`paste.txt`). Each entry is a line naming a term, then
a line `term: definition`. The page builds one fill-in-the-blank multiple-choice question per
term. The question shows the definition with the term replaced by `<blank>` and offers the term
with up to three other terms in random order. It marks the option the reader picks and can
reshuffle the question order. This project models the parts of `script.js` that decide what the
page shows:

- **the glossary parser** (`loadVocabulary`, script.js:11-42): module `GlossaryParser`. `Step`
  is one turn of the line loop, `ParseState`/`Parse` is the loop over a list of lines, and
  `Quiz.QuizState.LoadVocabulary` is the loop itself, with its `continue` on blank lines. It is
  proved to compute `Parse`. Lemmas give the effect of each kind of line. They also show that
  every stored pair comes from a term line followed by a later definition line, and that parsing
  the rendering of well-formed entries gives those entries back.
- **the dictionary** (`vocabulary`): module `Vocabularies`. It is a JavaScript object used as a
  map, whose keys keep their first-insertion order. Overwriting a key keeps its position.
- **question generation** (`generateQuestions`, `getRandomWords`, script.js:58-94): modules
  `Blanking`, `Shuffling` and `QuestionGenerator`, and the method
  `Quiz.QuizState.GenerateQuestions`.
  - Blanking replaces whole words, ignoring case, leftmost first, without overlaps. Then one
    leading `to` / `when you` / `if you` before the marker is removed.
  - The `sort(() => Math.random() - 0.5)` reorderings are a function `Shuffle` of arbitrary
    draws. It is proved to give a permutation for every draw and to be able to give every
    permutation.
  - Every generated question has `min(4, number of terms)` distinct options, all of them terms.
    The term is at the stored answer index.
- **question shuffling** (`shuffleQuestions`, script.js:102-107): `Quiz.QuizState.ShuffleQuestions`,
  a Fisher–Yates swap loop over the `questions` field with a nondeterministic index in `0..i`.
- **answer checking** (`checkAnswer`, script.js:162-196): `Answer.CheckAnswer` gives the verdict
  and the classes each option gets. `VerdictMatchesMarks` ties the verdict to the highlighting.
- **runtime helpers** script.js relies on: modules `Text` and `Sequences`. They cover JavaScript's
  `trim` and `\s` whitespace set, `\w`/`\b`, `toLowerCase`, `split`, `includes`, `filter`,
  `indexOf` and `Math.min`.

Some behaviour of script.js is not what a reader of the quiz would expect. The model follows the
code:

- A definition line is recognised only by containing `:`. A glossary written as a term line
  followed by a plain sentence gives an empty dictionary (`GlossaryParser.NoColonNoEntries`).
- A question has `min(4, number of terms)` options, not always four.
- The options and the distractors are reordered by sorting with a random comparator, not by a
  uniform shuffle. The model claims which orders are possible, not how likely each one is.
- Checking with no option selected does nothing; it is not an error (`Answer.CheckAnswer`
  returns `None`).
- A prompt does not always lose every occurrence of its term. For the term `blank`, the marker
  `<blank>` itself contains the term as a whole word (`Blanking.BlankTermSurvives`).

## Model

| member | source | states |
|---|---|---|
| Text.Trim | script.js:16 | the trimmed line has no whitespace at either end, is empty exactly when the line is all whitespace, uses only the line's characters, and leaves an already trimmed line unchanged |
| Text.TrimSlice | script.js:16 | trimming removes whitespace at the two ends and nothing else: the result is a slice of the line with only whitespace around it |
| Text.Lower | script.js:32 | lower-casing keeps the length, maps each character by `LowerChar` and leaves no upper-case letter |
| Text.LowerKeepsLower | script.js:32 | lower-casing an already lower-case term changes nothing |
| Text.LowerKeepsClasses | script.js:20-32 | lower-casing a line neither adds nor removes a colon, keeps a trimmed line trimmed and a non-empty line non-empty |
| Text.FirstIndex | script.js:23 | the position of the first colon: it holds the colon and no earlier position does |
| Text.Split | script.js:11 | splitting on newlines gives at least one line and no line contains a newline |
| Text.JoinSplit | script.js:11 | splitting loses nothing: joining the lines with newlines restores the text |
| Text.SplitJoin | script.js:11 | splitting a newline-join of newline-free lines gives exactly those lines |
| Text.Join | script.js:11 | joining lines, the inverse of the newline split, starts with the first line, ends with the last, and holds the separator when there are two or more lines |
| Sequences.Without | script.js:77 | the filtered keys are exactly the keys other than the question's term |
| Sequences.WithoutNoDuplicates | script.js:77 | filtering distinct keys keeps them distinct and removes exactly one when the term is among them |
| Sequences.IndexOf | script.js:79 | `indexOf` is -1 exactly when the element is absent; otherwise it is the first position holding it |
| Sequences.Min | script.js:93 | `Math.min` is one of its arguments and no larger than either |
| Vocabularies.Empty | script.js:12 | the fresh dictionary is valid and has no keys |
| Vocabularies.Lookup | script.js:38 | a lookup finds a value exactly when the key has one |
| Vocabularies.Put | script.js:25 | assignment keeps the dictionary valid, stores the value under the key, leaves every other key alone, and appends the key to the key order only when it is new |
| Vocabularies.PutOverwrites | script.js:25 | a second assignment to a key replaces the first and keeps the key's original position |
| GlossaryParser.StripLabel | script.js:23 | a line whose first character is a colon is kept whole; otherwise the result is the text after the first colon with the following whitespace removed |
| GlossaryParser.StripLabelTrimmed | script.js:23 | the text after a label of a trimmed line is itself trimmed |
| GlossaryParser.Step | script.js:16-34 | one line keeps the parser state well formed: stored keys are non-empty lower-case colon-free terms, stored definitions non-empty and trimmed |
| GlossaryParser.ParseState | script.js:14-35 | the state after any number of lines is well formed |
| GlossaryParser.ParseStateSnoc | script.js:15 | reading one more line is one more step of the loop |
| GlossaryParser.BlankLine | script.js:17 | a whitespace-only line changes nothing |
| GlossaryParser.DefinitionLine | script.js:20-28 | a colon line with a term pending stores its label-free text under that term if non-empty, overwriting any earlier definition, changes no other key, and always clears the pending term |
| GlossaryParser.OrphanDefinitionLine | script.js:20-28 | a colon line with no term pending changes nothing |
| GlossaryParser.TermLine | script.js:29-33 | a line without a colon becomes the pending term, lower-cased, only when none is pending, and never changes the dictionary |
| GlossaryParser.Parse | script.js:14-35 | the dictionary the loop leaves is valid, every key is a non-empty trimmed lower-case colon-free term and every definition is non-empty and trimmed |
| GlossaryParser.StepSources | script.js:16-34 | each entry after a step was either there before unchanged or is the pending term paired with this line's label-free text |
| GlossaryParser.ParsedFromLines | script.js:14-35 | every stored key is the lower-cased text of some input line and its definition the label-free text of a later line |
| GlossaryParser.NoColonNoEntries | script.js:20 | a text in which no line contains a colon yields an empty dictionary |
| GlossaryParser.Denotation | script.js:25 | the dictionary a list of entries denotes is valid |
| GlossaryParser.DefinitionLineOfEntry | script.js:23 | a `term: definition` line is already trimmed, contains a colon and loses exactly its label |
| GlossaryParser.ParseEntryLines | script.js:20-33 | with nothing pending, a term line and its definition line store the definition under the lower-cased term and leave nothing pending |
| GlossaryParser.ParseRender | script.js:10-35 | parsing a file written as term line / `term: definition` pairs gives back exactly those entries in order, with nothing pending |
| Blanking.ReplaceFrom | script.js:71 | the replacement introduces no character other than those of the text and of `<blank>` |
| Blanking.Blank | script.js:70-71 | a definition in which the term never occurs as a whole word is left as it is |
| Blanking.ReplaceFromNoMatch | script.js:71 | where the term never matches, the replacement leaves the text as it is |
| Blanking.MatchStartsWithWordChar | script.js:70 | a whole-word match of a term beginning with a word character begins with a word character |
| Blanking.ReplaceFromChanges | script.js:71 | where the term matches somewhere, the replacement changes the text |
| Blanking.BlankUnchangedIff | script.js:70-71 | blanking leaves the definition unchanged if and only if the term does not occur in it as a whole word, in any case |
| Blanking.UnblankBlank | script.js:70-71 | for a definition without `<`, putting the term back for each marker restores the definition up to case: blanking changes nothing but the occurrences, and loses only their case |
| Blanking.UnblankBlankExact | script.js:70-71 | for a definition without `<` whose occurrences are all written exactly as the term, putting the term back restores the definition exactly |
| Blanking.BlankRemovesEvery | script.js:70-71 | the global replacement leaves no whole-word occurrence of the term, in any case, for every term that begins and ends with a word character, has no `<` or `>` and is not `blank` |
| Blanking.BlankMarksOccurrence | script.js:70-71 | where the term occurs, the blanked text contains a `<blank>` marker |
| Blanking.BlankTermSurvives | script.js:70-71 | for the term `blank` the blanked text still contains the term as a whole word |
| Blanking.LeadInLength | script.js:74 | a non-zero length is that of a prefix made of the lead-in in any case, at least one whitespace character and the marker in any case, ending right after the marker |
| Blanking.LeadInUnique | script.js:74 | for every prefix of that shape the length is exactly the prefix's: the lead-in match is found whenever it exists, and it is the only one |
| Blanking.StripLeadIn | script.js:74 | when the text begins with one of `to`, `when you`, `if you` (any case), whitespace and the marker, that whole prefix becomes `<blank>` and the rest is kept; otherwise the text is unchanged |
| Blanking.StripLeadInNoMatch | script.js:74 | removing a lead-in never creates a whole-word occurrence of a term of the kind `BlankRemovesEvery` covers |
| Blanking.StripLeadInKeepsMarker | script.js:74 | removing a lead-in keeps a `<blank>` marker in the text |
| Blanking.NoLeadInBeforeMarker | script.js:74 | a text that begins with `<` has no lead-in |
| Blanking.StripLeadInIdempotent | script.js:74 | stripping the lead-in twice gives the same text as once |
| Blanking.Prompt | script.js:67-74 | the question text has no whole-word occurrence of a term of the kind `BlankRemovesEvery` covers, and has a `<blank>` marker whenever the definition uses the term |
| Blanking.PromptUnchanged | script.js:67-74 | a definition that never uses the term and has no lead-in before a marker is shown as written |
| Shuffling.RemoveAt | script.js:92 | removing one element takes exactly that element out of the multiset |
| Shuffling.Shuffle | script.js:92 | a random reordering is a permutation: same length and same multiset, whatever the draws |
| Shuffling.ShuffleMembers | script.js:92 | a reordering holds exactly the elements it started with |
| Shuffling.ShuffleNoDuplicates | script.js:92 | a reordering of distinct words repeats none |
| Shuffling.DrawsFor | script.js:78 | for any permutation of the input there are draws that produce it |
| Shuffling.ShuffleReachesEvery | script.js:78 | every permutation of the input is a possible outcome |
| QuestionGenerator.GetRandomWords | script.js:91-94 | `min(count, number of words)` words, all taken from the input, distinct when the input is |
| QuestionGenerator.Distractors | script.js:77 | the distractors are `min(3, number of keys - 1)` distinct keys, none of them the question's term |
| QuestionGenerator.MakeQuestion | script.js:63-87 | a fill question about the term, with one option more than `min(3, number of other keys)`, the term at the answer index, every other option a key other than the term, and distinct options when the keys are distinct |
| QuestionGenerator.MakeQuestionIsValid | script.js:63-87 | whatever the draws, a generated question is a fill question about its term with the blanked definition as text, `min(4, number of keys)` distinct options that are all keys, and the term at the answer index |
| QuestionGenerator.EveryOptionOrderPossible | script.js:78 | any arrangement of the term and its distractors can be the displayed option order |
| Answer.MarkOption | script.js:177-186 | an option is marked selected exactly when it is the chosen index, correct exactly when it is the answer index, and incorrect exactly when it is chosen and not the answer |
| Answer.CheckAnswer | script.js:162-190 | no selection gives no verdict; otherwise one mark set per option, the verdict is right exactly when the selected index is the answer index, an option is selected exactly when chosen, correct exactly at the answer index, incorrect exactly when chosen and not the answer |
| Answer.VerdictMatchesMarks | script.js:177-190 | on a generated question the answer is right exactly when the chosen option is the term, exactly when no option is marked incorrect, and the option marked correct is the one holding the term |
| Quiz.QuizState.constructor | script.js:1-2 | the page starts with an empty dictionary and no questions |
| Quiz.QuizState.LoadVocabulary | script.js:11-42 | after loading, the dictionary is what the parser gives for the text's lines, and there is one question per key, in key order, each a valid question for its key |
| Quiz.QuizState.GenerateQuestions | script.js:58-89 | the questions are replaced by one valid question per key, in key order, whatever the random draws |
| Quiz.QuizState.ShuffleQuestions | script.js:102-107 | the questions are permuted (same length, same multiset), and if every question was valid for the dictionary before, every one still is |

## Left out

- Reading `paste.txt` with `fetch`, the error message written into the page when that fails, and
  `console.warn`/`console.error`: the model's `LoadVocabulary` takes the file's text as a parameter.
  The warning for a term left without a definition (script.js:38-40) changes no state.
- `renderQuiz`, `setupTooltips`, the view toggle and the DOM lookups in `checkAnswer`: these
  create and update page elements. `checkAnswer` is modelled from the question and the checked
  option index onwards.
- The randomness of `Math.random`: draws are parameters (`Shuffle`, `GetRandomWords`) or
  nondeterministic choices (`GenerateQuestions`, `ShuffleQuestions`).
- Shuffling.Shuffle: says which orders are possible, not how likely each is. The sort with a
  random comparator is not uniform, and the model does not follow the engine's sorting algorithm
  comparison by comparison.
- Quiz.QuizState.ShuffleQuestions: states that the result is a permutation, not that the
  Fisher–Yates pass makes every permutation equally likely.
- Blanking.Blank: the term is matched as literal text. script.js builds a regular expression from
  the term unescaped, so a term containing characters such as `+`, `.` or `(` is read as a
  pattern, and may make the expression invalid.
- Blanking.BlankRemovesEvery: holds for terms that begin and end with a word character, contain no
  `<` or `>` and are not `blank` in any case. A term ending in a non-word character meets `\b`
  differently, and for `blank` the marker itself is an occurrence (`Blanking.BlankTermSurvives`).
- Blanking.Prompt: its no-occurrence promise carries the same hypotheses on the term as
  `Blanking.BlankRemovesEvery`.
- Blanking.UnblankBlank: restores the definition only up to case, and only for definitions without
  `<`, where no marker can come from the text itself; `Blanking.UnblankBlankExact` gives the exact
  text back when every occurrence is written as the term.
- Text.Lower: folds case only on ASCII letters. JavaScript's `toLowerCase` and the `i` flag also
  fold other letters.
- Vocabularies.Put: keys that look like array indices are listed first by `Object.keys`, in
  numeric order, and the key `__proto__` is not stored as a property. The model keeps every key
  in insertion order.
- `if (!definition) return;` in `generateQuestions` is not modelled as a branch. Stored
  definitions are never empty (`GlossaryParser.Parse`), so it never skips a key.
- Question objects are values in the model. script.js shares them by reference, but nothing in
  the modelled code mutates a question after it is created.
