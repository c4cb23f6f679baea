/**
 * The two globals of script.js, `vocabulary` and `questions`, and the functions that update
 * them in place: `loadVocabulary` (its parsing loop, script.js:11-42), `generateQuestions`
 * (script.js:58-89) and `shuffleQuestions` (script.js:102-107).
 */
module Quiz {
  import opened Wrappers
  import opened Text
  import opened Sequences
  import opened Vocabularies
  import opened GlossaryParser
  import opened QuestionGenerator

  /** A question generated from `v`, for whichever key it names. */
  predicate IsGeneratedFrom(q: Question, v: Vocabulary) {
    |q.words| == 1 && IsQuestionFor(q, v, q.words[0])
  }

  lemma QuestionsExtend(qs: seq<Question>, v: Vocabulary, words: seq<string>, q: Question)
    requires |qs| < |words| && IsQuestionFor(q, v, words[|qs|])
    requires forall k | 0 <= k < |qs| :: IsQuestionFor(qs[k], v, words[k])
    ensures forall k | 0 <= k < |qs| + 1 :: IsQuestionFor((qs + [q])[k], v, words[k])
  {
  }

  /** A question per key, each valid for its key, are all questions generated from the dictionary. */
  lemma QuestionsGenerated(qs: seq<Question>, v: Vocabulary)
    requires |qs| == |v.keys|
    requires forall k | 0 <= k < |qs| :: IsQuestionFor(qs[k], v, v.keys[k])
    ensures forall q | q in qs :: IsGeneratedFrom(q, v)
  {
    forall q | q in qs ensures IsGeneratedFrom(q, v) {
      var k :| 0 <= k < |qs| && qs[k] == q;
      assert IsQuestionFor(qs[k], v, v.keys[k]);
    }
  }

  class QuizState {
    var vocabulary: Vocabulary
    var questions: seq<Question>

    /** The dictionary is one the parser can produce: valid, with term keys and non-empty definitions. */
    ghost predicate VocabularyOk()
      reads this
    {
      && Valid(vocabulary)
      && (forall k | k in vocabulary.defs :: IsTerm(k) && vocabulary.defs[k] != [])
    }

    /** Every question on display was generated from the current dictionary. */
    ghost predicate Ok()
      reads this
    {
      VocabularyOk() && forall q | q in questions :: IsGeneratedFrom(q, vocabulary)
    }

    /** The state before anything is loaded: `let vocabulary = {}; let questions = [];`. */
    constructor ()
      ensures Ok() && vocabulary == Empty() && questions == []
    {
      vocabulary := Empty();
      questions := [];
    }

    /**
     * `loadVocabulary` once `paste.txt` has been read as `text`: split into lines, run the
     * parser loop, then generate the questions.
     */
    method LoadVocabulary(text: string)
      modifies this
      ensures Ok()
      ensures vocabulary == Parse(Split(text, '\n'))
      ensures |questions| == |vocabulary.keys|
      ensures forall i | 0 <= i < |questions| :: IsQuestionFor(questions[i], vocabulary, vocabulary.keys[i])
    {
      var lines := Split(text, '\n');
      vocabulary := Empty();
      var currentWord: Option<string> := None;
      for i := 0 to |lines|
        invariant ParserState(vocabulary, currentWord) == ParseState(lines[..i])
      {
        assert lines[..i + 1] == lines[..i] + [lines[i]];
        ParseStateSnoc(lines[..i], lines[i]);
        var line := Trim(lines[i]);
        if line == [] {
          continue;
        }
        if ':' in line {
          if currentWord.Some? {
            var definition := StripLabel(line);
            if definition != [] {
              vocabulary := Put(vocabulary, currentWord.value, definition);
            }
            currentWord := None;
          }
        } else {
          if currentWord.None? {
            currentWord := Some(Lower(line));
          }
        }
      }
      assert lines[..|lines|] == lines;
      GenerateQuestions();
    }

    /** `generateQuestions`: one question per key, in key order, each with fresh random draws. */
    method GenerateQuestions()
      requires VocabularyOk()
      modifies this`questions
      ensures Ok()
      ensures |questions| == |vocabulary.keys|
      ensures forall i | 0 <= i < |questions| :: IsQuestionFor(questions[i], vocabulary, vocabulary.keys[i])
    {
      questions := [];
      var v := vocabulary;
      var words := v.keys;
      for i := 0 to |words|
        invariant |questions| == i
        invariant forall k | 0 <= k < i :: IsQuestionFor(questions[k], v, words[k])
      {
        var word := words[i];
        assert word in v.defs && word != [];
        // Stored definitions are never empty, so `if (!definition) return;` never skips a key.
        var definition := v.defs[word];
        // The random numbers the two `sort` calls draw: any values at all.
        assert |seq<nat>(|words|, _ => 0)| == |words|;
        var distractorPicks: seq<nat> :| |distractorPicks| == |words|;
        assert |seq<nat>(4, _ => 0)| == 4;
        var optionPicks: seq<nat> :| |optionPicks| == 4;
        var q := MakeQuestion(word, definition, words, distractorPicks, optionPicks);
        MakeQuestionIsValid(v, word, distractorPicks, optionPicks);
        QuestionsExtend(questions, v, words, q);
        questions := questions + [q];
      }
      QuestionsGenerated(questions, v);
    }

    /** `shuffleQuestions`: a Fisher–Yates pass swapping each position with a random earlier one. */
    method ShuffleQuestions()
      modifies this`questions
      ensures |questions| == |old(questions)|
      ensures multiset(questions) == multiset(old(questions))
      ensures old(Ok()) ==> Ok()
    {
      var i := |questions| - 1;
      while i > 0
        invariant i < |questions| == |old(questions)|
        invariant multiset(questions) == multiset(old(questions))
      {
        var j :| 0 <= j <= i;
        questions := questions[i := questions[j]][j := questions[i]];
        i := i - 1;
      }
      forall q | q in questions ensures q in old(questions) {
        assert q in multiset(old(questions));
      }
    }
  }
}
