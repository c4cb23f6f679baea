/**
 * `generateQuestions` and `getRandomWords` (script.js:58-94): one fill-in-the-blank question
 * per vocabulary key. The random draws of the two `sort` calls are parameters here; the
 * loop over the keys is `Quiz.QuizState.GenerateQuestions`.
 */
module QuestionGenerator {
  import opened Sequences
  import opened Shuffling
  import opened Blanking
  import opened Vocabularies

  /** The question record script.js pushes (script.js:81-87). */
  datatype Question = Question(kind: string, text: string, options: seq<string>, correct: int, words: seq<string>)

  /** `getRandomWords(words, count)`: the first `min(count, |words|)` words of a random reordering. */
  function GetRandomWords(words: seq<string>, count: nat, picks: seq<nat>): (r: seq<string>)
    ensures |r| == Min(count, |words|)
    ensures forall w | w in r :: w in words
    ensures NoDuplicates(words) ==> NoDuplicates(r)
  {
    var shuffled := Shuffle(words, picks);
    ShuffleNoDuplicates(words, picks);
    ShuffleMembers(words, picks);
    shuffled[..Min(count, |words|)]
  }

  /**
   * The question for `word` (script.js:63-87): the prompt, three other keys drawn by
   * `distractorPicks`, all options reordered by `optionPicks`, and the answer's position.
   */
  function MakeQuestion(word: string, definition: string, words: seq<string>,
                        distractorPicks: seq<nat>, optionPicks: seq<nat>): (r: Question)
    requires word != []
    ensures r.kind == "fill" && r.words == [word]
    ensures |r.options| == 1 + Min(3, |Without(words, word)|)
    ensures 0 <= r.correct < |r.options| && r.options[r.correct] == word
    ensures forall o | o in r.options :: o == word || (o != word && o in words)
    ensures NoDuplicates(words) ==> NoDuplicates(r.options)
  {
    var incorrectOptions := GetRandomWords(Without(words, word), 3, distractorPicks);
    var candidates := [word] + incorrectOptions;
    var allOptions := Shuffle(candidates, optionPicks);
    ShuffleMembers(candidates, optionPicks);
    assert word in allOptions by { assert word in candidates; }
    assert NoDuplicates(words) ==> NoDuplicates(allOptions) by {
      if NoDuplicates(words) {
        WithoutNoDuplicates(words, word);
        ConsNoDuplicates(word, incorrectOptions);
        ShuffleNoDuplicates(candidates, optionPicks);
      }
    }
    Question("fill", Prompt(definition, word), allOptions, IndexOf(allOptions, word), [word])
  }

  /**
   * What a question for the key `word` of `v` promises: a non-empty key, a fill question about `word` whose text is
   * the blanked definition; `min(4, |keys|)` distinct options, all keys of `v`, one of them `word`
   * at position `correct`, so the others are `min(3, |keys| - 1)` distinct keys other than `word`.
   */
  predicate IsQuestionFor(q: Question, v: Vocabulary, word: string) {
    && word != []
    && word in v.defs
    && q.kind == "fill"
    && q.words == [word]
    && q.text == Prompt(v.defs[word], word)
    && |q.options| == Min(4, |v.keys|)
    && NoDuplicates(q.options)
    && (forall o | o in q.options :: o in v.defs)
    && 0 <= q.correct < |q.options|
    && q.options[q.correct] == word
  }

  /** The distractors are distinct keys other than `word`, and as many as script.js:77 asks for. */
  lemma Distractors(v: Vocabulary, word: string, picks: seq<nat>)
    requires Valid(v) && word in v.defs
    ensures var d := GetRandomWords(Without(v.keys, word), 3, picks);
            && |d| == Min(3, |v.keys| - 1)
            && NoDuplicates(d)
            && word !in d
            && (forall w | w in d :: w in v.defs)
  {
    WithoutNoDuplicates(v.keys, word);
  }

  /** Whatever the draws, the generated question satisfies every promise of `IsQuestionFor`. */
  lemma MakeQuestionIsValid(v: Vocabulary, word: string, distractorPicks: seq<nat>, optionPicks: seq<nat>)
    requires Valid(v) && word != [] && word in v.defs
    ensures IsQuestionFor(MakeQuestion(word, v.defs[word], v.keys, distractorPicks, optionPicks), v, word)
  {
    var incorrectOptions := GetRandomWords(Without(v.keys, word), 3, distractorPicks);
    Distractors(v, word, distractorPicks);
    var candidates := [word] + incorrectOptions;
    ConsNoDuplicates(word, incorrectOptions);
    var allOptions := Shuffle(candidates, optionPicks);
    ShuffleNoDuplicates(candidates, optionPicks);
    ShuffleMembers(candidates, optionPicks);
    assert |v.keys| >= 1 by { assert word in v.keys; }
  }

  /** Any arrangement of the answer and its distractors is one the draws can produce. */
  lemma EveryOptionOrderPossible(word: string, incorrectOptions: seq<string>, arrangement: seq<string>)
    requires multiset(arrangement) == multiset([word] + incorrectOptions)
    ensures exists optionPicks: seq<nat> :: Shuffle([word] + incorrectOptions, optionPicks) == arrangement
  {
    ShuffleReachesEvery([word] + incorrectOptions, arrangement);
  }
}
