/**
 * The decision part of `checkAnswer` (script.js:162-196): given the checked option, which of the
 * classes `selected`, `correct` and `incorrect` each option receives, and whether the answer is
 * right. Finding the checked radio button and writing the classes and text are left to the page.
 */
module Answer {
  import opened Wrappers
  import opened Sequences
  import opened Vocabularies
  import opened QuestionGenerator

  /** The classes one option carries after the check (all three are removed first). */
  datatype OptionMarks = OptionMarks(selected: bool, correct: bool, incorrect: bool)

  /** The outcome shown for one answer. */
  datatype Feedback = Feedback(isCorrect: bool, marks: seq<OptionMarks>)

  /** The classes of the option at `optIndex` (script.js:177-186). */
  function MarkOption(optIndex: int, selected: int, correct: int): (r: OptionMarks)
    ensures r.selected <==> optIndex == selected
    ensures r.correct <==> optIndex == correct
    ensures r.incorrect <==> optIndex == selected && optIndex != correct
  {
    if optIndex == selected then
      if optIndex == correct then OptionMarks(true, true, false) else OptionMarks(true, false, true)
    else if optIndex == correct then OptionMarks(false, true, false)
    else OptionMarks(false, false, false)
  }

  /**
   * `checkAnswer` on question `q` with the checked option `selected` (`None` when no radio
   * button is checked, in which case nothing happens).
   */
  function CheckAnswer(q: Question, selected: Option<int>): (r: Option<Feedback>)
    ensures r.None? <==> selected.None?
    ensures r.Some? ==> |r.value.marks| == |q.options|
    ensures r.Some? ==> (r.value.isCorrect <==> selected.value == q.correct)
    ensures r.Some? ==> forall i | 0 <= i < |q.options| ::
              && (r.value.marks[i].selected <==> i == selected.value)
              && (r.value.marks[i].correct <==> i == q.correct)
              && (r.value.marks[i].incorrect <==> i == selected.value && i != q.correct)
  {
    match selected
    case None => None
    case Some(s) =>
      Some(Feedback(s == q.correct, seq(|q.options|, i => MarkOption(i, s, q.correct))))
  }

  /**
   * For a chosen option of a generated question, the verdict agrees with the highlighting: the
   * answer is right exactly when the chosen option is the term, and otherwise exactly the chosen
   * option is marked incorrect while the term's option is marked correct.
   */
  lemma VerdictMatchesMarks(q: Question, v: Vocabulary, word: string, s: int)
    requires word != [] && word in v.defs && IsQuestionFor(q, v, word)
    requires 0 <= s < |q.options|
    ensures var f := CheckAnswer(q, Some(s)).value;
            && (f.isCorrect <==> q.options[s] == word)
            && (f.isCorrect <==> forall i | 0 <= i < |q.options| :: !f.marks[i].incorrect)
            && (forall i | 0 <= i < |q.options| :: f.marks[i].correct <==> q.options[i] == word)
  {
    var f := CheckAnswer(q, Some(s)).value;
    if !f.isCorrect {
      assert f.marks[s].incorrect;
    }
  }
}
