/** The quiz session: the globals `currentQuestionIndex` and `quizAnswers`
    and the three operations that move through the questions. The question
    bank and the catalog are loaded before the quiz starts and are fixed for
    the session; of the questions only their number matters here. Rendering
    is replaced by the view each operation asks for. */
module Session {
  import opened Wrappers
  import opened Catalog
  import opened Classifier

  /** What an operation puts in the quiz container. */
  datatype View =
    | QuestionView(index: nat, showPrevious: bool)       // question `index`, with or without a Previous button
    | ResultView(result: Result<QuizResult, QuizError>)  // the outcome of calculateQuizResult, handed to the result page
    | NoChange                                           // the container is left as it was

  /** `displayQuizQuestion`: question `index` when there is one, with a
      Previous button past the first question; otherwise nothing is drawn. */
  function QuestionScreen(index: nat, questionCount: nat): View
  {
    if index < questionCount then QuestionView(index, index > 0) else NoChange
  }

  class QuizSession {
    const questionCount: nat          // quizQuestions.length
    const catalog: seq<CustomerType>  // customerTypes
    var currentQuestionIndex: nat
    var quizAnswers: seq<string>

    /** One recorded answer per question passed. */
    ghost predicate Valid()
      reads this
    {
      |quizAnswers| == currentQuestionIndex
    }

    /** The globals as the script initialises them. */
    constructor (questionCount: nat, catalog: seq<CustomerType>)
      ensures Valid()
      ensures this.questionCount == questionCount && this.catalog == catalog
      ensures currentQuestionIndex == 0 && quizAnswers == []
    {
      this.questionCount := questionCount;
      this.catalog := catalog;
      currentQuestionIndex := 0;
      quizAnswers := [];
    }

    /** `startQuiz`: back to the first question with no answers, from any state. */
    method StartQuiz() returns (v: View)
      modifies this
      ensures Valid()
      ensures currentQuestionIndex == 0 && quizAnswers == []
      ensures v == QuestionScreen(0, questionCount)
    {
      currentQuestionIndex := 0;
      quizAnswers := [];
      v := QuestionScreen(currentQuestionIndex, questionCount);
    }

    /** `selectAnswer`: records `tag` and moves on; once the index reaches
        the number of questions the quiz result is computed instead of
        another question being shown. */
    method SelectAnswer(tag: string) returns (v: View)
      requires Valid()
      modifies this
      ensures Valid()
      ensures quizAnswers == old(quizAnswers) + [tag]
      ensures currentQuestionIndex == old(currentQuestionIndex) + 1
      ensures currentQuestionIndex < questionCount ==> v == QuestionView(currentQuestionIndex, true)
      ensures currentQuestionIndex >= questionCount ==> v == ResultView(Classify(quizAnswers, catalog))
    {
      quizAnswers := quizAnswers + [tag];
      currentQuestionIndex := currentQuestionIndex + 1;
      if currentQuestionIndex < questionCount {
        v := QuestionScreen(currentQuestionIndex, questionCount);
      } else {
        var result := CalculateQuizResult(quizAnswers, catalog);
        v := ResultView(result);
      }
    }

    /** `previousQuestion`: one question back, dropping the last answer;
        at the first question it does nothing. */
    method PreviousQuestion() returns (v: View)
      requires Valid()
      modifies this
      ensures Valid()
      ensures old(currentQuestionIndex) == 0 ==>
        currentQuestionIndex == 0 && quizAnswers == old(quizAnswers) && v == NoChange
      ensures old(currentQuestionIndex) > 0 ==>
        currentQuestionIndex == old(currentQuestionIndex) - 1 &&
        quizAnswers == old(quizAnswers)[..|old(quizAnswers)| - 1] &&
        v == QuestionScreen(currentQuestionIndex, questionCount)
    {
      v := NoChange;
      if currentQuestionIndex > 0 {
        currentQuestionIndex := currentQuestionIndex - 1;
        quizAnswers := quizAnswers[..|quizAnswers| - 1];
        v := QuestionScreen(currentQuestionIndex, questionCount);
      }
    }
  }

  /** Answering and then going back restores the session. */
  method AnswerThenGoBack(s: QuizSession, tag: string)
    requires s.Valid()
    modifies s
    ensures s.Valid()
    ensures s.currentQuestionIndex == old(s.currentQuestionIndex) && s.quizAnswers == old(s.quizAnswers)
  {
    var _ := s.SelectAnswer(tag);
    var _ := s.PreviousQuestion();
  }

  /** Starting the quiz and answering every question hands exactly those
      answers to the classifier. */
  method TakeQuiz(s: QuizSession, tags: seq<string>) returns (v: View)
    requires |tags| == s.questionCount > 0
    modifies s
    ensures s.Valid() && s.quizAnswers == tags
    ensures v == ResultView(Classify(tags, s.catalog))
  {
    v := s.StartQuiz();
    var last := |tags| - 1;
    for i := 0 to last
      invariant s.Valid() && s.quizAnswers == tags[..i]
    {
      v := s.SelectAnswer(tags[i]);
      assert tags[..i + 1] == tags[..i] + [tags[i]];
    }
    // the answer to the last question completes the quiz
    assert tags[..last] + [tags[last]] == tags;
    v := s.SelectAnswer(tags[last]);
  }

  /** From a fresh start, k answers followed by k steps back return to the
      first question with no answers, whatever k is. */
  method RetraceQuiz(s: QuizSession, tags: seq<string>)
    modifies s
    ensures s.Valid() && s.currentQuestionIndex == 0 && s.quizAnswers == []
  {
    var _ := s.StartQuiz();
    for i := 0 to |tags|
      invariant s.Valid() && s.quizAnswers == tags[..i]
    {
      var _ := s.SelectAnswer(tags[i]);
      assert tags[..i + 1] == tags[..i] + [tags[i]];
    }
    for i := 0 to |tags|
      invariant s.Valid() && s.quizAnswers == tags[..|tags| - i]
    {
      var _ := s.PreviousQuestion();
    }
  }
}
