/**
 * Classroom sessions against the store: a one-question quiz "2+2=?" answered
 * "4" and "3", a second attempt, and attempts 35 s and 30 s into a 30 s limit.
 */
module Session {
  import opened Wrappers
  import opened QuizData
  import opened Scoring
  import opened Aggregation
  import opened QuizStore

  /** The example quiz: one question, "2+2=?", answered by "4". */
  function Sample(): Question
  {
    Question("2+2=?", ["1", "2", "3", "4"], "4", "")
  }

  /** Failed creation, a missing name and a bad link store nothing. */
  method TeacherAndGuards()
  {
    var store := new Store();
    var pickFour: nat -> string := i => "4";

    var none := store.CreateQuiz("Arithmetic", None, "quiz-0");
    assert none == None && store.quizzes == [];

    var created := store.CreateQuiz("Arithmetic", Some([Sample()]), "quiz-1");
    assert created == Some("quiz-1");

    var o := store.Submit(Some("quiz-1"), "", pickFour, 0, 5.0, true, k => "row-a");
    assert o == MissingInput;

    o := store.Submit(None, "ana", pickFour, 0, 5.0, true, k => "row-a");
    assert o == MissingInput;

    assert "quiz-9" !in QuizIds(store.quizzes);
    o := store.Submit(Some("quiz-9"), "ana", pickFour, 0, 5.0, true, k => "row-a");
    assert o == UnknownQuiz && store.results == [];
  }

  /** Ana scores one out of one and cannot submit again. */
  method AnaAnswers()
  {
    var store := new Store();
    var pickFour: nat -> string := i => "4";
    SingleQuestion(Sample(), pickFour);
    var created := store.CreateQuiz("Arithmetic", Some([Sample()]), "quiz-1");

    var o := store.Submit(Some("quiz-1"), "ana", pickFour, 0, 5.0, true, k => "row-a");
    assert o == Scored(1, 1);
    assert |store.results| == 1 && store.results[0].isCorrect;

    assert store.results[0] in store.results;
    o := store.Submit(Some("quiz-1"), "ana", i => "3", 0, 5.0, true, k => "row-b");
    assert o == AlreadySubmitted && |store.results| == 1;
  }

  /** Ben submits 35 seconds into a limit of 30: nothing is stored. */
  method BenIsLate()
  {
    var store := new Store();
    var created := store.CreateQuiz("Arithmetic", Some([Sample()]), "quiz-1");
    var o := store.Submit(Some("quiz-1"), "ben", i => "3", 30, 35.0, true, k => "row-b");
    assert o == TimeUp && store.results == [];
  }

  /** Ben submits exactly at the limit, which is on time, and answers wrongly. */
  method BenOnTheLimit()
  {
    var store := new Store();
    var pickThree: nat -> string := i => "3";
    var created := store.CreateQuiz("Arithmetic", Some([Sample()]), "quiz-1");
    SingleQuestion(Sample(), pickThree);
    var o := store.Submit(Some("quiz-1"), "ben", pickThree, 30, 30.0, true, k => "row-b");
    assert o == Scored(0, 1);
    assert |store.results| == 1 && !store.results[0].isCorrect;
    assert store.results[0].studentAnswer == "3" && store.results[0].correctAnswer == "4";
  }

  /** Ana's correct row and Ben's wrong row give a true, a false and an absent cell. */
  lemma TwoStudentHeatmap(rows: seq<ResultRow>)
    requires |rows| == 2
    requires KeyOf(rows[0]) == ("ana", "2+2=?") && rows[0].isCorrect
    requires KeyOf(rows[1]) == ("ben", "2+2=?") && !rows[1].isCorrect
    ensures Cell(rows, "ana", "2+2=?") == Some(true)
    ensures Cell(rows, "ben", "2+2=?") == Some(false)
    ensures Cell(rows, "cleo", "2+2=?") == None
  {
    assert rows[0] in rows && rows[1] in rows;
    assert forall r :: r in rows ==> r == rows[0] || r == rows[1];
  }
}
