/**
 * The records kept in the two hosted tables, `quizzes` and `quiz_results`,
 * and the filtered select that every filtered query of the application
 * performs (the result rows of a quiz, the prior-submission check, the quiz
 * lookup).
 */
module QuizData {

  /** One element of the parsed question array. */
  datatype Question = Question(text: string, options: seq<string>, answer: string, explanation: string)

  /** A row of `quizzes`; the creation timestamp is left to the store. */
  datatype Quiz = Quiz(quizId: string, topic: string, questions: seq<Question>)

  /** A row of `quiz_results`; the submission timestamp is left out. */
  datatype ResultRow = ResultRow(
    id: string,
    studentId: string,
    quizId: string,
    questionText: string,
    correctAnswer: string,
    studentAnswer: string,
    isCorrect: bool)

  /** The distinct question texts of a question sequence. */
  function Texts(qs: seq<Question>): set<string>
  {
    set i | 0 <= i < |qs| :: qs[i].text
  }

  /** Adding a question adds its text to the distinct texts. */
  lemma TextsOfPrefix(qs: seq<Question>)
    requires qs != []
    ensures Texts(qs) == Texts(qs[..|qs| - 1]) + {qs[|qs| - 1].text}
  {
    var n := |qs| - 1;
    forall t | t in Texts(qs) ensures t in Texts(qs[..n]) + {qs[n].text} {
      var i :| 0 <= i < |qs| && qs[i].text == t;
      if i < n { assert qs[..n][i].text == t; }
    }
    forall t | t in Texts(qs[..n]) ensures t in Texts(qs) {
      var i :| 0 <= i < n && qs[..n][i].text == t;
      assert qs[i].text == t;
    }
  }

  /**
   * A select with `.eq(...)` filters: every row satisfying `p`, as often as
   * the table holds it, and no other row.
   */
  function Select<T(==,!new)>(rows: seq<T>, p: T -> bool): (hits: seq<T>)
    ensures forall x :: x in hits <==> x in rows && p(x)
    ensures forall x :: multiset(hits)[x] == if p(x) then multiset(rows)[x] else 0
    ensures |hits| <= |rows|
  {
    if rows == [] then []
    else
      assert rows == [rows[0]] + rows[1..];
      (if p(rows[0]) then [rows[0]] else []) + Select(rows[1..], p)
  }
}
