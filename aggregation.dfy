/**
 * The teacher's results view: the rows of one quiz pivoted into a
 * (student, question text) table whose cell is the maximum of `is_correct`.
 */
module Aggregation {
  import opened Wrappers
  import opened QuizData

  /** A cell address: (student_id, question_text). */
  type Key = (string, string)

  function KeyOf(r: ResultRow): Key
  {
    (r.studentId, r.questionText)
  }

  /**
   * `pivot_table(index="student_id", columns="question_text",
   * values="is_correct", aggfunc="max")`: the maximum of booleans is their
   * logical OR, and only addresses that carry rows get a cell.
   */
  function Pivot(rows: seq<ResultRow>): (table: map<Key, bool>)
    ensures |table| <= |rows|
    ensures table == map[] <==> rows == []
  {
    if rows == [] then map[]
    else
      var table := Pivot(rows[..|rows| - 1]);
      var r := rows[|rows| - 1];
      table[KeyOf(r) := (KeyOf(r) in table && table[KeyOf(r)]) || r.isCorrect]
  }

  /** A cell exists exactly for addresses with rows, and is true exactly when one of them is correct. */
  lemma {:induction false} PivotCells(rows: seq<ResultRow>)
    ensures forall key :: key in Pivot(rows) <==> exists r :: r in rows && KeyOf(r) == key
    ensures forall key :: key in Pivot(rows) ==>
      (Pivot(rows)[key] <==> exists r :: r in rows && KeyOf(r) == key && r.isCorrect)
  {
    if rows != [] {
      var n := |rows| - 1;
      PivotCells(rows[..n]);
      assert rows == rows[..n] + [rows[n]];
      forall r | r in rows ensures r in rows[..n] || r == rows[n] {
      }
    }
  }

  /** The heatmap cell for one student and one question text. */
  function Cell(rows: seq<ResultRow>, student: string, question: string): (c: Option<bool>)
    ensures c.None? <==> forall r :: r in rows ==> KeyOf(r) != (student, question)
    ensures c == Some(true) <==> exists r :: r in rows && KeyOf(r) == (student, question) && r.isCorrect
    ensures c == Some(false) <==>
      && (exists r :: r in rows && KeyOf(r) == (student, question))
      && (forall r :: r in rows && KeyOf(r) == (student, question) ==> !r.isCorrect)
  {
    PivotCells(rows);
    var table := Pivot(rows);
    if (student, question) in table then Some(table[(student, question)]) else None
  }

  /** The table does not depend on the order in which the store returns the rows. */
  lemma PivotOrderIndependent(a: seq<ResultRow>, b: seq<ResultRow>)
    requires multiset(a) == multiset(b)
    ensures Pivot(a) == Pivot(b)
  {
    PivotCells(a);
    PivotCells(b);
    assert forall r :: r in a <==> r in b by {
      forall r ensures r in a <==> r in b {
        assert r in a <==> r in multiset(a);
        assert r in b <==> r in multiset(b);
      }
    }
    assert Pivot(a).Keys == Pivot(b).Keys;
  }

  /** What the results view shows for one quiz. */
  datatype Report = NoResponses | Heatmap(submissions: nat, table: map<Key, bool>)

  /** The rows of `quiz_results` whose quiz_id is `quizId`. */
  function ResultsOf(results: seq<ResultRow>, quizId: string): (rows: seq<ResultRow>)
    ensures forall r :: r in rows <==> r in results && r.quizId == quizId
    ensures forall r :: multiset(rows)[r] == if r.quizId == quizId then multiset(results)[r] else 0
  {
    Select(results, (r: ResultRow) => r.quizId == quizId)
  }

  /** One quiz's report: nothing without rows, otherwise the row count and the pivot of its rows. */
  function QuizReport(results: seq<ResultRow>, quizId: string): (rep: Report)
    ensures rep.NoResponses? <==> forall r :: r in results ==> r.quizId != quizId
    ensures rep.Heatmap? ==> rep.submissions == |ResultsOf(results, quizId)|
    ensures rep.Heatmap? ==> 1 <= rep.submissions <= |results|
    ensures rep.Heatmap? ==> forall key :: key in rep.table <==>
      exists r :: r in results && r.quizId == quizId && KeyOf(r) == key
    ensures rep.Heatmap? ==> forall key :: key in rep.table ==>
      (rep.table[key] <==> exists r :: r in results && r.quizId == quizId && KeyOf(r) == key && r.isCorrect)
  {
    var res := ResultsOf(results, quizId);
    PivotCells(res);
    if res == [] then NoResponses
    else
      assert res[0] in results;
      Heatmap(|res|, Pivot(res))
  }

  /** Two results for one address, false then true in either order, give a true cell. */
  lemma OrOfTwoResults(wrong: ResultRow, right: ResultRow)
    requires KeyOf(wrong) == KeyOf(right) && !wrong.isCorrect && right.isCorrect
    ensures Cell([wrong, right], wrong.studentId, wrong.questionText) == Some(true)
    ensures Cell([right, wrong], wrong.studentId, wrong.questionText) == Some(true)
  {
    assert right in [wrong, right] && right in [right, wrong];
  }
}
