/**
 * The student's side of a quiz: the `answers` dictionary the form builds,
 * the per-answer correctness test, the score and the result rows.
 */
module Scoring {
  import opened QuizData

  /** The value the form stores under one question text. */
  datatype Entry = Entry(selected: string, correct: string, explanation: string)

  /**
   * A dictionary from question text to Entry, kept as its items in
   * insertion order, as a Python dict iterates them.
   */
  type Answers = seq<(string, Entry)>

  function KeySet(d: Answers): set<string>
  {
    set i | 0 <= i < |d| :: d[i].0
  }

  ghost predicate DistinctKeys(d: Answers)
  {
    forall i, j :: 0 <= i < j < |d| ==> d[i].0 != d[j].0
  }

  /**
   * `d[k] = v`: a key already present keeps its position and takes the new
   * value; a new key goes at the end.
   */
  function Put(d: Answers, k: string, v: Entry): (r: Answers)
    ensures |r| == if k in KeySet(d) then |d| else |d| + 1
    ensures KeySet(r) == KeySet(d) + {k}
    ensures forall i :: 0 <= i < |d| && d[i].0 != k ==> r[i] == d[i]
    ensures forall i :: 0 <= i < |r| && r[i].0 == k ==> r[i].1 == v
    ensures k !in KeySet(d) ==> r[|d|] == (k, v)
    ensures DistinctKeys(d) ==> DistinctKeys(r)
  {
    if k in KeySet(d) then
      var r := seq(|d|, i requires 0 <= i < |d| => if d[i].0 == k then (k, v) else d[i]);
      assert forall i :: 0 <= i < |d| ==> r[i].0 == d[i].0;
      assert KeySet(r) == KeySet(d);
      r
    else
      var r := d + [(k, v)];
      assert KeySet(r) == KeySet(d) + {k} by {
        forall x | x in KeySet(r) ensures x in KeySet(d) + {k} {
          var i :| 0 <= i < |r| && r[i].0 == x;
          if i < |d| { assert d[i].0 == x; }
        }
        assert r[|d|].0 == k;
        forall x | x in KeySet(d) ensures x in KeySet(r) {
          var i :| 0 <= i < |d| && d[i].0 == x;
          assert r[i].0 == x;
        }
      }
      r
  }

  /** What the form stores for question `q` when the radio shows `selected`. */
  function EntryOf(q: Question, selected: string): Entry
  {
    Entry(selected, q.answer, q.explanation)
  }

  /**
   * The `answers` dictionary after the form loop has visited every question;
   * `choose(i)` is the option the radio of question `i` returns.
   */
  function AnswersFor(qs: seq<Question>, choose: nat -> string): (d: Answers)
    ensures DistinctKeys(d)
    ensures KeySet(d) == Texts(qs)
    ensures |d| == |Texts(qs)| <= |qs|
    decreases |qs|
  {
    if qs == [] then []
    else
      var n := |qs| - 1;
      var prev := AnswersFor(qs[..n], choose);
      var t := qs[n].text;
      TextsOfPrefix(qs);
      var d := Put(prev, t, EntryOf(qs[n], choose(n)));
      assert |d| == |Texts(qs)| <= |qs| by {
        if t in Texts(qs[..n]) {
          assert Texts(qs) == Texts(qs[..n]);
        } else {
          assert |Texts(qs)| == |Texts(qs[..n])| + 1;
        }
      }
      d
  }

  /** Question `j` is the last one in `qs` whose text is `t`. */
  ghost predicate LastWith(qs: seq<Question>, j: int, t: string)
  {
    0 <= j < |qs| && qs[j].text == t && forall j' :: j < j' < |qs| ==> qs[j'].text != t
  }

  /** The item was stored by the last question carrying its text. */
  ghost predicate FromLastQuestion(qs: seq<Question>, choose: nat -> string, item: (string, Entry))
  {
    exists j :: LastWith(qs, j, item.0) && item.1 == EntryOf(qs[j], choose(j))
  }

  /** Every entry of the dictionary comes from the last question with its text. */
  lemma {:induction false} LastQuestionWins(qs: seq<Question>, choose: nat -> string)
    ensures forall p :: 0 <= p < |AnswersFor(qs, choose)| ==>
      FromLastQuestion(qs, choose, AnswersFor(qs, choose)[p])
  {
    if qs != [] {
      var n := |qs| - 1;
      var prev := AnswersFor(qs[..n], choose);
      var d := Put(prev, qs[n].text, EntryOf(qs[n], choose(n)));
      assert d == AnswersFor(qs, choose);
      LastQuestionWins(qs[..n], choose);
      forall p | 0 <= p < |d| ensures FromLastQuestion(qs, choose, d[p]) {
        if d[p].0 == qs[n].text {
          assert LastWith(qs, n, d[p].0);
        } else {
          assert p < |prev| && d[p] == prev[p];
          FromLastQuestionExtends(qs, choose, d[p]);
        }
      }
    }
  }

  /** An item stored by a prefix survives a next question with another text. */
  lemma FromLastQuestionExtends(qs: seq<Question>, choose: nat -> string, item: (string, Entry))
    requires qs != [] && qs[|qs| - 1].text != item.0
    requires FromLastQuestion(qs[..|qs| - 1], choose, item)
    ensures FromLastQuestion(qs, choose, item)
  {
    var n := |qs| - 1;
    var j :| LastWith(qs[..n], j, item.0) && item.1 == EntryOf(qs[..n][j], choose(j));
    forall j' | j < j' < |qs| ensures qs[j'].text != item.0 {
      if j' < n { assert qs[..n][j'] == qs[j']; }
    }
    assert LastWith(qs, j, item.0);
  }

  /** A one-question quiz gives a one-item dictionary. */
  lemma SingleQuestion(q: Question, choose: nat -> string)
    ensures AnswersFor([q], choose) == [(q.text, EntryOf(q, choose(0)))]
  {
    assert [q][..0] == [];
  }

  /** The dictionary loop of the form, proved to build AnswersFor. */
  method BuildAnswers(qs: seq<Question>, choose: nat -> string) returns (answers: Answers)
    ensures answers == AnswersFor(qs, choose)
    ensures DistinctKeys(answers) && KeySet(answers) == Texts(qs)
  {
    answers := [];
    for i := 0 to |qs|
      invariant answers == AnswersFor(qs[..i], choose)
    {
      ghost var next := qs[..i + 1];
      assert next[..i] == qs[..i] && next[i] == qs[i];
      assert AnswersFor(next, choose) == Put(AnswersFor(qs[..i], choose), qs[i].text, EntryOf(qs[i], choose(i)));
      answers := Put(answers, qs[i].text, EntryOf(qs[i], choose(i)));
    }
    assert qs[..|qs|] == qs;
  }

  /** `data["selected"] == data["correct"]`, on the string values of the model. */
  predicate IsCorrect(e: Entry)
  {
    e.selected == e.correct
  }

  /** The score: how many dictionary entries are correct. */
  function Score(d: Answers): (s: nat)
    ensures s <= |d|
  {
    if d == [] then 0
    else Score(d[..|d| - 1]) + (if IsCorrect(d[|d| - 1].1) then 1 else 0)
  }

  /** Full marks exactly when every entry is correct. */
  lemma {:induction false} FullScoreIffAllCorrect(d: Answers)
    ensures Score(d) == |d| <==> forall i :: 0 <= i < |d| ==> IsCorrect(d[i].1)
  {
    if d != [] {
      var n := |d| - 1;
      FullScoreIffAllCorrect(d[..n]);
      assert forall i :: 0 <= i < n ==> d[..n][i] == d[i];
    }
  }

  /** Zero exactly when no entry is correct. */
  lemma {:induction false} ZeroScoreIffNoneCorrect(d: Answers)
    ensures Score(d) == 0 <==> forall i :: 0 <= i < |d| ==> !IsCorrect(d[i].1)
  {
    if d != [] {
      var n := |d| - 1;
      ZeroScoreIffNoneCorrect(d[..n]);
      assert forall i :: 0 <= i < n ==> d[..n][i] == d[i];
    }
  }

  /** The row inserted for one dictionary item. */
  function RowFor(name: string, quizId: string, rowId: string, item: (string, Entry)): ResultRow
  {
    ResultRow(rowId, name, quizId, item.0, item.1.correct, item.1.selected, IsCorrect(item.1))
  }

  /** The rows the scoring loop inserts, one per item, the k-th with id `newRowId(k)`. */
  function Rows(d: Answers, name: string, quizId: string, newRowId: nat -> string): (rows: seq<ResultRow>)
    ensures |rows| == |d|
    ensures forall k :: 0 <= k < |d| ==>
      && rows[k].id == newRowId(k)
      && rows[k].studentId == name
      && rows[k].quizId == quizId
      && rows[k].questionText == d[k].0
      && rows[k].studentAnswer == d[k].1.selected
      && rows[k].correctAnswer == d[k].1.correct
      && (rows[k].isCorrect <==> rows[k].studentAnswer == rows[k].correctAnswer)
  {
    if d == [] then []
    else
      var n := |d| - 1;
      assert forall k :: 0 <= k < n ==> d[..n][k] == d[k];
      Rows(d[..n], name, quizId, newRowId) + [RowFor(name, quizId, newRowId(n), d[n])]
  }

  /** The row records the answer of, and the selection made at, the last question with its text. */
  ghost predicate RowFromQuestion(qs: seq<Question>, choose: nat -> string, row: ResultRow)
  {
    exists j :: LastWith(qs, j, row.questionText)
      && row.correctAnswer == qs[j].answer && row.studentAnswer == choose(j)
  }

  /**
   * A submission inserts exactly one row per distinct question text, each
   * carrying that question's answer and the student's selection for it.
   */
  lemma RowsPerQuestion(qs: seq<Question>, choose: nat -> string, name: string, quizId: string, newRowId: nat -> string)
    ensures var rows := Rows(AnswersFor(qs, choose), name, quizId, newRowId);
      && |rows| == |Texts(qs)|
      && (forall t :: t in Texts(qs) <==> exists k :: 0 <= k < |rows| && rows[k].questionText == t)
      && (forall k, k' :: 0 <= k < k' < |rows| ==> rows[k].questionText != rows[k'].questionText)
      && (forall k :: 0 <= k < |rows| ==> RowFromQuestion(qs, choose, rows[k]))
  {
    var d := AnswersFor(qs, choose);
    var rows := Rows(d, name, quizId, newRowId);
    LastQuestionWins(qs, choose);
    forall k | 0 <= k < |rows| ensures RowFromQuestion(qs, choose, rows[k]) {
      assert FromLastQuestion(qs, choose, d[k]);
      var j :| LastWith(qs, j, d[k].0) && d[k].1 == EntryOf(qs[j], choose(j));
      assert LastWith(qs, j, rows[k].questionText);
    }
    forall t ensures t in Texts(qs) <==> exists k :: 0 <= k < |rows| && rows[k].questionText == t {
      if t in Texts(qs) {
        assert t in KeySet(d);
        var k :| 0 <= k < |d| && d[k].0 == t;
        assert rows[k].questionText == t;
      }
    }
  }

  /** How many rows are marked correct. */
  function CountCorrect(rows: seq<ResultRow>): (c: nat)
    ensures c <= |rows|
  {
    if rows == [] then 0
    else CountCorrect(rows[..|rows| - 1]) + (if rows[|rows| - 1].isCorrect then 1 else 0)
  }

  /** The reported score is the number of inserted rows marked correct. */
  lemma {:induction false} ScoreCountsCorrectRows(d: Answers, name: string, quizId: string, newRowId: nat -> string)
    ensures Score(d) == CountCorrect(Rows(d, name, quizId, newRowId))
  {
    if d != [] {
      var n := |d| - 1;
      var rows := Rows(d, name, quizId, newRowId);
      ScoreCountsCorrectRows(d[..n], name, quizId, newRowId);
      assert rows[..n] == Rows(d[..n], name, quizId, newRowId);
    }
  }

  /** The score is bounded by the distinct question texts, hence by the displayed total. */
  lemma ScoreBounds(qs: seq<Question>, choose: nat -> string)
    ensures Score(AnswersFor(qs, choose)) <= |Texts(qs)| <= |qs|
  {
  }
}
