/**
 * The two tables held in memory, and the teacher's quiz creation and the
 * student's submission that append to them.
 */
module QuizStore {
  import opened Wrappers
  import opened QuizData
  import opened Scoring

  /** What one submission attempt ends in. */
  datatype Outcome =
    | MissingInput      // no quiz_id in the link, or an empty name
    | AlreadySubmitted  // a result row exists for this quiz and student
    | UnknownQuiz       // no quiz has this id
    | NotSubmitted      // the form was shown but not submitted
    | TimeUp            // the time limit was exceeded: nothing is stored
    | Scored(score: nat, total: nat)

  function QuizIds(quizzes: seq<Quiz>): set<string>
  {
    set i | 0 <= i < |quizzes| :: quizzes[i].quizId
  }

  ghost predicate UniqueIds(quizzes: seq<Quiz>)
  {
    forall i, j :: 0 <= i < j < |quizzes| ==> quizzes[i].quizId != quizzes[j].quizId
  }

  /** `select * from quizzes where quiz_id = id`, then the first row. */
  function FindQuiz(quizzes: seq<Quiz>, quizId: string): (found: Option<Quiz>)
    ensures found.None? <==> quizId !in QuizIds(quizzes)
    ensures found.Some? ==> found.value in quizzes && found.value.quizId == quizId
  {
    var hits := Select(quizzes, (q: Quiz) => q.quizId == quizId);
    assert quizId in QuizIds(quizzes) ==> hits != [] by {
      if quizId in QuizIds(quizzes) {
        var i :| 0 <= i < |quizzes| && quizzes[i].quizId == quizId;
        assert quizzes[i] in hits;
      }
    }
    if hits == [] then None
    else
      assert hits[0] in hits;
      Some(hits[0])
  }

  /** With unique ids a present quiz is the one found. */
  lemma FindQuizUnique(quizzes: seq<Quiz>, i: int)
    requires UniqueIds(quizzes) && 0 <= i < |quizzes|
    ensures FindQuiz(quizzes, quizzes[i].quizId) == Some(quizzes[i])
  {
    var found := FindQuiz(quizzes, quizzes[i].quizId);
    assert quizzes[i].quizId in QuizIds(quizzes);
    var j :| 0 <= j < |quizzes| && quizzes[j] == found.value;
  }

  /** A quiz stored under a fresh id is found again with its topic and questions. */
  lemma CreateThenFind(quizzes: seq<Quiz>, q: Quiz)
    requires q.quizId !in QuizIds(quizzes)
    ensures FindQuiz(quizzes + [q], q.quizId) == Some(q)
  {
    var all := quizzes + [q];
    var found := FindQuiz(all, q.quizId);
    assert all[|quizzes|] == q;
    assert q.quizId in QuizIds(all);
    var j :| 0 <= j < |all| && all[j] == found.value;
  }

  /** `select id from quiz_results where quiz_id = .. and student_id = ..` returned rows. */
  predicate HasPrior(results: seq<ResultRow>, quizId: string, name: string)
    ensures HasPrior(results, quizId, name) <==>
      exists r :: r in results && r.quizId == quizId && r.studentId == name
  {
    var hits := Select(results, (r: ResultRow) => r.quizId == quizId && r.studentId == name);
    assert hits != [] ==> hits[0] in hits;
    hits != []
  }

  /** `if quiz_id and name`: a missing parameter and an empty string are both false. */
  predicate Given(quizId: Option<string>, name: string)
  {
    quizId.Some? && quizId.value != "" && name != ""
  }

  /** `timer > 0 and elapsed > timer`: a limit of zero or less means no limit. */
  predicate Late(timer: int, elapsed: real)
  {
    timer > 0 && elapsed > timer as real
  }

  /**
   * The deadline rule: a limit of zero or less never expires, submitting
   * exactly at the limit is on time, and once late a submission stays late
   * as time goes on.
   */
  lemma DeadlineRule(timer: int, elapsed: real, later: real)
    ensures timer <= 0 ==> !Late(timer, elapsed)
    ensures !Late(timer, timer as real)
    ensures Late(timer, elapsed) && elapsed <= later ==> Late(timer, later)
  {
  }

  /** A scored submission of a quiz with questions blocks every later attempt by the same student. */
  lemma {:induction false} ScoredBlocksResubmission(
    results: seq<ResultRow>, qs: seq<Question>, choose: nat -> string,
    name: string, quizId: string, newRowId: nat -> string)
    requires qs != []
    ensures HasPrior(results + Rows(AnswersFor(qs, choose), name, quizId, newRowId), quizId, name)
  {
    assert qs[0].text in Texts(qs);
    var rows := Rows(AnswersFor(qs, choose), name, quizId, newRowId);
    assert (results + rows)[|results|] == rows[0];
  }

  /**
   * After a scored submission the guard fires exactly when the quiz had a
   * question or the student had a row already: a quiz without questions
   * leaves no trace, so its student may submit again.
   */
  lemma GuardAfterSubmission(
    results: seq<ResultRow>, qs: seq<Question>, choose: nat -> string,
    name: string, quizId: string, newRowId: nat -> string)
    ensures HasPrior(results + Rows(AnswersFor(qs, choose), name, quizId, newRowId), quizId, name)
      <==> qs != [] || HasPrior(results, quizId, name)
  {
    var all := results + Rows(AnswersFor(qs, choose), name, quizId, newRowId);
    if qs != [] {
      ScoredBlocksResubmission(results, qs, choose, name, quizId, newRowId);
    } else {
      assert all == results;
    }
    if HasPrior(results, quizId, name) {
      var r :| r in results && r.quizId == quizId && r.studentId == name;
      assert r in all;
    }
  }

  /** The hosted tables `quizzes` and `quiz_results`, both append-only here. */
  class Store {
    var quizzes: seq<Quiz>
    var results: seq<ResultRow>

    /** Quiz ids are unique, as uuid4 makes them; a quiz id then names one quiz. */
    ghost predicate Valid()
      reads this
    {
      UniqueIds(quizzes)
    }

    constructor ()
      ensures Valid() && quizzes == [] && results == []
    {
      quizzes := [];
      results := [];
    }

    /**
     * The "Generate AI Quiz" branch after the model has answered: `parsed`
     * is the outcome of parsing its text, `freshId` the new uuid.
     */
    method CreateQuiz(topic: string, parsed: Option<seq<Question>>, freshId: string)
      returns (created: Option<string>)
      requires Valid()
      requires parsed.Some? ==> freshId !in QuizIds(quizzes)
      modifies this
      ensures Valid()
      ensures results == old(results)
      ensures parsed.None? ==> created == None && quizzes == old(quizzes)
      ensures parsed.Some? ==>
        && created == Some(freshId)
        && quizzes == old(quizzes) + [Quiz(freshId, topic, parsed.value)]
        && FindQuiz(quizzes, freshId) == Some(Quiz(freshId, topic, parsed.value))
    {
      match parsed
      case None =>
        created := None;
      case Some(questions) =>
        var quiz := Quiz(freshId, topic, questions);
        CreateThenFind(quizzes, quiz);
        assert forall i :: 0 <= i < |quizzes| ==> quizzes[i].quizId in QuizIds(quizzes);
        quizzes := quizzes + [quiz];
        created := Some(freshId);
    }

    /**
     * One run of the student page. `quizId` is the link's query parameter,
     * `choose(i)` the radio selection of question i, `timer` the limit typed
     * into the form, `elapsed` the seconds since the form was drawn,
     * `submitted` whether "Submit All" was pressed, `newRowId(k)` the uuid of
     * the k-th inserted row.
     */
    method Submit(
      quizId: Option<string>, name: string, choose: nat -> string,
      timer: int, elapsed: real, submitted: bool, newRowId: nat -> string)
      returns (outcome: Outcome)
      requires Valid()
      modifies this
      ensures Valid() && quizzes == old(quizzes)
      ensures !Given(quizId, name) ==> outcome == MissingInput && results == old(results)
      ensures Given(quizId, name) && HasPrior(old(results), quizId.value, name) ==>
        outcome == AlreadySubmitted && results == old(results)
      ensures (Given(quizId, name) && !HasPrior(old(results), quizId.value, name)
               && FindQuiz(quizzes, quizId.value).None?) ==>
        outcome == UnknownQuiz && results == old(results)
      ensures (Given(quizId, name) && !HasPrior(old(results), quizId.value, name)
               && FindQuiz(quizzes, quizId.value).Some?) ==>
        var questions := FindQuiz(quizzes, quizId.value).value.questions;
        var answers := AnswersFor(questions, choose);
        if !submitted then outcome == NotSubmitted && results == old(results)
        else if Late(timer, elapsed) then outcome == TimeUp && results == old(results)
        else
          && outcome == Scored(Score(answers), |questions|)
          && results == old(results) + Rows(answers, name, quizId.value, newRowId)
      ensures (Given(quizId, name) && !HasPrior(old(results), quizId.value, name)
               && submitted && !Late(timer, elapsed)) ==>
        forall i :: 0 <= i < |quizzes| && quizzes[i].quizId == quizId.value ==>
          outcome == Scored(Score(AnswersFor(quizzes[i].questions, choose)), |quizzes[i].questions|)
    {
      forall i | 0 <= i < |quizzes| {
        FindQuizUnique(quizzes, i);
      }
      if !Given(quizId, name) {
        return MissingInput;
      }
      var qid := quizId.value;
      if HasPrior(results, qid, name) {
        return AlreadySubmitted;
      }
      var found := FindQuiz(quizzes, qid);
      if found.None? {
        return UnknownQuiz;
      }
      var questions := found.value.questions;
      var answers := BuildAnswers(questions, choose);
      if !submitted {
        return NotSubmitted;
      }
      if Late(timer, elapsed) {
        return TimeUp;
      }
      var score := InsertRows(answers, name, qid, newRowId);
      outcome := Scored(score, |questions|);
    }

    /**
     * The scoring loop: counts the correct items and inserts one row per
     * item, in dictionary order.
     */
    method InsertRows(answers: Answers, name: string, quizId: string, newRowId: nat -> string)
      returns (score: nat)
      requires Valid()
      modifies this
      ensures Valid() && quizzes == old(quizzes)
      ensures score == Score(answers)
      ensures results == old(results) + Rows(answers, name, quizId, newRowId)
    {
      score := 0;
      var k := 0;
      while k < |answers|
        invariant 0 <= k <= |answers|
        invariant quizzes == old(quizzes)
        invariant score == Score(answers[..k])
        invariant results == old(results) + Rows(answers[..k], name, quizId, newRowId)
      {
        assert answers[..k + 1][..k] == answers[..k];
        var (text, entry) := answers[k];
        var correct := IsCorrect(entry);
        if correct {
          score := score + 1;
        }
        results := results + [ResultRow(newRowId(k), name, quizId, text, entry.correct, entry.selected, correct)];
        k := k + 1;
      }
      assert answers[..k] == answers;
    }
  }
}
