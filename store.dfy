/**
 * The attempt store: two append-only tables, `quiz_attempts` and
 * `quiz_answers`, and the statistics computed from the first.
 */
module Store {
  import opened Wrappers
  import opened Grading
  import opened Score

  /** A row of `quiz_attempts`. */
  datatype AttemptRow = AttemptRow(
    id: nat, ipAddress: string, timestamp: string,
    finalScore: nat, correctCount: nat, totalCount: nat)

  /** A row of `quiz_answers`; `country` is the one nullable column. */
  datatype AnswerRow = AnswerRow(
    id: nat, attemptId: nat, wordIndex: int, isLevel1: bool, country: Option<string>,
    userAnswer: string, correctAnswer: string, isCorrect: bool)

  /** The figures reported after every submission. */
  datatype Stats = Stats(totalAttempts: nat, averageScore: nat, perfectScores: nat)

  /** Why saving an attempt fails: a NULL written to a NOT NULL column. */
  datatype SaveError = NotNull(column: string)

  /** Every result carries a correct answer, so its row satisfies `correct_answer NOT NULL`. */
  predicate AllAnswered(results: seq<GradedResult>) {
    forall i :: 0 <= i < |results| ==> results[i].correctAnswer.Some?
  }

  /** The row stored for a result under the given row id and attempt id. */
  function AnswerRowOf(id: nat, attemptId: nat, r: GradedResult): AnswerRow
    requires r.correctAnswer.Some?
  {
    AnswerRow(id, attemptId, r.wordIndex, r.isLevel1, r.country, r.userAnswer, r.correctAnswer.value, r.correct)
  }

  /** The rows stored for `results`, numbered from `firstId`. */
  function AnswerRows(attemptId: nat, firstId: nat, results: seq<GradedResult>): (rows: seq<AnswerRow>)
    requires AllAnswered(results)
    ensures |rows| == |results|
  {
    if results == [] then []
    else
      var n := |results| - 1;
      assert AllAnswered(results[..n]) by {
        assert forall i :: 0 <= i < n ==> results[..n][i] == results[i];
      }
      AnswerRows(attemptId, firstId, results[..n]) + [AnswerRowOf(firstId + n, attemptId, results[n])]
  }

  /** Each stored row copies its result and carries its own id and the attempt's id. */
  lemma {:induction false} AnswerRowsAt(attemptId: nat, firstId: nat, results: seq<GradedResult>, k: nat)
    requires AllAnswered(results) && k < |results|
    ensures var row := AnswerRows(attemptId, firstId, results)[k];
      row.id == firstId + k && row.attemptId == attemptId &&
      row.wordIndex == results[k].wordIndex && row.isLevel1 == results[k].isLevel1 &&
      row.country == results[k].country && row.userAnswer == results[k].userAnswer &&
      Some(row.correctAnswer) == results[k].correctAnswer && row.isCorrect == results[k].correct
    decreases |results|
  {
    var n := |results| - 1;
    if k < n {
      assert AllAnswered(results[..n]) by {
        assert forall i :: 0 <= i < n ==> results[..n][i] == results[i];
      }
      AnswerRowsAt(attemptId, firstId, results[..n], k);
    }
  }

  /** `SUM(final_score)`. */
  function SumScores(rows: seq<AttemptRow>): nat {
    if rows == [] then 0 else rows[0].finalScore + SumScores(rows[1..])
  }

  /** `COUNT(*) ... WHERE final_score = 100`. */
  function CountPerfect(rows: seq<AttemptRow>): nat {
    if rows == [] then 0 else (if rows[0].finalScore == 100 then 1 else 0) + CountPerfect(rows[1..])
  }

  /** The statistics of an attempt table. */
  function StatisticsOf(rows: seq<AttemptRow>): Stats {
    Stats(|rows|, Average(SumScores(rows), |rows|), CountPerfect(rows))
  }

  /** With no attempts every figure is 0. */
  lemma StatisticsEmpty()
    ensures StatisticsOf([]) == Stats(0, 0, 0)
  {
  }

  /**
   * Appending an attempt adds one to the number of attempts, adds its score
   * to the sum, and adds one to the perfect scores exactly when its score is 100.
   */
  lemma {:induction false} StatisticsAppend(rows: seq<AttemptRow>, row: AttemptRow)
    ensures SumScores(rows + [row]) == SumScores(rows) + row.finalScore
    ensures CountPerfect(rows + [row]) == CountPerfect(rows) + (if row.finalScore == 100 then 1 else 0)
    ensures StatisticsOf(rows + [row]).totalAttempts == StatisticsOf(rows).totalAttempts + 1
    ensures StatisticsOf(rows + [row]).perfectScores == StatisticsOf(rows).perfectScores + (if row.finalScore == 100 then 1 else 0)
  {
    if rows == [] {
      assert [] + [row] == [row];
      assert [row][1..] == [];
    } else {
      assert (rows + [row])[0] == rows[0];
      assert (rows + [row])[1..] == rows[1..] + [row];
      StatisticsAppend(rows[1..], row);
    }
  }

  /** Scores of at most 100 sum to at most 100 per attempt, and are perfect at most once per attempt. */
  lemma {:induction false} ScoresBounded(rows: seq<AttemptRow>)
    requires forall k :: 0 <= k < |rows| ==> rows[k].finalScore <= 100
    ensures SumScores(rows) <= 100 * |rows|
    ensures CountPerfect(rows) <= |rows|
  {
    if rows != [] {
      ScoresBounded(rows[1..]);
    }
  }

  /** With scores of at most 100, the average is at most 100 and the perfect scores at most the attempts. */
  lemma StatisticsBounded(rows: seq<AttemptRow>)
    requires forall k :: 0 <= k < |rows| ==> rows[k].finalScore <= 100
    ensures StatisticsOf(rows).averageScore <= 100
    ensures StatisticsOf(rows).perfectScores <= StatisticsOf(rows).totalAttempts
  {
    ScoresBounded(rows);
    AverageAtMost100(SumScores(rows), |rows|);
  }

  /** The two tables, kept in memory. */
  class AttemptStore {
    var attempts: seq<AttemptRow>
    var answers: seq<AnswerRow>

    /**
     * Ids are assigned 1, 2, 3, ... in insertion order (AUTOINCREMENT on a
     * table that is never deleted from) and every answer references an
     * existing attempt.
     */
    ghost predicate Valid()
      reads this
    {
      (forall k :: 0 <= k < |attempts| ==> attempts[k].id == k + 1) &&
      (forall k :: 0 <= k < |answers| ==> answers[k].id == k + 1 && 1 <= answers[k].attemptId <= |attempts|)
    }

    /** Every stored score is a percentage, as the handler computes it. */
    ghost predicate ScoresInRange()
      reads this
    {
      forall k :: 0 <= k < |attempts| ==> attempts[k].finalScore <= 100
    }

    /** Freshly created, empty tables. */
    constructor ()
      ensures Valid() && ScoresInRange() && attempts == [] && answers == []
    {
      attempts := [];
      answers := [];
    }

    /** `get_statistics()`: computed afresh from the whole attempt table. */
    function Statistics(): Stats
      reads this
    {
      StatisticsOf(attempts)
    }

    /**
     * Inserts one attempt row and then one answer row per result, all in one
     * transaction. A result without a correct answer violates
     * `correct_answer NOT NULL`; the transaction is then never committed,
     * and both tables are left as they were.
     */
    method RecordAttempt(ipAddress: string, timestamp: string, finalScore: nat, correctCount: nat,
                         totalCount: nat, results: seq<GradedResult>)
      returns (outcome: Result<nat, SaveError>)
      requires Valid()
      modifies this
      ensures Valid()
      ensures outcome.Success? <==> AllAnswered(results)
      ensures outcome.Success? ==>
        outcome.value == |old(attempts)| + 1 &&
        attempts == old(attempts) + [AttemptRow(outcome.value, ipAddress, timestamp, finalScore, correctCount, totalCount)] &&
        answers == old(answers) + AnswerRows(outcome.value, |old(answers)| + 1, results)
      ensures outcome.Failure? ==>
        outcome.error == NotNull("correct_answer") && attempts == old(attempts) && answers == old(answers)
      ensures outcome.Success? ==>
        Statistics().totalAttempts == old(Statistics()).totalAttempts + 1 &&
        Statistics().perfectScores == old(Statistics()).perfectScores + (if finalScore == 100 then 1 else 0)
      ensures outcome.Failure? ==> Statistics() == old(Statistics())
      ensures old(ScoresInRange()) && finalScore <= 100 ==> ScoresInRange()
    {
      var savedAttempts, savedAnswers := attempts, answers;
      var attemptId := |attempts| + 1;
      var row := AttemptRow(attemptId, ipAddress, timestamp, finalScore, correctCount, totalCount);
      attempts := attempts + [row];
      var i := 0;
      while i < |results|
        invariant 0 <= i <= |results|
        invariant attempts == savedAttempts + [row]
        invariant AllAnswered(results[..i])
        invariant answers == savedAnswers + AnswerRows(attemptId, |savedAnswers| + 1, results[..i])
      {
        var result := results[i];
        if result.correctAnswer.None? {
          attempts, answers := savedAttempts, savedAnswers;
          return Failure(NotNull("correct_answer"));
        }
        assert results[..i + 1][..i] == results[..i];
        answers := answers + [AnswerRowOf(|answers| + 1, attemptId, result)];
        i := i + 1;
      }
      assert results[..i] == results;
      forall k | |savedAnswers| <= k < |answers|
        ensures answers[k].id == k + 1 && answers[k].attemptId == attemptId
      {
        AnswerRowsAt(attemptId, |savedAnswers| + 1, results, k - |savedAnswers|);
      }
      StatisticsAppend(savedAttempts, row);
      outcome := Success(attemptId);
    }
  }
}
