/**
 * Handling a submission end to end: take the client's address, grade the
 * answers against the echoed quiz, compute the percentage, record the
 * attempt and report the statistics.
 */
module Submit {
  import opened Wrappers
  import opened Text
  import opened Quiz
  import opened Grading
  import opened Score
  import opened Store
  import ClientAddress

  /** The reply to a submission. */
  datatype Response = Response(results: seq<GradedResult>, correct: nat, total: nat, percentage: nat, statistics: Stats)

  /** Why a submission fails: an answer could not be graded, or the attempt could not be saved. */
  datatype SubmitError = GradingFailed(gradeError: GradeError) | SavingFailed(saveError: SaveError)

  /**
   * The body of the check handler. `forwardedFor` is the `X-Forwarded-For`
   * header, `remoteAddr` the connection's address and `timestamp` the time
   * at which the attempt is saved.
   */
  method CheckAnswers(store: AttemptStore, quiz: seq<Entry>, subs: seq<Submission>,
                      forwardedFor: Option<string>, remoteAddr: string, timestamp: string)
    returns (outcome: Result<Response, SubmitError>)
    requires store.Valid() && store.ScoresInRange() && InRange(quiz, subs)
    modifies store
    ensures store.Valid() && store.ScoresInRange()
    ensures Grade(quiz, subs).Failure? ==>
      outcome == Failure(GradingFailed(Grade(quiz, subs).error)) &&
      store.attempts == old(store.attempts) && store.answers == old(store.answers)
    ensures Grade(quiz, subs).Success? && !AllAnswered(Grade(quiz, subs).value.results) ==>
      outcome == Failure(SavingFailed(NotNull("correct_answer"))) &&
      store.attempts == old(store.attempts) && store.answers == old(store.answers)
    ensures outcome.Success? ==>
      var t := Grade(quiz, subs).value;
      var r := outcome.value;
      var id := |old(store.attempts)| + 1;
      Grade(quiz, subs).Success? && AllAnswered(t.results) &&
      r == Response(t.results, t.correct, t.total, Percentage(t.correct, t.total), store.Statistics()) &&
      r.percentage <= 100 &&
      r.statistics.averageScore <= 100 && r.statistics.perfectScores <= r.statistics.totalAttempts &&
      store.attempts == old(store.attempts) +
        [AttemptRow(id, ClientAddress.Address(forwardedFor, remoteAddr), timestamp, r.percentage, t.correct, t.total)] &&
      store.answers == old(store.answers) + AnswerRows(id, |old(store.answers)| + 1, t.results)
    ensures Grade(quiz, subs).Success? && AllAnswered(Grade(quiz, subs).value.results) ==> outcome.Success?
  {
    var ipAddress := ClientAddress.Address(forwardedFor, remoteAddr);
    var graded := GradeAnswers(quiz, subs);
    if graded.Failure? {
      return Failure(GradingFailed(graded.error));
    }
    var tally := graded.value;
    var percentage := Percentage(tally.correct, tally.total);
    var saved := store.RecordAttempt(ipAddress, timestamp, percentage, tally.correct, tally.total, tally.results);
    if saved.Failure? {
      return Failure(SavingFailed(saved.error));
    }
    StatisticsBounded(store.attempts);
    outcome := Success(Response(tally.results, tally.correct, tally.total, percentage, store.Statistics()));
  }

  /** A catalog word with one spelling outside the US. */
  function Uniform(us: string, elsewhere: string): Question {
    Question(us, elsewhere, elsewhere, elsewhere, elsewhere, "", 1)
  }

  /**
   * A level-1 question (canceled / cancelled) and a level-2 question
   * (tire / tyre): answering "Cancelled " at level 1 and "tyre" for gb
   * scores 2 out of 2, which is 100%.
   */
  lemma TwoQuestionScenario()
    ensures var quiz := [Echo(Uniform("canceled", "cancelled")),
                         Echo(Question("tire", "tire", "tyre", "tyre", "tyre", "", 2))];
      var subs := [Submission(0, true, None, "Cancelled "), Submission(1, false, Some("gb"), "tyre")];
      InRange(quiz, subs) && Grade(quiz, subs).Success? &&
      Grade(quiz, subs).value.correct == 2 && Grade(quiz, subs).value.total == 2 &&
      Percentage(Grade(quiz, subs).value.correct, Grade(quiz, subs).value.total) == 100
  {
    var quiz := [Echo(Uniform("canceled", "cancelled")),
                 Echo(Question("tire", "tire", "tyre", "tyre", "tyre", "", 2))];
    var subs := [Submission(0, true, None, "Cancelled "), Submission(1, false, Some("gb"), "tyre")];
    ScenarioSpellings();
    var first := GradedResult(0, true, None, "Cancelled", Some("cancelled"), true);
    var second := GradedResult(1, false, Some("gb"), "tyre", Some("tyre"), true);
    assert Judge(quiz[0], subs[0]) == Success(first);
    assert Judge(quiz[1], subs[1]) == Success(second);
    GradeAllShape(quiz, subs);
    var rs := GradeAll(quiz, subs).value;
    assert rs == [first, second];
    CountStep([], first);
    CountStep([first], second);
    assert [] + [first] == [first] && [first] + [second] == rs;
  }

  /** The string facts the scenario needs. */
  lemma ScenarioSpellings()
    ensures Trim("Cancelled ") == "Cancelled" && Normalize("Cancelled ") == Lower("cancelled")
    ensures Trim("tyre") == "tyre" && Normalize("tyre") == Lower("tyre")
  {
    TrimIgnoresPadding([], "Cancelled", " ");
    assert [] + "Cancelled" + " " == "Cancelled ";
    assert TrimLeft("Cancelled") == "Cancelled";
    assert TrimRight("Cancelled") == "Cancelled";
    assert Lower("Cancelled") == "cancelled";
    assert Lower("cancelled") == "cancelled";
    assert TrimLeft("tyre") == "tyre";
    assert TrimRight("tyre") == "tyre";
  }

  /**
   * A non-level-1 answer without a country is skipped when graded, but
   * the skipped result then has no correct answer, so the request's results
   * cannot be saved and the whole submission fails.
   */
  lemma SkippedAnswerBlocksSave(q: Question, answer: string)
    ensures var subs := [Submission(0, false, None, answer)];
      InRange([Echo(q)], subs) && Grade([Echo(q)], subs).Success? &&
      !AllAnswered(Grade([Echo(q)], subs).value.results)
  {
    var subs := [Submission(0, false, None, answer)];
    GradeAllShape([Echo(q)], subs);
    JudgeSkipped(Echo(q), subs[0]);
    assert Grade([Echo(q)], subs).value.results[0].correctAnswer.None?;
  }
}
