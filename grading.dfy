/**
 * Answer grading: every submitted answer is compared with the spelling
 * the echoed quiz entry holds for it, and the number of graded and of
 * correct answers is tallied.
 */
module Grading {
  import opened Wrappers
  import opened Text
  import opened Quiz

  /**
   * One submitted answer. An absent `isLevel1` is `false` and an absent
   * `answer` is "" (the defaults `check_answers` applies); `country` is `None`
   * when the submission has none.
   */
  datatype Submission = Submission(wordIndex: int, isLevel1: bool, country: Option<string>, answer: string)

  /**
   * The verdict on one answer. `country` is present only when the answer was
   * graded against a country's spelling; `correctAnswer` is `None` when the
   * answer was skipped.
   */
  datatype GradedResult = GradedResult(
    wordIndex: int, isLevel1: bool, country: Option<string>,
    userAnswer: string, correctAnswer: Option<string>, correct: bool)

  /** Why grading a request fails: a missing key, or a value that is not a string where a spelling is read. */
  datatype GradeError = MissingKey(key: string) | NotText(key: string)

  /** The results of a graded request with its correct and graded counters. */
  datatype Tally = Tally(results: seq<GradedResult>, correct: nat, total: nat)

  /** Every answer names a position of the quiz. */
  predicate InRange(quiz: seq<Entry>, subs: seq<Submission>) {
    forall i :: 0 <= i < |subs| ==> 0 <= subs[i].wordIndex < |quiz|
  }

  /** The spelling stored under `key`: `word[key]`, which must then support `.lower()`. */
  function Spelling(entry: Entry, key: string): Result<string, GradeError> {
    if key !in entry then Failure(MissingKey(key))
    else if entry[key].Text? then Success(entry[key].text)
    else Failure(NotText(key))
  }

  /** A non-level-1 answer is graded only when it names a non-empty country that is a key of the entry. */
  predicate NamesKey(entry: Entry, sub: Submission) {
    sub.country.Some? && sub.country.value != "" && sub.country.value in entry
  }

  /** The verdict on one answer to the quiz entry `entry`. */
  function Judge(entry: Entry, sub: Submission): Result<GradedResult, GradeError> {
    var skipped := GradedResult(sub.wordIndex, sub.isLevel1, None, Trim(sub.answer), None, false);
    if sub.isLevel1 then
      match Spelling(entry, "ca")
      case Failure(e) => Failure(e)
      case Success(expected) =>
        Success(skipped.(correctAnswer := Some(expected), correct := Normalize(sub.answer) == Lower(expected)))
    else if NamesKey(entry, sub) then
      var country := sub.country.value;
      match Spelling(entry, country)
      case Failure(e) => Failure(e)
      case Success(expected) =>
        Success(skipped.(country := Some(country), correctAnswer := Some(expected),
                         correct := Normalize(sub.answer) == Lower(expected)))
    else
      Success(skipped)
  }

  /**
   * The values of `vs` in order, or the first failure among them: a raised
   * exception ends the whole request.
   */
  function Collect<R, E>(vs: seq<Result<R, E>>): Result<seq<R>, E> {
    if vs == [] then Success([])
    else
      match Collect(vs[..|vs| - 1])
      case Failure(e) => Failure(e)
      case Success(rs) =>
        match vs[|vs| - 1]
        case Failure(e) => Failure(e)
        case Success(r) => Success(rs + [r])
  }

  /** The verdict on each answer, in submission order. */
  function Verdicts(quiz: seq<Entry>, subs: seq<Submission>): (vs: seq<Result<GradedResult, GradeError>>)
    requires InRange(quiz, subs)
    ensures |vs| == |subs|
  {
    if subs == [] then []
    else
      assert InRange(quiz, subs[1..]) by {
        assert forall i :: 0 <= i < |subs| - 1 ==> subs[1..][i] == subs[i + 1];
      }
      [Judge(quiz[subs[0].wordIndex], subs[0])] + Verdicts(quiz, subs[1..])
  }

  /** The verdict at position `i` is the verdict on answer `i`. */
  lemma {:induction false} VerdictAt(quiz: seq<Entry>, subs: seq<Submission>, i: nat)
    requires InRange(quiz, subs) && i < |subs|
    ensures Verdicts(quiz, subs)[i] == Judge(quiz[subs[i].wordIndex], subs[i])
    decreases i
  {
    if i > 0 {
      assert InRange(quiz, subs[1..]) by {
        assert forall k :: 0 <= k < |subs| - 1 ==> subs[1..][k] == subs[k + 1];
      }
      VerdictAt(quiz, subs[1..], i - 1);
    }
  }

  /** The results of grading `subs` in order; the first answer that cannot be graded fails the whole request. */
  function GradeAll(quiz: seq<Entry>, subs: seq<Submission>): Result<seq<GradedResult>, GradeError>
    requires InRange(quiz, subs)
  {
    Collect(Verdicts(quiz, subs))
  }

  /** How many results were graded (carry a correct answer): `total_count`. */
  function CountGraded(rs: seq<GradedResult>): nat {
    if rs == [] then 0
    else CountGraded(rs[..|rs| - 1]) + (if rs[|rs| - 1].correctAnswer.Some? then 1 else 0)
  }

  /** How many results are correct: `correct_count`. */
  function CountCorrect(rs: seq<GradedResult>): nat {
    if rs == [] then 0
    else CountCorrect(rs[..|rs| - 1]) + (if rs[|rs| - 1].correct then 1 else 0)
  }

  /** The outcome of grading a whole request. */
  function Grade(quiz: seq<Entry>, subs: seq<Submission>): Result<Tally, GradeError>
    requires InRange(quiz, subs)
  {
    match GradeAll(quiz, subs)
    case Failure(e) => Failure(e)
    case Success(rs) => Success(Tally(rs, CountCorrect(rs), CountGraded(rs)))
  }

  /**
   * The grading loop: one result per answer, in order, with the two
   * counters updated as each answer is graded.
   */
  method GradeAnswers(quiz: seq<Entry>, subs: seq<Submission>) returns (outcome: Result<Tally, GradeError>)
    requires InRange(quiz, subs)
    ensures outcome == Grade(quiz, subs)
    ensures outcome.Success? ==>
      |outcome.value.results| == |subs| && outcome.value.correct <= outcome.value.total <= |subs|
  {
    var results: seq<GradedResult> := [];
    var correctCount, totalCount := 0, 0;
    ghost var vs := Verdicts(quiz, subs);
    assert vs[..0] == [];
    assert Collect(vs[..0]) == Success(results);
    var i := 0;
    while i < |subs|
      invariant 0 <= i <= |subs|
      invariant Collect(vs[..i]) == Success(results)
      invariant correctCount == CountCorrect(results) && totalCount == CountGraded(results)
    {
      var answer := subs[i];
      var userAnswer := Normalize(answer.answer);
      var word := quiz[answer.wordIndex];
      var result := GradedResult(answer.wordIndex, answer.isLevel1, None, Trim(answer.answer), None, false);
      if answer.isLevel1 {
        var expected := Spelling(word, "ca");
        if expected.Failure? {
          VerdictAt(quiz, subs, i);
          CollectStopsAt(vs, i, results);
          return Failure(expected.error);
        }
        result := result.(correctAnswer := Some(expected.value));
        totalCount := totalCount + 1;
        if userAnswer == Lower(expected.value) {
          result := result.(correct := true);
          correctCount := correctCount + 1;
        }
      } else {
        var country := answer.country;
        if country.Some? && country.value != "" && country.value in word {
          var expected := Spelling(word, country.value);
          if expected.Failure? {
            VerdictAt(quiz, subs, i);
            CollectStopsAt(vs, i, results);
            return Failure(expected.error);
          }
          result := result.(correctAnswer := Some(expected.value), country := country);
          totalCount := totalCount + 1;
          if userAnswer == Lower(expected.value) {
            result := result.(correct := true);
            correctCount := correctCount + 1;
          }
        }
      }
      VerdictAt(quiz, subs, i);
      assert vs[i] == Success(result);
      CollectStep(vs, i, results);
      assert Collect(vs[..i + 1]) == Success(results + [result]);
      CountStep(results, result);
      results := results + [result];
      i := i + 1;
    }
    assert vs[..i] == vs;
    GradeAllShape(quiz, subs);
    GradeBounds(quiz, subs);
    outcome := Success(Tally(results, correctCount, totalCount));
  }

  /** Extending a successful prefix by one successful element. */
  lemma CollectStep<R, E>(vs: seq<Result<R, E>>, i: nat, rs: seq<R>)
    requires i < |vs| && Collect(vs[..i]) == Success(rs) && vs[i].Success?
    ensures Collect(vs[..i + 1]) == Success(rs + [vs[i].value])
  {
    assert vs[..i + 1][..i] == vs[..i];
  }

  /** The first failing element fails the whole sequence. */
  lemma CollectStopsAt<R, E>(vs: seq<Result<R, E>>, i: nat, rs: seq<R>)
    requires i < |vs| && Collect(vs[..i]) == Success(rs) && vs[i].Failure?
    ensures Collect(vs) == Failure(vs[i].error)
  {
    assert vs[..i + 1][..i] == vs[..i];
    CollectFailurePropagates(vs, i + 1);
  }

  /** Once a prefix fails, the whole sequence fails with the same error. */
  lemma {:induction false} CollectFailurePropagates<R, E>(vs: seq<Result<R, E>>, n: nat)
    requires n <= |vs| && Collect(vs[..n]).Failure?
    ensures Collect(vs) == Collect(vs[..n])
    decreases |vs| - n
  {
    if n < |vs| {
      assert vs[..n + 1][..n] == vs[..n];
      CollectFailurePropagates(vs, n + 1);
    } else {
      assert vs[..n] == vs;
    }
  }

  /** `Collect` succeeds exactly when every element does, and then lists their values in order. */
  lemma {:induction false} CollectShape<R, E>(vs: seq<Result<R, E>>)
    ensures Collect(vs).Success? <==> forall i :: 0 <= i < |vs| ==> vs[i].Success?
    ensures Collect(vs).Success? ==>
      |Collect(vs).value| == |vs| && forall i :: 0 <= i < |vs| ==> Collect(vs).value[i] == vs[i].value
  {
    if vs != [] {
      var n := |vs| - 1;
      var front := vs[..n];
      CollectShape(front);
      if Collect(front).Failure? {
        var k :| 0 <= k < n && !front[k].Success?;
        assert !vs[k].Success?;
      }
    }
  }

  /** What every single verdict satisfies: it echoes the answer, and only a graded answer can be correct. */
  lemma JudgeEchoes(entry: Entry, sub: Submission)
    ensures Judge(entry, sub).Success? ==>
      var r := Judge(entry, sub).value;
      r.wordIndex == sub.wordIndex && r.isLevel1 == sub.isLevel1 && r.userAnswer == Trim(sub.answer) &&
      (r.correct ==> r.correctAnswer.Some?) &&
      (r.country.Some? ==> r.country == sub.country && r.correctAnswer.Some?)
  {
  }

  /**
   * Grading succeeds exactly when every answer can be graded; it then
   * yields one result per answer, in submission order, and the result at
   * position `i` is the verdict on answer `i`.
   */
  lemma GradeAllShape(quiz: seq<Entry>, subs: seq<Submission>)
    requires InRange(quiz, subs)
    ensures GradeAll(quiz, subs).Success? <==>
      forall i :: 0 <= i < |subs| ==> Judge(quiz[subs[i].wordIndex], subs[i]).Success?
    ensures GradeAll(quiz, subs).Success? ==>
      |GradeAll(quiz, subs).value| == |subs| &&
      forall i :: 0 <= i < |subs| ==> GradeAll(quiz, subs).value[i] == Judge(quiz[subs[i].wordIndex], subs[i]).value
  {
    CollectShape(Verdicts(quiz, subs));
    forall i | 0 <= i < |subs| ensures Verdicts(quiz, subs)[i] == Judge(quiz[subs[i].wordIndex], subs[i]) {
      VerdictAt(quiz, subs, i);
    }
  }

  /** A result that is correct has been graded. */
  predicate Consistent(r: GradedResult) {
    r.correct ==> r.correctAnswer.Some?
  }

  /** `0 <= correct_count <= total_count <= len(answers)` for consistent results. */
  lemma {:induction false} CountBounds(rs: seq<GradedResult>)
    requires forall i :: 0 <= i < |rs| ==> Consistent(rs[i])
    ensures CountCorrect(rs) <= CountGraded(rs) <= |rs|
  {
    if rs != [] {
      CountBounds(rs[..|rs| - 1]);
    }
  }

  /** Every result of a successful grading is consistent, so the counters are bounded. */
  lemma GradeBounds(quiz: seq<Entry>, subs: seq<Submission>)
    requires InRange(quiz, subs)
    ensures Grade(quiz, subs).Success? ==>
      var t := Grade(quiz, subs).value;
      |t.results| == |subs| && t.correct <= t.total <= |subs|
  {
    GradeAllShape(quiz, subs);
    if GradeAll(quiz, subs).Success? {
      var rs := GradeAll(quiz, subs).value;
      forall i | 0 <= i < |rs| ensures Consistent(rs[i]) {
        JudgeEchoes(quiz[subs[i].wordIndex], subs[i]);
      }
      CountBounds(rs);
    }
  }

  /**
   * A level-1 answer is graded against the entry's `ca` spelling (whatever
   * the entry's level) and counts once; it is correct exactly when the
   * trimmed, lower-cased answer equals the lower-cased spelling.
   */
  lemma JudgeLevel1(entry: Entry, sub: Submission)
    requires sub.isLevel1
    ensures "ca" !in entry ==> Judge(entry, sub) == Failure(MissingKey("ca"))
    ensures "ca" in entry && !entry["ca"].Text? ==> Judge(entry, sub) == Failure(NotText("ca"))
    ensures "ca" in entry && entry["ca"].Text? ==>
      Judge(entry, sub).Success? &&
      var r := Judge(entry, sub).value;
      r.correctAnswer == Some(entry["ca"].text) && r.country == None &&
      (r.correct <==> Normalize(sub.answer) == Lower(entry["ca"].text))
  {
  }

  /**
   * A non-level-1 answer without a non-empty country naming a key of the
   * entry is skipped: no correct answer, not correct, no country, not counted.
   */
  lemma JudgeSkipped(entry: Entry, sub: Submission)
    requires !sub.isLevel1 && !NamesKey(entry, sub)
    ensures Judge(entry, sub).Success?
    ensures var r := Judge(entry, sub).value;
      r.correctAnswer == None && !r.correct && r.country == None && CountGraded([r]) == 0
  {
  }

  /**
   * A non-level-1 answer that names a key of the entry is graded against
   * that key's spelling, and the result records the country.
   */
  lemma JudgeCountry(entry: Entry, sub: Submission)
    requires !sub.isLevel1 && NamesKey(entry, sub)
    ensures var c := sub.country.value;
      !entry[c].Text? ==> Judge(entry, sub) == Failure(NotText(c))
    ensures var c := sub.country.value;
      entry[c].Text? ==>
        Judge(entry, sub).Success? &&
        var r := Judge(entry, sub).value;
        r.correctAnswer == Some(entry[c].text) && r.country == Some(c) && CountGraded([r]) == 1 &&
        (r.correct <==> Normalize(sub.answer) == Lower(entry[c].text))
  {
  }

  /**
   * Answers that differ only in letter case and surrounding whitespace get
   * the same verdict.
   */
  lemma JudgeIgnoresCaseAndPadding(entry: Entry, sub: Submission, pre: string, post: string, other: string)
    requires AllSpace(pre) && AllSpace(post) && Lower(other) == Lower(sub.answer)
    ensures var padded := sub.(answer := pre + other + post);
      Judge(entry, padded).Success? == Judge(entry, sub).Success? &&
      (Judge(entry, sub).Success? ==>
        Judge(entry, padded).value.correct == Judge(entry, sub).value.correct &&
        Judge(entry, padded).value.correctAnswer == Judge(entry, sub).value.correctAnswer)
  {
    NormalizeIgnoresCaseAndPadding(pre, other, post, sub.answer);
  }

  /** Adding a result raises `total_count` by one exactly when it is graded, and `correct_count` when it is correct. */
  lemma CountStep(rs: seq<GradedResult>, r: GradedResult)
    ensures CountGraded(rs + [r]) == CountGraded(rs) + (if r.correctAnswer.Some? then 1 else 0)
    ensures CountCorrect(rs + [r]) == CountCorrect(rs) + (if r.correct then 1 else 0)
  {
    assert (rs + [r])[..|rs|] == rs;
  }
}
