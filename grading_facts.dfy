/** What answer grading promises, stated about single verdicts and whole requests. */
module GradingFacts {
  import opened Wrappers
  import opened Text
  import opened Quiz
  import opened Grading

  /**
   * Grading yields one result per answer, in submission order; result `i`
   * echoes answer `i`'s word index and level-1 flag and records its answer
   * trimmed, with its case kept.
   */
  lemma GradeResultsEcho(quiz: seq<Entry>, subs: seq<Submission>)
    requires InRange(quiz, subs) && Grade(quiz, subs).Success?
    ensures var rs := Grade(quiz, subs).value.results;
      |rs| == |subs| &&
      forall i :: 0 <= i < |subs| ==>
        rs[i].wordIndex == subs[i].wordIndex && rs[i].isLevel1 == subs[i].isLevel1 &&
        rs[i].userAnswer == Trim(subs[i].answer)
  {
    GradeAllShape(quiz, subs);
    forall i | 0 <= i < |subs|
      ensures Judge(quiz[subs[i].wordIndex], subs[i]).Success?
      ensures var r := Judge(quiz[subs[i].wordIndex], subs[i]).value;
        r.wordIndex == subs[i].wordIndex && r.isLevel1 == subs[i].isLevel1 && r.userAnswer == Trim(subs[i].answer)
    {
      JudgeEchoes(quiz[subs[i].wordIndex], subs[i]);
    }
  }

  /** `answer` is `expected` up to letter case, with only whitespace around it. */
  predicate SameUpToCaseAndPadding(answer: string, expected: string) {
    exists i, j :: 0 <= i <= j <= |answer| &&
      AllSpace(answer[..i]) && AllSpace(answer[j..]) && Lower(answer[i..j]) == Lower(expected)
  }

  /**
   * The comparison in `check_answers`, `answer.strip().lower() == expected.lower()`,
   * accepts exactly the answers that are the expected spelling up to case
   * and surrounding whitespace (for a spelling without surrounding whitespace).
   */
  lemma AgreesIff(answer: string, expected: string)
    requires Trim(expected) == expected
    ensures Normalize(answer) == Lower(expected) <==> SameUpToCaseAndPadding(answer, expected)
  {
    if Normalize(answer) == Lower(expected) {
      TrimIsSlice(answer);
      var i, j :| 0 <= i <= j <= |answer| && Trim(answer) == answer[i..j] &&
        AllSpace(answer[..i]) && AllSpace(answer[j..]);
      assert Lower(answer[i..j]) == Lower(expected);
    }
    if SameUpToCaseAndPadding(answer, expected) {
      var i, j :| 0 <= i <= j <= |answer| &&
        AllSpace(answer[..i]) && AllSpace(answer[j..]) && Lower(answer[i..j]) == Lower(expected);
      assert answer == answer[..i] + answer[i..j] + answer[j..];
      TrimIgnoresPadding(answer[..i], answer[i..j], answer[j..]);
      LowerTrim(answer[i..j]);
      LowerTrim(expected);
    }
  }

  /**
   * A graded answer is correct exactly when it is the expected spelling up
   * to case and surrounding whitespace.
   */
  lemma JudgeCorrectIff(entry: Entry, sub: Submission)
    requires Judge(entry, sub).Success?
    requires var r := Judge(entry, sub).value; r.correctAnswer.Some? && Trim(r.correctAnswer.value) == r.correctAnswer.value
    ensures var r := Judge(entry, sub).value;
      r.correct <==> SameUpToCaseAndPadding(sub.answer, r.correctAnswer.value)
  {
    AgreesIff(sub.answer, Judge(entry, sub).value.correctAnswer.value);
  }

  /**
   * An answer that is right for one country is wrong for another country
   * whose spelling differs (ignoring case).
   */
  lemma CountrySpecific(entry: Entry, sub: Submission, other: string)
    requires !sub.isLevel1 && NamesKey(entry, sub) && other in entry && other != ""
    requires entry[sub.country.value].Text? && entry[other].Text?
    requires Lower(entry[sub.country.value].text) != Lower(entry[other].text)
    requires Judge(entry, sub).Success? && Judge(entry, sub).value.correct
    ensures var moved := sub.(country := Some(other));
      Judge(entry, moved).Success? && !Judge(entry, moved).value.correct
  {
  }

  /**
   * The US spelling, submitted for a level-1 question whose `ca` spelling
   * differs from it (ignoring case), is wrong.
   */
  lemma Level1RejectsUsSpelling(entry: Entry, sub: Submission)
    requires sub.isLevel1 && "ca" in entry && "us" in entry && entry["ca"].Text? && entry["us"].Text?
    requires sub.answer == entry["us"].text && Trim(sub.answer) == sub.answer
    requires Lower(entry["us"].text) != Lower(entry["ca"].text)
    ensures Judge(entry, sub).Success? && !Judge(entry, sub).value.correct
  {
  }

  /**
   * Grading the echo of a generated question: a level-1 answer (whatever
   * the question's level) is graded against the `ca` spelling; a country
   * answer against that country's spelling; the key "note" grades against
   * the note; the key "level" fails, because its value is a number; any
   * other key is skipped.
   */
  lemma JudgeEchoed(q: Question, sub: Submission)
    ensures sub.isLevel1 ==>
      Judge(Echo(q), sub).Success? && Judge(Echo(q), sub).value.correctAnswer == Some(q.ca)
    ensures !sub.isLevel1 && sub.country == Some("us") ==>
      Judge(Echo(q), sub).Success? && Judge(Echo(q), sub).value.correctAnswer == Some(q.us)
    ensures !sub.isLevel1 && sub.country == Some("ca") ==>
      Judge(Echo(q), sub).Success? && Judge(Echo(q), sub).value.correctAnswer == Some(q.ca)
    ensures !sub.isLevel1 && sub.country == Some("gb") ==>
      Judge(Echo(q), sub).Success? && Judge(Echo(q), sub).value.correctAnswer == Some(q.gb)
    ensures !sub.isLevel1 && sub.country == Some("au") ==>
      Judge(Echo(q), sub).Success? && Judge(Echo(q), sub).value.correctAnswer == Some(q.au)
    ensures !sub.isLevel1 && sub.country == Some("nz") ==>
      Judge(Echo(q), sub).Success? && Judge(Echo(q), sub).value.correctAnswer == Some(q.nz)
    ensures !sub.isLevel1 && sub.country == Some("note") ==>
      Judge(Echo(q), sub).Success? && Judge(Echo(q), sub).value.correctAnswer == Some(q.note)
    ensures !sub.isLevel1 && sub.country == Some("level") ==>
      Judge(Echo(q), sub) == Failure(NotText("level"))
    ensures !sub.isLevel1 && (sub.country.None? || sub.country.value !in Echo(q).Keys) ==>
      Judge(Echo(q), sub).Success? && Judge(Echo(q), sub).value.correctAnswer == None
  {
  }
}
