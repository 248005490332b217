/**
 * The word catalog and the quiz generator: one variant is chosen from each
 * word group, in catalog order, and shaped into the payload the client sees.
 */
module Quiz {
  import opened Wrappers

  /** One spelling of a word in each of the five countries, with an optional disambiguating note. */
  datatype Variant = Variant(us: string, ca: string, gb: string, au: string, nz: string, note: Option<string>)

  /** A word group of the catalog: its display name, its level (1, 2 or 3) and its variants. */
  datatype Group = Group(name: string, level: int, words: seq<Variant>)

  /** A chosen variant tagged with the position of its group and the group's level. */
  datatype Selected = Selected(word: Variant, groupIndex: nat, level: int)

  /** One question of a generated quiz: the five spellings, the note and the level. */
  datatype Question = Question(us: string, ca: string, gb: string, au: string, nz: string, note: string, level: int)

  /** A JSON value of a quiz entry as the client echoes it back. */
  datatype Field = Text(text: string) | Number(number: int) | Other

  /** A quiz entry as echoed by the client: a JSON object. */
  type Entry = map<string, Field>

  /** `picks[i]` is a valid index into group `i`'s words, one per group (the random choices). */
  predicate ValidPicks(catalog: seq<Group>, picks: seq<int>) {
    |picks| == |catalog| &&
    forall i :: 0 <= i < |catalog| ==> 0 <= picks[i] < |catalog[i].words|
  }

  /** The question made from a chosen variant of a group of the given level; a missing note becomes "". */
  function Shape(w: Variant, level: int): Question {
    Question(w.us, w.ca, w.gb, w.au, w.nz, if w.note.Some? then w.note.value else "", level)
  }

  /**
   * Picks the variant `picks[i]` of every group `i` and tags it with `i` and
   * the group's level.
   */
  method SelectWords(catalog: seq<Group>, picks: seq<int>) returns (selected: seq<Selected>)
    requires ValidPicks(catalog, picks)
    ensures |selected| == |catalog|
    ensures forall i :: 0 <= i < |catalog| ==>
      selected[i].groupIndex == i && selected[i].level == catalog[i].level &&
      selected[i].word == catalog[i].words[picks[i]]
  {
    selected := [];
    var groupIndex := 0;
    while groupIndex < |catalog|
      invariant 0 <= groupIndex <= |catalog|
      invariant |selected| == groupIndex
      invariant forall i :: 0 <= i < groupIndex ==>
        selected[i].groupIndex == i && selected[i].level == catalog[i].level &&
        selected[i].word == catalog[i].words[picks[i]]
    {
      var group := catalog[groupIndex];
      var word := group.words[picks[groupIndex]];
      selected := selected + [Selected(word, groupIndex, group.level)];
      groupIndex := groupIndex + 1;
    }
  }

  /** The quiz: one question per group, in catalog order, with the group's level. */
  method GenerateQuizData(catalog: seq<Group>, picks: seq<int>) returns (quiz: seq<Question>)
    requires ValidPicks(catalog, picks)
    ensures |quiz| == |catalog|
    ensures forall i :: 0 <= i < |catalog| ==> quiz[i] == Shape(catalog[i].words[picks[i]], catalog[i].level)
  {
    var selected := SelectWords(catalog, picks);
    quiz := [];
    var k := 0;
    while k < |selected|
      invariant 0 <= k <= |selected|
      invariant |quiz| == k
      invariant forall i :: 0 <= i < k ==> quiz[i] == Shape(selected[i].word, selected[i].level)
    {
      var word := selected[k].word;
      var note := if word.note.Some? then word.note.value else "";
      quiz := quiz + [Question(word.us, word.ca, word.gb, word.au, word.nz, note, selected[k].level)];
      k := k + 1;
    }
  }

  /** The question carries exactly the five spellings of `w`. */
  predicate SpelledAs(q: Question, w: Variant) {
    q.us == w.us && q.ca == w.ca && q.gb == w.gb && q.au == w.au && q.nz == w.nz
  }

  /** Every question of a generated quiz is a variant of its own group, carrying that group's level. */
  lemma GeneratedFromGroups(catalog: seq<Group>, picks: seq<int>, quiz: seq<Question>)
    requires ValidPicks(catalog, picks)
    requires |quiz| == |catalog|
    requires forall i :: 0 <= i < |catalog| ==> quiz[i] == Shape(catalog[i].words[picks[i]], catalog[i].level)
    ensures forall i :: 0 <= i < |quiz| ==>
      quiz[i].level == catalog[i].level && exists w :: w in catalog[i].words && SpelledAs(quiz[i], w)
    ensures forall i :: 0 <= i < |quiz| && catalog[i].words[picks[i]].note.None? ==> quiz[i].note == ""
  {
    forall i | 0 <= i < |quiz|
      ensures quiz[i].level == catalog[i].level
      ensures exists w :: w in catalog[i].words && SpelledAs(quiz[i], w)
    {
      var w := catalog[i].words[picks[i]];
      assert w in catalog[i].words;
    }
  }

  /** The JSON object the client receives for a question, and echoes back when submitting. */
  function Echo(q: Question): (e: Entry)
    ensures e.Keys == {"us", "ca", "gb", "au", "nz", "note", "level"}
  {
    map["us" := Text(q.us), "ca" := Text(q.ca), "gb" := Text(q.gb), "au" := Text(q.au),
        "nz" := Text(q.nz), "note" := Text(q.note), "level" := Number(q.level)]
  }
}
