/** The flashcard entity: its stored form, its study statistics, the choice of the version
  * to display, and the object the editors and importers create and update in place. */
module Flashcards {
  import opened Common
  import opened CardVersions

  datatype Level = HL | SL

  /** One entry of a Quizlet export. */
  datatype QuizletFlashcard = QuizletFlashcard(term: Option<string>, definition: Option<string>)

  /** A flashcard as the JSON store holds it. */
  datatype FlashcardRecord = FlashcardRecord(
    flashcardId: string,
    level: Level,
    versions: seq<CardVersion>,
    topics: seq<string>,
    firstSeen: Option<nat>,
    lastSeen: Option<nat>,
    seen: int,
    errors: int,
    important: bool)

  function Ids(cards: seq<FlashcardRecord>): seq<string>
  {
    seq(|cards|, i requires 0 <= i < |cards| => cards[i].flashcardId)
  }

  /** A card that has never been studied. */
  function Unstudied(id: string, level: Level, versions: seq<CardVersion>, topics: seq<string>): FlashcardRecord
  {
    FlashcardRecord(id, level, versions, topics, None, None, 0, 0, false)
  }

  // ---------------------------------------------------------------------------
  // Study statistics

  /** What the statistics of a card that is only ever studied, merged and reset keep:
    * errors never exceed answers, both dates are set together, and they are set exactly
    * when the card has been answered at least once. */
  predicate StatsConsistent(c: FlashcardRecord)
  {
    0 <= c.errors <= c.seen
    && (c.firstSeen.Some? <==> c.lastSeen.Some?)
    && (c.lastSeen.Some? <==> c.seen > 0)
  }

  /** `RegisterStudyResult(date, incorrect)` on the stored form. */
  function StudyResult(c: FlashcardRecord, date: nat, incorrect: bool): FlashcardRecord
  {
    c.(firstSeen := if c.firstSeen == None then Some(date) else c.firstSeen,
       lastSeen := Some(date),
       seen := c.seen + 1,
       errors := if incorrect then c.errors + 1 else c.errors)
  }

  /** One answer keeps the statistics consistent, counts as an error exactly when it was
    * wrong, and never moves the first-seen date once it is set. */
  lemma StudyResultKeepsConsistency(c: FlashcardRecord, date: nat, incorrect: bool)
    requires StatsConsistent(c)
    ensures StatsConsistent(StudyResult(c, date, incorrect))
    ensures StudyResult(c, date, incorrect).errors - c.errors == (if incorrect then 1 else 0)
    ensures c.firstSeen.Some? ==> StudyResult(c, date, incorrect).firstSeen == c.firstSeen
  {
  }

  datatype Answer = Answer(date: nat, incorrect: bool)

  function StudyHistory(c: FlashcardRecord, answers: seq<Answer>): FlashcardRecord
    decreases |answers|
  {
    if answers == [] then c
    else
      var last := answers[|answers| - 1];
      StudyResult(StudyHistory(c, answers[..|answers| - 1]), last.date, last.incorrect)
  }

  function CountIncorrect(answers: seq<Answer>): nat
  {
    if answers == [] then 0 else (if answers[0].incorrect then 1 else 0) + CountIncorrect(answers[1..])
  }

  lemma {:induction false} CountIncorrectSnoc(answers: seq<Answer>, a: Answer)
    ensures CountIncorrect(answers + [a]) == CountIncorrect(answers) + (if a.incorrect then 1 else 0)
    decreases |answers|
  {
    if answers != [] {
      assert (answers + [a])[1..] == answers[1..] + [a];
      CountIncorrectSnoc(answers[1..], a);
    }
  }

  /** After a run of answers a card has been seen once per answer and has one error per
    * wrong answer; its first-seen date is the first answer's unless it was already set,
    * and its last-seen date is the last answer's. Nothing else about the card changes. */
  lemma StudyHistoryTotals(c: FlashcardRecord, answers: seq<Answer>)
    ensures StudyHistory(c, answers).seen == c.seen + |answers|
    ensures StudyHistory(c, answers).errors == c.errors + CountIncorrect(answers)
    ensures StudyHistory(c, answers).firstSeen ==
              if c.firstSeen.Some? || answers == [] then c.firstSeen else Some(answers[0].date)
    ensures answers != [] ==> StudyHistory(c, answers).lastSeen == Some(answers[|answers| - 1].date)
    ensures var r := StudyHistory(c, answers);
      r.flashcardId == c.flashcardId && r.level == c.level && r.versions == c.versions
      && r.topics == c.topics && r.important == c.important
  {
    StudyHistoryCounts(c, answers);
    StudyHistoryDates(c, answers);
  }

  /** The counters and the fields other than the dates. */
  lemma {:induction false} StudyHistoryCounts(c: FlashcardRecord, answers: seq<Answer>)
    ensures StudyHistory(c, answers).seen == c.seen + |answers|
    ensures StudyHistory(c, answers).errors == c.errors + CountIncorrect(answers)
    ensures var r := StudyHistory(c, answers);
      r.flashcardId == c.flashcardId && r.level == c.level && r.versions == c.versions
      && r.topics == c.topics && r.important == c.important
    decreases |answers|
  {
    if answers != [] {
      var init := answers[..|answers| - 1];
      var last := answers[|answers| - 1];
      StudyHistoryCounts(c, init);
      assert answers == init + [last];
      CountIncorrectSnoc(init, last);
    }
  }

  /** The two dates. */
  lemma {:induction false} StudyHistoryDates(c: FlashcardRecord, answers: seq<Answer>)
    ensures StudyHistory(c, answers).firstSeen ==
              if c.firstSeen.Some? || answers == [] then c.firstSeen else Some(answers[0].date)
    ensures answers != [] ==> StudyHistory(c, answers).lastSeen == Some(answers[|answers| - 1].date)
    decreases |answers|
  {
    if answers != [] {
      var init := answers[..|answers| - 1];
      StudyHistoryDates(c, init);
      if init != [] {
        assert init[0] == answers[0];
      }
    }
  }

  /** `cards.Where(f => f.LastSeen.HasValue).Max(f => f.LastSeen)`, or none when no card
    * has been seen: the most recent last-seen date among the cards. */
  function LatestSeen(cards: seq<FlashcardRecord>): (r: Option<nat>)
    ensures r.None? <==> forall i :: 0 <= i < |cards| ==> cards[i].lastSeen.None?
    ensures r.Some? ==> exists i :: 0 <= i < |cards| && cards[i].lastSeen == r
    ensures r.Some? ==> forall i :: 0 <= i < |cards| && cards[i].lastSeen.Some? ==> cards[i].lastSeen.value <= r.value
    decreases |cards|
  {
    if cards == [] then None
    else
      var rest := LatestSeen(cards[..|cards| - 1]);
      var here := cards[|cards| - 1].lastSeen;
      if here.None? then rest
      else if rest.Some? && here.value <= rest.value then rest
      else here
  }

  /** `cards.Sum(f => f.Seen)`. */
  function TotalSeen(cards: seq<FlashcardRecord>): int
  {
    if cards == [] then 0 else cards[0].seen + TotalSeen(cards[1..])
  }

  /** `cards.Sum(f => f.Errors)`. */
  function TotalErrors(cards: seq<FlashcardRecord>): int
  {
    if cards == [] then 0 else cards[0].errors + TotalErrors(cards[1..])
  }

  /** Over cards with consistent statistics the total of errors lies between zero and the
    * total of answers, and the total of answers is zero only when no card was answered. */
  lemma {:induction false} TotalsBounded(cards: seq<FlashcardRecord>)
    requires forall i :: 0 <= i < |cards| ==> StatsConsistent(cards[i])
    ensures 0 <= TotalErrors(cards) <= TotalSeen(cards)
    ensures TotalSeen(cards) == 0 <==> forall i :: 0 <= i < |cards| ==> cards[i].seen == 0
    decreases |cards|
  {
    if cards != [] {
      TotalsBounded(cards[1..]);
      assert forall i :: 1 <= i < |cards| ==> cards[i] == cards[1..][i - 1];
    }
  }

  /** Over cards whose answer counters are not negative, the total is at least each card's
    * count, and it is 0 exactly when no card was answered. */
  lemma {:induction false} SeenSumBounds(cards: seq<FlashcardRecord>)
    requires forall i :: 0 <= i < |cards| ==> cards[i].seen >= 0
    ensures 0 <= TotalSeen(cards)
    ensures TotalSeen(cards) == 0 <==> forall i :: 0 <= i < |cards| ==> cards[i].seen == 0
    ensures forall i :: 0 <= i < |cards| ==> cards[i].seen <= TotalSeen(cards)
    decreases |cards|
  {
    if cards != [] {
      assert forall i :: 1 <= i < |cards| ==> cards[i] == cards[1..][i - 1];
      SeenSumBounds(cards[1..]);
    }
  }

  // ---------------------------------------------------------------------------
  // The version shown to a user

  /** A version can be shown when it is not a deletion flag and its editor is not blocked. */
  predicate Displayable(v: CardVersion, blocked: seq<string>)
  {
    !v.deleted && !(v.editor.Some? && v.editor.value in blocked)
  }

  /** The last position holding a displayable version, or -1. */
  function LastDisplayableIndex(vs: seq<CardVersion>, blocked: seq<string>): (i: int)
    ensures -1 <= i < |vs|
    ensures 0 <= i ==> Displayable(vs[i], blocked)
    ensures forall j :: i < j < |vs| ==> !Displayable(vs[j], blocked)
    decreases |vs|
  {
    if vs == [] then -1
    else if Displayable(vs[|vs| - 1], blocked) then |vs| - 1
    else LastDisplayableIndex(vs[..|vs| - 1], blocked)
  }

  /** `Versions.LastOrDefault(v => !blocked.Contains(v.Editor) && !v.Deleted)`: the latest
    * version in list order that can be shown; none exactly when no version can be. */
  function DisplayVersion(vs: seq<CardVersion>, blocked: seq<string>): (r: Option<CardVersion>)
    ensures r.None? <==> forall j :: 0 <= j < |vs| ==> !Displayable(vs[j], blocked)
    ensures r.Some? ==> exists i :: 0 <= i < |vs| && vs[i] == r.value && Displayable(vs[i], blocked)
                          && forall j :: i < j < |vs| ==> !Displayable(vs[j], blocked)
  {
    var i := LastDisplayableIndex(vs, blocked);
    if i < 0 then None else Some(vs[i])
  }

  // ---------------------------------------------------------------------------
  // Identifiers

  /** The source of fresh identifiers behind `Guid.NewGuid()`: it never hands out the
    * same string twice. */
  class GuidOracle {
    ghost var issued: set<string>
    var counter: nat

    ghost predicate Valid()
      reads this
    {
      forall s :: s in issued ==> |s| < counter
    }

    constructor ()
      ensures Valid() && issued == {}
    {
      issued := {};
      counter := 0;
    }

    method NewGuid() returns (id: string)
      requires Valid()
      modifies this
      ensures Valid()
      ensures id !in old(issued) && issued == old(issued) + {id}
    {
      id := seq(counter, _ => 'g');
      counter := counter + 1;
      issued := issued + {id};
    }
  }

  /** `GenerateId`: draws identifiers until one is not used by any card in `existing`. */
  method GenerateId(existing: seq<FlashcardRecord>, oracle: GuidOracle) returns (id: string)
    requires oracle.Valid()
    modifies oracle
    ensures oracle.Valid()
    ensures id !in Ids(existing) && id !in old(oracle.issued)
    ensures id in oracle.issued && old(oracle.issued) <= oracle.issued
  {
    var used := set i | 0 <= i < |existing| :: existing[i].flashcardId;
    ghost var before := oracle.issued;
    id := oracle.NewGuid();
    while id in Ids(existing)
      invariant oracle.Valid()
      invariant id in oracle.issued && id !in before && before <= oracle.issued
      decreases |used - oracle.issued| + (if id in used then 1 else 0)
    {
      ghost var prev := oracle.issued;
      id := oracle.NewGuid();
      if id in used {
        assert used - oracle.issued == (used - prev) - {id};
      } else {
        assert used - oracle.issued == used - prev;
      }
    }
  }

  // ---------------------------------------------------------------------------
  // The object the editors work on

  class Flashcard {
    var flashcardId: string
    var level: Level
    var versions: seq<CardVersion>
    var topics: seq<string>
    var firstSeen: Option<nat>
    var lastSeen: Option<nat>
    var seen: int
    var errors: int
    var important: bool

    function Record(): FlashcardRecord
      reads this
    {
      FlashcardRecord(flashcardId, level, versions, topics, firstSeen, lastSeen, seen, errors, important)
    }

    /** `new Flashcard(question, answer)`, written by the signed-in `username` at `now`. */
    constructor (question: Option<string>, answer: Option<string>, username: Option<string>, now: nat,
                 existing: seq<FlashcardRecord>, oracle: GuidOracle)
      requires oracle.Valid()
      modifies oracle
      ensures oracle.Valid() && flashcardId !in Ids(existing) && flashcardId !in old(oracle.issued)
      ensures flashcardId in oracle.issued && old(oracle.issued) <= oracle.issued
      ensures Record() == Unstudied(flashcardId, HL, [NewVersion(question, answer, username, now)], [])
    {
      var id := GenerateId(existing, oracle);
      flashcardId := id;
      level := HL;
      versions := [NewVersion(question, answer, username, now)];
      topics := [];
      firstSeen, lastSeen := None, None;
      seen, errors := 0, 0;
      important := false;
    }

    /** `new Flashcard(question, answer, level, topicIDs)`. */
    constructor WithTopics(question: Option<string>, answer: Option<string>, cardLevel: Level, topicIds: seq<string>,
                           username: Option<string>, now: nat, existing: seq<FlashcardRecord>, oracle: GuidOracle)
      requires oracle.Valid()
      modifies oracle
      ensures oracle.Valid() && flashcardId !in Ids(existing) && flashcardId !in old(oracle.issued)
      ensures flashcardId in oracle.issued && old(oracle.issued) <= oracle.issued
      ensures Record() == Unstudied(flashcardId, cardLevel, [NewVersion(question, answer, username, now)], topicIds)
    {
      var id := GenerateId(existing, oracle);
      flashcardId := id;
      level := cardLevel;
      versions := [NewVersion(question, answer, username, now)];
      topics := topicIds;
      firstSeen, lastSeen := None, None;
      seen, errors := 0, 0;
      important := false;
    }

    /** `new Flashcard(question, answer, level, topicIDs, questionImagePath, answerImagePath)`. */
    constructor WithImages(question: Option<string>, answer: Option<string>, cardLevel: Level, topicIds: seq<string>,
                           questionImagePath: Option<string>, answerImagePath: Option<string>,
                           username: Option<string>, now: nat, existing: seq<FlashcardRecord>, oracle: GuidOracle)
      requires oracle.Valid()
      modifies oracle
      ensures oracle.Valid() && flashcardId !in Ids(existing) && flashcardId !in old(oracle.issued)
      ensures flashcardId in oracle.issued && old(oracle.issued) <= oracle.issued
      ensures Record() == Unstudied(flashcardId, cardLevel,
                [NewVersionWithImages(question, answer, username, questionImagePath, answerImagePath, now)], topicIds)
    {
      var id := GenerateId(existing, oracle);
      flashcardId := id;
      level := cardLevel;
      versions := [NewVersionWithImages(question, answer, username, questionImagePath, answerImagePath, now)];
      topics := topicIds;
      firstSeen, lastSeen := None, None;
      seen, errors := 0, 0;
      important := false;
    }

    /** Records an edit as a new version; the earlier versions stay. */
    method ModifyFlashcard(question: Option<string>, answer: Option<string>, username: Option<string>, now: nat)
      modifies this
      ensures Record() == old(Record()).(versions := old(versions) + [NewVersion(question, answer, username, now)])
    {
      versions := versions + [NewVersion(question, answer, username, now)];
    }

    /** Records a deletion as a flag version; nothing is removed. */
    method DeleteFlashcard(username: Option<string>, now: nat)
      modifies this
      ensures Record() == old(Record()).(versions := old(versions) + [FlagVersion(username, true, now)])
    {
      versions := versions + [FlagVersion(username, true, now)];
    }

    method RegisterStudyResult(date: nat, incorrect: bool)
      modifies this
      ensures Record() == StudyResult(old(Record()), date, incorrect)
    {
      if firstSeen == None {
        firstSeen := Some(date);
      }
      lastSeen := Some(date);
      seen := seen + 1;
      if incorrect {
        errors := errors + 1;
      }
    }

    function GetDisplayVersion(blocked: seq<string>): Option<CardVersion>
      reads this
    {
      DisplayVersion(versions, blocked)
    }
  }
}
