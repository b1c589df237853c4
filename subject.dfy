/** A subject: the identifiers of its topics and of its flashcards, and the figures derived
  * from the cards it lists. */
module Subjects {
  import opened Common
  import opened Flashcards
  import opened Topics

  /** A subject as the JSON store holds it. */
  datatype SubjectRecord = SubjectRecord(subjectName: string, subjectId: string, topics: seq<string>, flashcards: seq<string>)

  /** `allTopics.Where(t => subject.Topics.Contains(t.TopicId))`: the stored topics the
    * subject lists, in store order. */
  function SubjectTopics(allTopics: seq<Topic>, subject: SubjectRecord): (r: seq<Topic>)
    ensures forall t :: t in r <==> t in allTopics && t.topicId in subject.topics
  {
    Filter(allTopics, (t: Topic) => t.topicId in subject.topics)
  }

  /** `FlashcardObjects`: the stored cards the subject lists, in store order. */
  function SubjectFlashcards(s: SubjectRecord, store: seq<FlashcardRecord>): (r: seq<FlashcardRecord>)
    ensures forall f :: f in r <==> f in store && f.flashcardId in s.flashcards
  {
    Filter(store, (f: FlashcardRecord) => f.flashcardId in s.flashcards)
  }

  /** `LatestSeen`: the latest last-seen date among the subject's cards, none when none of
    * them has been seen. */
  function SubjectLatestSeen(s: SubjectRecord, store: seq<FlashcardRecord>): (r: Option<nat>)
    ensures r.None? <==> forall f :: f in store && f.flashcardId in s.flashcards ==> f.lastSeen.None?
    ensures r.Some? ==> exists f :: f in store && f.flashcardId in s.flashcards && f.lastSeen == r
    ensures r.Some? ==> forall f :: f in store && f.flashcardId in s.flashcards && f.lastSeen.Some? ==> f.lastSeen.value <= r.value
  {
    var cards := SubjectFlashcards(s, store);
    var r := LatestSeen(cards);
    assert forall f :: f in cards ==> exists i :: 0 <= i < |cards| && cards[i] == f;
    r
  }

  /** `TotalSeenCount`: the answers given on the subject's cards. When no stored counter is
    * negative, it is at least the count of every card the subject lists, and 0 exactly when
    * none of them was answered. */
  function SubjectTotalSeenCount(s: SubjectRecord, store: seq<FlashcardRecord>): (r: int)
    ensures (forall f :: f in store ==> f.seen >= 0) ==>
      0 <= r
      && (r == 0 <==> forall f :: f in store && f.flashcardId in s.flashcards ==> f.seen == 0)
      && forall f :: f in store && f.flashcardId in s.flashcards ==> f.seen <= r
  {
    var cards := SubjectFlashcards(s, store);
    assert forall f :: f in cards ==> exists i :: 0 <= i < |cards| && cards[i] == f;
    if forall f :: f in store ==> f.seen >= 0 then
      SeenSumBounds(cards);
      TotalSeen(cards)
    else
      TotalSeen(cards)
  }

  class Subject {
    var subjectName: string
    var subjectId: string
    var topics: seq<string>
    var flashcards: seq<string>

    function Record(): SubjectRecord
      reads this
    {
      SubjectRecord(subjectName, subjectId, topics, flashcards)
    }

    /** `new Subject()`: no topics and no flashcards yet. */
    constructor ()
      ensures Record() == SubjectRecord("", "", [], [])
    {
      subjectName, subjectId := "", "";
      topics, flashcards := [], [];
    }

    /** `new Subject(name)`: the identifier is derived from the name. */
    constructor Named(name: string)
      ensures Record() == SubjectRecord(name, NameToId(name), [], [])
    {
      subjectName, subjectId := name, NameToId(name);
      topics, flashcards := [], [];
    }

    /** `new Subject(name, id, topics, flashcards)`: a missing list becomes an empty one. */
    constructor Full(name: string, id: string, topicIds: Option<seq<string>>, flashcardIds: Option<seq<string>>)
      ensures Record() == SubjectRecord(name, id, if topicIds.Some? then topicIds.value else [],
                                        if flashcardIds.Some? then flashcardIds.value else [])
    {
      subjectName, subjectId := name, id;
      topics := if topicIds.Some? then topicIds.value else [];
      flashcards := if flashcardIds.Some? then flashcardIds.value else [];
    }

    /** Lists the topic's identifier, without checking for a duplicate, and hands the topic back. */
    method AddTopic(topic: Topic) returns (r: Topic)
      modifies this
      ensures r == topic
      ensures Record() == old(Record()).(topics := old(topics) + [topic.topicId])
    {
      topics := topics + [topic.topicId];
      r := topic;
    }

    /** Lists the card's identifier, without checking for a duplicate, and hands the card back. */
    method AddFlashcard(flashcard: Flashcard) returns (r: Flashcard)
      modifies this
      ensures r == flashcard
      ensures Record() == old(Record()).(flashcards := old(flashcards) + [flashcard.flashcardId])
    {
      flashcards := flashcards + [flashcard.flashcardId];
      r := flashcard;
    }
  }
}
