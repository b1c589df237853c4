/** A topic of a subject, and the figures derived from the flashcards filed under it. */
module Topics {
  import opened Common
  import opened Flashcards

  datatype Topic = Topic(topicName: string, topicId: string, level: Level)

  /** `new Topic(name, level)`: the identifier is derived from the name. */
  function NewTopic(name: string, level: Level): (t: Topic)
    ensures t.topicName == name && t.level == level && t.topicId == NameToId(name)
    ensures |t.topicId| == |name| && forall i :: 0 <= i < |name| ==> t.topicId[i] != ' '
  {
    NameToIdShape(name);
    Topic(name, NameToId(name), level)
  }

  /** `topics.Select(t => t.TopicId)`. */
  function TopicIds(topics: seq<Topic>): seq<string>
  {
    seq(|topics|, i requires 0 <= i < |topics| => topics[i].topicId)
  }

  /** `FlashcardIds`: the stored cards that list this topic, in store order. */
  function TopicFlashcards(topicId: string, store: seq<FlashcardRecord>): (r: seq<FlashcardRecord>)
    ensures forall f :: f in r <==> f in store && topicId in f.topics
  {
    Filter(store, (f: FlashcardRecord) => topicId in f.topics)
  }

  /** `LatestSeen`: the latest last-seen date among the topic's cards. */
  function TopicLatestSeen(topicId: string, store: seq<FlashcardRecord>): (r: Option<nat>)
    ensures r.None? <==> forall f :: f in store && topicId in f.topics ==> f.lastSeen.None?
    ensures r.Some? ==> exists f :: f in store && topicId in f.topics && f.lastSeen == r
    ensures r.Some? ==> forall f :: f in store && topicId in f.topics && f.lastSeen.Some? ==> f.lastSeen.value <= r.value
  {
    var cards := TopicFlashcards(topicId, store);
    var r := LatestSeen(cards);
    assert forall f :: f in cards ==> exists i :: 0 <= i < |cards| && cards[i] == f;
    r
  }

  /** `TotalSeenCount`: the answers given on the topic's cards. When no stored counter is
    * negative, it is at least the count of every card filed under the topic, and 0 exactly
    * when none of them was answered. */
  function TopicTotalSeenCount(topicId: string, store: seq<FlashcardRecord>): (r: int)
    ensures (forall f :: f in store ==> f.seen >= 0) ==>
      0 <= r
      && (r == 0 <==> forall f :: f in store && topicId in f.topics ==> f.seen == 0)
      && forall f :: f in store && topicId in f.topics ==> f.seen <= r
  {
    var cards := TopicFlashcards(topicId, store);
    assert forall f :: f in cards ==> exists i :: 0 <= i < |cards| && cards[i] == f;
    if forall f :: f in store ==> f.seen >= 0 then
      SeenSumBounds(cards);
      TotalSeen(cards)
    else
      TotalSeen(cards)
  }
}
