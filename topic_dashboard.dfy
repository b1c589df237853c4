/** The topic dashboard of a subject: one panel per topic of the subject, with the figures
  * of the topic's cards that the subject lists. */
module TopicDashboard {
  import opened Common
  import opened Flashcards
  import opened Topics
  import opened Subjects

  /** The cards counted on a topic's panel: tagged with the topic and listed by the subject,
    * in store order. */
  function PanelCards(topicId: string, subject: SubjectRecord, store: seq<FlashcardRecord>): (r: seq<FlashcardRecord>)
  {
    Filter(store, (f: FlashcardRecord) => topicId in f.topics && f.flashcardId in subject.flashcards)
  }

  /** `Count(f => f.Seen > 0)`. */
  function StudiedCount(cards: seq<FlashcardRecord>): nat
  {
    if cards == [] then 0 else (if cards[0].seen > 0 then 1 else 0) + StudiedCount(cards[1..])
  }

  /** `Sum(f => f.Seen - f.Errors)`. */
  function CorrectAnswers(cards: seq<FlashcardRecord>): int
  {
    if cards == [] then 0 else cards[0].seen - cards[0].errors + CorrectAnswers(cards[1..])
  }

  /** The accuracy label: a dash when nothing was answered, otherwise the ratio it formats
    * as a percentage. */
  datatype Accuracy = NoAnswers | Ratio(correct: int, answers: int)

  datatype TopicPanel = TopicPanel(
    name: string,
    accuracy: Accuracy,
    flashcards: nat,
    studied: nat,
    totalAnswers: int)

  function PanelOf(topic: Topic, subject: SubjectRecord, store: seq<FlashcardRecord>): TopicPanel
  {
    var cards := PanelCards(topic.topicId, subject, store);
    var totalAnswers := TotalSeen(cards);
    TopicPanel(topic.topicName,
               if totalAnswers == 0 then NoAnswers else Ratio(CorrectAnswers(cards), totalAnswers),
               |cards|, StudiedCount(cards), totalAnswers)
  }

  /** `CreateTopicPanels`: the panels, one per topic of the subject. */
  function Panels(allTopics: seq<Topic>, subject: SubjectRecord, store: seq<FlashcardRecord>): (r: seq<TopicPanel>)
    ensures |r| == |SubjectTopics(allTopics, subject)|
    ensures forall i :: 0 <= i < |r| ==> r[i] == PanelOf(SubjectTopics(allTopics, subject)[i], subject, store)
  {
    var topics := SubjectTopics(allTopics, subject);
    seq(|topics|, i requires 0 <= i < |topics| => PanelOf(topics[i], subject, store))
  }

  /** A panel's cards are exactly the topic's cards (`Topic.FlashcardIds`) that the subject
    * also lists, as it lists them in store order. */
  lemma PanelCardsSpec(topicId: string, subject: SubjectRecord, store: seq<FlashcardRecord>)
    ensures forall f :: f in PanelCards(topicId, subject, store) <==>
      f in TopicFlashcards(topicId, store) && f in SubjectFlashcards(subject, store)
    ensures |PanelCards(topicId, subject, store)| <= |TopicFlashcards(topicId, store)|
  {
    PanelCardsNarrower(topicId, subject, store);
  }

  /** Filtering the store by both conditions keeps no more cards than by the topic alone. */
  lemma {:induction false} PanelCardsNarrower(topicId: string, subject: SubjectRecord, store: seq<FlashcardRecord>)
    ensures |PanelCards(topicId, subject, store)| <= |TopicFlashcards(topicId, store)|
    decreases |store|
  {
    if store != [] {
      PanelCardsNarrower(topicId, subject, store[1..]);
    }
  }

  /** No more cards are studied than there are cards. */
  lemma {:induction false} StudiedBounded(cards: seq<FlashcardRecord>)
    ensures StudiedCount(cards) <= |cards|
    ensures StudiedCount(cards) == 0 <==> forall i :: 0 <= i < |cards| ==> cards[i].seen <= 0
    decreases |cards|
  {
    if cards != [] {
      StudiedBounded(cards[1..]);
      assert forall i :: 1 <= i < |cards| ==> cards[i] == cards[1..][i - 1];
    }
  }

  /** The correct answers are the answers less the errors. */
  lemma {:induction false} CorrectIsSeenLessErrors(cards: seq<FlashcardRecord>)
    ensures CorrectAnswers(cards) == TotalSeen(cards) - TotalErrors(cards)
    decreases |cards|
  {
    if cards != [] {
      CorrectIsSeenLessErrors(cards[1..]);
    }
  }

  /** Over cards with consistent statistics, a panel shows no more studied cards than cards,
    * a dash exactly when none of its cards was ever answered, and otherwise a ratio of
    * correct answers to answers between zero and one. */
  lemma PanelSpec(topic: Topic, subject: SubjectRecord, store: seq<FlashcardRecord>)
    requires forall i :: 0 <= i < |store| ==> StatsConsistent(store[i])
    ensures var p := PanelOf(topic, subject, store);
      var cards := PanelCards(topic.topicId, subject, store);
      p.name == topic.topicName
      && p.flashcards == |cards|
      && p.studied <= p.flashcards
      && (p.accuracy.NoAnswers? <==> forall f :: f in cards ==> f.seen == 0)
      && (p.accuracy.NoAnswers? <==> p.studied == 0)
      && (p.accuracy.Ratio? ==> 0 <= p.accuracy.correct <= p.accuracy.answers && p.accuracy.answers == p.totalAnswers > 0)
  {
    var cards := PanelCards(topic.topicId, subject, store);
    assert forall i :: 0 <= i < |cards| ==> cards[i] in store;
    assert forall i :: 0 <= i < |cards| ==> StatsConsistent(cards[i]);
    TotalsBounded(cards);
    StudiedBounded(cards);
    CorrectIsSeenLessErrors(cards);
  }
}
