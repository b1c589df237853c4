/** The per-card topic assignment of a Quizlet import: each preview card gets its own topics,
  * and only the cards that got at least one are imported and listed by the subject. */
module QuizletView {
  import opened Common
  import opened Flashcards
  import opened Topics
  import opened Subjects
  import opened FlashcardManagement

  /** The topics chosen for each card, by flashcard id. */
  type Assignments = map<string, seq<string>>

  /** The card has an entry with at least one topic. */
  predicate Assigned(m: Assignments, f: FlashcardRecord)
  {
    f.flashcardId in m && |m[f.flashcardId]| > 0
  }

  /** Some card has an entry with no topic: the confirmation asks before going on. */
  predicate HasUnassigned(m: Assignments)
  {
    exists id :: id in m && |m[id]| == 0
  }

  /** The entries `CreateFlashcardPreviews` adds: an empty list for each card without one. */
  function WithEmptyEntries(m: Assignments, cards: seq<FlashcardRecord>): Assignments
    decreases |cards|
  {
    if cards == [] then m
    else
      var prev := WithEmptyEntries(m, cards[..|cards| - 1]);
      var id := cards[|cards| - 1].flashcardId;
      if id in prev then prev else prev[id := []]
  }

  /** Every card has an entry afterwards; entries already there are kept, the others are
    * empty, and nothing else gets one. */
  lemma {:induction false} WithEmptyEntriesSpec(m: Assignments, cards: seq<FlashcardRecord>)
    ensures var r := WithEmptyEntries(m, cards);
      (forall id :: id in r <==> id in m || id in Ids(cards))
      && (forall id :: id in m ==> r[id] == m[id])
      && (forall id :: id in r && id !in m ==> r[id] == [])
    decreases |cards|
  {
    if cards != [] {
      var init := cards[..|cards| - 1];
      WithEmptyEntriesSpec(m, init);
      assert Ids(cards) == Ids(init) + [cards[|cards| - 1].flashcardId];
    }
  }

  /** A freshly made control starts every preview card with no topic. */
  lemma EveryCardStartsUnassigned(cards: seq<FlashcardRecord>)
    ensures var r := WithEmptyEntries(map[], cards);
      (forall i :: 0 <= i < |cards| ==> cards[i].flashcardId in r && r[cards[i].flashcardId] == [])
      && (forall i :: 0 <= i < |cards| ==> !Assigned(r, cards[i]))
  {
    WithEmptyEntriesSpec(map[], cards);
    assert forall i :: 0 <= i < |cards| ==> cards[i].flashcardId == Ids(cards)[i];
  }

  /** A card after the confirmation: its topics become its assignment when it has one. */
  function Applied(m: Assignments, f: FlashcardRecord): FlashcardRecord
  {
    if Assigned(m, f) then f.(topics := m[f.flashcardId]) else f
  }

  /** The preview list after the loop of `ConfirmImportButton_Click`. */
  function AssignAll(m: Assignments, cards: seq<FlashcardRecord>): seq<FlashcardRecord>
  {
    seq(|cards|, i requires 0 <= i < |cards| => Applied(m, cards[i]))
  }

  /** `flashcardsToImport`. */
  function ToImport(m: Assignments, cards: seq<FlashcardRecord>): seq<FlashcardRecord>
  {
    Filter(AssignAll(m, cards), (f: FlashcardRecord) => Assigned(m, f))
  }

  /** The loop changes only the topics of assigned cards, to their assignment, and leaves the
    * unassigned cards as they were. */
  lemma AssignAllSpec(m: Assignments, cards: seq<FlashcardRecord>)
    ensures var r := AssignAll(m, cards);
      |r| == |cards| && Ids(r) == Ids(cards)
      && (forall i :: 0 <= i < |cards| && !Assigned(m, cards[i]) ==> r[i] == cards[i])
      && (forall i :: 0 <= i < |cards| && Assigned(m, cards[i]) ==>
            r[i] == cards[i].(topics := m[cards[i].flashcardId]) && r[i].topics != [])
  {
  }

  /** The imported cards are exactly the assigned preview cards, each carrying its
    * assignment; none is imported when none is assigned, and all are when all are. */
  lemma ToImportSpec(m: Assignments, cards: seq<FlashcardRecord>)
    ensures var r := ToImport(m, cards);
      (forall f :: f in r <==> exists i :: 0 <= i < |cards| && Assigned(m, cards[i]) && f == Applied(m, cards[i]))
      && (forall f :: f in r ==> Assigned(m, f) && f.topics == m[f.flashcardId])
      && |r| <= |cards|
      && ((forall i :: 0 <= i < |cards| ==> !Assigned(m, cards[i])) ==> r == [])
      && ((forall i :: 0 <= i < |cards| ==> Assigned(m, cards[i])) ==> r == AssignAll(m, cards))
  {
    var all := AssignAll(m, cards);
    var r := ToImport(m, cards);
    forall f | f in r
      ensures exists i :: 0 <= i < |cards| && Assigned(m, cards[i]) && f == Applied(m, cards[i])
    {
      var i :| 0 <= i < |all| && all[i] == f;
    }
    forall i | 0 <= i < |cards| && Assigned(m, cards[i])
      ensures Applied(m, cards[i]) in r
    {
      assert all[i] == Applied(m, cards[i]);
    }
    if forall i :: 0 <= i < |cards| ==> !Assigned(m, cards[i]) {
      FilterNone(all, (f: FlashcardRecord) => Assigned(m, f));
    }
    if forall i :: 0 <= i < |cards| ==> Assigned(m, cards[i]) {
      FilterAll(all, (f: FlashcardRecord) => Assigned(m, f));
    }
  }

  /** A filter every element passes keeps the list. */
  lemma {:induction false} FilterAll<T(!new)>(s: seq<T>, p: T -> bool)
    requires forall i :: 0 <= i < |s| ==> p(s[i])
    ensures Filter(s, p) == s
    decreases |s|
  {
    if s != [] {
      assert forall i :: 0 <= i < |s| - 1 ==> s[1..][i] == s[i + 1];
      FilterAll(s[1..], p);
    }
  }

  /** One more preview card adds its assigned form, if any, at the end. */
  lemma ToImportSnoc(m: Assignments, cards: seq<FlashcardRecord>, f: FlashcardRecord)
    ensures AssignAll(m, cards + [f]) == AssignAll(m, cards) + [Applied(m, f)]
    ensures ToImport(m, cards + [f]) == ToImport(m, cards) + (if Assigned(m, f) then [Applied(m, f)] else [])
  {
    assert AssignAll(m, cards + [f]) == AssignAll(m, cards) + [Applied(m, f)];
    FilterAppend(AssignAll(m, cards), [Applied(m, f)], (g: FlashcardRecord) => Assigned(m, g));
    assert [Applied(m, f)][1..] == [];
  }

  /** The subject's flashcard list after the confirmation keeps its entries and gains each
    * imported id at most once. */
  lemma SubjectGainsImported(listed: seq<string>, m: Assignments, cards: seq<FlashcardRecord>)
    ensures var r := UnionInOrder(listed, Ids(ToImport(m, cards)));
      listed <= r
      && (forall id :: id in r <==> id in listed || exists i :: 0 <= i < |cards| && Assigned(m, cards[i]) && cards[i].flashcardId == id)
      && (NoDuplicates(listed) ==> NoDuplicates(r))
  {
    UnionInOrderSpec(listed, Ids(ToImport(m, cards)));
    ImportedIds(m, cards);
  }

  /** The imported ids are the ids of the assigned preview cards. */
  lemma ImportedIds(m: Assignments, cards: seq<FlashcardRecord>)
    ensures forall id :: id in Ids(ToImport(m, cards)) <==>
      exists i :: 0 <= i < |cards| && Assigned(m, cards[i]) && cards[i].flashcardId == id
  {
    var imported := ToImport(m, cards);
    ToImportSpec(m, cards);
    forall id | id in Ids(imported)
      ensures exists i :: 0 <= i < |cards| && Assigned(m, cards[i]) && cards[i].flashcardId == id
    {
      var k :| 0 <= k < |imported| && Ids(imported)[k] == id;
      assert imported[k] in imported;
    }
    forall i | 0 <= i < |cards| && Assigned(m, cards[i])
      ensures cards[i].flashcardId in Ids(imported)
    {
      var f := Applied(m, cards[i]);
      assert f in imported;
      var k :| 0 <= k < |imported| && imported[k] == f;
      assert Ids(imported)[k] == cards[i].flashcardId;
    }
  }

  /** What one pass of the confirmation loop does to the subject's list. */
  lemma SubjectStep(listed: seq<string>, m: Assignments, cards: seq<FlashcardRecord>, i: nat)
    requires i < |cards|
    ensures var card := cards[i];
      var prev := UnionInOrder(listed, Ids(ToImport(m, cards[..i])));
      UnionInOrder(listed, Ids(ToImport(m, cards[..i + 1]))) ==
        if Assigned(m, card) && card.flashcardId !in prev then prev + [card.flashcardId] else prev
  {
    var card := cards[i];
    assert cards[..i + 1] == cards[..i] + [card];
    ToImportSnoc(m, cards[..i], card);
    IdsAppend(ToImport(m, cards[..i]), if Assigned(m, card) then [Applied(m, card)] else []);
    var ids := Ids(ToImport(m, cards[..i])) + [card.flashcardId];
    assert ids[..|ids| - 1] == Ids(ToImport(m, cards[..i])) && ids[|ids| - 1] == card.flashcardId;
    if Assigned(m, card) {
      assert Ids(ToImport(m, cards[..i + 1])) == ids;
      assert UnionInOrder(listed, ids) == (var prev := UnionInOrder(listed, ids[..|ids| - 1]);
                                            if card.flashcardId in prev then prev else prev + [card.flashcardId]);
    } else {
      assert ToImport(m, cards[..i + 1]) == ToImport(m, cards[..i]) + [];
      assert ToImport(m, cards[..i + 1]) == ToImport(m, cards[..i]);
    }
  }

  /** A filter no element passes keeps nothing. */
  lemma {:induction false} FilterNone<T(!new)>(s: seq<T>, p: T -> bool)
    requires forall i :: 0 <= i < |s| ==> !p(s[i])
    ensures Filter(s, p) == []
    decreases |s|
  {
    if s != [] {
      assert forall i :: 0 <= i < |s| - 1 ==> s[1..][i] == s[i + 1];
      FilterNone(s[1..], p);
    }
  }

  /** The loop of `ConfirmImportButton_Click` over the preview cards and the subject. */
  method AssignAndList(m: Assignments, cards: seq<FlashcardRecord>, subject: Subject) returns (preview: seq<FlashcardRecord>)
    modifies subject
    ensures preview == AssignAll(m, cards)
    ensures subject.Record() == old(subject.Record()).(flashcards := UnionInOrder(old(subject.flashcards), Ids(ToImport(m, cards))))
  {
    ghost var listed := subject.flashcards;
    preview := cards;
    for i := 0 to |cards|
      invariant |preview| == |cards|
      invariant forall k :: 0 <= k < i ==> preview[k] == Applied(m, cards[k])
      invariant forall k :: i <= k < |cards| ==> preview[k] == cards[k]
      invariant subject.subjectName == old(subject.subjectName) && subject.subjectId == old(subject.subjectId)
      invariant subject.topics == old(subject.topics)
      invariant subject.flashcards == UnionInOrder(listed, Ids(ToImport(m, cards[..i])))
    {
      var card := cards[i];
      SubjectStep(listed, m, cards, i);
      if card.flashcardId in m && |m[card.flashcardId]| > 0 {
        preview := preview[i := card.(topics := m[card.flashcardId])];
        if card.flashcardId !in subject.flashcards {
          subject.flashcards := subject.flashcards + [card.flashcardId];
        }
      }
    }
    assert cards[..|cards|] == cards;
  }

  class QuizletFlashcardsViewUserControl {
    var previewFlashcards: seq<FlashcardRecord>
    var selectedSubject: Subject?
    var availableTopics: seq<Topic>
    var flashcardTopicAssignments: Assignments

    constructor ()
      ensures previewFlashcards == [] && selectedSubject == null && availableTopics == []
      ensures flashcardTopicAssignments == map[]
    {
      previewFlashcards := [];
      selectedSubject := null;
      availableTopics := [];
      flashcardTopicAssignments := map[];
    }

    /** `Initialize`: keeps the cards and the subject, lists the subject's topics, and gives
      * every card without an entry an empty one. */
    method Initialize(flashcards: seq<FlashcardRecord>, subject: Subject, storedTopics: seq<Topic>)
      modifies this
      ensures previewFlashcards == flashcards && selectedSubject == subject
      ensures availableTopics == SubjectTopics(storedTopics, subject.Record())
      ensures flashcardTopicAssignments == WithEmptyEntries(old(flashcardTopicAssignments), flashcards)
    {
      previewFlashcards := flashcards;
      selectedSubject := subject;
      availableTopics := SubjectTopics(storedTopics, subject.Record());
      CreateFlashcardPreviews();
    }

    /** The assignment part of `CreateFlashcardPreviews`, card by card. */
    method CreateFlashcardPreviews()
      modifies this
      ensures previewFlashcards == old(previewFlashcards) && selectedSubject == old(selectedSubject)
      ensures availableTopics == old(availableTopics)
      ensures flashcardTopicAssignments == WithEmptyEntries(old(flashcardTopicAssignments), previewFlashcards)
    {
      var cards := previewFlashcards;
      for i := 0 to |cards|
        invariant previewFlashcards == cards && selectedSubject == old(selectedSubject)
        invariant availableTopics == old(availableTopics)
        invariant flashcardTopicAssignments == WithEmptyEntries(old(flashcardTopicAssignments), cards[..i])
      {
        assert cards[..i + 1][..i] == cards[..i];
        var id := cards[i].flashcardId;
        if id !in flashcardTopicAssignments {
          flashcardTopicAssignments := flashcardTopicAssignments[id := []];
        }
      }
      assert cards[..|cards|] == cards;
    }

    /** The `ItemCheck` handler of a card's topic box: the card's entry becomes the ids of
      * the checked topics. */
    method TopicsChecked(flashcardId: string, checkedItems: seq<Topic>)
      modifies this
      ensures previewFlashcards == old(previewFlashcards) && selectedSubject == old(selectedSubject)
      ensures availableTopics == old(availableTopics)
      ensures flashcardTopicAssignments == old(flashcardTopicAssignments)[flashcardId := TopicIds(checkedItems)]
    {
      flashcardTopicAssignments := flashcardTopicAssignments[flashcardId := TopicIds(checkedItems)];
    }

    /** The loop of `ConfirmImportButton_Click`: each assigned card takes its topics and
      * is listed by the subject unless it already is. */
    method ApplyAssignments()
      requires selectedSubject != null
      modifies this, selectedSubject
      ensures selectedSubject == old(selectedSubject)
      ensures flashcardTopicAssignments == old(flashcardTopicAssignments) && availableTopics == old(availableTopics)
      ensures previewFlashcards == AssignAll(flashcardTopicAssignments, old(previewFlashcards))
      ensures selectedSubject.Record() == old(selectedSubject.Record()).(flashcards :=
        UnionInOrder(old(selectedSubject.flashcards), Ids(ToImport(flashcardTopicAssignments, old(previewFlashcards)))))
    {
      previewFlashcards := AssignAndList(flashcardTopicAssignments, previewFlashcards, selectedSubject);
    }

    /** `ConfirmImportButton_Click`. `continueWithout` is the answer to the question asked
      * when some card has no topic; a "No" changes nothing. */
    method ConfirmImport(continueWithout: bool, store: FlashcardManager) returns (imported: bool)
      requires selectedSubject != null
      modifies this, selectedSubject, store
      ensures selectedSubject == old(selectedSubject)
      ensures flashcardTopicAssignments == old(flashcardTopicAssignments) && availableTopics == old(availableTopics)
      ensures imported <==> !(HasUnassigned(flashcardTopicAssignments) && !continueWithout)
      ensures !imported ==>
        previewFlashcards == old(previewFlashcards) && selectedSubject.Record() == old(selectedSubject.Record())
        && store.allFlashcards == old(store.allFlashcards) && store.file == old(store.file)
      ensures imported ==>
        var m := flashcardTopicAssignments;
        previewFlashcards == AssignAll(m, old(previewFlashcards))
        && selectedSubject.Record() == old(selectedSubject.Record()).(flashcards :=
             UnionInOrder(old(selectedSubject.flashcards), Ids(ToImport(m, old(previewFlashcards)))))
        && store.allFlashcards == LoadOr(old(store.file), []) + ToImport(m, old(previewFlashcards))
        && store.file == Parsed(store.allFlashcards)
    {
      if HasUnassigned(flashcardTopicAssignments) && !continueWithout {
        return false;
      }
      var m := flashcardTopicAssignments;
      ApplyAssignments();
      var flashcardsToImport := Filter(previewFlashcards, (f: FlashcardRecord) => Assigned(m, f));
      store.ImportFlashcards(flashcardsToImport);
      imported := true;
    }
  }
}
