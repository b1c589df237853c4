/** The Quizlet import screen: a subject, a loaded export and the checked topics decide which
  * buttons are enabled; publishing files every loaded card under the checked topics and the
  * subject, imports them, and clears the screen. */
module QuizletImport {
  import opened Common
  import opened Flashcards
  import opened Topics
  import opened Subjects
  import opened FlashcardManagement

  /** A file is loaded when it gave at least one card. */
  predicate HasFile(loaded: Option<seq<FlashcardRecord>>)
  {
    loaded.Some? && |loaded.value| > 0
  }

  /** `UpdateButtonStates`: the enabled state of the publish button and of the button that
    * opens the per-card assignment. */
  datatype Buttons = Buttons(publish: bool, individual: bool)

  function ButtonStates(loaded: Option<seq<FlashcardRecord>>, hasSubject: bool, checkedTopics: seq<Topic>): Buttons
  {
    Buttons(HasFile(loaded) && hasSubject && |checkedTopics| > 0, HasFile(loaded) && hasSubject)
  }

  /** The outcome of `ValidateSelection`: accepted, or the first check that failed. */
  datatype Validation = Accepted | NoSubject | NoFile | NoTopics

  function ValidateSelection(hasSubject: bool, loaded: Option<seq<FlashcardRecord>>, checkedTopics: seq<Topic>): Validation
  {
    if !hasSubject then NoSubject
    else if loaded.None? || |loaded.value| == 0 then NoFile
    else if |checkedTopics| == 0 then NoTopics
    else Accepted
  }

  /** The checks run in the order subject, file, topics: each failure is reported only when
    * the checks before it passed, and the selection is accepted exactly when all pass. */
  lemma ValidateSelectionSpec(hasSubject: bool, loaded: Option<seq<FlashcardRecord>>, checkedTopics: seq<Topic>)
    ensures var v := ValidateSelection(hasSubject, loaded, checkedTopics);
      (v == Accepted <==> hasSubject && HasFile(loaded) && checkedTopics != [])
      && (v == NoSubject <==> !hasSubject)
      && (v == NoFile <==> hasSubject && !HasFile(loaded))
      && (v == NoTopics <==> hasSubject && HasFile(loaded) && checkedTopics == [])
  {
  }

  /** The publish button is enabled exactly when publishing would pass validation, and the
    * per-card button exactly when only the topic check could still fail. */
  lemma ButtonsMatchValidation(hasSubject: bool, loaded: Option<seq<FlashcardRecord>>, checkedTopics: seq<Topic>)
    ensures var b := ButtonStates(loaded, hasSubject, checkedTopics);
      var v := ValidateSelection(hasSubject, loaded, checkedTopics);
      (b.publish <==> v == Accepted)
      && (b.individual <==> v == Accepted || v == NoTopics)
      && (b.publish ==> b.individual)
  {
  }

  /** The loaded cards after the publish loop: every one carries the same topic list. */
  function WithTopics(cards: seq<FlashcardRecord>, topicIds: seq<string>): seq<FlashcardRecord>
  {
    seq(|cards|, i requires 0 <= i < |cards| => cards[i].(topics := topicIds))
  }

  /** Publishing changes only the topics of the cards, every one to the checked list. */
  lemma WithTopicsSpec(cards: seq<FlashcardRecord>, topicIds: seq<string>)
    ensures var r := WithTopics(cards, topicIds);
      |r| == |cards| && Ids(r) == Ids(cards)
      && forall i :: 0 <= i < |r| ==> r[i].topics == topicIds && r[i].(topics := cards[i].topics) == cards[i]
  {
  }

  /** The subject's flashcard list after publishing keeps its entries and gains each loaded
    * id at most once. */
  lemma SubjectGainsLoaded(listed: seq<string>, cards: seq<FlashcardRecord>)
    ensures var r := UnionInOrder(listed, Ids(cards));
      listed <= r
      && (forall id :: id in r <==> id in listed || id in Ids(cards))
      && (NoDuplicates(listed) ==> NoDuplicates(r))
  {
    UnionInOrderSpec(listed, Ids(cards));
  }

  /** What the screen holds between events. */
  datatype ImportState = ImportState(
    listedTopics: seq<Topic>,
    checkedTopics: seq<Topic>,
    loadedFlashcards: Option<seq<FlashcardRecord>>,
    selectedFilePath: Option<string>,
    buttons: Buttons)

  class ImportFromQuizletUserControl {
    /** `App.Topics.Load()`, read once when the screen is made. */
    const allTopics: seq<Topic>
    /** The topics the checked list box shows. */
    var listedTopics: seq<Topic>
    var checkedTopics: seq<Topic>
    var loadedFlashcards: Option<seq<FlashcardRecord>>
    var selectedFilePath: Option<string>
    var publishEnabled: bool
    var individualEnabled: bool

    function State(): ImportState
      reads this
    {
      ImportState(listedTopics, checkedTopics, loadedFlashcards, selectedFilePath, Buttons(publishEnabled, individualEnabled))
    }

    /** `InitializeUI` over the followed subjects: binding them to the subject box selects
      * the first one, whose topics the topic box then lists, none checked. Nothing is
      * loaded, so both buttons start disabled. */
    constructor (allTopics: seq<Topic>, mySubjects: seq<SubjectRecord>)
      ensures this.allTopics == allTopics
      ensures State() == ImportState(if mySubjects == [] then [] else SubjectTopics(allTopics, mySubjects[0]),
                                     [], None, None, Buttons(false, false))
    {
      this.allTopics := allTopics;
      listedTopics := if mySubjects == [] then [] else SubjectTopics(allTopics, mySubjects[0]);
      checkedTopics := [];
      loadedFlashcards, selectedFilePath := None, None;
      publishEnabled, individualEnabled := false, false;
    }

    /** `UpdateButtonStates`, with whether the subject box has a selection. */
    method UpdateButtonStates(hasSubject: bool)
      modifies this
      ensures State() == old(State()).(buttons := ButtonStates(loadedFlashcards, hasSubject, checkedTopics))
    {
      var hasFile := loadedFlashcards.Some? && |loadedFlashcards.value| > 0;
      var hasTopics := |checkedTopics| > 0;
      publishEnabled := hasFile && hasSubject && hasTopics;
      individualEnabled := hasFile && hasSubject;
    }

    /** `SubjectComboBox_SelectedIndexChanged`: the topic box lists the selected subject's
      * topics; binding the new list leaves no topic checked. */
    method SubjectChanged(subject: Subject?)
      modifies this
      ensures subject == null ==>
        State() == old(State()).(buttons := ButtonStates(loadedFlashcards, false, checkedTopics))
      ensures subject != null ==>
        State() == old(State()).(listedTopics := SubjectTopics(allTopics, subject.Record()), checkedTopics := [],
                                 buttons := ButtonStates(loadedFlashcards, true, []))
    {
      if subject != null {
        listedTopics := SubjectTopics(allTopics, subject.Record());
        checkedTopics := [];
      }
      UpdateButtonStates(subject != null);
    }

    /** `TopicCheckedListBox_ItemCheck`, once the check has taken effect. */
    method TopicsChecked(checkedItems: seq<Topic>, hasSubject: bool)
      modifies this
      ensures State() == old(State()).(checkedTopics := checkedItems,
                                       buttons := ButtonStates(loadedFlashcards, hasSubject, checkedItems))
    {
      checkedTopics := checkedItems;
      UpdateButtonStates(hasSubject);
    }

    /** `SelectFileButton_Click`; `choice` is the file the dialog returned, if any. A file
      * that gives no card leaves nothing loaded. */
    method SelectFile(choice: Option<(string, Stored<seq<QuizletFlashcard>>)>, hasSubject: bool,
                      store: FlashcardManager, username: Option<string>, now: nat, oracle: GuidOracle)
      requires oracle.Valid()
      modifies this, oracle
      ensures oracle.Valid()
      ensures choice.None? ==> State() == old(State())
      ensures choice.Some? ==>
        var entries := KeptEntries(LoadOr(choice.value.1, []));
        listedTopics == old(listedTopics) && checkedTopics == old(checkedTopics)
        && selectedFilePath == Some(choice.value.0)
        && (loadedFlashcards.None? <==> entries == [])
        && (loadedFlashcards.Some? ==> BuiltFrom(loadedFlashcards.value, entries, store.allFlashcards, username, now))
        && State().buttons == ButtonStates(loadedFlashcards, hasSubject, checkedTopics)
    {
      if choice.None? {
        return;
      }
      var cards := store.LoadFromQuizletFile(choice.value.1, username, now, oracle);
      selectedFilePath := Some(choice.value.0);
      if |cards| > 0 {
        loadedFlashcards := Some(cards);
      } else {
        loadedFlashcards := None;
      }
      UpdateButtonStates(hasSubject);
    }

    /** `ResetImportState`: nothing loaded and no topic checked, so both buttons are disabled. */
    method ResetImportState(hasSubject: bool)
      modifies this
      ensures State() == old(State()).(checkedTopics := [], loadedFlashcards := None, selectedFilePath := None,
                                       buttons := Buttons(false, false))
    {
      loadedFlashcards := None;
      selectedFilePath := None;
      checkedTopics := [];
      UpdateButtonStates(hasSubject);
    }

    /** The loop of `PublishButton_Click`: every card gets the checked topics and is listed
      * by the subject unless it already is. */
    method AssignTopics(cards: seq<FlashcardRecord>, topicIds: seq<string>, subject: Subject)
      returns (updated: seq<FlashcardRecord>)
      modifies subject
      ensures updated == WithTopics(cards, topicIds)
      ensures subject.Record() == old(subject.Record()).(flashcards := UnionInOrder(old(subject.flashcards), Ids(cards)))
    {
      ghost var listed := subject.flashcards;
      updated := [];
      for i := 0 to |cards|
        invariant updated == WithTopics(cards[..i], topicIds)
        invariant subject.Record() == old(subject.Record()).(flashcards := UnionInOrder(listed, Ids(cards[..i])))
      {
        var card := cards[i];
        var ids := Ids(cards[..i + 1]);
        assert cards[..i + 1] == cards[..i] + [card];
        assert ids[..|ids| - 1] == Ids(cards[..i]) && ids[|ids| - 1] == card.flashcardId;
        updated := updated + [card.(topics := topicIds)];
        if card.flashcardId !in subject.flashcards {
          subject.flashcards := subject.flashcards + [card.flashcardId];
        }
      }
      assert cards[..|cards|] == cards;
    }

    /** `PublishButton_Click` with the subject box's selection: a failed validation changes
      * nothing; otherwise the cards, all under the checked topics, are appended to the store,
      * the subject lists them, and the screen is cleared. */
    method Publish(subject: Subject?, store: FlashcardManager) returns (outcome: Validation)
      modifies this, subject, store
      ensures outcome == ValidateSelection(subject != null, old(loadedFlashcards), old(checkedTopics))
      ensures outcome != Accepted ==>
        State() == old(State()) && store.allFlashcards == old(store.allFlashcards) && store.file == old(store.file)
        && (subject != null ==> subject.Record() == old(subject.Record()))
      ensures outcome == Accepted ==>
        var published := WithTopics(old(loadedFlashcards).value, TopicIds(old(checkedTopics)));
        subject != null
        && subject.Record() == old(subject.Record()).(flashcards :=
             UnionInOrder(old(subject.flashcards), Ids(old(loadedFlashcards).value)))
        && store.allFlashcards == LoadOr(old(store.file), []) + published
        && store.file == Parsed(store.allFlashcards)
        && State() == old(State()).(checkedTopics := [], loadedFlashcards := None, selectedFilePath := None,
                                    buttons := Buttons(false, false))
    {
      outcome := ValidateSelection(subject != null, loadedFlashcards, checkedTopics);
      if outcome != Accepted {
        return;
      }
      var published := AssignTopics(loadedFlashcards.value, TopicIds(checkedTopics), subject);
      store.ImportFlashcards(published);
      ResetImportState(true);
    }
  }
}
