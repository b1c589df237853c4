/** The flashcard store: the static list `AllFlashcards` and the JSON file behind it, the
  * editing operations that load, change and save it, the merge of flashcards received from
  * elsewhere, statistics resets, and the Quizlet importers. */
module FlashcardManagement {
  import opened Common
  import opened CardVersions
  import opened Flashcards
  import opened Sorting

  // ---------------------------------------------------------------------------
  // Editing

  /** `flashcards.FindIndex(f => f.FlashcardId == id)`. */
  function FindIndex(cards: seq<FlashcardRecord>, id: string): (i: int)
    ensures i == -1 <==> forall j :: 0 <= j < |cards| ==> cards[j].flashcardId != id
    ensures 0 <= i ==> i < |cards| && cards[i].flashcardId == id
                        && forall j :: 0 <= j < i ==> cards[j].flashcardId != id
  {
    var i := IndexOf(Ids(cards), id);
    assert 0 <= i ==> forall j :: 0 <= j < i ==> cards[j].flashcardId == Ids(cards)[..i][j];
    assert i == -1 ==> forall j :: 0 <= j < |cards| ==> cards[j].flashcardId == Ids(cards)[j];
    i
  }

  /** `flashcards[index].Versions.Add(version)` for the first card with the given id. */
  function WithVersionAppended(cards: seq<FlashcardRecord>, id: string, v: CardVersion): seq<FlashcardRecord>
  {
    var i := FindIndex(cards, id);
    if i < 0 then cards else cards[i := cards[i].(versions := cards[i].versions + [v])]
  }

  /** An edit reaches only the first card with the id, and only by one version at the end of
    * its log; an unknown id changes nothing. */
  lemma EditTouchesOnlyTheMatch(cards: seq<FlashcardRecord>, id: string, v: CardVersion)
    ensures var r := WithVersionAppended(cards, id, v);
      |r| == |cards|
      && (id !in Ids(cards) ==> r == cards)
      && forall j :: 0 <= j < |cards| ==>
           if j == FindIndex(cards, id) then r[j] == cards[j].(versions := cards[j].versions + [v]) else r[j] == cards[j]
  {
    if id !in Ids(cards) {
      assert forall j :: 0 <= j < |cards| ==> cards[j].flashcardId == Ids(cards)[j];
    }
  }

  /** `DeleteFlashcard`: an administrator removes the first card with the id; anyone else
    * appends a deletion flag to it. */
  function WithCardDeleted(cards: seq<FlashcardRecord>, id: string, editor: Option<string>, isAdmin: bool, now: nat): (r: seq<FlashcardRecord>)
    ensures FindIndex(cards, id) < 0 ==> r == cards
    ensures var i := FindIndex(cards, id);
      0 <= i && isAdmin ==> r == cards[..i] + cards[i + 1..] && multiset(r) == multiset(cards) - multiset{cards[i]}
    ensures var i := FindIndex(cards, id);
      0 <= i && !isAdmin ==> |r| == |cards| && r[i] == cards[i].(versions := cards[i].versions + [FlagVersion(editor, true, now)])
                             && r[i].versions[|r[i].versions| - 1].deleted
                             && forall j :: 0 <= j < |cards| && j != i ==> r[j] == cards[j]
  {
    var i := FindIndex(cards, id);
    if i < 0 then cards
    else if isAdmin then
      assert cards == cards[..i] + [cards[i]] + cards[i + 1..];
      cards[..i] + cards[i + 1..]
    else WithVersionAppended(cards, id, FlagVersion(editor, true, now))
  }

  // ---------------------------------------------------------------------------
  // Statistics reset

  function ResetCard(c: FlashcardRecord, clearImportant: bool): FlashcardRecord
  {
    c.(seen := 0, errors := 0, firstSeen := None, lastSeen := None,
       important := if clearImportant then false else c.important)
  }

  /** `ResetAllFlashcardStats`: `clearImportant` distinguishes the overload that takes a list
    * (which also clears the star) from the one over the stored cards (which keeps it). */
  function ResetStats(cards: seq<FlashcardRecord>, clearImportant: bool): (r: seq<FlashcardRecord>)
    ensures |r| == |cards|
    ensures forall i :: 0 <= i < |cards| ==> r[i] == ResetCard(cards[i], clearImportant)
  {
    seq(|cards|, i requires 0 <= i < |cards| => ResetCard(cards[i], clearImportant))
  }

  /** A reset leaves every card unstudied and consistent, keeps its identity, content and
    * topics, and a second reset changes nothing. */
  lemma ResetStatsSpec(cards: seq<FlashcardRecord>, clearImportant: bool)
    ensures var r := ResetStats(cards, clearImportant);
      Ids(r) == Ids(cards)
      && (forall i :: 0 <= i < |r| ==>
            (StatsConsistent(r[i]) && r[i].seen == 0 && r[i].lastSeen == None
             && r[i].versions == cards[i].versions && r[i].topics == cards[i].topics && r[i].level == cards[i].level
             && r[i].important == (!clearImportant && cards[i].important)))
      && ResetStats(r, clearImportant) == r
  {
  }

  // ---------------------------------------------------------------------------
  // Merge

  /** Two versions are the same revision when they agree on time stamp and editor. */
  predicate SameRevision(a: CardVersion, b: CardVersion)
  {
    a.timestamp == b.timestamp && a.editor == b.editor
  }

  predicate RevisionKnown(vs: seq<CardVersion>, v: CardVersion)
  {
    exists i :: 0 <= i < |vs| && SameRevision(vs[i], v)
  }

  /** The inner loop of `MergeFlashcards`: each incoming version is appended unless the log,
    * as grown so far, already has the same revision. */
  function MergeVersions(existing: seq<CardVersion>, incoming: seq<CardVersion>): seq<CardVersion>
    decreases |incoming|
  {
    if incoming == [] then existing
    else
      var prev := MergeVersions(existing, incoming[..|incoming| - 1]);
      var v := incoming[|incoming| - 1];
      if RevisionKnown(prev, v) then prev else prev + [v]
  }

  /** The version merge keeps the existing log as a prefix, appends only incoming versions
    * whose revision was not yet present, and ends up knowing every incoming revision. */
  lemma {:induction false} MergeVersionsSpec(existing: seq<CardVersion>, incoming: seq<CardVersion>)
    ensures existing <= MergeVersions(existing, incoming)
    ensures var r := MergeVersions(existing, incoming);
      forall k :: |existing| <= k < |r| ==> r[k] in incoming && !RevisionKnown(r[..k], r[k])
    ensures forall v :: v in incoming ==> RevisionKnown(MergeVersions(existing, incoming), v)
    decreases |incoming|
  {
    if incoming != [] {
      var init := incoming[..|incoming| - 1];
      var v := incoming[|incoming| - 1];
      var prev := MergeVersions(existing, init);
      MergeVersionsSpec(existing, init);
      assert incoming == init + [v];
      var r := MergeVersions(existing, incoming);
      assert prev <= r;
      forall w | w in incoming ensures RevisionKnown(r, w) {
        if w in init {
          var i :| 0 <= i < |prev| && SameRevision(prev[i], w);
          assert r[i] == prev[i];
        } else {
          assert w == v;
          if !RevisionKnown(prev, v) {
            assert r[|prev|] == v;
          }
        }
      }
      if !RevisionKnown(prev, v) {
        assert r[..|prev|] == prev;
      }
    }
  }

  /** `flashcard.LastSeen > existingCard.LastSeen` on nullable dates: false when either is null. */
  predicate LaterSeen(a: Option<nat>, b: Option<nat>)
  {
    a.Some? && b.Some? && a.value > b.value
  }

  /** A matched card gains the new revisions, and takes the incoming statistics when the
    * incoming card was seen later. */
  function UpdateExisting(existing: FlashcardRecord, incoming: FlashcardRecord): FlashcardRecord
  {
    var merged := existing.(versions := MergeVersions(existing.versions, incoming.versions));
    if LaterSeen(incoming.lastSeen, existing.lastSeen) then
      merged.(seen := incoming.seen, errors := incoming.errors,
              firstSeen := incoming.firstSeen, lastSeen := incoming.lastSeen)
    else merged
  }

  /** One turn of the outer loop of `MergeFlashcards`. */
  function MergeCard(all: seq<FlashcardRecord>, card: FlashcardRecord): seq<FlashcardRecord>
  {
    var i := FindIndex(all, card.flashcardId);
    if i < 0 then all + [card] else all[i := UpdateExisting(all[i], card)]
  }

  function MergeAll(all: seq<FlashcardRecord>, incoming: seq<FlashcardRecord>): seq<FlashcardRecord>
    decreases |incoming|
  {
    if incoming == [] then all
    else MergeCard(MergeAll(all, incoming[..|incoming| - 1]), incoming[|incoming| - 1])
  }

  /** What `MergeFlashcards(incoming, preserveStats)` stores, given the stored cards. */
  function MergeFlashcardsSpec(stored: seq<FlashcardRecord>, incoming: seq<FlashcardRecord>, preserveStats: bool): seq<FlashcardRecord>
  {
    MergeAll(stored, if preserveStats then incoming else ResetStats(incoming, true))
  }

  /** Cards whose id is new are appended in input order, each id once; matched ids add
    * nothing to the list of ids. */
  lemma {:induction false} MergeAllIds(all: seq<FlashcardRecord>, incoming: seq<FlashcardRecord>)
    ensures Ids(MergeAll(all, incoming)) == UnionInOrder(Ids(all), Ids(incoming))
    decreases |incoming|
  {
    if incoming != [] {
      var init := incoming[..|incoming| - 1];
      var card := incoming[|incoming| - 1];
      var prev := MergeAll(all, init);
      MergeAllIds(all, init);
      assert Ids(incoming)[..|incoming| - 1] == Ids(init);
      var i := FindIndex(prev, card.flashcardId);
      if i < 0 {
        assert card.flashcardId !in Ids(prev);
        assert Ids(prev + [card]) == Ids(prev) + [card.flashcardId];
      } else {
        assert Ids(prev)[i] == card.flashcardId;
        assert Ids(prev[i := UpdateExisting(prev[i], card)]) == Ids(prev);
      }
    }
  }

  /** Merging never removes a card or a version: every stored card keeps its place, its id,
    * its level, its topics, its star and its version log as a prefix. */
  lemma {:induction false} MergeAllKeepsCards(all: seq<FlashcardRecord>, incoming: seq<FlashcardRecord>)
    ensures var r := MergeAll(all, incoming);
      |all| <= |r|
      && forall i :: 0 <= i < |all| ==>
           r[i].flashcardId == all[i].flashcardId && all[i].versions <= r[i].versions
           && r[i].level == all[i].level && r[i].topics == all[i].topics && r[i].important == all[i].important
    decreases |incoming|
  {
    if incoming != [] {
      var init := incoming[..|incoming| - 1];
      var card := incoming[|incoming| - 1];
      var prev := MergeAll(all, init);
      MergeAllKeepsCards(all, init);
      var i := FindIndex(prev, card.flashcardId);
      if 0 <= i {
        MergeVersionsSpec(prev[i].versions, card.versions);
      }
    }
  }

  /** Incoming cards that were never seen pass on no statistics: every stored card keeps
    * its counters and dates. */
  lemma {:induction false} MergeUnseenKeepsStats(all: seq<FlashcardRecord>, incoming: seq<FlashcardRecord>)
    requires forall j :: 0 <= j < |incoming| ==> incoming[j].lastSeen == None
    ensures var r := MergeAll(all, incoming);
      |all| <= |r|
      && forall i :: 0 <= i < |all| ==>
           r[i].seen == all[i].seen && r[i].errors == all[i].errors
           && r[i].firstSeen == all[i].firstSeen && r[i].lastSeen == all[i].lastSeen
    decreases |incoming|
  {
    if incoming != [] {
      MergeUnseenKeepsStats(all, incoming[..|incoming| - 1]);
    }
  }

  /** Cards whose statistics are consistent stay consistent through a merge. */
  lemma {:induction false} MergeKeepsConsistency(all: seq<FlashcardRecord>, incoming: seq<FlashcardRecord>)
    requires forall i :: 0 <= i < |all| ==> StatsConsistent(all[i])
    requires forall j :: 0 <= j < |incoming| ==> StatsConsistent(incoming[j])
    ensures forall i :: 0 <= i < |MergeAll(all, incoming)| ==> StatsConsistent(MergeAll(all, incoming)[i])
    decreases |incoming|
  {
    if incoming != [] {
      MergeKeepsConsistency(all, incoming[..|incoming| - 1]);
    }
  }

  /** With `preserveStats == false` the incoming cards are reset first, so no stored card's
    * statistics change and every card the merge adds arrives unstudied and unstarred. */
  lemma MergeWithoutStatsKeepsStoredStats(stored: seq<FlashcardRecord>, incoming: seq<FlashcardRecord>)
    ensures var r := MergeFlashcardsSpec(stored, incoming, false);
      |stored| <= |r|
      && (forall i :: 0 <= i < |stored| ==>
            r[i].seen == stored[i].seen && r[i].errors == stored[i].errors
            && r[i].firstSeen == stored[i].firstSeen && r[i].lastSeen == stored[i].lastSeen)
      && (forall i :: |stored| <= i < |r| ==> r[i].seen == 0 && r[i].errors == 0 && r[i].lastSeen == None && !r[i].important)
  {
    var reset := ResetStats(incoming, true);
    MergeUnseenKeepsStats(stored, reset);
    MergeAddedAreFromInput(stored, reset);
    ResetStatsSpec(incoming, true);
  }

  /** The statistics a merge can pass on: the two counters and the two dates. */
  function Stats(f: FlashcardRecord): (int, int, Option<nat>, Option<nat>)
  {
    (f.seen, f.errors, f.firstSeen, f.lastSeen)
  }

  /** Every card past the stored prefix of a merge result came from the input: it has the
    * id, level, topics and star of the incoming card that added it, and the statistics of
    * some incoming card with its id (a later copy seen later may have replaced them). */
  lemma {:induction false} MergeAddedAreFromInput(all: seq<FlashcardRecord>, incoming: seq<FlashcardRecord>)
    ensures var r := MergeAll(all, incoming);
      |all| <= |r|
      && forall i :: |all| <= i < |r| ==>
           (exists j :: 0 <= j < |incoming| && r[i].flashcardId == incoming[j].flashcardId
                        && r[i].level == incoming[j].level && r[i].topics == incoming[j].topics
                        && r[i].important == incoming[j].important)
           && (exists k :: 0 <= k < |incoming| && incoming[k].flashcardId == r[i].flashcardId
                             && Stats(r[i]) == Stats(incoming[k]))
    decreases |incoming|
  {
    if incoming != [] {
      var init := incoming[..|incoming| - 1];
      var card := incoming[|incoming| - 1];
      MergeAddedAreFromInput(all, init);
      MergeAllKeepsCards(all, init);
      var prev := MergeAll(all, init);
      var r := MergeAll(all, incoming);
      var m := FindIndex(prev, card.flashcardId);
      forall i | |all| <= i < |r|
        ensures exists j :: (0 <= j < |incoming| && r[i].flashcardId == incoming[j].flashcardId
          && r[i].level == incoming[j].level && r[i].topics == incoming[j].topics
          && r[i].important == incoming[j].important)
        ensures exists k :: (0 <= k < |incoming| && incoming[k].flashcardId == r[i].flashcardId
          && Stats(r[i]) == Stats(incoming[k]))
      {
        if i == |prev| {
          assert r[i] == card && incoming[|incoming| - 1] == card;
        } else {
          var j :| 0 <= j < |init| && prev[i].flashcardId == init[j].flashcardId
            && prev[i].level == init[j].level && prev[i].topics == init[j].topics
            && prev[i].important == init[j].important;
          var k :| 0 <= k < |init| && init[k].flashcardId == prev[i].flashcardId
            && Stats(prev[i]) == Stats(init[k]);
          assert incoming[j] == init[j] && incoming[k] == init[k];
          if i == m && LaterSeen(card.lastSeen, prev[i].lastSeen) {
            assert Stats(r[i]) == Stats(incoming[|incoming| - 1]);
          }
        }
      }
    }
  }

  /** A local card that was never studied does not take the statistics of an incoming copy
    * that was: the nullable comparison is false when the local date is null. */
  lemma UnseenLocalCardKeepsStats(existing: FlashcardRecord, incoming: FlashcardRecord)
    requires existing.lastSeen == None
    ensures UpdateExisting(existing, incoming).seen == existing.seen
    ensures UpdateExisting(existing, incoming).lastSeen == None
  {
  }

  // ---------------------------------------------------------------------------
  // Ordering and Quizlet entries

  function PriorityKey(priority: FlashcardRecord -> int): FlashcardRecord -> Key
  {
    (f: FlashcardRecord) => Key(-priority(f), 0)
  }

  /** `OrderByDescending(f => f.Priority)`, for an integer-valued priority. */
  function OrderedByPriority(cards: seq<FlashcardRecord>, priority: FlashcardRecord -> int): seq<FlashcardRecord>
  {
    SortBy(cards, PriorityKey(priority))
  }

  /** The priority order is a permutation of its input, non-increasing in priority, and keeps
    * the input order of cards with equal priority. */
  lemma OrderedByPriorityIsStableSort(cards: seq<FlashcardRecord>, priority: FlashcardRecord -> int)
    ensures multiset(OrderedByPriority(cards, priority)) == multiset(cards)
    ensures var r := OrderedByPriority(cards, priority);
      forall i, j :: 0 <= i < j < |r| ==> priority(r[i]) >= priority(r[j])
    ensures forall k: Key :: WithKey(OrderedByPriority(cards, priority), PriorityKey(priority), k)
                            == WithKey(cards, PriorityKey(priority), k)
  {
    var key := PriorityKey(priority);
    SortByOrders(cards, key);
    var r := OrderedByPriority(cards, priority);
    forall i, j | 0 <= i < j < |r| ensures priority(r[i]) >= priority(r[j]) {
      assert KeyLe(key(r[i]), key(r[j]));
    }
    forall k: Key ensures WithKey(r, key, k) == WithKey(cards, key, k) {
      SortByStable(cards, key, k);
    }
  }

  predicate HasContent(e: QuizletFlashcard)
  {
    e.term.Some? || e.definition.Some?
  }

  /** The Quizlet entries that become cards: those with a term or a definition, in order. */
  function KeptEntries(entries: seq<QuizletFlashcard>): seq<QuizletFlashcard>
  {
    Filter(entries, HasContent)
  }

  lemma {:induction false} KeptEntriesSnoc(entries: seq<QuizletFlashcard>, e: QuizletFlashcard)
    ensures KeptEntries(entries + [e]) == KeptEntries(entries) + (if HasContent(e) then [e] else [])
  {
    FilterAppend(entries, [e], HasContent);
    assert [e][1..] == [];
  }

  /** The card `new Flashcard(term, definition)` makes from a kept entry. */
  function QuizletCard(e: QuizletFlashcard, id: string, username: Option<string>, now: nat): FlashcardRecord
  {
    Unstudied(id, HL, [NewVersion(e.term, e.definition, username, now)], [])
  }

  /** The cards built from `entries` in order, each with a fresh id unused by `existing`. */
  predicate BuiltFrom(cards: seq<FlashcardRecord>, entries: seq<QuizletFlashcard>, existing: seq<FlashcardRecord>,
                      username: Option<string>, now: nat)
  {
    |cards| == |entries|
    && (forall i :: 0 <= i < |cards| ==> cards[i] == QuizletCard(entries[i], cards[i].flashcardId, username, now))
    && (forall i :: 0 <= i < |cards| ==> cards[i].flashcardId !in Ids(existing))
    && NoDuplicates(Ids(cards))
  }

  lemma IdsAppend(a: seq<FlashcardRecord>, b: seq<FlashcardRecord>)
    ensures Ids(a + b) == Ids(a) + Ids(b)
  {
  }

  lemma IdOutside(cards: seq<FlashcardRecord>, ids: set<string>, id: string)
    requires forall k :: 0 <= k < |cards| ==> cards[k].flashcardId in ids
    requires id !in ids
    ensures id !in Ids(cards)
  {
  }

  lemma BuiltFromSnoc(cards: seq<FlashcardRecord>, entries: seq<QuizletFlashcard>, existing: seq<FlashcardRecord>,
                      username: Option<string>, now: nat, e: QuizletFlashcard, id: string)
    requires BuiltFrom(cards, entries, existing, username, now)
    requires id !in Ids(existing) && id !in Ids(cards)
    ensures BuiltFrom(cards + [QuizletCard(e, id, username, now)], entries + [e], existing, username, now)
  {
    IdsAppend(cards, [QuizletCard(e, id, username, now)]);
  }

  /** One kept entry read: `new Flashcard(term, definition)`, whose id is fresh and unused
    * by `existing`. */
  method NewQuizletCard(e: QuizletFlashcard, username: Option<string>, now: nat,
                        existing: seq<FlashcardRecord>, oracle: GuidOracle) returns (card: FlashcardRecord)
    requires oracle.Valid()
    modifies oracle
    ensures oracle.Valid() && old(oracle.issued) <= oracle.issued
    ensures card == QuizletCard(e, card.flashcardId, username, now)
    ensures card.flashcardId !in Ids(existing) && card.flashcardId in oracle.issued - old(oracle.issued)
  {
    var f := new Flashcard(e.term, e.definition, username, now, existing, oracle);
    card := f.Record();
  }

  /** The cards built so far stay built from the entries kept so far after one more entry. */
  lemma QuizletStep(cards: seq<FlashcardRecord>, entries: seq<QuizletFlashcard>, existing: seq<FlashcardRecord>,
                    username: Option<string>, now: nat, e: QuizletFlashcard, card: FlashcardRecord)
    requires BuiltFrom(cards, KeptEntries(entries), existing, username, now)
    requires HasContent(e) ==>
      card == QuizletCard(e, card.flashcardId, username, now)
      && card.flashcardId !in Ids(existing) && card.flashcardId !in Ids(cards)
    ensures BuiltFrom(cards + (if HasContent(e) then [card] else []), KeptEntries(entries + [e]), existing, username, now)
  {
    KeptEntriesSnoc(entries, e);
    if HasContent(e) {
      BuiltFromSnoc(cards, KeptEntries(entries), existing, username, now, e, card.flashcardId);
    } else {
      assert cards + [] == cards;
    }
  }

  /** An id outside the issued set is none of the ids issued for `cards`. */
  lemma FreshIdUnused(cards: seq<FlashcardRecord>, id: string, issued: set<string>)
    requires forall k :: 0 <= k < |cards| ==> cards[k].flashcardId in issued
    requires id !in issued
    ensures id !in Ids(cards)
  {
  }

  /** The facts one pass of the `LoadFromQuizletFile` loop keeps, with `card` the card made
    * for a kept entry while the oracle's issued set grew from `issued` to `issued'`. */
  lemma LoadStepKeeps(cards: seq<FlashcardRecord>, entries: seq<QuizletFlashcard>, i: nat, existing: seq<FlashcardRecord>,
                      username: Option<string>, now: nat, card: FlashcardRecord,
                      before: set<string>, issued: set<string>, issued': set<string>)
    requires i < |entries| && before <= issued <= issued'
    requires BuiltFrom(cards, KeptEntries(entries[..i]), existing, username, now)
    requires forall k :: 0 <= k < |cards| ==> cards[k].flashcardId in issued - before
    requires HasContent(entries[i]) ==>
      card == QuizletCard(entries[i], card.flashcardId, username, now)
      && card.flashcardId !in Ids(existing) && card.flashcardId in issued' - issued
    ensures var next := cards + (if HasContent(entries[i]) then [card] else []);
      BuiltFrom(next, KeptEntries(entries[..i + 1]), existing, username, now)
      && forall k :: 0 <= k < |next| ==> next[k].flashcardId in issued' - before
  {
    assert entries[..i + 1] == entries[..i] + [entries[i]];
    if HasContent(entries[i]) {
      FreshIdUnused(cards, card.flashcardId, issued);
    }
    QuizletStep(cards, entries[..i], existing, username, now, entries[i], card);
  }

  /** One pass of the `LoadFromQuizletFile` loop: a kept entry becomes a card whose id the
    * oracle issues fresh, so it differs from the ids issued for the cards before it. */
  method LoadStep(cards: seq<FlashcardRecord>, entries: seq<QuizletFlashcard>, i: nat, existing: seq<FlashcardRecord>,
                  username: Option<string>, now: nat, oracle: GuidOracle, ghost before: set<string>)
    returns (next: seq<FlashcardRecord>)
    requires i < |entries| && oracle.Valid() && before <= oracle.issued
    requires BuiltFrom(cards, KeptEntries(entries[..i]), existing, username, now)
    requires forall k :: 0 <= k < |cards| ==> cards[k].flashcardId in oracle.issued - before
    modifies oracle
    ensures oracle.Valid() && before <= oracle.issued
    ensures BuiltFrom(next, KeptEntries(entries[..i + 1]), existing, username, now)
    ensures forall k :: 0 <= k < |next| ==> next[k].flashcardId in oracle.issued - before
  {
    var entry := entries[i];
    ghost var issued := oracle.issued;
    if entry.term != None || entry.definition != None {
      var card := NewQuizletCard(entry, username, now, existing, oracle);
      LoadStepKeeps(cards, entries, i, existing, username, now, card, before, issued, oracle.issued);
      next := cards + [card];
    } else {
      LoadStepKeeps(cards, entries, i, existing, username, now, Unstudied("", HL, [], []), before, issued, issued);
      next := cards;
    }
  }

  /** The facts one pass of the `ImportFromQuizlet` loop keeps, with `card` the card made
    * for a kept entry. */
  lemma ImportStepKeeps(added: seq<FlashcardRecord>, entries: seq<QuizletFlashcard>, i: nat, loaded: seq<FlashcardRecord>,
                        username: Option<string>, now: nat, card: FlashcardRecord)
    requires i < |entries|
    requires BuiltFrom(added, KeptEntries(entries[..i]), loaded, username, now)
    requires HasContent(entries[i]) ==>
      card == QuizletCard(entries[i], card.flashcardId, username, now) && card.flashcardId !in Ids(loaded + added)
    ensures BuiltFrom(added + (if HasContent(entries[i]) then [card] else []), KeptEntries(entries[..i + 1]), loaded, username, now)
    ensures KeptEntries(entries[..i + 1]) == KeptEntries(entries[..i]) + (if HasContent(entries[i]) then [entries[i]] else [])
  {
    assert entries[..i + 1] == entries[..i] + [entries[i]];
    KeptEntriesSnoc(entries[..i], entries[i]);
    IdsAppend(loaded, added);
    QuizletStep(added, entries[..i], loaded, username, now, entries[i], card);
  }

  /** One pass of the `ImportFromQuizlet` loop: the id is checked against the loaded cards
    * and those added so far. */
  method ImportStep(added: seq<FlashcardRecord>, entries: seq<QuizletFlashcard>, i: nat, loaded: seq<FlashcardRecord>,
                    username: Option<string>, now: nat, oracle: GuidOracle)
    returns (next: seq<FlashcardRecord>)
    requires i < |entries| && oracle.Valid()
    requires BuiltFrom(added, KeptEntries(entries[..i]), loaded, username, now)
    modifies oracle
    ensures oracle.Valid()
    ensures BuiltFrom(next, KeptEntries(entries[..i + 1]), loaded, username, now)
    ensures KeptEntries(entries[..i + 1]) == KeptEntries(entries[..i]) + (if HasContent(entries[i]) then [entries[i]] else [])
  {
    var entry := entries[i];
    if entry.term != None || entry.definition != None {
      var card := NewQuizletCard(entry, username, now, loaded + added, oracle);
      ImportStepKeeps(added, entries, i, loaded, username, now, card);
      next := added + [card];
    } else {
      ImportStepKeeps(added, entries, i, loaded, username, now, Unstudied("", HL, [], []));
      next := added;
    }
  }

  /** The loop of `ImportFromQuizlet`: the new cards, and whether any entry was kept. */
  method ImportCards(entries: seq<QuizletFlashcard>, loaded: seq<FlashcardRecord>, username: Option<string>, now: nat,
                     oracle: GuidOracle) returns (added: seq<FlashcardRecord>, anyKept: bool)
    requires oracle.Valid()
    modifies oracle
    ensures oracle.Valid()
    ensures BuiltFrom(added, KeptEntries(entries), loaded, username, now)
    ensures anyKept <==> KeptEntries(entries) != []
  {
    anyKept := false;
    added := [];
    var i := 0;
    while i < |entries|
      invariant 0 <= i <= |entries| && oracle.Valid()
      invariant BuiltFrom(added, KeptEntries(entries[..i]), loaded, username, now)
      invariant anyKept <==> KeptEntries(entries[..i]) != []
    {
      added := ImportStep(added, entries, i, loaded, username, now, oracle);
      if HasContent(entries[i]) {
        anyKept := true;
      }
      i := i + 1;
    }
    assert entries[..i] == entries;
  }

  /** One turn of the outer loop of `MergeFlashcards`: a matched card gains the new
    * revisions one by one and takes the later statistics; an unmatched one is appended. */
  method MergeOne(all: seq<FlashcardRecord>, card: FlashcardRecord) returns (r: seq<FlashcardRecord>)
    ensures r == MergeCard(all, card)
  {
    r := all;
    var k := FindIndex(all, card.flashcardId);
    if k >= 0 {
      var existing := all[k];
      var versions := existing.versions;
      var j := 0;
      while j < |card.versions|
        invariant 0 <= j <= |card.versions|
        invariant versions == MergeVersions(existing.versions, card.versions[..j])
      {
        var newVersion := card.versions[j];
        if !RevisionKnown(versions, newVersion) {
          versions := versions + [newVersion];
        }
        assert card.versions[..j + 1][..j] == card.versions[..j];
        j := j + 1;
      }
      assert card.versions[..j] == card.versions;
      var updated := existing.(versions := versions);
      if LaterSeen(card.lastSeen, existing.lastSeen) {
        updated := updated.(seen := card.seen, errors := card.errors,
                            firstSeen := card.firstSeen, lastSeen := card.lastSeen);
      }
      r := all[k := updated];
    } else {
      r := all + [card];
    }
  }

  // ---------------------------------------------------------------------------
  // The store

  class FlashcardManager {
    /** `AllFlashcards`. */
    var allFlashcards: seq<FlashcardRecord>
    /** The content of `flashcards.json`. */
    var file: Stored<seq<FlashcardRecord>>

    constructor (initial: Stored<seq<FlashcardRecord>>)
      ensures allFlashcards == [] && file == initial
    {
      allFlashcards := [];
      file := initial;
    }

    method Load() returns (cards: seq<FlashcardRecord>)
      modifies this
      ensures file == old(file)
      ensures cards == allFlashcards == LoadOr(file, [])
    {
      allFlashcards := LoadOr(file, []);
      cards := allFlashcards;
    }

    method Save()
      modifies this
      ensures allFlashcards == old(allFlashcards) && file == Parsed(allFlashcards)
    {
      file := Parsed(allFlashcards);
    }

    method SaveFlashcards(cards: seq<FlashcardRecord>)
      modifies this
      ensures file == Parsed(cards) && allFlashcards == cards
    {
      file := Parsed(cards);
      allFlashcards := cards;
    }

    /** A null card is refused (`ArgumentNullException`) before anything is read or written. */
    method AddFlashcard(newCard: Flashcard?) returns (accepted: bool)
      modifies this
      ensures accepted == (newCard != null)
      ensures !accepted ==> allFlashcards == old(allFlashcards) && file == old(file)
      ensures accepted ==> allFlashcards == LoadOr(old(file), []) + [newCard.Record()] && file == Parsed(allFlashcards)
    {
      if newCard == null {
        return false;
      }
      var cards := Load();
      cards := cards + [newCard.Record()];
      SaveFlashcards(cards);
      accepted := true;
    }

    /** `EditFlashcard(id, question, answer, editor)`. */
    method EditFlashcard(id: string, question: Option<string>, answer: Option<string>, editor: Option<string>, now: nat)
      modifies this
      ensures var loaded := LoadOr(old(file), []);
        allFlashcards == WithVersionAppended(loaded, id, NewVersion(question, answer, editor, now))
        && file == (if id in Ids(loaded) then Parsed(allFlashcards) else old(file))
    {
      var cards := Load();
      var index := FindIndex(cards, id);
      if index != -1 {
        cards := cards[index := cards[index].(versions := cards[index].versions + [NewVersion(question, answer, editor, now)])];
        SaveFlashcards(cards);
      } else {
        assert forall j :: 0 <= j < |cards| ==> cards[j].flashcardId == Ids(cards)[j];
      }
    }

    /** `EditFlashcard(id, version)`. */
    method EditFlashcardWithVersion(id: string, version: CardVersion)
      modifies this
      ensures var loaded := LoadOr(old(file), []);
        allFlashcards == WithVersionAppended(loaded, id, version)
        && file == (if id in Ids(loaded) then Parsed(allFlashcards) else old(file))
    {
      var cards := Load();
      var index := FindIndex(cards, id);
      if index != -1 {
        cards := cards[index := cards[index].(versions := cards[index].versions + [version])];
        SaveFlashcards(cards);
      } else {
        assert forall j :: 0 <= j < |cards| ==> cards[j].flashcardId == Ids(cards)[j];
      }
    }

    method DeleteFlashcard(id: string, editor: Option<string>, isAdmin: bool, now: nat)
      modifies this
      ensures var loaded := LoadOr(old(file), []);
        allFlashcards == WithCardDeleted(loaded, id, editor, isAdmin, now)
        && file == (if FindIndex(loaded, id) >= 0 then Parsed(allFlashcards) else old(file))
    {
      var cards := Load();
      var index := FindIndex(cards, id);
      if index != -1 {
        if isAdmin {
          cards := cards[..index] + cards[index + 1..];
        } else {
          cards := cards[index := cards[index].(versions := cards[index].versions + [FlagVersion(editor, true, now)])];
        }
        SaveFlashcards(cards);
      }
    }

    /** `ResetAllFlashcardStats(list)`: resets the given cards in place; `important` is cleared too. */
    method ResetAllFlashcardStatsOf(flashcards: array<FlashcardRecord>)
      modifies flashcards
      ensures flashcards[..] == ResetStats(old(flashcards[..]), true)
    {
      var i := 0;
      while i < flashcards.Length
        invariant 0 <= i <= flashcards.Length
        invariant flashcards[..i] == ResetStats(old(flashcards[..i]), true)
        invariant flashcards[i..] == old(flashcards[i..])
      {
        flashcards[i] := ResetCard(flashcards[i], true);
        i := i + 1;
      }
    }

    /** `ResetAllFlashcardStats()`: resets the cards in memory, keeping their stars, and saves them. */
    method ResetAllFlashcardStats()
      modifies this
      ensures allFlashcards == ResetStats(old(allFlashcards), false) && file == Parsed(allFlashcards)
    {
      var cards := allFlashcards;
      var i := 0;
      while i < |cards|
        invariant 0 <= i <= |cards| && |cards| == |allFlashcards|
        invariant cards[..i] == ResetStats(allFlashcards[..i], false)
        invariant cards[i..] == allFlashcards[i..]
      {
        cards := cards[i := ResetCard(cards[i], false)];
        i := i + 1;
      }
      SaveFlashcards(cards);
    }

    /** `MergeFlashcards(flashcardsToMerge, preserveStats)`. Without `preserveStats` the caller's
      * cards are reset in place first, as in the source. */
    method MergeFlashcards(incoming: array<FlashcardRecord>, preserveStats: bool)
      modifies this, incoming
      ensures incoming[..] == if preserveStats then old(incoming[..]) else ResetStats(old(incoming[..]), true)
      ensures allFlashcards == MergeFlashcardsSpec(LoadOr(old(file), []), old(incoming[..]), preserveStats)
      ensures file == Parsed(allFlashcards)
    {
      var all := Load();
      ghost var loaded := all;
      if !preserveStats {
        ResetAllFlashcardStatsOf(incoming);
      }
      ghost var input := incoming[..];
      var i := 0;
      while i < incoming.Length
        invariant 0 <= i <= incoming.Length && incoming[..] == input
        invariant all == MergeAll(loaded, input[..i])
      {
        all := MergeOne(all, incoming[i]);
        assert input[..i + 1][..i] == input[..i];
        i := i + 1;
      }
      assert input[..i] == input;
      SaveFlashcards(all);
    }

    /** `MergeFlashcards(flashcardsToMerge, username)`: statistics are kept exactly when the
      * cards come from the signed-in user. */
    method MergeFlashcardsFrom(incoming: array<FlashcardRecord>, username: Option<string>, currentUsername: Option<string>)
      modifies this, incoming
      ensures incoming[..] == if username == currentUsername then old(incoming[..]) else ResetStats(old(incoming[..]), true)
      ensures allFlashcards == MergeFlashcardsSpec(LoadOr(old(file), []), old(incoming[..]), username == currentUsername)
      ensures file == Parsed(allFlashcards)
    {
      MergeFlashcards(incoming, username == currentUsername);
    }

    /** `ImportFlashcards`: appends the cards to the stored ones. */
    method ImportFlashcards(cards: seq<FlashcardRecord>)
      modifies this
      ensures allFlashcards == LoadOr(old(file), []) + cards && file == Parsed(allFlashcards)
    {
      var all := Load();
      all := all + cards;
      SaveFlashcards(all);
    }

    /** `LoadFromQuizletFile`: one new card per kept entry, in order, not saved. The ids are
      * checked against the loaded cards only, which this method does not change. */
    method LoadFromQuizletFile(quizletFile: Stored<seq<QuizletFlashcard>>, username: Option<string>, now: nat, oracle: GuidOracle)
      returns (cards: seq<FlashcardRecord>)
      requires oracle.Valid()
      modifies oracle
      ensures oracle.Valid()
      ensures BuiltFrom(cards, KeptEntries(LoadOr(quizletFile, [])), allFlashcards, username, now)
      ensures forall k :: 0 <= k < |cards| ==> cards[k].flashcardId !in old(oracle.issued)
    {
      var entries := LoadOr(quizletFile, []);
      cards := [];
      var i := 0;
      while i < |entries|
        invariant 0 <= i <= |entries| && oracle.Valid() && old(oracle.issued) <= oracle.issued
        invariant BuiltFrom(cards, KeptEntries(entries[..i]), allFlashcards, username, now)
        invariant forall k :: 0 <= k < |cards| ==> cards[k].flashcardId in oracle.issued - old(oracle.issued)
        modifies oracle
      {
        cards := LoadStep(cards, entries, i, allFlashcards, username, now, oracle, old(oracle.issued));
        i := i + 1;
      }
      assert entries[..i] == entries;
    }

    /** `ImportFromQuizlet`: the new cards are appended to the stored ones and saved; the
      * answer says whether any entry was kept. Each id is checked against the list as it
      * grows, so it is unused by the loaded cards and by those added before it. */
    method ImportFromQuizlet(quizletFile: Stored<seq<QuizletFlashcard>>, username: Option<string>, now: nat, oracle: GuidOracle)
      returns (importSuccessful: bool)
      requires oracle.Valid()
      modifies this, oracle
      ensures oracle.Valid()
      ensures importSuccessful <==> KeptEntries(LoadOr(quizletFile, [])) != []
      ensures var loaded := LoadOr(old(file), []);
        |loaded| <= |allFlashcards| && allFlashcards[..|loaded|] == loaded
        && BuiltFrom(allFlashcards[|loaded|..], KeptEntries(LoadOr(quizletFile, [])), loaded, username, now)
      ensures file == Parsed(allFlashcards)
    {
      var loaded := Load();
      var added;
      added, importSuccessful := ImportCards(LoadOr(quizletFile, []), loaded, username, now, oracle);
      SaveFlashcards(loaded + added);
      assert (loaded + added)[..|loaded|] == loaded && (loaded + added)[|loaded|..] == added;
    }
  }
}
