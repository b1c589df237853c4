/** The study screen: which stored cards a session shows and in which order, and the cursor
  * that walks through them cyclically as the user answers, skips and flips cards. */
module StudySession {
  import opened Common
  import opened CardVersions
  import opened Flashcards
  import opened Subjects
  import opened Sorting
  import FlashcardManagement
  import SettingsManagement

  /** The id of the subject-list entry that stands for all followed subjects. */
  const AllSubjectsId: string := "ALL_SUBJECTS"

  // ---------------------------------------------------------------------------
  // Which cards a session shows

  /** `Versions.OrderByDescending(v => v.Timestamp).FirstOrDefault()`: of the versions with
    * the greatest timestamp, the first in list order; none for an empty list. */
  function LatestByTimestamp(vs: seq<CardVersion>): Option<CardVersion>
    decreases |vs|
  {
    if vs == [] then None
    else
      var r := LatestByTimestamp(vs[..|vs| - 1]);
      var v := vs[|vs| - 1];
      if r.None? || r.value.timestamp < v.timestamp then Some(v) else r
  }

  /** `vs[i]` is the latest version: no version is later, and every earlier one is older. */
  predicate LatestAt(vs: seq<CardVersion>, i: int)
  {
    0 <= i < |vs|
    && (forall j :: 0 <= j < i ==> vs[j].timestamp < vs[i].timestamp)
    && (forall j :: i <= j < |vs| ==> vs[j].timestamp <= vs[i].timestamp)
  }

  lemma {:induction false} LatestByTimestampSpec(vs: seq<CardVersion>)
    ensures LatestByTimestamp(vs).None? <==> vs == []
    ensures LatestByTimestamp(vs).Some? ==> exists i :: LatestAt(vs, i) && vs[i] == LatestByTimestamp(vs).value
    decreases |vs|
  {
    if vs != [] {
      var init := vs[..|vs| - 1];
      var v := vs[|vs| - 1];
      LatestByTimestampSpec(init);
      var r := LatestByTimestamp(init);
      if r.None? {
        assert init == [];
        assert LatestAt(vs, 0);
      } else {
        var i :| LatestAt(init, i) && init[i] == r.value;
        assert forall j :: 0 <= j < |init| ==> vs[j] == init[j];
        if r.value.timestamp < v.timestamp {
          forall j | 0 <= j < |vs| - 1 ensures vs[j].timestamp < v.timestamp {
            assert init[j].timestamp <= init[i].timestamp;
          }
          assert LatestAt(vs, |vs| - 1);
        } else {
          assert vs[i] == r.value;
          assert LatestAt(vs, i);
        }
      }
    }
  }

  /** The levels a card may have for a user whose level in its subject is `userLevel`. */
  function AllowedLevels(userLevel: Level): (r: set<Level>)
    ensures SL in r
    ensures HL in r <==> userLevel == HL
  {
    if userLevel == HL then {SL, HL} else {SL}
  }

  /** What `LoadSelection` and the settings provide: the selected subject (none when nothing
    * is selected), the checked topics' ids, the followed subjects and the user's levels. */
  datatype Selection = Selection(
    subject: Option<SubjectRecord>,
    topicIds: set<string>,
    mySubjects: seq<SubjectRecord>,
    levels: map<string, Level>)

  predicate AllSubjectsSelected(sel: Selection)
  {
    sel.subject.Some? && sel.subject.value.subjectId == AllSubjectsId
  }

  /** The `allowedLevels` of `LoadFlashcards`: the user's level in a selected real subject
    * (HL when there is no entry), both levels otherwise. */
  function SelectionLevels(sel: Selection): set<Level>
  {
    if sel.subject.Some? && !AllSubjectsSelected(sel)
    then AllowedLevels(SettingsManagement.SubjectLevel(sel.levels, sel.subject.value.subjectId))
    else {SL, HL}
  }

  /** `MySubjects.FirstOrDefault(s => s.Flashcards.Contains(id))`, as a position or -1. */
  function OwningSubject(mySubjects: seq<SubjectRecord>, id: string): (k: int)
    ensures -1 <= k < |mySubjects|
    ensures k == -1 <==> forall j :: 0 <= j < |mySubjects| ==> id !in mySubjects[j].flashcards
    ensures 0 <= k ==> id in mySubjects[k].flashcards
                        && forall j :: 0 <= j < k ==> id !in mySubjects[j].flashcards
    decreases |mySubjects|
  {
    if mySubjects == [] then -1
    else if id in mySubjects[0].flashcards then 0
    else
      var k := OwningSubject(mySubjects[1..], id);
      if k < 0 then -1 else k + 1
  }

  /** Whether the card belongs to the selection's subject scope at an allowed level:
    * under all subjects, the first followed subject listing the card decides the level. */
  predicate InScope(f: FlashcardRecord, sel: Selection)
  {
    if AllSubjectsSelected(sel) then
      var k := OwningSubject(sel.mySubjects, f.flashcardId);
      k >= 0 && f.level in AllowedLevels(SettingsManagement.SubjectLevel(sel.levels, sel.mySubjects[k].subjectId))
    else
      (sel.subject.None? || f.flashcardId in sel.subject.value.flashcards) && f.level in SelectionLevels(sel)
  }

  predicate SharesTopic(f: FlashcardRecord, topicIds: set<string>)
  {
    exists i :: 0 <= i < |f.topics| && f.topics[i] in topicIds
  }

  /** `IsValidFlashcard`. */
  predicate IsValidFlashcard(f: FlashcardRecord, sel: Selection)
  {
    var latest := LatestByTimestamp(f.versions);
    latest.Some? && !latest.value.deleted
    && InScope(f, sel)
    && (sel.topicIds == {} || SharesTopic(f, sel.topicIds))
  }

  /** A valid card has versions, and a version with the greatest timestamp, the first such,
    * that is not a deletion; a card without versions is never valid. */
  lemma ValidCardIsLive(f: FlashcardRecord, sel: Selection)
    ensures f.versions == [] ==> !IsValidFlashcard(f, sel)
    ensures IsValidFlashcard(f, sel) ==> exists i :: LatestAt(f.versions, i) && !f.versions[i].deleted
  {
    LatestByTimestampSpec(f.versions);
  }

  /** With no topic checked the topic test accepts every card; with some checked, a card
    * passes exactly when it passes without them and shares one of them. */
  lemma TopicFilter(f: FlashcardRecord, sel: Selection)
    ensures IsValidFlashcard(f, sel) <==>
      IsValidFlashcard(f, sel.(topicIds := {})) && (sel.topicIds == {} || SharesTopic(f, sel.topicIds))
  {
  }

  /** For a selected real subject: an SL card passes the level test always, an HL card
    * exactly when the user's level there is HL or unset. The outcome is that of the same
    * card at SL, restricted in this way. */
  lemma LevelRule(f: FlashcardRecord, sel: Selection)
    requires sel.subject.Some? && !AllSubjectsSelected(sel)
    ensures var id := sel.subject.value.subjectId;
      IsValidFlashcard(f, sel) <==>
        IsValidFlashcard(f.(level := SL), sel)
        && (f.level == HL ==> id !in sel.levels || sel.levels[id] == HL)
  {
  }

  /** Under all subjects a valid card is listed by a followed subject, and the level test
    * is that of the first such subject. */
  lemma AllSubjectsRule(f: FlashcardRecord, sel: Selection)
    requires AllSubjectsSelected(sel)
    ensures IsValidFlashcard(f, sel) ==>
      exists k :: 0 <= k < |sel.mySubjects| && f.flashcardId in sel.mySubjects[k].flashcards
        && (forall j :: 0 <= j < k ==> f.flashcardId !in sel.mySubjects[j].flashcards)
        && (f.level == HL ==> SettingsManagement.SubjectLevel(sel.levels, sel.mySubjects[k].subjectId) == HL)
  {
    if IsValidFlashcard(f, sel) {
      var k := OwningSubject(sel.mySubjects, f.flashcardId);
      assert 0 <= k && f.flashcardId in sel.mySubjects[k].flashcards;
    }
  }

  /** Without a selected subject, the subject test admits every card at either level. */
  lemma NoSubjectAdmitsAll(f: FlashcardRecord, sel: Selection)
    requires sel.subject.None?
    ensures InScope(f, sel)
  {
    assert f.level == SL || f.level == HL;
  }

  // ---------------------------------------------------------------------------
  // Orderings

  /** The `not_seen` key: `DateTime.MinValue` for an unseen card, else `LastSeen`; a null
    * `LastSeen` sorts before every date. */
  function SeenDateKey(f: FlashcardRecord): int
  {
    if f.seen == 0 then 0 else if f.lastSeen.Some? then f.lastSeen.value else -1
  }

  /** The orderings `ApplyOrdering` sorts by within the model. */
  predicate ModelledOrdering(orderingType: string)
  {
    orderingType != "error_rate" && orderingType != "random"
  }

  /** The sort key of an ordering; the priority order for "priority" and unknown names. */
  function OrderingKey(orderingType: string, priority: FlashcardRecord -> int): FlashcardRecord -> Key
  {
    if orderingType == "not_seen" then (f: FlashcardRecord) => Key(SeenDateKey(f), 0)
    else if orderingType == "seen_few" then (f: FlashcardRecord) => Key(f.seen, 0)
    else if orderingType == "important" then (f: FlashcardRecord) => Key(if f.important then 0 else 1, SeenDateKey(f))
    else FlashcardManagement.PriorityKey(priority)
  }

  /** `ApplyOrdering`; none for the error-rate and random orderings, which the model does
    * not sort. */
  function ApplyOrdering(cards: seq<FlashcardRecord>, orderingType: string, priority: FlashcardRecord -> int)
    : Option<seq<FlashcardRecord>>
  {
    if !ModelledOrdering(orderingType) then None
    else if orderingType == "priority" then Some(FlashcardManagement.OrderedByPriority(cards, priority))
    else if orderingType == "not_seen" || orderingType == "seen_few" || orderingType == "important"
    then Some(SortBy(cards, OrderingKey(orderingType, priority)))
    else Some(FlashcardManagement.OrderedByPriority(cards, priority))
  }

  /** Every modelled ordering is a stable sort by its key: a permutation of the input,
    * ordered by the key, keeping the input order of cards with equal keys. */
  lemma ApplyOrderingSpec(cards: seq<FlashcardRecord>, orderingType: string, priority: FlashcardRecord -> int)
    ensures ApplyOrdering(cards, orderingType, priority).Some? <==> ModelledOrdering(orderingType)
    ensures var r := ApplyOrdering(cards, orderingType, priority);
      var key := OrderingKey(orderingType, priority);
      r.Some? ==>
        multiset(r.value) == multiset(cards)
        && SortedBy(r.value, key)
        && forall k: Key :: WithKey(r.value, key, k) == WithKey(cards, key, k)
  {
    var key := OrderingKey(orderingType, priority);
    SortByOrders(cards, key);
    forall k: Key ensures WithKey(SortBy(cards, key), key, k) == WithKey(cards, key, k) {
      SortByStable(cards, key, k);
    }
  }

  /** "seen_few" puts fewer answers first; "important" puts starred cards first and orders
    * each group by the `not_seen` key. */
  lemma OrderingMeaning(cards: seq<FlashcardRecord>, priority: FlashcardRecord -> int)
    ensures var r := ApplyOrdering(cards, "seen_few", priority).value;
      forall i, j :: 0 <= i < j < |r| ==> r[i].seen <= r[j].seen
    ensures var r := ApplyOrdering(cards, "important", priority).value;
      forall i, j :: 0 <= i < j < |r| ==>
        (r[j].important ==> r[i].important)
        && (r[i].important == r[j].important ==> SeenDateKey(r[i]) <= SeenDateKey(r[j]))
  {
    ApplyOrderingSpec(cards, "seen_few", priority);
    ApplyOrderingSpec(cards, "important", priority);
    var r := ApplyOrdering(cards, "seen_few", priority).value;
    var key := OrderingKey("seen_few", priority);
    forall i, j | 0 <= i < j < |r| ensures r[i].seen <= r[j].seen {
      assert KeyLe(key(r[i]), key(r[j]));
    }
    var q := ApplyOrdering(cards, "important", priority).value;
    var key2 := OrderingKey("important", priority);
    forall i, j | 0 <= i < j < |q|
      ensures (q[j].important ==> q[i].important)
              && (q[i].important == q[j].important ==> SeenDateKey(q[i]) <= SeenDateKey(q[j]))
    {
      assert KeyLe(key2(q[i]), key2(q[j]));
    }
  }

  /** The cards `LoadFlashcards` puts in the session, before ordering. */
  function SessionCards(all: seq<FlashcardRecord>, sel: Selection): (r: seq<FlashcardRecord>)
    ensures forall f :: f in r <==> f in all && IsValidFlashcard(f, sel)
  {
    Filter(all, (f: FlashcardRecord) => IsValidFlashcard(f, sel))
  }

  /** The session `LoadFlashcards` builds: the valid stored cards in the chosen order. The
    * error-rate and random orderings, which the model does not sort, are given as
    * `shuffled`, some permutation of the valid cards. Either way the session holds each
    * valid card as often as the store does, and no other card. */
  function SessionOrder(all: seq<FlashcardRecord>, sel: Selection, orderingType: string,
                        priority: FlashcardRecord -> int, shuffled: seq<FlashcardRecord>): (r: seq<FlashcardRecord>)
    requires !ModelledOrdering(orderingType) ==> multiset(shuffled) == multiset(SessionCards(all, sel))
    ensures multiset(r) == multiset(SessionCards(all, sel))
    ensures forall f :: f in r <==> f in all && IsValidFlashcard(f, sel)
    ensures ModelledOrdering(orderingType) ==>
      SortedBy(r, OrderingKey(orderingType, priority))
      && forall k: Key :: WithKey(r, OrderingKey(orderingType, priority), k)
                           == WithKey(SessionCards(all, sel), OrderingKey(orderingType, priority), k)
  {
    var valid := SessionCards(all, sel);
    ApplyOrderingSpec(valid, orderingType, priority);
    var r := if ModelledOrdering(orderingType) then ApplyOrdering(valid, orderingType, priority).value else shuffled;
    assert forall f :: f in r <==> f in multiset(valid);
    r
  }

  // ---------------------------------------------------------------------------
  // The cursor

  /** What the screen shows: the session's cards, the cursor, the version on display, which
    * side is up, and the text of the card label. */
  datatype StudyView = StudyView(
    cards: seq<FlashcardRecord>,
    index: nat,
    version: Option<CardVersion>,
    showingQuestion: bool,
    labelText: string)

  /** A card with something to show. */
  predicate Showable(f: FlashcardRecord, blocked: seq<string>)
  {
    DisplayVersion(f.versions, blocked).Some?
  }

  function Clamp(index: nat, n: nat): nat
  {
    if index >= n then 0 else index
  }

  /** `(start + k) % n` for `start, k <= n`, without the division. */
  function Cyc(start: nat, k: nat, n: nat): nat
    requires start + k < 2 * n
  {
    if start + k < n then start + k else start + k - n
  }

  lemma CycStep(start: nat, k: nat, n: nat)
    requires start < n && k < n
    ensures (Cyc(start, k, n) + 1) % n == Cyc(start, k + 1, n)
    ensures Cyc(start, k + 1, n) == start <==> k + 1 == n
  {
    var x := Cyc(start, k, n) + 1;
    if x < n {
      assert x % n == x;
    } else {
      assert x == n;
      assert x % n == 0;
    }
  }

  /** The first offset from `k` on, scanning cyclically from `start`, at which a card can be
    * shown; -1 when none can. */
  function ScanFrom(cards: seq<FlashcardRecord>, blocked: seq<string>, start: nat, k: nat): (r: int)
    requires start < |cards| && k <= |cards|
    ensures r == -1 || k <= r < |cards|
    ensures 0 <= r ==> Showable(cards[Cyc(start, r, |cards|)], blocked)
    ensures forall j :: k <= j < |cards| && (r < 0 || j < r) ==> !Showable(cards[Cyc(start, j, |cards|)], blocked)
    decreases |cards| - k
  {
    if k == |cards| then -1
    else if Showable(cards[Cyc(start, k, |cards|)], blocked) then k
    else ScanFrom(cards, blocked, start, k + 1)
  }

  /** `FindValidVersion` with the starting point taken after the cursor is brought into
    * range: the version found and the cursor afterwards. */
  function Found(cards: seq<FlashcardRecord>, blocked: seq<string>, index: nat): (Option<CardVersion>, nat)
  {
    if cards == [] then (None, index)
    else
      var start := Clamp(index, |cards|);
      var k := ScanFrom(cards, blocked, start, 0);
      if k < 0 then (None, start)
      else
        var i := Cyc(start, k, |cards|);
        (DisplayVersion(cards[i].versions, blocked), i)
  }

  /** The search finds the display version of the first showable card at or cyclically after
    * the cursor, and leaves the cursor on it; it finds nothing exactly when no card of the
    * session is showable, and then leaves the cursor at its (in-range) start. */
  lemma FoundSpec(cards: seq<FlashcardRecord>, blocked: seq<string>, index: nat)
    requires cards != []
    ensures var (v, i) := Found(cards, blocked, index);
      var start := Clamp(index, |cards|);
      i < |cards|
      && (v.None? <==> forall j :: 0 <= j < |cards| ==> !Showable(cards[j], blocked))
      && (v.None? ==> i == start)
      && (v.Some? ==> v == DisplayVersion(cards[i].versions, blocked)
                      && exists k :: 0 <= k < |cards| && i == Cyc(start, k, |cards|)
                           && forall j :: 0 <= j < k ==> !Showable(cards[Cyc(start, j, |cards|)], blocked))
  {
    var n := |cards|;
    var start := Clamp(index, n);
    var k := ScanFrom(cards, blocked, start, 0);
    if k < 0 {
      forall j | 0 <= j < n ensures !Showable(cards[j], blocked) {
        var off := if j >= start then j - start else j + n - start;
        assert Cyc(start, off, n) == j;
      }
    }
  }

  /** `DisplayFlashcard`, corrected: the question is shown, and the question side is up
    * (`DisplayAsWritten` below leaves the side flag as it was). */
  function Display(s: StudyView, v: CardVersion): StudyView
  {
    s.(version := Some(v),
       labelText := if v.question.Some? then v.question.value else "No question available",
       showingQuestion := true)
  }

  /** `ShowCurrentQuestion` over the corrected display: wraps a cursor past the end to 0; on
    * an empty session clears the version; shows the version found, or, when none is, moves
    * the cursor one card on. */
  function ShowCurrent(s: StudyView, blocked: seq<string>): StudyView
  {
    var n := |s.cards|;
    var index := Clamp(s.index, n);
    if n == 0 then s.(index := index, version := None, labelText := "No flashcards available")
    else
      var (v, i) := Found(s.cards, blocked, index);
      if v.None? then s.(index := (i + 1) % n) else Display(s.(index := i), v.value)
  }

  /** After showing, the cursor is in range on a non-empty session; an empty one shows no
    * version. When no card is showable the cursor moves one place on from its in-range
    * start and the version on display stays; otherwise the display version of the card
    * under the cursor is shown, question side up. */
  lemma ShowCurrentSpec(s: StudyView, blocked: seq<string>)
    ensures var r := ShowCurrent(s, blocked);
      var n := |s.cards|;
      r.cards == s.cards
      && (n == 0 ==> r.index == 0 && r.version.None?)
      && (n > 0 ==> r.index < n)
      && (n > 0 && (forall j :: 0 <= j < n ==> !Showable(s.cards[j], blocked)) ==>
            r.index == (Clamp(s.index, n) + 1) % n && r.version == s.version)
      && (n > 0 && (exists j :: 0 <= j < n && Showable(s.cards[j], blocked)) ==>
            r.version == DisplayVersion(s.cards[r.index].versions, blocked) && r.version.Some?
            && r.showingQuestion)
  {
    if |s.cards| > 0 {
      FoundSpec(s.cards, blocked, Clamp(s.index, |s.cards|));
    }
  }

  /** When the card under an in-range cursor is showable, showing stays on it. */
  lemma ShowStaysOnShowable(s: StudyView, blocked: seq<string>)
    requires s.index < |s.cards| && Showable(s.cards[s.index], blocked)
    ensures ShowCurrent(s, blocked).index == s.index
    ensures ShowCurrent(s, blocked).version == DisplayVersion(s.cards[s.index].versions, blocked)
  {
    assert Cyc(s.index, 0, |s.cards|) == s.index;
  }

  /** `FlashcardPanel_Click`: with a version on display, shows the other side. */
  function Flip(s: StudyView): StudyView
  {
    if s.version.None? then s
    else if s.showingQuestion then s.(labelText := TextOf(s.version.value.answer), showingQuestion := false)
    else s.(labelText := TextOf(s.version.value.question), showingQuestion := true)
  }

  /** The text of the side that is up. */
  function SideText(s: StudyView): string
    requires s.version.Some?
  {
    if s.showingQuestion then TextOf(s.version.value.question) else TextOf(s.version.value.answer)
  }

  /** A flip shows the other side's text; two flips restore a view that showed its side. */
  lemma FlipSpec(s: StudyView)
    ensures s.version.None? ==> Flip(s) == s
    ensures s.version.Some? ==>
      Flip(s).showingQuestion == !s.showingQuestion && Flip(s).labelText == SideText(Flip(s))
      && Flip(s).(labelText := s.labelText, showingQuestion := s.showingQuestion) == s
    ensures s.version.Some? && s.labelText == SideText(s) ==> Flip(Flip(s)) == s
  {
  }

  /** Right after a card is displayed, one click shows its answer. */
  lemma FlipAfterDisplayShowsAnswer(s: StudyView, v: CardVersion)
    ensures Flip(Display(s, v)).labelText == TextOf(v.answer)
    ensures !Flip(Display(s, v)).showingQuestion
  {
  }

  /** `DisplayFlashcard` as written: the side flag is left as it was. */
  function DisplayAsWritten(s: StudyView, v: CardVersion): StudyView
  {
    s.(version := Some(v), labelText := if v.question.Some? then v.question.value else "No question available")
  }

  /** As written, after flipping a card to its answer and moving on, the first click on the
    * next card shows its question again instead of its answer. */
  lemma FlipAfterAdvanceAsWritten()
    ensures var u := CardVersion(Some("q1"), Some("a1"), None, false, None, None, 0);
      var v := CardVersion(Some("q2"), Some("a2"), None, false, None, None, 0);
      var s0 := DisplayAsWritten(StudyView([], 0, None, true, ""), u);
      var s1 := Flip(s0);
      var s2 := DisplayAsWritten(s1, v);
      s1.labelText == "a1" && s2.labelText == "q2" && Flip(s2).labelText == "q2" && Flip(s2).labelText != TextOf(v.answer)
  {
  }

  // ---------------------------------------------------------------------------
  // The do-while of FindValidVersion, iteration by iteration

  /** At most `fuel` iterations of the do-while from cursor `i`, leaving the loop when the
    * cursor comes back to `startIndex`: the result and cursor when it ends, none while it
    * is still running. */
  function ScanLoop(cards: seq<FlashcardRecord>, blocked: seq<string>, startIndex: nat, i: nat, fuel: nat)
    : Option<(Option<CardVersion>, nat)>
    requires i < |cards|
    decreases fuel
  {
    if fuel == 0 then None
    else
      var v := DisplayVersion(cards[i].versions, blocked);
      if v.Some? then Some((v, i))
      else
        var next := (i + 1) % |cards|;
        if next == startIndex then Some((None, next)) else ScanLoop(cards, blocked, startIndex, next, fuel - 1)
  }

  /** `FindValidVersion` as written: `startIndex` is taken before the cursor is brought into
    * range. */
  function FindValidVersionAsWritten(cards: seq<FlashcardRecord>, blocked: seq<string>, index: nat, fuel: nat)
    : Option<(Option<CardVersion>, nat)>
    requires cards != []
  {
    ScanLoop(cards, blocked, index, Clamp(index, |cards|), fuel)
  }

  /** As written, with the cursor past the end and nothing showable, the cursor never comes
    * back to `startIndex`: the loop is still running after any number of iterations. */
  lemma {:induction false} AsWrittenScanNeverEnds(cards: seq<FlashcardRecord>, blocked: seq<string>, index: nat, fuel: nat)
    requires cards != [] && index >= |cards|
    requires forall j :: 0 <= j < |cards| ==> !Showable(cards[j], blocked)
    ensures FindValidVersionAsWritten(cards, blocked, index, fuel) == None
  {
    StillScanning(cards, blocked, index, 0, fuel);
  }

  lemma {:induction false} StillScanning(cards: seq<FlashcardRecord>, blocked: seq<string>, startIndex: nat, i: nat, fuel: nat)
    requires i < |cards| <= startIndex
    requires forall j :: 0 <= j < |cards| ==> !Showable(cards[j], blocked)
    ensures ScanLoop(cards, blocked, startIndex, i, fuel) == None
    decreases fuel
  {
    if fuel > 0 {
      assert !Showable(cards[i], blocked);
      StillScanning(cards, blocked, startIndex, (i + 1) % |cards|, fuel - 1);
    }
  }

  /** With the starting point taken after the cursor is brought into range, the loop ends
    * within one pass over the session, with the result `Found` describes. */
  lemma CorrectedScanEnds(cards: seq<FlashcardRecord>, blocked: seq<string>, index: nat)
    requires cards != []
    ensures var start := Clamp(index, |cards|);
      ScanLoop(cards, blocked, start, start, |cards|) == Some(Found(cards, blocked, index))
  {
    var start := Clamp(index, |cards|);
    ScanLoopFrom(cards, blocked, start, 0);
    assert Cyc(start, 0, |cards|) == start;
  }

  /** On an in-range cursor, which is what `ShowCurrentQuestion` passes, the loop as written
    * ends within one pass with the same result as the corrected one. */
  lemma AsWrittenScanAgreesInRange(cards: seq<FlashcardRecord>, blocked: seq<string>, index: nat)
    requires index < |cards|
    ensures FindValidVersionAsWritten(cards, blocked, index, |cards|) == Some(Found(cards, blocked, index))
  {
    CorrectedScanEnds(cards, blocked, index);
  }

  lemma {:induction false} ScanLoopFrom(cards: seq<FlashcardRecord>, blocked: seq<string>, start: nat, k: nat)
    requires start < |cards| && k < |cards|
    ensures var n := |cards|;
      var r := ScanFrom(cards, blocked, start, k);
      ScanLoop(cards, blocked, start, Cyc(start, k, n), n - k)
        == if r < 0 then Some((None, start))
           else Some((DisplayVersion(cards[Cyc(start, r, n)].versions, blocked), Cyc(start, r, n)))
    decreases |cards| - k
  {
    var n := |cards|;
    var i := Cyc(start, k, n);
    if !Showable(cards[i], blocked) {
      CycStep(start, k, n);
      if k + 1 < n {
        ScanLoopFrom(cards, blocked, start, k + 1);
      }
    }
  }

  // ---------------------------------------------------------------------------
  // Answers

  /** The store after an answer to card `id`: the first card with that id registers it. */
  function StoreAnswered(store: seq<FlashcardRecord>, id: string, today: nat, incorrect: bool): seq<FlashcardRecord>
  {
    var i := FlashcardManagement.FindIndex(store, id);
    if i < 0 then store else store[i := StudyResult(store[i], today, incorrect)]
  }

  /** The correct and incorrect buttons: with the cursor on a card, the answer is recorded
    * in the store and, when the store has the card, on the session's copy; the cursor moves
    * one card on and the screen shows from there. */
  function Answered(s: StudyView, store: seq<FlashcardRecord>, blocked: seq<string>, today: nat, incorrect: bool): StudyView
  {
    if s.index >= |s.cards| then s
    else
      var known := FlashcardManagement.FindIndex(store, s.cards[s.index].flashcardId) >= 0;
      var cards := if known then s.cards[s.index := StudyResult(s.cards[s.index], today, incorrect)] else s.cards;
      ShowCurrent(s.(cards := cards, index := s.index + 1), blocked)
  }

  /** The skip button: with the cursor on a card, moves one card on and shows from there. */
  function Skipped(s: StudyView, blocked: seq<string>): StudyView
  {
    if s.index >= |s.cards| then s else ShowCurrent(s.(index := s.index + 1), blocked)
  }

  /** `ShowCurrentQuestion` as written, over `DisplayAsWritten`. */
  function ShowCurrentAsWritten(s: StudyView, blocked: seq<string>): StudyView
  {
    var n := |s.cards|;
    var index := Clamp(s.index, n);
    if n == 0 then s.(index := index, version := None, labelText := "No flashcards available")
    else
      var (v, i) := Found(s.cards, blocked, index);
      if v.None? then s.(index := (i + 1) % n) else DisplayAsWritten(s.(index := i), v.value)
  }

  /** The screen as written differs from the corrected one in the side flag alone: showing,
    * skipping and answering give the same cards, cursor, version and label, but leave the
    * flag as it was before. */
  lemma AsWrittenDiffersOnlyInSide(s: StudyView, store: seq<FlashcardRecord>, blocked: seq<string>, today: nat, incorrect: bool)
    ensures ShowCurrentAsWritten(s, blocked) == ShowCurrent(s, blocked).(showingQuestion := s.showingQuestion)
    ensures s.index < |s.cards| ==>
      ShowCurrentAsWritten(s.(index := s.index + 1), blocked) == Skipped(s, blocked).(showingQuestion := s.showingQuestion)
    ensures s.index < |s.cards| ==>
      var known := FlashcardManagement.FindIndex(store, s.cards[s.index].flashcardId) >= 0;
      var cards := if known then s.cards[s.index := StudyResult(s.cards[s.index], today, incorrect)] else s.cards;
      ShowCurrentAsWritten(s.(cards := cards, index := s.index + 1), blocked)
        == Answered(s, store, blocked, today, incorrect).(showingQuestion := s.showingQuestion)
  {
    ShowAsWrittenSideOnly(s, blocked);
    if s.index < |s.cards| {
      var t := s.(index := s.index + 1);
      ShowAsWrittenSideOnly(t, blocked);
      var known := FlashcardManagement.FindIndex(store, s.cards[s.index].flashcardId) >= 0;
      var cards := if known then s.cards[s.index := StudyResult(s.cards[s.index], today, incorrect)] else s.cards;
      ShowAsWrittenSideOnly(t.(cards := cards), blocked);
    }
  }

  lemma ShowAsWrittenSideOnly(s: StudyView, blocked: seq<string>)
    ensures ShowCurrentAsWritten(s, blocked) == ShowCurrent(s, blocked).(showingQuestion := s.showingQuestion)
  {
  }

  /** An answer counts one more sight of the card, and one more error exactly for the
    * incorrect button, both in the store and on the session's copy; no other card changes.
    * With the cursor past the end nothing happens. */
  lemma AnswerRecorded(s: StudyView, store: seq<FlashcardRecord>, blocked: seq<string>, today: nat, incorrect: bool)
    ensures s.index >= |s.cards| ==> Answered(s, store, blocked, today, incorrect) == s
    ensures s.index < |s.cards| ==>
      var id := s.cards[s.index].flashcardId;
      var r := Answered(s, store, blocked, today, incorrect);
      var st := StoreAnswered(store, id, today, incorrect);
      |r.cards| == |s.cards| && |st| == |store|
      && (forall j :: 0 <= j < |s.cards| && j != s.index ==> r.cards[j] == s.cards[j])
      && (forall j :: 0 <= j < |store| && store[j].flashcardId != id ==> st[j] == store[j])
      && (FlashcardManagement.FindIndex(store, id) >= 0 ==>
            r.cards[s.index].seen == s.cards[s.index].seen + 1
            && r.cards[s.index].errors == s.cards[s.index].errors + (if incorrect then 1 else 0)
            && exists i :: 0 <= i < |store| && store[i].flashcardId == id
                 && st[i].seen == store[i].seen + 1
                 && st[i].errors == store[i].errors + (if incorrect then 1 else 0))
      && (FlashcardManagement.FindIndex(store, id) < 0 ==> r.cards == s.cards && st == store)
  {
    if s.index < |s.cards| {
      var id := s.cards[s.index].flashcardId;
      var i := FlashcardManagement.FindIndex(store, id);
      var cards := if i >= 0 then s.cards[s.index := StudyResult(s.cards[s.index], today, incorrect)] else s.cards;
      ShowKeepsCards(s.(cards := cards, index := s.index + 1), blocked);
      assert Answered(s, store, blocked, today, incorrect).cards == cards;
      if i >= 0 {
        assert StoreAnswered(store, id, today, incorrect)[i] == StudyResult(store[i], today, incorrect);
      }
    }
  }

  lemma ShowKeepsCards(s: StudyView, blocked: seq<string>)
    ensures ShowCurrent(s, blocked).cards == s.cards
  {
  }

  /** Skipping onto a showable card shows that card: the cursor moves exactly one place on,
    * wrapping to 0 after the last card. */
  lemma SkipMovesOne(s: StudyView, blocked: seq<string>)
    requires s.index < |s.cards|
    requires Showable(s.cards[Clamp(s.index + 1, |s.cards|)], blocked)
    ensures Skipped(s, blocked).index == Clamp(s.index + 1, |s.cards|)
  {
    var t := s.(index := s.index + 1);
    ShowStaysOnShowable(t.(index := Clamp(s.index + 1, |s.cards|)), blocked);
  }

  // ---------------------------------------------------------------------------
  // The control

  class FlashcardUserControl {
    var currentFlashcards: seq<FlashcardRecord>
    var currentIndex: nat
    var currentFlashcardVersion: Option<CardVersion>
    var isShowingQuestion: bool
    /** `flashcardLabel.Text`. */
    var labelText: string

    function View(): StudyView
      reads this
    {
      StudyView(currentFlashcards, currentIndex, currentFlashcardVersion, isShowingQuestion, labelText)
    }

    constructor ()
      ensures View() == StudyView([], 0, None, true, "")
    {
      currentFlashcards := [];
      currentIndex := 0;
      currentFlashcardVersion := None;
      isShowingQuestion := true;
      labelText := "";
    }

    /** The do-while over the session's cards, started from the in-range cursor. */
    method FindValidVersion(blocked: seq<string>) returns (version: Option<CardVersion>)
      modifies this
      ensures (version, currentIndex) == Found(old(currentFlashcards), blocked, old(currentIndex))
      ensures View() == old(View()).(index := currentIndex)
    {
      var cards := currentFlashcards;
      var n := |cards|;
      if n == 0 {
        return None;
      }
      var index := currentIndex;
      if index >= n {
        index := 0;
      }
      var startIndex := index;
      ghost var k := 0;
      assert Cyc(startIndex, 0, n) == startIndex;
      while true
        invariant unchanged(this) && 0 <= k < n && startIndex < n
        invariant index == Cyc(startIndex, k, n)
        invariant ScanFrom(cards, blocked, startIndex, 0) == ScanFrom(cards, blocked, startIndex, k)
        decreases n - k
      {
        version := DisplayVersion(cards[index].versions, blocked);
        if version.Some? {
          break;
        }
        CycStep(startIndex, k, n);
        index := (index + 1) % n;
        k := k + 1;
        if index == startIndex {
          break;
        }
      }
      currentIndex := index;
    }

    method DisplayFlashcard(version: CardVersion)
      modifies this
      ensures View() == Display(old(View()), version)
    {
      labelText := if version.question.Some? then version.question.value else "No question available";
      currentFlashcardVersion := Some(version);
      isShowingQuestion := true;
    }

    method ShowCurrentQuestion(blocked: seq<string>)
      modifies this
      ensures View() == ShowCurrent(old(View()), blocked)
    {
      if currentIndex >= |currentFlashcards| {
        currentIndex := 0;
      }
      if |currentFlashcards| == 0 {
        currentFlashcardVersion := None;
        labelText := "No flashcards available";
        return;
      }
      var version := FindValidVersion(blocked);
      if version.None? {
        currentIndex := (currentIndex + 1) % |currentFlashcards|;
        return;
      }
      DisplayFlashcard(version.value);
    }

    method FlashcardPanelClick()
      modifies this
      ensures View() == Flip(old(View()))
    {
      if currentFlashcardVersion.None? {
        return;
      }
      if isShowingQuestion {
        labelText := TextOf(currentFlashcardVersion.value.answer);
        isShowingQuestion := false;
      } else {
        labelText := TextOf(currentFlashcardVersion.value.question);
        isShowingQuestion := true;
      }
    }

    /** `LoadFlashcards`: reloads the store and makes the session the valid cards of the
      * selection (`LoadSelection`'s result) in the chosen order. */
    method LoadFlashcards(store: FlashcardManagement.FlashcardManager, sel: Selection, orderingType: string,
                          priority: FlashcardRecord -> int, shuffled: seq<FlashcardRecord>)
      requires !ModelledOrdering(orderingType) ==>
        multiset(shuffled) == multiset(SessionCards(LoadOr(store.file, []), sel))
      modifies this, store
      ensures currentFlashcards == SessionOrder(LoadOr(old(store.file), []), sel, orderingType, priority, shuffled)
      ensures View() == old(View()).(cards := currentFlashcards)
      ensures store.file == old(store.file) && store.allFlashcards == LoadOr(store.file, [])
    {
      var all := store.Load();
      var valid := SessionCards(all, sel);
      var ordered := ApplyOrdering(valid, orderingType, priority);
      currentFlashcards := if ordered.Some? then ordered.value else shuffled;
    }

    method RefreshFlashcards(store: FlashcardManagement.FlashcardManager, sel: Selection, orderingType: string,
                             priority: FlashcardRecord -> int, shuffled: seq<FlashcardRecord>, blocked: seq<string>)
      requires !ModelledOrdering(orderingType) ==>
        multiset(shuffled) == multiset(SessionCards(LoadOr(store.file, []), sel))
      modifies this, store
      ensures View() == ShowCurrent(old(View()).(cards := SessionOrder(LoadOr(old(store.file), []), sel, orderingType, priority, shuffled), index := 0), blocked)
      ensures store.file == old(store.file) && store.allFlashcards == LoadOr(store.file, [])
    {
      LoadFlashcards(store, sel, orderingType, priority, shuffled);
      currentIndex := 0;
      ShowCurrentQuestion(blocked);
    }

    /** The body shared by the correct and incorrect buttons. */
    method RecordAnswer(store: FlashcardManagement.FlashcardManager, blocked: seq<string>, today: nat, incorrect: bool)
      modifies this, store
      ensures View() == Answered(old(View()), LoadOr(old(store.file), []), blocked, today, incorrect)
      ensures old(currentIndex) < |old(currentFlashcards)| ==>
        var id := old(currentFlashcards)[old(currentIndex)].flashcardId;
        var loaded := LoadOr(old(store.file), []);
        store.allFlashcards == StoreAnswered(loaded, id, today, incorrect)
        && store.file == if FlashcardManagement.FindIndex(loaded, id) >= 0 then Parsed(store.allFlashcards) else old(store.file)
      ensures old(currentIndex) >= |old(currentFlashcards)| ==>
        store.allFlashcards == old(store.allFlashcards) && store.file == old(store.file)
    {
      if currentIndex < |currentFlashcards| {
        var currentFlashcardId := currentFlashcards[currentIndex].flashcardId;
        var allFlashcards := store.Load();
        var i := FlashcardManagement.FindIndex(allFlashcards, currentFlashcardId);
        if i >= 0 {
          allFlashcards := allFlashcards[i := StudyResult(allFlashcards[i], today, incorrect)];
          store.SaveFlashcards(allFlashcards);
          currentFlashcards := currentFlashcards[currentIndex := StudyResult(currentFlashcards[currentIndex], today, incorrect)];
        }
        currentIndex := currentIndex + 1;
        ShowCurrentQuestion(blocked);
      }
    }

    method CorrectClick(store: FlashcardManagement.FlashcardManager, blocked: seq<string>, today: nat)
      modifies this, store
      ensures View() == Answered(old(View()), LoadOr(old(store.file), []), blocked, today, false)
      ensures old(currentIndex) < |old(currentFlashcards)| ==>
        var id := old(currentFlashcards)[old(currentIndex)].flashcardId;
        var loaded := LoadOr(old(store.file), []);
        store.allFlashcards == StoreAnswered(loaded, id, today, false)
        && store.file == if FlashcardManagement.FindIndex(loaded, id) >= 0 then Parsed(store.allFlashcards) else old(store.file)
      ensures old(currentIndex) >= |old(currentFlashcards)| ==>
        store.allFlashcards == old(store.allFlashcards) && store.file == old(store.file)
    {
      RecordAnswer(store, blocked, today, false);
    }

    method IncorrectClick(store: FlashcardManagement.FlashcardManager, blocked: seq<string>, today: nat)
      modifies this, store
      ensures View() == Answered(old(View()), LoadOr(old(store.file), []), blocked, today, true)
      ensures old(currentIndex) < |old(currentFlashcards)| ==>
        var id := old(currentFlashcards)[old(currentIndex)].flashcardId;
        var loaded := LoadOr(old(store.file), []);
        store.allFlashcards == StoreAnswered(loaded, id, today, true)
        && store.file == if FlashcardManagement.FindIndex(loaded, id) >= 0 then Parsed(store.allFlashcards) else old(store.file)
      ensures old(currentIndex) >= |old(currentFlashcards)| ==>
        store.allFlashcards == old(store.allFlashcards) && store.file == old(store.file)
    {
      RecordAnswer(store, blocked, today, true);
    }

    method SkipClick(blocked: seq<string>)
      modifies this
      ensures View() == Skipped(old(View()), blocked)
    {
      if currentIndex < |currentFlashcards| {
        currentIndex := currentIndex + 1;
        ShowCurrentQuestion(blocked);
      }
    }
  }
}
