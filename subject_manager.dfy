/** The subject store: the static list `AllSubjects` and the JSON file behind it. */
module SubjectManagement {
  import opened Common
  import opened Flashcards
  import opened Subjects

  function SubjectIds(subjects: seq<SubjectRecord>): seq<string>
  {
    seq(|subjects|, i requires 0 <= i < |subjects| => subjects[i].subjectId)
  }

  /** The first subject with the given id, or -1. */
  function FindSubject(subjects: seq<SubjectRecord>, id: string): (i: int)
    ensures i == -1 <==> id !in SubjectIds(subjects)
    ensures 0 <= i ==> i < |subjects| && subjects[i].subjectId == id
                        && forall j :: 0 <= j < i ==> subjects[j].subjectId != id
  {
    var i := IndexOf(SubjectIds(subjects), id);
    assert 0 <= i ==> forall j :: 0 <= j < i ==> subjects[j].subjectId == SubjectIds(subjects)[..i][j];
    i
  }

  /** One turn of the loop of `MergeSubjects`: a new id is appended as a whole; a known one
    * gains the topic and flashcard ids it lacked, in incoming order. */
  function MergeSubject(all: seq<SubjectRecord>, s: SubjectRecord): seq<SubjectRecord>
  {
    var i := FindSubject(all, s.subjectId);
    if i < 0 then all + [s]
    else all[i := all[i].(topics := UnionInOrder(all[i].topics, s.topics),
                          flashcards := UnionInOrder(all[i].flashcards, s.flashcards))]
  }

  function MergeSubjectsAll(all: seq<SubjectRecord>, incoming: seq<SubjectRecord>): seq<SubjectRecord>
    decreases |incoming|
  {
    if incoming == [] then all
    else MergeSubject(MergeSubjectsAll(all, incoming[..|incoming| - 1]), incoming[|incoming| - 1])
  }

  /** The topic ids, then the flashcard ids, that the incoming subjects with the given id
    * bring, in incoming order. */
  function IncomingTopics(incoming: seq<SubjectRecord>, id: string): seq<string>
    decreases |incoming|
  {
    if incoming == [] then []
    else
      var s := incoming[|incoming| - 1];
      IncomingTopics(incoming[..|incoming| - 1], id) + (if s.subjectId == id then s.topics else [])
  }

  function IncomingFlashcards(incoming: seq<SubjectRecord>, id: string): seq<string>
    decreases |incoming|
  {
    if incoming == [] then []
    else
      var s := incoming[|incoming| - 1];
      IncomingFlashcards(incoming[..|incoming| - 1], id) + (if s.subjectId == id then s.flashcards else [])
  }

  /** `r` extends `all`: the ids of `all` are a prefix of those of `r`, and every subject of
    * `all` keeps its topic and flashcard lists as prefixes. */
  predicate Grows(all: seq<SubjectRecord>, r: seq<SubjectRecord>)
  {
    |all| <= |r| && SubjectIds(all) <= SubjectIds(r)
    && forall i :: 0 <= i < |all| ==> all[i].topics <= r[i].topics && all[i].flashcards <= r[i].flashcards
  }

  lemma MergeSubjectGrows(all: seq<SubjectRecord>, s: SubjectRecord)
    ensures Grows(all, MergeSubject(all, s))
  {
    var i := FindSubject(all, s.subjectId);
    if 0 <= i {
      UnionInOrderSpec(all[i].topics, s.topics);
      UnionInOrderSpec(all[i].flashcards, s.flashcards);
      assert SubjectIds(MergeSubject(all, s)) == SubjectIds(all);
    } else {
      assert SubjectIds(all + [s])[..|all|] == SubjectIds(all);
    }
  }

  lemma FindSubjectGrows(all: seq<SubjectRecord>, r: seq<SubjectRecord>, id: string)
    requires Grows(all, r) && id in SubjectIds(all)
    ensures FindSubject(r, id) == FindSubject(all, id)
  {
    IndexOfPrefix(SubjectIds(all), SubjectIds(r), id);
  }

  /** Merging never removes a subject, an id or a list entry. */
  lemma {:induction false} MergeSubjectsAllGrows(all: seq<SubjectRecord>, incoming: seq<SubjectRecord>)
    ensures Grows(all, MergeSubjectsAll(all, incoming))
    decreases |incoming|
  {
    if incoming != [] {
      var prev := MergeSubjectsAll(all, incoming[..|incoming| - 1]);
      MergeSubjectsAllGrows(all, incoming[..|incoming| - 1]);
      MergeSubjectGrows(prev, incoming[|incoming| - 1]);
    }
  }

  /** Subjects with new ids are appended, each id once, in incoming order. */
  lemma {:induction false} MergeSubjectsAllIds(all: seq<SubjectRecord>, incoming: seq<SubjectRecord>)
    ensures SubjectIds(MergeSubjectsAll(all, incoming)) == UnionInOrder(SubjectIds(all), SubjectIds(incoming))
    decreases |incoming|
  {
    if incoming != [] {
      var init := incoming[..|incoming| - 1];
      var s := incoming[|incoming| - 1];
      var prev := MergeSubjectsAll(all, init);
      MergeSubjectsAllIds(all, init);
      assert SubjectIds(incoming)[..|incoming| - 1] == SubjectIds(init);
      var i := FindSubject(prev, s.subjectId);
      if i < 0 {
        assert SubjectIds(prev + [s]) == SubjectIds(prev) + [s.subjectId];
      } else {
        assert SubjectIds(prev)[i] == s.subjectId;
        assert SubjectIds(MergeSubject(prev, s)) == SubjectIds(prev);
      }
    }
  }

  /** A stored subject (the first with its id) ends with its own topics and flashcards
    * followed by the ids the incoming subjects with that id brought and it lacked, in
    * incoming order; its name and id do not change. */
  lemma {:induction false} MergeSubjectsAllExisting(all: seq<SubjectRecord>, incoming: seq<SubjectRecord>, i: int)
    requires 0 <= i < |all| && FindSubject(all, all[i].subjectId) == i
    ensures var r := MergeSubjectsAll(all, incoming);
      |all| <= |r|
      && r[i].subjectId == all[i].subjectId && r[i].subjectName == all[i].subjectName
      && r[i].topics == UnionInOrder(all[i].topics, IncomingTopics(incoming, all[i].subjectId))
      && r[i].flashcards == UnionInOrder(all[i].flashcards, IncomingFlashcards(incoming, all[i].subjectId))
    decreases |incoming|
  {
    var id := all[i].subjectId;
    if incoming == [] {
      assert IncomingTopics(incoming, id) == [] && IncomingFlashcards(incoming, id) == [];
    } else {
      var init := incoming[..|incoming| - 1];
      var s := incoming[|incoming| - 1];
      var prev := MergeSubjectsAll(all, init);
      MergeSubjectsAllExisting(all, init, i);
      MergeSubjectsAllGrows(all, init);
      assert id in SubjectIds(all) by {
        assert SubjectIds(all)[i] == id;
      }
      FindSubjectGrows(all, prev, id);
      if s.subjectId == id {
        UnionInOrderAppend(all[i].topics, IncomingTopics(init, id), s.topics);
        UnionInOrderAppend(all[i].flashcards, IncomingFlashcards(init, id), s.flashcards);
      } else {
        assert FindSubject(prev, s.subjectId) != i;
        assert MergeSubjectsAll(all, incoming) == MergeSubject(prev, s);
        assert MergeSubject(prev, s)[i] == prev[i];
        assert IncomingTopics(incoming, id) == IncomingTopics(init, id) + [] == IncomingTopics(init, id);
        assert IncomingFlashcards(incoming, id) == IncomingFlashcards(init, id) + [] == IncomingFlashcards(init, id);
      }
    }
  }

  /** Every incoming subject's id is present in `r`, and the first subject with that id
    * already holds all its topic and flashcard ids. */
  predicate Covers(r: seq<SubjectRecord>, incoming: seq<SubjectRecord>)
  {
    forall j :: 0 <= j < |incoming| ==>
      var k := FindSubject(r, incoming[j].subjectId);
      0 <= k
      && (forall t :: t in incoming[j].topics ==> t in r[k].topics)
      && (forall f :: f in incoming[j].flashcards ==> f in r[k].flashcards)
  }

  lemma GrowsKeepsCover(all: seq<SubjectRecord>, r: seq<SubjectRecord>, incoming: seq<SubjectRecord>)
    requires Covers(all, incoming) && Grows(all, r)
    ensures Covers(r, incoming)
  {
    forall j | 0 <= j < |incoming|
      ensures var k := FindSubject(r, incoming[j].subjectId);
        0 <= k
        && (forall t :: t in incoming[j].topics ==> t in r[k].topics)
        && (forall f :: f in incoming[j].flashcards ==> f in r[k].flashcards)
    {
      FindSubjectGrows(all, r, incoming[j].subjectId);
    }
  }

  lemma {:induction false} MergeSubjectsAllCovers(all: seq<SubjectRecord>, incoming: seq<SubjectRecord>)
    ensures Covers(MergeSubjectsAll(all, incoming), incoming)
    decreases |incoming|
  {
    if incoming != [] {
      var init := incoming[..|incoming| - 1];
      MergeSubjectsAllCovers(all, init);
      MergeSubjectCovers(MergeSubjectsAll(all, init), init, incoming[|incoming| - 1]);
      assert incoming == init + [incoming[|incoming| - 1]];
    }
  }

  /** One merge turn keeps the subjects covered so far covered, and covers the incoming one. */
  lemma MergeSubjectCovers(prev: seq<SubjectRecord>, init: seq<SubjectRecord>, s: SubjectRecord)
    requires Covers(prev, init)
    ensures Covers(MergeSubject(prev, s), init + [s])
  {
    var r := MergeSubject(prev, s);
    var incoming := init + [s];
    MergeSubjectGrows(prev, s);
    GrowsKeepsCover(prev, r, init);
    var k := FindSubject(prev, s.subjectId);
    if 0 <= k {
      UnionInOrderSpec(prev[k].topics, s.topics);
      UnionInOrderSpec(prev[k].flashcards, s.flashcards);
      assert SubjectIds(r) == SubjectIds(prev);
    } else {
      assert SubjectIds(r) == SubjectIds(prev) + [s.subjectId];
      assert FindSubject(r, s.subjectId) == |prev| by {
        IndexOfPrefix(SubjectIds(prev) + [s.subjectId], SubjectIds(r), s.subjectId);
      }
    }
    forall j | 0 <= j < |incoming|
      ensures var k := FindSubject(r, incoming[j].subjectId);
        0 <= k
        && (forall t :: t in incoming[j].topics ==> t in r[k].topics)
        && (forall f :: f in incoming[j].flashcards ==> f in r[k].flashcards)
    {
      if j < |init| {
        assert incoming[j] == init[j];
      }
    }
  }

  lemma {:induction false} MergeCoveredIsNoop(r: seq<SubjectRecord>, incoming: seq<SubjectRecord>)
    requires Covers(r, incoming)
    ensures MergeSubjectsAll(r, incoming) == r
    decreases |incoming|
  {
    if incoming != [] {
      var init := incoming[..|incoming| - 1];
      var s := incoming[|incoming| - 1];
      assert Covers(r, init) by {
        forall j | 0 <= j < |init| ensures init[j] == incoming[j] { }
      }
      MergeCoveredIsNoop(r, init);
      var k := FindSubject(r, s.subjectId);
      UnionInOrderSpec(r[k].topics, s.topics);
      UnionInOrderSpec(r[k].flashcards, s.flashcards);
      assert r[k].(topics := r[k].topics, flashcards := r[k].flashcards) == r[k];
    }
  }

  /** Running the merge twice on the same input equals running it once. */
  lemma MergeSubjectsIdempotent(all: seq<SubjectRecord>, incoming: seq<SubjectRecord>)
    ensures MergeSubjectsAll(MergeSubjectsAll(all, incoming), incoming) == MergeSubjectsAll(all, incoming)
  {
    MergeSubjectsAllCovers(all, incoming);
    MergeCoveredIsNoop(MergeSubjectsAll(all, incoming), incoming);
  }

  /** `AddSubject` on values: appended only when its id is new. */
  function WithSubjectAdded(all: seq<SubjectRecord>, s: SubjectRecord): seq<SubjectRecord>
  {
    if s.subjectId in SubjectIds(all) then all else all + [s]
  }

  /** Adding subjects one by one keeps their ids unique. */
  lemma AddSubjectKeepsIdsUnique(all: seq<SubjectRecord>, s: SubjectRecord)
    requires NoDuplicates(SubjectIds(all))
    ensures NoDuplicates(SubjectIds(WithSubjectAdded(all, s)))
    ensures s.subjectId in SubjectIds(WithSubjectAdded(all, s))
  {
    if s.subjectId !in SubjectIds(all) {
      assert SubjectIds(all + [s]) == SubjectIds(all) + [s.subjectId];
    }
  }

  class SubjectManager {
    /** `AllSubjects`. */
    var allSubjects: seq<SubjectRecord>
    /** The content of `subjects.json`. */
    var file: Stored<seq<SubjectRecord>>

    constructor (initial: Stored<seq<SubjectRecord>>)
      ensures allSubjects == [] && file == initial
    {
      allSubjects := [];
      file := initial;
    }

    /** `Load`: a missing or unparseable file gives no subjects. */
    method Load() returns (subjects: seq<SubjectRecord>)
      modifies this
      ensures file == old(file)
      ensures subjects == allSubjects == LoadOr(file, [])
      ensures !file.Parsed? ==> subjects == []
    {
      allSubjects := LoadOr(file, []);
      subjects := allSubjects;
    }

    method Save()
      modifies this
      ensures allSubjects == old(allSubjects) && file == Parsed(allSubjects)
    {
      file := Parsed(allSubjects);
    }

    /** Links the card to the stored subject with the subject's id, once; saves only when
      * the list changed. */
    method AddFlashcardToSubject(flashcard: Flashcard, subject: Subject)
      modifies this
      ensures var i := FindSubject(old(allSubjects), subject.subjectId);
        if 0 <= i && flashcard.flashcardId !in old(allSubjects)[i].flashcards then
          allSubjects == old(allSubjects)[i := old(allSubjects)[i].(flashcards := old(allSubjects)[i].flashcards + [flashcard.flashcardId])]
          && file == Parsed(allSubjects)
        else allSubjects == old(allSubjects) && file == old(file)
    {
      var i := FindSubject(allSubjects, subject.subjectId);
      if 0 <= i {
        var existing := allSubjects[i];
        if flashcard.flashcardId !in existing.flashcards {
          allSubjects := allSubjects[i := existing.(flashcards := existing.flashcards + [flashcard.flashcardId])];
          Save();
        }
      }
    }

    /** Appends the subject only when no stored subject has its id. */
    method AddSubject(subject: Subject)
      modifies this
      ensures allSubjects == WithSubjectAdded(old(allSubjects), subject.Record())
      ensures file == if subject.subjectId in SubjectIds(old(allSubjects)) then old(file) else Parsed(allSubjects)
    {
      if FindSubject(allSubjects, subject.subjectId) < 0 {
        allSubjects := allSubjects + [subject.Record()];
        Save();
      }
    }

    /** Acts only for an administrator and a known id; `List.Remove` then drops the first
      * entry equal to `subject`, if there is one. */
    method RemoveSubject(subject: SubjectRecord, isAdmin: bool)
      modifies this
      ensures if isAdmin && subject.subjectId in SubjectIds(old(allSubjects)) then
          allSubjects == RemoveFirst(old(allSubjects), subject) && file == Parsed(allSubjects)
        else allSubjects == old(allSubjects) && file == old(file)
    {
      if isAdmin && FindSubject(allSubjects, subject.subjectId) >= 0 {
        allSubjects := RemoveFirst(allSubjects, subject);
        Save();
      }
    }

    /** `MergeSubjects`: loads the stored subjects, merges the incoming ones in, and saves. */
    method MergeSubjects(subjects: seq<SubjectRecord>)
      modifies this
      ensures allSubjects == MergeSubjectsAll(LoadOr(old(file), []), subjects)
      ensures file == Parsed(allSubjects)
    {
      var all := Load();
      ghost var loaded := all;
      var i := 0;
      while i < |subjects|
        invariant 0 <= i <= |subjects|
        invariant all == MergeSubjectsAll(loaded, subjects[..i])
      {
        var subject := subjects[i];
        var k := FindSubject(all, subject.subjectId);
        if k < 0 {
          all := all + [subject];
        } else {
          var existing := all[k];
          var topics := existing.topics;
          var j := 0;
          while j < |subject.topics|
            invariant 0 <= j <= |subject.topics|
            invariant topics == UnionInOrder(existing.topics, subject.topics[..j])
          {
            if subject.topics[j] !in topics {
              topics := topics + [subject.topics[j]];
            }
            assert subject.topics[..j + 1][..j] == subject.topics[..j];
            j := j + 1;
          }
          assert subject.topics[..j] == subject.topics;
          var flashcards := existing.flashcards;
          j := 0;
          while j < |subject.flashcards|
            invariant 0 <= j <= |subject.flashcards|
            invariant flashcards == UnionInOrder(existing.flashcards, subject.flashcards[..j])
          {
            if subject.flashcards[j] !in flashcards {
              flashcards := flashcards + [subject.flashcards[j]];
            }
            assert subject.flashcards[..j + 1][..j] == subject.flashcards[..j];
            j := j + 1;
          }
          assert subject.flashcards[..j] == subject.flashcards;
          all := all[k := existing.(topics := topics, flashcards := flashcards)];
        }
        assert subjects[..i + 1][..i] == subjects[..i];
        i := i + 1;
      }
      assert subjects[..i] == subjects;
      allSubjects := all;
      Save();
    }
  }
}
