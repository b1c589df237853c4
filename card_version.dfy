/** One immutable revision of a flashcard's content. Times are whole clock ticks counted
  * from `DateTime.MinValue`, so the earliest representable instant is 0. */
module CardVersions {
  import opened Common

  datatype CardVersion = CardVersion(
    question: Option<string>,
    answer: Option<string>,
    editor: Option<string>,
    deleted: bool,
    questionImagePath: Option<string>,
    answerImagePath: Option<string>,
    timestamp: nat)

  /** `new CardVersion()`, the constructor deserialisation uses before it sets the fields. */
  function EmptyVersion(now: nat): CardVersion
  {
    CardVersion(None, None, None, false, None, None, now)
  }

  /** `new CardVersion(question, answer, editor)`, stamped with the clock reading `now`. */
  function NewVersion(question: Option<string>, answer: Option<string>, editor: Option<string>, now: nat): CardVersion
  {
    CardVersion(question, answer, editor, false, None, None, now)
  }

  /** `new CardVersion(question, answer, editor, questionImagePath, answerImagePath)`. */
  function NewVersionWithImages(question: Option<string>, answer: Option<string>, editor: Option<string>,
                                questionImagePath: Option<string>, answerImagePath: Option<string>, now: nat): CardVersion
  {
    CardVersion(question, answer, editor, false, questionImagePath, answerImagePath, now)
  }

  /** `new CardVersion(editor, deleted)`: a revision without content that records who flagged
    * the card. */
  function FlagVersion(editor: Option<string>, deleted: bool, now: nat): CardVersion
  {
    CardVersion(None, None, editor, deleted, None, None, now)
  }

  /** Every constructor stamps the version with the clock reading taken when it runs. A
    * content version is never a deletion and, without image paths, is the image
    * constructor given none; a flag version carries no content and no image, only its
    * editor and its flag; the empty version is a flag version without editor or flag. */
  lemma VersionConstructorsSpec(q: Option<string>, a: Option<string>, e: Option<string>,
                                qi: Option<string>, ai: Option<string>, deleted: bool, now: nat)
    ensures NewVersion(q, a, e, now).timestamp == NewVersionWithImages(q, a, e, qi, ai, now).timestamp
         == FlagVersion(e, deleted, now).timestamp == EmptyVersion(now).timestamp == now
    ensures NewVersion(q, a, e, now) == NewVersionWithImages(q, a, e, None, None, now)
    ensures !NewVersionWithImages(q, a, e, qi, ai, now).deleted
    ensures NewVersionWithImages(q, a, e, qi, ai, now).(questionImagePath := None, answerImagePath := None)
         == NewVersion(q, a, e, now)
    ensures var f := FlagVersion(e, deleted, now);
      f.question == None && f.answer == None && f.questionImagePath == None && f.answerImagePath == None
      && f.editor == e && f.deleted == deleted
    ensures EmptyVersion(now) == FlagVersion(None, false, now)
  {
  }
}
