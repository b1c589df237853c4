# IBrary core, modelled in Dafny

IBrary is a desktop flashcard application for IB students. Cards carry a log of
versions (edits and deletion flags by named editors), study statistics and topic tags.
Subjects group topics and cards. Three JSON stores hold cards, topics and subjects, and a
settings file holds the user's name, followed subjects, levels, blocked users and theme.
Devices on one LAN exchange these stores: they announce themselves over UDP, compare
SHA-256 manifests of the three files, request what differs, and merge what they receive.

This project models the logic under the WinForms screens:

- **Sync protocol.** `SyncProtocol` gives each handler of `NetworkSyncService` as a
  transition of one state value. The data folder is a map from file name to text,
  and every message sent goes to an outbox. `NetworkSync.NetworkSyncService` is the class
  whose methods update those fields in place, each proved to perform its transition.
  `Framing` is the `[4-byte little-endian length][UTF-8 JSON]` frame writer and the
  read loops of the reader.
- **Stores and merges.** `FlashcardManagement`, `SubjectManagement` and
  `TopicManagement` cover add, edit, delete, merge, statistics reset and the
  Quizlet importers. Each store is a list in memory and a `Stored` JSON document.
- **Domain models.** `CardVersions`, `Flashcards`, `Subjects`, `Topics` and
  `Settings` cover constructors, the name-to-id rule, study counters, the display
  version, fresh ids, and the username/hash coupling.
- **Settings manager.** `SettingsManagement` covers default levels, the followed
  subjects, username validation, unblocking, the level lookup and the theme.
- **Screen rules.** `StudySession` is the study screen's filter, ordering and cyclic
  cursor. `UserView` is the contributor lookup, counts and previews. `TopicDashboard`
  is the per-topic statistics. `QuizletView` and `QuizletImport` are the two Quizlet
  import screens.
- **Sorting.** `Sorting` is the stable sort behind LINQ's `OrderBy`.

Times are whole clock ticks (`nat`, with `DateTime.MinValue` as 0). A nullable value is
an `Option`. A dictionary whose order matters is an association list. Injected
parameters stand for:

- SHA-256 (`Env.hash`, and the `hash` of `Settings`);
- JSON decoding (`Env.parse`, and `Codec` for the three stores);
- the local-address test, TCP reachability and whether a file write succeeds;
- `Guid.NewGuid` (`GuidOracle`, which never issues a string twice).

## Model

| member | source | states |
|---|---|---|
| Common.LoadOr | IBrary/Managers/FlashcardManager.cs:37-58 | a loader yields the parsed value, and the empty value for a missing file, an unparseable file or null |
| Common.ToLower | IBrary/Models/Topic.cs:72 | lower-casing keeps the length and folds each ASCII letter |
| Common.ReplaceSpaces | IBrary/Models/Topic.cs:72 | every space becomes `_` and every other character stays |
| Common.NameToIdShape | IBrary/Models/Subject.cs:64-69 | an id has the name's length, no space and no upper-case ASCII letter; applying the rule again changes nothing |
| Common.TrimStart | IBrary/UI/UserViewUserControl.cs:132 | drops exactly the leading white space |
| Common.TrimEnd | IBrary/UI/UserViewUserControl.cs:132 | drops exactly the trailing white space |
| Common.Trim | IBrary/UI/UserViewUserControl.cs:132-133 | the trimmed query is empty exactly when the text is all white space; otherwise it neither starts nor ends with white space |
| Common.Filter | IBrary/Models/Topic.cs:18-25 | `Where` keeps exactly the elements that pass, and never more than it was given |
| Common.IndexOf | IBrary/Managers/SettingsManager.cs:182-184 | the first position holding the element, or -1 exactly when it is absent |
| Common.RemoveFirst | IBrary/Managers/SettingsManager.cs:184 | `List.Remove` drops the first occurrence when there is one, keeping the other elements in order, and otherwise changes nothing |
| Common.RemoveFirstUnique | IBrary/Managers/SettingsManager.cs:180-187 | on a list without duplicates, removal leaves the element absent and no duplicate |
| Common.RemoveAppended | IBrary/UI/UserViewUserControl.cs:293-303 | appending an absent name and removing it again restores the list |
| Common.UnionInOrderSpec | IBrary/Managers/SubjectManager.cs:118-131 | an id-list merge keeps the old list as a prefix, holds exactly the ids of both lists, adds no duplicate, and adds nothing when nothing is new |
| Common.UnionInOrderAppend | IBrary/Managers/SubjectManager.cs:107-133 | merging two lists one after the other equals merging their concatenation |
| Common.UnionInOrderIdempotent | IBrary/Managers/SubjectManager.cs:107-133 | merging the same list twice adds nothing the second time |
| CardVersions.VersionConstructorsSpec | IBrary/Models/CardVersion.cs:14-43 | every constructor stamps the creation time; content versions are never deletions and have the given images (none for the three-argument form); a flag version has no content, only editor and flag |
| Flashcards.StudyResultKeepsConsistency | IBrary/Models/Flashcard.cs:90-100 | one answer keeps `0 <= Errors <= Seen` and the dates consistent, adds an error exactly when incorrect, and never moves a set first-seen date |
| Flashcards.StudyHistoryTotals | IBrary/Models/Flashcard.cs:90-100 | after a run of answers, Seen grows by their number, Errors by the wrong ones; FirstSeen is the first answer's unless set; LastSeen is the last answer's |
| Flashcards.StudyHistoryCounts | IBrary/Models/Flashcard.cs:96-97 | the counters of a run of answers, and no other field changes |
| Flashcards.StudyHistoryDates | IBrary/Models/Flashcard.cs:94-99 | the two dates after a run of answers |
| Flashcards.LatestSeen | IBrary/Models/Topic.cs:48-58 | the maximum last-seen date among the cards, none exactly when no card has one, and attained by some card |
| Flashcards.SeenSumBounds | IBrary/Models/Topic.cs:60-66 | over non-negative counters, `Sum(f => f.Seen)` is at least each card's count and 0 exactly when no card was answered |
| Flashcards.TotalsBounded | IBrary/UserControls/TopicDashboardUserControl.cs:117-118 | over consistent cards, total errors lie between 0 and total answers, which are 0 only when no card was answered |
| Flashcards.LastDisplayableIndex | IBrary/Models/Flashcard.cs:102-105 | the last position with a non-deleted version by an unblocked editor, or -1 when there is none |
| Flashcards.DisplayVersion | IBrary/Models/Flashcard.cs:102-105 | `GetDisplayVersion` is none exactly when no version is displayable, and otherwise a displayable version of the log |
| Flashcards.GuidOracle.constructor | IBrary/Models/Flashcard.cs:107-115 | the oracle starts with nothing issued |
| Flashcards.GuidOracle.NewGuid | IBrary/Models/Flashcard.cs:111 | each draw is a string never issued before |
| Flashcards.GenerateId | IBrary/Models/Flashcard.cs:107-115 | the loop ends with an id used by no stored card and never issued before |
| Flashcards.Flashcard.constructor | IBrary/Models/Flashcard.cs:62-66 | a fresh unused id, HL, no topics, one version with the given content, unstudied |
| Flashcards.Flashcard.WithTopics | IBrary/Models/Flashcard.cs:67-73 | as above with the given level and topics |
| Flashcards.Flashcard.WithImages | IBrary/Models/Flashcard.cs:74-80 | as above, with its one version carrying the two image paths |
| Flashcards.Flashcard.ModifyFlashcard | IBrary/Models/Flashcard.cs:81-84 | appends exactly one content version; earlier versions and every other field stay |
| Flashcards.Flashcard.DeleteFlashcard | IBrary/Models/Flashcard.cs:85-88 | appends exactly one version with `Deleted` set; nothing is removed |
| Flashcards.Flashcard.RegisterStudyResult | IBrary/Models/Flashcard.cs:90-100 | the card becomes the `StudyResult` the lemmas above describe |
| Topics.NewTopic | IBrary/Models/Topic.cs:69-74 | keeps name and level; the id is the name-to-id rule applied to the name, so it has the name's length, no space and no upper-case ASCII letter |
| Topics.TopicFlashcards | IBrary/Models/Topic.cs:18-25 | exactly the stored cards tagged with the topic |
| Topics.TopicLatestSeen | IBrary/Models/Topic.cs:48-58 | the maximum last-seen date among the topic's cards, none exactly when none has one |
| Topics.TopicTotalSeenCount | IBrary/Models/Topic.cs:60-66 | with no negative counter, the total answers on the topic's cards are at least each card's, and 0 exactly when none was answered |
| Subjects.SubjectTopics | IBrary/UserControls/TopicDashboardUserControl.cs:89 | exactly the stored topics the subject lists |
| Subjects.SubjectFlashcards | IBrary/Models/Subject.cs:22-30 | exactly the stored cards the subject lists |
| Subjects.SubjectLatestSeen | IBrary/Models/Subject.cs:43-50 | the maximum last-seen date among the subject's cards, none exactly when none has one |
| Subjects.SubjectTotalSeenCount | IBrary/Models/Subject.cs:52-58 | with no negative counter, the total answers on the subject's cards are at least each card's, and 0 exactly when none was answered |
| Subjects.Subject.constructor | IBrary/Models/Subject.cs:59-63 | no topics and no cards |
| Subjects.Subject.Named | IBrary/Models/Subject.cs:64-69 | the id follows the name-to-id rule; no topics and no cards |
| Subjects.Subject.Full | IBrary/Models/Subject.cs:70-76 | a null topic or card list becomes empty |
| Subjects.Subject.AddTopic | IBrary/Models/Subject.cs:77-81 | appends the id without a duplicate check and returns the argument |
| Subjects.Subject.AddFlashcard | IBrary/Models/Subject.cs:98-102 | appends the id without a duplicate check and returns the argument |
| FlashcardManagement.FindIndex | IBrary/Managers/FlashcardManager.cs:119-121 | a position of a card with the id, or -1 exactly when none has it |
| FlashcardManagement.EditTouchesOnlyTheMatch | IBrary/Managers/FlashcardManager.cs:119-127 | an edit adds one version at the end of the matching card only; an unknown id changes nothing |
| FlashcardManagement.WithCardDeleted | IBrary/Managers/FlashcardManager.cs:146-167 | an administrator removes the matching card; anyone else appends one deletion flag to it, leaving its other fields and every other card as they were; an unknown id changes nothing |
| FlashcardManagement.ResetStats | IBrary/Managers/FlashcardManager.cs:238-262 | each card is reset, position by position |
| FlashcardManagement.ResetStatsSpec | IBrary/Managers/FlashcardManager.cs:238-262 | a reset leaves every card unstudied and consistent, keeps id, versions, level and topics, clears the star only for the list overload, and is idempotent |
| FlashcardManagement.MergeVersionsSpec | IBrary/Managers/FlashcardManager.cs:199-209 | the version merge keeps the local log as a prefix, appends only revisions with a new (Timestamp, Editor), and ends knowing every incoming revision |
| FlashcardManagement.MergeAllIds | IBrary/Managers/FlashcardManager.cs:193-224 | cards with new ids are appended in input order, each id once |
| FlashcardManagement.MergeAllKeepsCards | IBrary/Managers/FlashcardManager.cs:193-224 | no card or version is lost: each stored card keeps its place, id, level, topics and star, with its log as a prefix |
| FlashcardManagement.MergeUnseenKeepsStats | IBrary/Managers/FlashcardManager.cs:212-218 | incoming cards never seen pass on no statistics |
| FlashcardManagement.MergeKeepsConsistency | IBrary/Managers/FlashcardManager.cs:193-224 | consistent statistics stay consistent through a merge |
| FlashcardManagement.MergeWithoutStatsKeepsStoredStats | IBrary/Managers/FlashcardManager.cs:184-191 | without `preserveStats`, no stored card's statistics change and every added card arrives unstudied and unstarred |
| FlashcardManagement.MergeAddedAreFromInput | IBrary/Managers/FlashcardManager.cs:220-223 | every card past the stored prefix has the id, level, topics and star of the incoming card that added it, and the statistics of some incoming card with its id (with `preserveStats`, a later copy seen later may replace them) |
| FlashcardManagement.UnseenLocalCardKeepsStats | IBrary/Managers/FlashcardManager.cs:212 | the nullable `>` is false when the local date is null, so an unseen local card keeps its statistics |
| FlashcardManagement.OrderedByPriorityIsStableSort | IBrary/Managers/FlashcardManager.cs:170-173 | the priority order is a permutation, non-increasing in priority, stable on ties |
| FlashcardManagement.NewQuizletCard | IBrary/Managers/FlashcardManager.cs:277-281 | a kept entry becomes a card with a fresh id unused by the store |
| FlashcardManagement.ImportCards | IBrary/Managers/FlashcardManager.cs:288-304 | the loop builds one card per kept entry, in order, and reports whether any was kept |
| FlashcardManagement.LoadStep | IBrary/Managers/FlashcardManager.cs:311-319 | one pass of the file loader turns one kept entry into a card with a fresh id |
| FlashcardManagement.ImportStep | IBrary/Managers/FlashcardManager.cs:294-302 | one pass of the importer adds a card exactly when the entry has a term or a definition |
| FlashcardManagement.MergeOne | IBrary/Managers/FlashcardManager.cs:193-224 | one turn of the outer merge loop computes `MergeCard` |
| FlashcardManagement.FlashcardManager.constructor | IBrary/Managers/FlashcardManager.cs:26-29 | no cards in memory; the file as given |
| FlashcardManagement.FlashcardManager.Load | IBrary/Managers/FlashcardManager.cs:31-35 | the cards in memory become the loaded file, or none |
| FlashcardManagement.FlashcardManager.Save | IBrary/Managers/FlashcardManager.cs:59-77 | the file holds the cards in memory |
| FlashcardManagement.FlashcardManager.SaveFlashcards | IBrary/Managers/FlashcardManager.cs:80-99 | file and memory hold the given list |
| FlashcardManagement.FlashcardManager.AddFlashcard | IBrary/Managers/FlashcardManager.cs:105-112 | null is refused with nothing changed; otherwise the loaded list plus the card is stored |
| FlashcardManagement.FlashcardManager.EditFlashcard | IBrary/Managers/FlashcardManager.cs:115-128 | the matching card gains the new version and is saved; an unknown id saves nothing |
| FlashcardManagement.FlashcardManager.EditFlashcardWithVersion | IBrary/Managers/FlashcardManager.cs:130-143 | as above with a given version |
| FlashcardManagement.FlashcardManager.DeleteFlashcard | IBrary/Managers/FlashcardManager.cs:146-167 | stores `WithCardDeleted` of the loaded cards, saving only for a known id |
| FlashcardManagement.FlashcardManager.ResetAllFlashcardStatsOf | IBrary/Managers/FlashcardManager.cs:251-262 | resets the array in place, star included |
| FlashcardManagement.FlashcardManager.ResetAllFlashcardStats | IBrary/Managers/FlashcardManager.cs:238-248 | resets the cards in memory, stars kept, and saves |
| FlashcardManagement.FlashcardManager.MergeFlashcards | IBrary/Managers/FlashcardManager.cs:184-227 | stores the merge of the incoming cards (reset in place first without `preserveStats`) into the loaded ones |
| FlashcardManagement.FlashcardManager.MergeFlashcardsFrom | IBrary/Managers/FlashcardManager.cs:178-181 | statistics are kept exactly when the sender is the signed-in user; otherwise the incoming array is reset in place, star included |
| FlashcardManagement.FlashcardManager.ImportFlashcards | IBrary/Managers/FlashcardManager.cs:230-235 | the loaded cards followed by the given ones are stored |
| FlashcardManagement.FlashcardManager.LoadFromQuizletFile | IBrary/Managers/FlashcardManager.cs:307-321 | one new card per entry with a term or a definition, in order, with fresh ids, nothing saved |
| FlashcardManagement.FlashcardManager.ImportFromQuizlet | IBrary/Managers/FlashcardManager.cs:288-304 | the new cards are appended and saved; the answer is true exactly when an entry was kept |
| TopicManagement.FindTopic | IBrary/Managers/TopicManager.cs:104 | the first topic with the id, or -1 exactly when none has it |
| TopicManagement.MergeTopicGrows | IBrary/Managers/TopicManager.cs:104-119 | one merge turn removes, renames and moves nothing |
| TopicManagement.MergeTopicsAllGrows | IBrary/Managers/TopicManager.cs:100-122 | a merge never removes, renames or moves a topic |
| TopicManagement.MergeTopicsAllIds | IBrary/Managers/TopicManager.cs:115-119 | topics with new ids are appended in incoming order, each once |
| TopicManagement.MergeTopicsAllLevel | IBrary/Managers/TopicManager.cs:104-114 | a stored topic ends at SL exactly when an incoming topic with its id has another level; otherwise it is unchanged |
| TopicManagement.MergeTopicsAllCovers | IBrary/Managers/TopicManager.cs:100-122 | afterwards every incoming id is present, at the incoming level or SL |
| TopicManagement.MergeCoveredIsNoop | IBrary/Managers/TopicManager.cs:100-122 | merging topics already covered changes nothing |
| TopicManagement.MergeTopicsIdempotent | IBrary/Managers/TopicManager.cs:100-122 | merging the same input twice equals merging it once |
| TopicManagement.TopicManager.constructor | IBrary/Managers/TopicManager.cs:20-24 | no topics in memory; the file as given |
| TopicManagement.TopicManager.Load | IBrary/Managers/TopicManager.cs:28-52 | the loaded file, or no topics for a missing or unparseable one |
| TopicManagement.TopicManager.Save | IBrary/Managers/TopicManager.cs:55-73 | the file holds the topics in memory |
| TopicManagement.TopicManager.AddTopic | IBrary/Managers/TopicManager.cs:78-85 | appends and saves only when the id is new |
| TopicManagement.TopicManager.RemoveTopic | IBrary/Managers/TopicManager.cs:89-97 | acts only for an administrator and a known id |
| TopicManagement.TopicManager.MergeTopics | IBrary/Managers/TopicManager.cs:100-122 | merges into the topics in memory and saves |
| SubjectManagement.FindSubject | IBrary/Managers/SubjectManager.cs:71-73 | the first subject with the id, or -1 exactly when none has it |
| SubjectManagement.MergeSubjectGrows | IBrary/Managers/SubjectManager.cs:107-133 | one merge turn removes no subject, id or list entry |
| SubjectManagement.MergeSubjectsAllGrows | IBrary/Managers/SubjectManager.cs:104-135 | a merge never removes a subject or an id |
| SubjectManagement.MergeSubjectsAllIds | IBrary/Managers/SubjectManager.cs:109-112 | subjects with new ids are appended in incoming order, each once |
| SubjectManagement.MergeSubjectsAllExisting | IBrary/Managers/SubjectManager.cs:115-132 | a stored subject's lists become its own followed by the incoming ids it lacked, in incoming order |
| SubjectManagement.MergeSubjectsAllCovers | IBrary/Managers/SubjectManager.cs:104-135 | afterwards every incoming subject is present with all its ids |
| SubjectManagement.MergeCoveredIsNoop | IBrary/Managers/SubjectManager.cs:104-135 | merging covered subjects changes nothing |
| SubjectManagement.MergeSubjectsIdempotent | IBrary/Managers/SubjectManager.cs:104-135 | merging the same input twice equals merging it once |
| SubjectManagement.AddSubjectKeepsIdsUnique | IBrary/Managers/SubjectManager.cs:83-90 | adding keeps subject ids unique and the id present |
| SubjectManagement.SubjectManager.constructor | IBrary/Managers/SubjectManager.cs:26 | no subjects in memory; the file as given |
| SubjectManagement.SubjectManager.Load | IBrary/Managers/SubjectManager.cs:29-50 | the loaded file, or no subjects for a missing or unparseable one |
| SubjectManagement.SubjectManager.Save | IBrary/Managers/SubjectManager.cs:53-64 | the file holds the subjects in memory |
| SubjectManagement.SubjectManager.AddFlashcardToSubject | IBrary/Managers/SubjectManager.cs:69-80 | the first subject with the id gains the card id when it lacks it, and only then is saved |
| SubjectManagement.SubjectManager.AddSubject | IBrary/Managers/SubjectManager.cs:83-90 | appends and saves only when the id is new |
| SubjectManagement.SubjectManager.RemoveSubject | IBrary/Managers/SubjectManager.cs:93-101 | acts only for an administrator and a known id |
| SubjectManagement.SubjectManager.MergeSubjects | IBrary/Managers/SubjectManager.cs:104-135 | loads, merges the incoming subjects by the nested loops and saves |
| Settings.DefaultSettings | IBrary/Models/UserSettings.cs:33-41 | theme "Light", empty lists and level map, no name |
| Settings.HashFor | IBrary/Models/UserSettings.cs:20-24 | the setter stores no hash exactly for a null or empty name |
| Settings.SetterKeepsUsernameValid | IBrary/Models/UserSettings.cs:17-48 | a name set through the setter is valid; for a non-empty name a stored hash is valid exactly when it is the setter's |
| Settings.UserSettings.constructor | IBrary/Models/UserSettings.cs:33-41 | a new object holds the defaults |
| Settings.UserSettings.FromRecord | IBrary/Models/UserSettings.cs:27-41 | deserialisation sets name and hash independently, as stored |
| Settings.UserSettings.SetUsername | IBrary/Models/UserSettings.cs:17-25 | the hash follows the name, and the name is then valid |
| SettingsManagement.ToggledTheme | IBrary/Managers/SettingsManager.cs:236-249 | "Dark" toggles to "Light", anything else to "Dark" |
| SettingsManagement.ToggleTwice | IBrary/Managers/SettingsManager.cs:236-249 | two toggles restore "Dark" or "Light", and end on "Light" otherwise |
| SettingsManagement.DefaultLevelsSpec | IBrary/Managers/SettingsManager.cs:60-72 | every subject gets a level, existing entries stay, every new one is HL and belongs to a subject |
| SettingsManagement.SelectMySubjects | IBrary/Managers/SettingsManager.cs:74-76 | exactly the loaded subjects whose id the user follows |
| SettingsManagement.SubjectLevel | IBrary/Managers/SettingsManager.cs:223-233 | the stored level, HL when there is none |
| SettingsManagement.ValidatedSpec | IBrary/Managers/SettingsManager.cs:51-57 | after validation the name is valid, only a tampered name is cleared, and nothing else changes |
| SettingsManagement.SettingsManager.constructor | IBrary/Managers/SettingsManager.cs:28-35 | default settings, no followed subjects, no palette yet |
| SettingsManagement.SettingsManager.Save | IBrary/Managers/SettingsManager.cs:119-134 | the file holds the current settings |
| SettingsManagement.SettingsManager.FillDefaultLevels | IBrary/Managers/SettingsManager.cs:59-72 | the level map becomes `DefaultLevels` of the old one and the subjects |
| SettingsManagement.SettingsManager.Load | IBrary/Managers/SettingsManager.cs:38-117 | missing file: follow every subject; unparseable: defaults; parsed: validated, saved if tampered, defaulted levels, followed subjects; palette by theme |
| SettingsManagement.SettingsManager.UnblockUser | IBrary/Managers/SettingsManager.cs:180-187 | removes the first occurrence and saves; an unknown name changes and saves nothing; followed subjects and palette stay |
| SettingsManagement.SettingsManager.SetUsername | IBrary/Managers/SettingsManager.cs:190-194 | the name and its hash are set, valid, and saved; followed subjects and palette stay |
| SettingsManagement.SettingsManager.LogOut | IBrary/Managers/SettingsManager.cs:197-201 | name and hash are cleared and saved; followed subjects and palette stay |
| SettingsManagement.SettingsManager.UpdateMySubjects | IBrary/Managers/SettingsManager.cs:203-208 | the followed ids are saved, then settings and followed subjects are loaded again, with the palette by the theme; the subject manager holds its reloaded file |
| SettingsManagement.SettingsManager.UpdateSubjectLevel | IBrary/Managers/SettingsManager.cs:211-220 | only the given key changes, and the settings are saved; followed subjects and palette stay |
| SettingsManagement.SettingsManager.GetSubjectLevel | IBrary/Managers/SettingsManager.cs:223-233 | the stored level or HL; a null map becomes empty |
| SettingsManagement.SettingsManager.ChangeTheme | IBrary/Managers/SettingsManager.cs:236-249 | the theme toggles, the palette follows, and the settings are saved; followed subjects stay |
| StudySession.LatestByTimestampSpec | IBrary/UI/FlashcardUserControl.cs:444 | the first of the versions with the greatest timestamp, none for an empty log |
| StudySession.AllowedLevels | IBrary/UI/FlashcardUserControl.cs:369-374 | {SL, HL} for an HL user, {SL} for an SL user |
| StudySession.OwningSubject | IBrary/UI/FlashcardUserControl.cs:421 | the first followed subject listing the card, or -1 when none does |
| StudySession.ValidCardIsLive | IBrary/UI/FlashcardUserControl.cs:444 | a valid card has a latest version that is not a deletion; a card without versions is never valid |
| StudySession.TopicFilter | IBrary/UI/FlashcardUserControl.cs:447 | with no topic checked every card passes; otherwise a card must share a checked topic |
| StudySession.LevelRule | IBrary/UI/FlashcardUserControl.cs:369-374 | for a real subject, SL cards always pass and HL cards only for an HL or unset level |
| StudySession.AllSubjectsRule | IBrary/UI/FlashcardUserControl.cs:418-436 | under all subjects a card must be listed by a followed subject and is judged by the first one's level |
| StudySession.NoSubjectAdmitsAll | IBrary/UI/FlashcardUserControl.cs:438-441 | with no subject selected, every card passes the subject test at either level |
| StudySession.ApplyOrderingSpec | IBrary/UI/FlashcardUserControl.cs:383-410 | every modelled ordering is a stable sort by its key |
| StudySession.OrderingMeaning | IBrary/UI/FlashcardUserControl.cs:393-401 | "seen_few" puts fewer answers first; "important" puts starred cards first, each group by the not-seen key |
| StudySession.SessionCards | IBrary/UI/FlashcardUserControl.cs:364-381 | exactly the stored cards that pass `IsValidFlashcard` |
| StudySession.SessionOrder | IBrary/UI/FlashcardUserControl.cs:376-380 | the session holds every valid stored card as often as the store does and no other card; under a modelled ordering it is sorted by that ordering's key, keeping store order among equal keys |
| StudySession.ScanFrom | IBrary/UI/FlashcardUserControl.cs:490-508 | the first offset at which a card is showable, or -1 when none is |
| StudySession.FoundSpec | IBrary/UI/FlashcardUserControl.cs:479-511 | finds the first showable card cyclically from the cursor and stays on it; finds nothing exactly when no card is showable |
| StudySession.ShowCurrentSpec | IBrary/UI/FlashcardUserControl.cs:450-477 | the cursor wraps to 0; an empty session clears the version; with nothing showable the cursor moves one on; otherwise the found card's question is shown, with the corrected display's question side up |
| StudySession.ShowStaysOnShowable | IBrary/UI/FlashcardUserControl.cs:450-477 | a showable card under the cursor is the one shown |
| StudySession.FlipSpec | IBrary/UI/FlashcardUserControl.cs:305-348 | a click shows the other side's text; two clicks restore the view |
| StudySession.FlipAfterDisplayShowsAnswer | IBrary/UI/FlashcardUserControl.cs:513-531 | with the corrected display, one click after showing a card shows its answer |
| StudySession.FlipAfterAdvanceAsWritten | IBrary/UI/FlashcardUserControl.cs:513-531 | as written, after an answer was shown and the cursor moved on, the first click shows the question again |
| StudySession.AsWrittenScanNeverEnds | IBrary/UI/FlashcardUserControl.cs:484-508 | as written, a cursor past the end with nothing showable never returns to `startIndex` |
| StudySession.AsWrittenScanAgreesInRange | IBrary/UI/FlashcardUserControl.cs:479-511 | on an in-range cursor, as `ShowCurrentQuestion` passes it, the loop as written ends within one pass with the corrected result |
| StudySession.CorrectedScanEnds | IBrary/UI/FlashcardUserControl.cs:484-508 | with `startIndex` taken after the clamp, the loop ends within one pass with the result `FoundSpec` describes |
| StudySession.AsWrittenDiffersOnlyInSide | IBrary/UI/FlashcardUserControl.cs:450-531 | the screen as written (display leaving the side flag) gives the same cards, cursor, version and label as the corrected one when showing, skipping and answering, and keeps the flag as it was |
| StudySession.AnswerRecorded | IBrary/UI/FlashcardUserControl.cs:664-722 | an answer counts one sight, and one error exactly for "incorrect", in store and session alike; nothing else changes; a cursor past the end does nothing |
| StudySession.ShowKeepsCards | IBrary/UI/FlashcardUserControl.cs:450-477 | showing never changes the session's cards |
| StudySession.SkipMovesOne | IBrary/UI/FlashcardUserControl.cs:683-691 | skipping onto a showable card moves exactly one place, wrapping after the last |
| StudySession.FlashcardUserControl.constructor | IBrary/UI/FlashcardUserControl.cs:58 | an empty session, nothing on display, question side up |
| StudySession.FlashcardUserControl.FindValidVersion | IBrary/UI/FlashcardUserControl.cs:479-511 | the corrected do-while (`startIndex` after the clamp) computes `Found` of the session and cursor; on the in-range cursor `ShowCurrentQuestion` passes it (lines 459-460) the source's loop does the same |
| StudySession.FlashcardUserControl.DisplayFlashcard | IBrary/UI/FlashcardUserControl.cs:513-531 | corrected: shows the question of the version with the question side up, where the source leaves the side flag as it was |
| StudySession.FlashcardUserControl.ShowCurrentQuestion | IBrary/UI/FlashcardUserControl.cs:450-477 | the view becomes `ShowCurrent` of the old one, over the corrected display |
| StudySession.FlashcardUserControl.FlashcardPanelClick | IBrary/UI/FlashcardUserControl.cs:305-348 | the view becomes `Flip` of the old one |
| StudySession.FlashcardUserControl.LoadFlashcards | IBrary/UI/FlashcardUserControl.cs:364-381 | reloads the store unchanged; the session becomes `SessionOrder` of the reloaded cards and the selection, and nothing else on screen changes |
| StudySession.FlashcardUserControl.RefreshFlashcards | IBrary/UI/FlashcardUserControl.cs:350-356 | the session becomes `SessionOrder` of the reloaded store, the cursor 0, then the first showable card is shown over the corrected display |
| StudySession.FlashcardUserControl.RecordAnswer | IBrary/UI/FlashcardUserControl.cs:664-722 | store and view become `Answered` of the old ones, over the corrected display |
| StudySession.FlashcardUserControl.CorrectClick | IBrary/UI/FlashcardUserControl.cs:693-722 | the reloaded store becomes `StoreAnswered` with a correct answer on the shown card, saved exactly when the card is found; nothing changes when the cursor is past the end; the view becomes `Answered`, over the corrected display |
| StudySession.FlashcardUserControl.IncorrectClick | IBrary/UI/FlashcardUserControl.cs:664-681 | the reloaded store becomes `StoreAnswered` with a wrong answer on the shown card, saved exactly when the card is found; nothing changes when the cursor is past the end; the view becomes `Answered`, over the corrected display |
| StudySession.FlashcardUserControl.SkipClick | IBrary/UI/FlashcardUserControl.cs:683-691 | the view becomes `Skipped` of the old one, over the corrected display |
| UserView.UserCards | IBrary/UI/UserViewUserControl.cs:187 | exactly the cards with a version by the user, ignoring case |
| UserView.UserExistsIffCards | IBrary/UI/UserViewUserControl.cs:141 | a user exists exactly when they have a card |
| UserView.StrangerCountsNothing | IBrary/UI/UserViewUserControl.cs:189-192 | a card without a version by the user adds to no count |
| UserView.CountsOverUserCards | IBrary/UI/UserViewUserControl.cs:186-192 | counting over the user's cards equals counting over the store |
| UserView.CountsBounded | IBrary/UI/UserViewUserControl.cs:189-192 | a card counts at most once as created and once as deleted |
| UserView.PreviewText | IBrary/UI/UserViewUserControl.cs:237 | a question over 150 characters becomes its first 150 and "..."; otherwise it is unchanged |
| UserView.Take | IBrary/UI/UserViewUserControl.cs:210 | `Take(n)` is a prefix of at most n elements, the whole list when it is short |
| UserView.PreviewsOfLength | IBrary/UI/UserViewUserControl.cs:219-222 | one preview per card with a live version, never more previews than cards |
| UserView.PreviewsOfMembers | IBrary/UI/UserViewUserControl.cs:219-222 | the previews are exactly those of cards that have one |
| UserView.PreviewsBounded | IBrary/UI/UserViewUserControl.cs:208-222 | at most 20 previews, each of a card the user has a version of |
| UserView.SearchSpec | IBrary/UI/UserViewUserControl.cs:130-172 | a blank query does nothing; otherwise the panels show exactly when the trimmed name exists, with the total the sum of the counts |
| UserView.ToggledBlockSpec | IBrary/UI/UserViewUserControl.cs:289-303 | the button flips whether the user is blocked, adds no duplicate, and two presses restore the list |
| UserView.UserViewUserControl.constructor | IBrary/UI/UserViewUserControl.cs:24-30 | no current user, panels hidden |
| UserView.UserViewUserControl.DisplayUserFlashcards | IBrary/UI/UserViewUserControl.cs:204-276 | the previews of the first 20 of the user's cards |
| UserView.UserViewUserControl.ShowUserInfo | IBrary/UI/UserViewUserControl.cs:154-173 | the panel becomes `Shown`: counts, previews and button caption |
| UserView.UserViewUserControl.HideUserInfo | IBrary/UI/UserViewUserControl.cs:175-182 | hides the panels and forgets the user |
| UserView.UserViewUserControl.SearchUser | IBrary/UI/UserViewUserControl.cs:130-152 | the panel becomes `Searched` of the query |
| UserView.UserViewUserControl.BlockUserClick | IBrary/UI/UserViewUserControl.cs:287-307 | no user: nothing; blocked: unblocked through the manager; otherwise appended and saved; then shown again; the manager's followed subjects and palette stay |
| TopicDashboard.Panels | IBrary/UserControls/TopicDashboardUserControl.cs:88-91 | one panel per stored topic the subject lists, in store order |
| TopicDashboard.PanelCardsSpec | IBrary/UserControls/TopicDashboardUserControl.cs:110-113 | a panel's cards are exactly the topic's cards that the subject lists |
| TopicDashboard.StudiedBounded | IBrary/UserControls/TopicDashboardUserControl.cs:115-116 | studied cards never exceed cards, and are 0 exactly when none was seen |
| TopicDashboard.CorrectIsSeenLessErrors | IBrary/UserControls/TopicDashboardUserControl.cs:117-118 | correct answers are answers less errors |
| TopicDashboard.PanelSpec | IBrary/UserControls/TopicDashboardUserControl.cs:110-139 | over consistent cards, studied <= total, a dash exactly when nothing was answered, otherwise 0 <= correct <= answers |
| QuizletView.WithEmptyEntriesSpec | IBrary/UserControls/QuizletFlashcardsViewUserControl.cs:194-197 | every card gets an entry, existing entries stay |
| QuizletView.EveryCardStartsUnassigned | IBrary/UserControls/QuizletFlashcardsViewUserControl.cs:194-197 | a fresh screen gives every card an empty assignment |
| QuizletView.AssignAllSpec | IBrary/UserControls/QuizletFlashcardsViewUserControl.cs:245-251 | only assigned cards' topics change, to their assignment |
| QuizletView.ToImportSpec | IBrary/UserControls/QuizletFlashcardsViewUserControl.cs:261-264 | the imported cards are exactly the assigned preview cards, in order, each with its topics |
| QuizletView.SubjectGainsImported | IBrary/UserControls/QuizletFlashcardsViewUserControl.cs:253-256 | the subject keeps its list and gains each imported id at most once |
| QuizletView.ImportedIds | IBrary/UserControls/QuizletFlashcardsViewUserControl.cs:245-264 | the imported ids are those of the assigned cards |
| QuizletView.AssignAndList | IBrary/UserControls/QuizletFlashcardsViewUserControl.cs:245-258 | the loop assigns topics and lists the assigned ids on the subject |
| QuizletView.QuizletFlashcardsViewUserControl.constructor | IBrary/UserControls/QuizletFlashcardsViewUserControl.cs:28-32 | an empty assignment map |
| QuizletView.QuizletFlashcardsViewUserControl.Initialize | IBrary/UserControls/QuizletFlashcardsViewUserControl.cs:34-44 | keeps cards and subject, lists the subject's stored topics, gives every card an entry |
| QuizletView.QuizletFlashcardsViewUserControl.CreateFlashcardPreviews | IBrary/UserControls/QuizletFlashcardsViewUserControl.cs:113-127 | adds an empty entry for each card that lacks one |
| QuizletView.QuizletFlashcardsViewUserControl.TopicsChecked | IBrary/UserControls/QuizletFlashcardsViewUserControl.cs:200-213 | the card's entry becomes the checked topic ids |
| QuizletView.QuizletFlashcardsViewUserControl.ApplyAssignments | IBrary/UserControls/QuizletFlashcardsViewUserControl.cs:245-258 | assigned cards take their topics and are listed on the subject |
| QuizletView.QuizletFlashcardsViewUserControl.ConfirmImport | IBrary/UserControls/QuizletFlashcardsViewUserControl.cs:221-281 | declining with unassigned cards changes nothing; otherwise the assigned cards are imported |
| QuizletImport.ValidateSelectionSpec | IBrary/UserControls/ImportFromQuizletUserControl.cs:341-362 | checks subject, then file, then topics; each failure only after the earlier checks pass |
| QuizletImport.ButtonsMatchValidation | IBrary/UserControls/ImportFromQuizletUserControl.cs:364-372 | publish is enabled exactly when validation would pass; the per-card button when only the topic check could fail |
| QuizletImport.WithTopicsSpec | IBrary/UserControls/ImportFromQuizletUserControl.cs:266-268 | publishing changes only the cards' topics, all to the checked list |
| QuizletImport.SubjectGainsLoaded | IBrary/UserControls/ImportFromQuizletUserControl.cs:271-274 | the subject keeps its list and gains each loaded id at most once |
| QuizletImport.ImportFromQuizletUserControl.constructor | IBrary/UserControls/ImportFromQuizletUserControl.cs:177-206 | the topic box lists the first followed subject's topics, or none when no subject is followed; nothing checked or loaded, both buttons disabled |
| QuizletImport.ImportFromQuizletUserControl.UpdateButtonStates | IBrary/UserControls/ImportFromQuizletUserControl.cs:364-372 | the buttons become `ButtonStates` of the screen |
| QuizletImport.ImportFromQuizletUserControl.SubjectChanged | IBrary/UserControls/ImportFromQuizletUserControl.cs:194-208 | lists the selected subject's stored topics, none checked |
| QuizletImport.ImportFromQuizletUserControl.TopicsChecked | IBrary/UserControls/ImportFromQuizletUserControl.cs:210-214 | the buttons follow the checked topics |
| QuizletImport.ImportFromQuizletUserControl.SelectFile | IBrary/UserControls/ImportFromQuizletUserControl.cs:216-253 | a file giving no card leaves nothing loaded; otherwise the built cards are loaded |
| QuizletImport.ImportFromQuizletUserControl.ResetImportState | IBrary/UserControls/ImportFromQuizletUserControl.cs:374-388 | nothing loaded, nothing checked, both buttons disabled |
| QuizletImport.ImportFromQuizletUserControl.AssignTopics | IBrary/UserControls/ImportFromQuizletUserControl.cs:266-275 | every card gets the checked topics and is listed on the subject once |
| QuizletImport.ImportFromQuizletUserControl.Publish | IBrary/UserControls/ImportFromQuizletUserControl.cs:255-289 | a failed validation changes nothing; otherwise the cards are imported, listed on the subject, and the screen is cleared |
| Sorting.InsertPermutes | IBrary/Managers/FlashcardManager.cs:170-173 | insertion adds exactly one element |
| Sorting.InsertSorted | IBrary/Managers/FlashcardManager.cs:170-173 | insertion into a sorted list keeps it sorted |
| Sorting.SortByOrders | IBrary/UI/FlashcardUserControl.cs:393-401 | the sort is ordered by the key and a permutation |
| Sorting.SortByStable | IBrary/UI/FlashcardUserControl.cs:393-401 | elements with equal keys keep their input order |
| Framing.Int32Bytes | IBrary/Network/NetworkSyncService.cs:241 | `GetBytes(int)` is four bytes, least significant first |
| Framing.ToInt32 | IBrary/Network/NetworkSyncService.cs:450 | four bytes read as a 32-bit two's-complement value |
| Framing.Int32RoundTrip | IBrary/Network/NetworkSyncService.cs:241-450 | writing an int and reading it back gives the int, and conversely for four bytes |
| Framing.EncodeFrame | IBrary/Network/NetworkSyncService.cs:240-245 | the length bytes followed by the payload |
| Framing.DecodeFrame | IBrary/Network/NetworkSyncService.cs:441-462 | nothing for a short stream or a negative length; otherwise exactly `length` payload bytes |
| Framing.FrameRoundTrip | IBrary/Network/NetworkSyncService.cs:240-462 | the reader recovers every framed payload, whatever follows it |
| Framing.TruncatedFrameRejected | IBrary/Network/NetworkSyncService.cs:441-458 | a cut-short frame yields nothing |
| Framing.ByteStream.constructor | IBrary/Network/NetworkSyncService.cs:439 | a stream with nothing read yet |
| Framing.ByteStream.Read | IBrary/Network/NetworkSyncService.cs:445 | a read delivers at least one byte unless the stream is over, and no more than asked |
| Framing.ReadFully | IBrary/Network/NetworkSyncService.cs:443-448 | the read loop fills the buffer with the next bytes or reports that the stream ended |
| Framing.ReadFrame | IBrary/Network/NetworkSyncService.cs:441-460 | the two read loops return `DecodeFrame` of the bytes delivered |
| SyncProtocol.Get | IBrary/Network/NetworkSyncService.cs:187-189 | `TryGetValue` finds the value of the first entry under a present key, and none for an absent one |
| SyncProtocol.PutSpec | IBrary/Network/NetworkSyncService.cs:97-105 | the key now maps to the value, others keep theirs, a new key goes last, keys stay distinct |
| SyncProtocol.CoreHashesSpec | IBrary/Network/NetworkSyncService.cs:87-108 | exactly the three core names, each with its file's hash or "" when missing |
| SyncProtocol.ManifestThrottled | IBrary/Network/NetworkSyncService.cs:115-124 | a second attempt within 30 seconds changes nothing |
| SyncProtocol.ManifestsSentFrame | IBrary/Network/NetworkSyncService.cs:140-149 | a round changes only the sync times and the outbox |
| SyncProtocol.ManifestsSentTimes | IBrary/Network/NetworkSyncService.cs:140-149 | each due device is stamped with `now`; other entries stay |
| SyncProtocol.ManifestsSentElsewhere | IBrary/Network/NetworkSyncService.cs:140-149 | a device outside the round keeps its time |
| SyncProtocol.ManifestsSentSpec | IBrary/Network/NetworkSyncService.cs:110-149 | one manifest with the current hashes per due device, in registry order |
| SyncProtocol.FilesToRequestSpec | IBrary/Network/NetworkSyncService.cs:176-200 | the requested names are the remote entries with a non-empty hash that is missing or different locally, in remote order |
| SyncProtocol.ManifestHandledSpec | IBrary/Network/NetworkSyncService.cs:167-214 | at most one FILE_REQUEST to the sender, exactly when a file is wanted; nothing else changes |
| SyncProtocol.BaseName | IBrary/Network/NetworkSyncService.cs:269 | `Path.GetFileName` is a suffix without separator |
| SyncProtocol.BaseNameSpec | IBrary/Network/NetworkSyncService.cs:269 | the base name is the longest separator-free suffix |
| SyncProtocol.FileMessagesSpec | IBrary/Network/NetworkSyncService.cs:152-164 | every file sent goes to the requester with a requested file's base name, content and hash; one per requested name held |
| SyncProtocol.FileMessagesCount | IBrary/Network/NetworkSyncService.cs:152-164 | one message per requested name the folder holds |
| SyncProtocol.FileMessagesAnswer | IBrary/Network/NetworkSyncService.cs:259-282 | each message answers a requested name |
| SyncProtocol.MergeTriggeredFrame | IBrary/Network/NetworkSyncService.cs:586-625 | the merge touches only files, topics in memory and the sync counter, which rises only for `flashcards.json` |
| SyncProtocol.FileReceivedSpec | IBrary/Network/NetworkSyncService.cs:518-546 | a bad hash changes nothing; a good one records the hash even if the save failed, fires the sync event only for `flashcards.json`, and sends nothing |
| SyncProtocol.SentFileSettlesRequest | IBrary/Network/NetworkSyncService.cs:259-282 | a sent file passes the receiver's hash check; afterwards the receiver no longer wants it |
| SyncProtocol.ReceivedFlashcardsReplaceStore | IBrary/Network/NetworkSyncService.cs:570-607 | as written, a received `flashcards.json` replaces the local store |
| SyncProtocol.ReceivedSubjectsReplaceStore | IBrary/Network/NetworkSyncService.cs:570-619 | as written, a received `subjects.json` replaces the local store |
| SyncProtocol.ReceivedFlashcardsMerge | IBrary/Network/NetworkSyncService.cs:586-607 | corrected, every local card keeps its place and data, and new received ids are appended |
| SyncProtocol.ReceivedSubjectsMerge | IBrary/Network/NetworkSyncService.cs:586-619 | corrected, every local subject is kept and new received ones are appended |
| SyncProtocol.LocalCardLostAsWritten | IBrary/Network/NetworkSyncService.cs:570-607 | as written, a local card the sender lacks is lost |
| SyncProtocol.LocalCardKept | IBrary/Network/NetworkSyncService.cs:586-607 | corrected, that card stays |
| SyncProtocol.DeviceAddedSpec | IBrary/Network/NetworkSyncService.cs:627-634 | the registry never holds a peer twice, holds the one added, and only grows |
| SyncProtocol.ConnectionHandledSpec | IBrary/Network/NetworkSyncService.cs:433-479 | a bad frame does nothing; a good one is logged and dispatched; the registry stays unique, and replies go to the sender |
| SyncProtocol.DispatchedSpec | IBrary/Network/NetworkSyncService.cs:481-516 | unknown or non-JSON messages change nothing; the others send only non-manifest messages to the sender |
| SyncProtocol.FilesSentToSender | IBrary/Network/NetworkSyncService.cs:217-223 | answering a request sends only JSON_FILE messages to the requester |
| SyncProtocol.BroadcastHandledSpec | IBrary/Network/NetworkSyncService.cs:303-310 | only the discovery text from a non-local address gets a reply, exactly one, to a reachable sender |
| NetworkSync.NetworkSyncService.constructor | IBrary/Network/NetworkSyncService.cs:26-43 | empty hashes, times and registry; not running |
| NetworkSync.NetworkSyncService.UpdateLocalFileHashes | IBrary/Network/NetworkSyncService.cs:87-108 | the hashes become `CoreHashes` of the folder |
| NetworkSync.NetworkSyncService.StartListening | IBrary/Network/NetworkSyncService.cs:45-61 | sets the flag and rehashes unless already running |
| NetworkSync.NetworkSyncService.StopListening | IBrary/Network/NetworkSyncService.cs:658-685 | clears the flag |
| NetworkSync.NetworkSyncService.AddDiscoveredDevice | IBrary/Network/NetworkSyncService.cs:627-634 | performs `DeviceAdded` |
| NetworkSync.NetworkSyncService.SendHashManifest | IBrary/Network/NetworkSyncService.cs:110-137 | performs `ManifestSent` |
| NetworkSync.NetworkSyncService.InitiateSyncWithAllDevices | IBrary/Network/NetworkSyncService.cs:140-149 | performs `ManifestsSent` over the registry |
| NetworkSync.NetworkSyncService.SendRequestedFiles | IBrary/Network/NetworkSyncService.cs:152-164 | performs `FilesSent` |
| NetworkSync.NetworkSyncService.HandleFileRequest | IBrary/Network/NetworkSyncService.cs:217-223 | a null list does nothing; otherwise the files are sent |
| NetworkSync.NetworkSyncService.HandleHashManifest | IBrary/Network/NetworkSyncService.cs:167-214 | performs `ManifestHandled`; a null manifest does nothing |
| NetworkSync.NetworkSyncService.SaveReceivedFile | IBrary/Network/NetworkSyncService.cs:570-584 | performs `SavedFiles` |
| NetworkSync.NetworkSyncService.TriggerMergeProcess | IBrary/Network/NetworkSyncService.cs:586-625 | performs the corrected `MergeTriggered` |
| NetworkSync.NetworkSyncService.HandleReceivedFile | IBrary/Network/NetworkSyncService.cs:518-546 | performs the corrected `FileReceived` |
| NetworkSync.NetworkSyncService.HandleDiscoveryResponse | IBrary/Network/NetworkSyncService.cs:548-568 | registers the sender, then handles any hashes |
| NetworkSync.NetworkSyncService.HandleReceivedJson | IBrary/Network/NetworkSyncService.cs:481-516 | performs `Dispatched` of the decoded message, whose JSON_FILE case is the corrected `FileReceived` |
| NetworkSync.NetworkSyncService.HandleTcpClient | IBrary/Network/NetworkSyncService.cs:433-479 | performs `ConnectionHandled` of the bytes delivered, with the corrected JSON_FILE handler |
| NetworkSync.NetworkSyncService.SendTcpResponse | IBrary/Network/NetworkSyncService.cs:350-391 | performs `ResponseSent` |
| NetworkSync.NetworkSyncService.HandleBroadcast | IBrary/Network/NetworkSyncService.cs:293-318 | performs `BroadcastHandled` |

## Left out

- Sockets, threads and the UDP broadcast are not modelled. Each handler is one atomic
  transition, because the code takes no locks. `BroadcastPresence`, `BroadcastJson`,
  the listener threads and the accept loop are left out, so a connection's bytes are
  given whole.
- SHA-256, JSON (de)serialisation, the local-address test, TCP reachability and file
  writes are injected functions. They are foreign code.
- Exceptions from I/O are modelled only where the code turns them into an outcome: an
  unparseable file, a received file the sync service cannot write (`canWrite`), or a
  handler aborting on null.
- The stores' `Save` methods (FlashcardManager.cs:73 and 95, SubjectManager.cs:60,
  TopicManager.cs:69) catch a failed write: the list in memory is updated and the file
  keeps its old text. The model's `Save` always writes, so every save succeeds.
- A hash manifest is an association list, so it could repeat a file name, which a
  deserialised `Dictionary<string,string>` cannot. Where a name repeats, `Get`, and so
  `FilesToRequest` and `DeviceAdded`, use its first entry.
- A null value inside a received hash dictionary is not modelled; only "" is.
- Clocks are `now`/`today` parameters, and `Guid.NewGuid` is the `GuidOracle`.
- Seen and error counts are unbounded integers; the source's 32-bit `int` overflow after
  2^31 answers is not modelled.
- A version with a null `Editor` makes the contributor screen throw (`v.Editor.Equals`); the
  model treats it as matching no user.
- PreviewOf: a displayed version with a null `Question` makes the contributor screen throw
  (`version.Question.Length`, UserViewUserControl.cs:237); the model previews it as "".
- A null or invalid name in a FILE_REQUEST, which makes `Path.Combine` throw and abandons
  the remaining names, is not modelled: requested names are strings.
- The outbox records every send the service attempts. A send to a peer that refuses the
  connection is caught in the source and delivers nothing. Only `SendTcpResponse`
  registers the peer after connecting, so only its transition consults reachability.
- Floating point is left out: priorities, error rates, accuracy percentages and
  `AverageErrorRate`. Priority is an integer-valued parameter.
- The "error_rate" and "random" study orderings are not sorted: `ApplyOrdering`
  returns none for them, because they need floats and randomness.
- Case folding covers the ASCII letters only: `ToLowerInvariant` and `OrdinalIgnoreCase`
  also fold letters such as `É`, so searching "josé" finds an editor "JOSÉ" in the source
  but not in the model. White space covers ASCII and the Latin-1 range. There is no
  Unicode normalisation.
- Layout, colours, images, message boxes, timers and navigation are not modelled. This
  includes `IndividualTopicButton_Click`, the `ImportConfirmed` event and the
  star toggle on the study screen.
- `RemoveTopic`/`RemoveSubject` remove the first value-equal entry. The source's
  `List.Remove` compares by reference.
- Object identity and aliasing are modelled only for the arrays and objects the
  methods take. A card object shared between the caller's list and the store is
  a value here.
- The loop bodies of `MergeFlashcards`, `LoadFromQuizletFile` and `ImportFromQuizlet`
  are separate methods (`MergeOne`, `LoadStep`, `ImportStep`, `ImportCards`). They do
  what the inline loops do.
- Null lists inside stored records (other than the subject constructor's arguments,
  the settings' level map and the hash manifests) are not modelled.
- ShowCurrentSpec: states the corrected display's question side up. As written,
  `DisplayFlashcard` leaves the side flag as it was (third row of the findings), and
  `AsWrittenDiffersOnlyInSide` proves this flag is the only difference.
- DisplayFlashcard: the class runs the corrected display. The as-written one is
  `DisplayAsWritten`.
- ShowCurrentQuestion: runs over the corrected display; the as-written view is
  `ShowCurrentAsWritten`.
- RefreshFlashcards: shows over the corrected display, so it turns the question side up
  where the source keeps the flag. `LoadSelection` reads the two list boxes; the
  selection they hold is the `sel` parameter.
- LoadFlashcards: for the "error_rate" and "random" orderings the session is the
  `shuffled` parameter, required to be a permutation of the valid cards; the model does
  not compute that order.
- RecordAnswer: shows the next card over the corrected display, so it turns the question
  side up where the source keeps the flag.
- CorrectClick: inherits the corrected display of `RecordAnswer`; the store update is
  stated in full.
- IncorrectClick: inherits the corrected display of `RecordAnswer`; the store update is
  stated in full.
- SkipClick: shows the next card over the corrected display. The source keeps the flag, so
  after a flip its next click shows the question again.
- FindValidVersion: the corrected loop. The source's loop, with `startIndex` taken before
  the clamp, is `FindValidVersionAsWritten` (second row of the findings).
  `AsWrittenScanAgreesInRange` proves the two agree on the in-range cursor that their
  only caller passes.
- TriggerMergeProcess: runs the corrected merge, which merges the received list into the
  store as it was before the save. As written, the store becomes the received list
  (`SyncProtocol.MergeTriggeredAsWritten`, first row of the findings).
- HandleReceivedFile: saves and then runs the corrected merge of `TriggerMergeProcess`.
- HandleReceivedJson: its JSON_FILE case is the corrected `HandleReceivedFile`.
- HandleTcpClient: dispatches through `HandleReceivedJson`, so it runs the corrected merge.
- `InitializeDefaultFiles` and the commented-out versions in `SettingsManager.cs` are
  left out: the first writes files only, the rest is dead code.
- UserManager's AES key handling is left out. Administrator rights are a boolean
  parameter.

## Findings

| source | as written | input that shows it | evidently intended | confidence | as-written member | corrected member |
|---|---|---|---|---|---|---|
| IBrary/Network/NetworkSyncService.cs:570-625 | `SaveReceivedFile` writes the received text over the local store (same data folder), then `TriggerMergeProcess` loads both lists from that file, so the store becomes the received list | a received `flashcards.json` without a local card `c`; afterwards `c` is gone | merge the received cards into the store as it was before the save | not executed | SyncProtocol.LocalCardLostAsWritten | SyncProtocol.LocalCardKept |
| IBrary/UI/FlashcardUserControl.cs:479-511 | `startIndex` is taken before `currentIndex` is clamped, so with `currentIndex >= Count` and no showable card the do-while never ends; latent, because `ShowCurrentQuestion` clamps first (lines 459-460) | `currentIndex = Count` over cards that are all deleted | take `startIndex` after the clamp | not executed | StudySession.AsWrittenScanNeverEnds | StudySession.CorrectedScanEnds |
| IBrary/UI/FlashcardUserControl.cs:513-531 | `DisplayFlashcard` does not reset `isShowingQuestion` | flip a card to its answer, press skip; the first click on the next card shows its question again | display with the question side up | not executed | StudySession.FlipAfterAdvanceAsWritten | StudySession.FlipAfterDisplayShowsAnswer |
