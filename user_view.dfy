/** The user view: looking a contributor up by name, the counts of what they created,
  * edited and deleted, previews of their cards, and blocking or unblocking them. */
module UserView {
  import opened Common
  import opened CardVersions
  import opened Flashcards
  import opened Settings
  import opened SettingsManagement

  // ---------------------------------------------------------------------------
  // Contributions

  /** `v.Editor.Equals(username, StringComparison.OrdinalIgnoreCase)`. */
  predicate EditedBy(v: CardVersion, username: string)
  {
    v.editor.Some? && EqualsIgnoreCase(v.editor.value, username)
  }

  /** Some version of the card is the user's. */
  predicate Contributed(f: FlashcardRecord, username: string)
  {
    exists i :: 0 <= i < |f.versions| && EditedBy(f.versions[i], username)
  }

  /** The cards the user has a version of, in store order. */
  function UserCards(cards: seq<FlashcardRecord>, username: string): (r: seq<FlashcardRecord>)
    ensures forall f :: f in r <==> f in cards && Contributed(f, username)
  {
    Filter(cards, (f: FlashcardRecord) => Contributed(f, username))
  }

  /** The test of `SearchUser`. */
  predicate UserExists(cards: seq<FlashcardRecord>, username: string)
  {
    exists i :: 0 <= i < |cards| && Contributed(cards[i], username)
  }

  lemma UserExistsIffCards(cards: seq<FlashcardRecord>, username: string)
    ensures UserExists(cards, username) <==> UserCards(cards, username) != []
  {
    var r := UserCards(cards, username);
    if UserExists(cards, username) {
      var i :| 0 <= i < |cards| && Contributed(cards[i], username);
      assert cards[i] in r;
    }
    if r != [] {
      var f := r[0];
      assert f in cards && Contributed(f, username);
      var j :| 0 <= j < |cards| && cards[j] == f;
    }
  }

  /** The first version is the user's. */
  predicate CreatedBy(f: FlashcardRecord, username: string)
  {
    |f.versions| > 0 && EditedBy(f.versions[0], username)
  }

  /** The last version is a deletion by the user. */
  predicate DeletedBy(f: FlashcardRecord, username: string)
  {
    |f.versions| > 0 && f.versions[|f.versions| - 1].deleted && EditedBy(f.versions[|f.versions| - 1], username)
  }

  /** The user's versions in `vs` that are not deletions. */
  function LiveEdits(vs: seq<CardVersion>, username: string): nat
  {
    if vs == [] then 0 else (if EditedBy(vs[0], username) && !vs[0].deleted then 1 else 0) + LiveEdits(vs[1..], username)
  }

  /** `Versions.Skip(1).Count(...)`: the user's non-deletion versions after the first. */
  function EditsOf(f: FlashcardRecord, username: string): nat
  {
    if f.versions == [] then 0 else LiveEdits(f.versions[1..], username)
  }

  function CreatedCount(cards: seq<FlashcardRecord>, username: string): nat
  {
    if cards == [] then 0 else (if CreatedBy(cards[0], username) then 1 else 0) + CreatedCount(cards[1..], username)
  }

  function EditedCount(cards: seq<FlashcardRecord>, username: string): nat
  {
    if cards == [] then 0 else EditsOf(cards[0], username) + EditedCount(cards[1..], username)
  }

  function DeletedCount(cards: seq<FlashcardRecord>, username: string): nat
  {
    if cards == [] then 0 else (if DeletedBy(cards[0], username) then 1 else 0) + DeletedCount(cards[1..], username)
  }

  /** The figures of `DisplayUserStats`. */
  datatype Stats = Stats(created: nat, edited: nat, deleted: nat, blocked: bool)

  function Total(s: Stats): nat
  {
    s.created + s.edited + s.deleted
  }

  /** `DisplayUserStats`, counted over the user's cards. */
  function UserStats(cards: seq<FlashcardRecord>, username: string, blockedUsers: seq<string>): Stats
  {
    var mine := UserCards(cards, username);
    Stats(CreatedCount(mine, username), EditedCount(mine, username), DeletedCount(mine, username),
          username in blockedUsers)
  }

  lemma {:induction false} LiveEditsOfStranger(vs: seq<CardVersion>, username: string)
    requires forall i :: 0 <= i < |vs| ==> !EditedBy(vs[i], username)
    ensures LiveEdits(vs, username) == 0
    decreases |vs|
  {
    if vs != [] {
      assert forall i :: 0 <= i < |vs| - 1 ==> vs[1..][i] == vs[i + 1];
      LiveEditsOfStranger(vs[1..], username);
    }
  }

  /** A card the user has no version of adds nothing to any count. */
  lemma StrangerCountsNothing(f: FlashcardRecord, username: string)
    requires !Contributed(f, username)
    ensures !CreatedBy(f, username) && !DeletedBy(f, username) && EditsOf(f, username) == 0
  {
    if f.versions != [] {
      var rest := f.versions[1..];
      assert forall i :: 0 <= i < |rest| ==> rest[i] == f.versions[i + 1];
      LiveEditsOfStranger(rest, username);
    }
  }

  /** Restricting the counts to the user's cards changes none of them: each count is the
    * same over the whole store. */
  lemma {:induction false} CountsOverUserCards(cards: seq<FlashcardRecord>, username: string)
    ensures var mine := UserCards(cards, username);
      CreatedCount(mine, username) == CreatedCount(cards, username)
      && EditedCount(mine, username) == EditedCount(cards, username)
      && DeletedCount(mine, username) == DeletedCount(cards, username)
    decreases |cards|
  {
    if cards != [] {
      CountsOverUserCards(cards[1..], username);
      var rest := UserCards(cards[1..], username);
      if Contributed(cards[0], username) {
        var mine := [cards[0]] + rest;
        assert UserCards(cards, username) == mine;
        assert mine[0] == cards[0] && mine[1..] == rest;
      } else {
        StrangerCountsNothing(cards[0], username);
        assert UserCards(cards, username) == rest;
      }
    }
  }

  /** Each card counts at most once as created and once as deleted. */
  lemma {:induction false} CountsBounded(cards: seq<FlashcardRecord>, username: string)
    ensures CreatedCount(cards, username) <= |cards| && DeletedCount(cards, username) <= |cards|
    decreases |cards|
  {
    if cards != [] {
      CountsBounded(cards[1..], username);
    }
  }

  // ---------------------------------------------------------------------------
  // Previews

  const PreviewLimit: nat := 20
  const PreviewLength: nat := 150

  /** The question label of a preview: long questions are cut to 150 characters and marked
    * with an ellipsis. */
  function PreviewText(q: string): (r: string)
    ensures |q| <= PreviewLength ==> r == q
    ensures |q| > PreviewLength ==> |r| == PreviewLength + 3 && r[..PreviewLength] == q[..PreviewLength] && r[PreviewLength..] == "..."
  {
    if |q| > PreviewLength then q[..PreviewLength] + "..." else q
  }

  datatype Preview = Preview(question: string, editor: Option<string>)

  /** The preview of a card: its last version that is not a deletion, none when every
    * version is one. */
  function PreviewOf(f: FlashcardRecord): Option<Preview>
  {
    var v := DisplayVersion(f.versions, []);
    if v.None? then None else Some(Preview(PreviewText(TextOf(v.value.question)), v.value.editor))
  }

  /** `Take(n)`. */
  function Take<T>(s: seq<T>, n: nat): (r: seq<T>)
    ensures |r| <= n && r <= s
    ensures |s| <= n ==> r == s
  {
    if |s| <= n then s else s[..n]
  }

  /** The previews the loop of `DisplayUserFlashcards` builds from `cards`. */
  function PreviewsOf(cards: seq<FlashcardRecord>): seq<Preview>
    decreases |cards|
  {
    if cards == [] then []
    else
      var p := PreviewOf(cards[|cards| - 1]);
      PreviewsOf(cards[..|cards| - 1]) + (if p.Some? then [p.value] else [])
  }

  /** The cards whose previews are built: the first 20 of the user's. */
  function PreviewedCards(cards: seq<FlashcardRecord>, username: string): seq<FlashcardRecord>
  {
    Take(UserCards(cards, username), PreviewLimit)
  }

  /** The preview of some card of `cards`. */
  predicate PreviewFrom(cards: seq<FlashcardRecord>, p: Preview)
  {
    exists i :: 0 <= i < |cards| && PreviewOf(cards[i]) == Some(p)
  }

  /** One preview per card with a non-deletion version: as many previews as cards exactly
    * when every card has one. */
  lemma {:induction false} PreviewsOfLength(cards: seq<FlashcardRecord>)
    ensures |PreviewsOf(cards)| <= |cards|
    ensures |PreviewsOf(cards)| == |cards| <==> forall i :: 0 <= i < |cards| ==> PreviewOf(cards[i]).Some?
    decreases |cards|
  {
    if cards != [] {
      var init := cards[..|cards| - 1];
      PreviewsOfLength(init);
      assert forall i :: 0 <= i < |init| ==> init[i] == cards[i];
    }
  }

  /** The previews are exactly those of the cards that have one. */
  lemma {:induction false} PreviewsOfMembers(cards: seq<FlashcardRecord>)
    ensures forall p :: p in PreviewsOf(cards) <==> PreviewFrom(cards, p)
    decreases |cards|
  {
    if cards != [] {
      var init := cards[..|cards| - 1];
      var last := cards[|cards| - 1];
      PreviewsOfMembers(init);
      assert cards == init + [last];
      forall p ensures p in PreviewsOf(cards) <==> PreviewFrom(cards, p) {
        PreviewFromSnoc(init, last, p);
      }
    }
  }

  lemma PreviewFromSnoc(init: seq<FlashcardRecord>, last: FlashcardRecord, p: Preview)
    ensures PreviewFrom(init + [last], p) <==> PreviewFrom(init, p) || PreviewOf(last) == Some(p)
  {
    var cards := init + [last];
    if PreviewFrom(init, p) {
      var i :| 0 <= i < |init| && PreviewOf(init[i]) == Some(p);
      assert cards[i] == init[i];
    }
    if PreviewOf(last) == Some(p) {
      assert cards[|init|] == last;
    }
    if PreviewFrom(cards, p) {
      var i :| 0 <= i < |cards| && PreviewOf(cards[i]) == Some(p);
      if i < |init| {
        assert init[i] == cards[i];
      }
    }
  }

  /** At most 20 previews, each of a card the user has a version of. */
  lemma PreviewsBounded(cards: seq<FlashcardRecord>, username: string)
    ensures |PreviewsOf(PreviewedCards(cards, username))| <= PreviewLimit
    ensures forall p :: p in PreviewsOf(PreviewedCards(cards, username)) ==>
      exists f :: f in cards && Contributed(f, username) && PreviewOf(f) == Some(p)
  {
    var shown := PreviewedCards(cards, username);
    PreviewsOfLength(shown);
    PreviewsOfMembers(shown);
    forall p | p in PreviewsOf(shown)
      ensures exists f :: f in cards && Contributed(f, username) && PreviewOf(f) == Some(p)
    {
      var i :| 0 <= i < |shown| && PreviewOf(shown[i]) == Some(p);
      assert shown[i] in UserCards(cards, username);
    }
  }

  // ---------------------------------------------------------------------------
  // The control

  /** What the view shows: the user looked up ("" for none), whether the panels are up,
    * the figures, the previews, and the caption of the block button. */
  datatype UserPanel = UserPanel(
    currentUsername: string,
    infoVisible: bool,
    stats: Stats,
    previews: seq<Preview>,
    blockButtonText: string)

  function BlockCaption(username: string, blockedUsers: seq<string>): string
  {
    if username in blockedUsers then "Unblock User" else "Block User"
  }

  /** `ShowUserInfo`. */
  function Shown(p: UserPanel, cards: seq<FlashcardRecord>, username: string, blockedUsers: seq<string>): UserPanel
  {
    p.(infoVisible := true,
       stats := UserStats(cards, username, blockedUsers),
       previews := PreviewsOf(PreviewedCards(cards, username)),
       blockButtonText := BlockCaption(username, blockedUsers))
  }

  /** `SearchUser` with the text of the search box: a blank query looks nothing up; an
    * unknown name hides the panels and forgets the current user. */
  function Searched(p: UserPanel, query: string, cards: seq<FlashcardRecord>, blockedUsers: seq<string>): UserPanel
  {
    var username := Trim(query);
    if username == [] then p
    else if !UserExists(cards, username) then p.(infoVisible := false, currentUsername := "")
    else Shown(p.(currentUsername := username), cards, username, blockedUsers)
  }

  /** After a search with a non-blank query the panels are up exactly when the trimmed
    * name has a version in the store, and that name becomes the current user; a blank
    * query changes nothing. The contribution total is the sum of the three counts, each
    * the same as over the whole store. */
  lemma SearchSpec(p: UserPanel, query: string, cards: seq<FlashcardRecord>, blockedUsers: seq<string>)
    ensures var r := Searched(p, query, cards, blockedUsers);
      var username := Trim(query);
      (username == [] ==> r == p)
      && (username != [] ==>
            (r.infoVisible <==> UserExists(cards, username))
            && r.currentUsername == (if UserExists(cards, username) then username else ""))
      && (username != [] && UserExists(cards, username) ==>
            r.stats.created == CreatedCount(cards, username)
            && r.stats.edited == EditedCount(cards, username)
            && r.stats.deleted == DeletedCount(cards, username)
            && Total(r.stats) == CreatedCount(cards, username) + EditedCount(cards, username) + DeletedCount(cards, username)
            && (r.stats.blocked <==> username in blockedUsers))
  {
    CountsOverUserCards(cards, Trim(query));
  }

  /** The list after the block button: an unblocked user is added at the end, a blocked
    * one loses the first occurrence. */
  function ToggledBlock(blockedUsers: seq<string>, username: string): seq<string>
  {
    if username in blockedUsers then RemoveFirst(blockedUsers, username) else blockedUsers + [username]
  }

  /** On a list without duplicates, the button flips whether the user is blocked, keeps
    * the list free of duplicates, and a second press restores a list that did not hold
    * the user. */
  lemma ToggledBlockSpec(blockedUsers: seq<string>, username: string)
    requires NoDuplicates(blockedUsers)
    ensures (username in ToggledBlock(blockedUsers, username)) <==> username !in blockedUsers
    ensures NoDuplicates(ToggledBlock(blockedUsers, username))
    ensures username !in blockedUsers ==> ToggledBlock(ToggledBlock(blockedUsers, username), username) == blockedUsers
  {
    if username in blockedUsers {
      RemoveFirstUnique(blockedUsers, username);
    } else {
      RemoveAppended(blockedUsers, username);
    }
  }

  class UserViewUserControl {
    var currentUsername: string
    var infoVisible: bool
    var stats: Stats
    var previews: seq<Preview>
    var blockButtonText: string

    function Panel(): UserPanel
      reads this
    {
      UserPanel(currentUsername, infoVisible, stats, previews, blockButtonText)
    }

    constructor ()
      ensures Panel() == UserPanel("", false, Stats(0, 0, 0, false), [], "Block User")
    {
      currentUsername := "";
      infoVisible := false;
      stats := Stats(0, 0, 0, false);
      previews := [];
      blockButtonText := "Block User";
    }

    /** The card loop of `DisplayUserFlashcards`, over the first 20 of the user's cards;
      * cards whose every version is a deletion are skipped. */
    method DisplayUserFlashcards(cards: seq<FlashcardRecord>, username: string)
      modifies this
      ensures Panel() == old(Panel()).(previews := PreviewsOf(PreviewedCards(cards, username)))
    {
      var shown := PreviewedCards(cards, username);
      previews := [];
      for i := 0 to |shown|
        invariant Panel() == old(Panel()).(previews := previews)
        invariant previews == PreviewsOf(shown[..i])
      {
        assert shown[..i + 1][..i] == shown[..i];
        var version := DisplayVersion(shown[i].versions, []);
        if version.None? {
          continue;
        }
        previews := previews + [Preview(PreviewText(TextOf(version.value.question)), version.value.editor)];
      }
      assert shown[..|shown|] == shown;
    }

    method ShowUserInfo(username: string, cards: seq<FlashcardRecord>, blockedUsers: seq<string>)
      modifies this
      ensures Panel() == Shown(old(Panel()), cards, username, blockedUsers)
    {
      stats := UserStats(cards, username, blockedUsers);
      infoVisible := true;
      DisplayUserFlashcards(cards, username);
      blockButtonText := BlockCaption(username, blockedUsers);
    }

    method HideUserInfo()
      modifies this
      ensures Panel() == old(Panel()).(infoVisible := false, currentUsername := "")
    {
      infoVisible := false;
      currentUsername := "";
    }

    /** `SearchUser`, with the store's cards as `Load` returns them. */
    method SearchUser(query: string, cards: seq<FlashcardRecord>, blockedUsers: seq<string>)
      modifies this
      ensures Panel() == Searched(old(Panel()), query, cards, blockedUsers)
    {
      var username := Trim(query);
      if username == [] {
        return;
      }
      if !UserExists(cards, username) {
        HideUserInfo();
        return;
      }
      currentUsername := username;
      ShowUserInfo(username, cards, blockedUsers);
    }

    /** `BlockUser_Click`: unblocks through the settings manager or adds the user and saves,
      * then shows the user again. */
    method BlockUserClick(settings: SettingsManager, cards: seq<FlashcardRecord>)
      modifies this, settings, settings.current
      ensures currentUsername == old(currentUsername)
      ensures settings.current == old(settings.current)
      ensures settings.mySubjects == old(settings.mySubjects) && settings.palette == old(settings.palette)
      ensures old(currentUsername) == "" ==>
        Panel() == old(Panel()) && settings.current.Record() == old(settings.current.Record())
        && settings.file == old(settings.file)
      ensures old(currentUsername) != "" ==>
        var u := old(currentUsername);
        settings.current == old(settings.current)
        && settings.current.Record() == old(settings.current.Record()).(blockedUsers := ToggledBlock(old(settings.current.blockedUsers), u))
        && settings.file == Parsed(settings.current.Record())
        && Panel() == Shown(old(Panel()), cards, u, settings.current.blockedUsers)
    {
      if currentUsername == "" {
        return;
      }
      if currentUsername in settings.current.blockedUsers {
        settings.UnblockUser(currentUsername);
      } else {
        settings.current.blockedUsers := settings.current.blockedUsers + [currentUsername];
        settings.Save();
      }
      ShowUserInfo(currentUsername, cards, settings.current.blockedUsers);
    }
  }
}
