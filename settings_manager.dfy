/** `SettingsManager`: the current settings, the subjects the user follows, the colour
  * palette in use, and `settings.json`. */
module SettingsManagement {
  import opened Common
  import opened Flashcards
  import opened Subjects
  import opened SubjectManagement
  import opened Settings

  /** Which of the two colour sets the static colour fields hold; `Unset` before any load. */
  datatype Palette = Unset | LightPalette | DarkPalette

  function PaletteFor(theme: string): Palette
  {
    if theme == "Dark" then DarkPalette else LightPalette
  }

  /** `ChangeTheme`: "Dark" becomes "Light", anything else becomes "Dark". */
  function ToggledTheme(theme: string): (r: string)
    ensures r == "Dark" || r == "Light"
    ensures r == "Dark" <==> theme != "Dark"
  {
    if theme == "Dark" then "Light" else "Dark"
  }

  /** Starting from either theme, two toggles restore it; from any other value they end on
    * "Light". */
  lemma ToggleTwice(theme: string)
    ensures theme == "Dark" || theme == "Light" ==> ToggledTheme(ToggledTheme(theme)) == theme
    ensures theme != "Dark" && theme != "Light" ==> ToggledTheme(ToggledTheme(theme)) == "Light"
  {
  }

  function LevelsOrEmpty(levels: Option<map<string, Level>>): map<string, Level>
  {
    if levels.Some? then levels.value else map[]
  }

  /** The loop of `Load` that gives each subject without a level the default HL. */
  function DefaultLevels(levels: map<string, Level>, subjects: seq<SubjectRecord>): map<string, Level>
    decreases |subjects|
  {
    if subjects == [] then levels
    else
      var m := DefaultLevels(levels, subjects[..|subjects| - 1]);
      var id := subjects[|subjects| - 1].subjectId;
      if id in m then m else m[id := HL]
  }

  /** Every subject has a level afterwards; levels already present are kept; every new
    * entry is HL and belongs to a subject. */
  lemma {:induction false} DefaultLevelsSpec(levels: map<string, Level>, subjects: seq<SubjectRecord>)
    ensures var r := DefaultLevels(levels, subjects);
      (forall i :: 0 <= i < |subjects| ==> subjects[i].subjectId in r)
      && (forall k :: k in levels ==> k in r && r[k] == levels[k])
      && (forall k :: k in r && k !in levels ==> r[k] == HL && k in SubjectIds(subjects))
    decreases |subjects|
  {
    if subjects != [] {
      var init := subjects[..|subjects| - 1];
      DefaultLevelsSpec(levels, init);
      assert forall i :: 0 <= i < |init| ==> subjects[i] == init[i];
      assert SubjectIds(subjects) == SubjectIds(init) + [subjects[|subjects| - 1].subjectId];
    }
  }

  /** `MySubjects`: the subjects whose id the user follows, in subject-file order. */
  function SelectMySubjects(subjects: seq<SubjectRecord>, mySubjectIds: seq<string>): (r: seq<SubjectRecord>)
    ensures forall s :: s in r <==> s in subjects && s.subjectId in mySubjectIds
  {
    Filter(subjects, (s: SubjectRecord) => s.subjectId in mySubjectIds)
  }

  /** `GetSubjectLevel`: the stored level, HL when there is none. */
  function SubjectLevel(levels: map<string, Level>, subjectId: string): (l: Level)
    ensures subjectId in levels ==> l == levels[subjectId]
    ensures subjectId !in levels ==> l == HL
  {
    if subjectId in levels then levels[subjectId] else HL
  }

  /** The settings a parsed file yields: a name whose hash does not match is cleared. */
  function Validated(hash: string -> string, r: SettingsRecord): SettingsRecord
  {
    if UsernameValid(hash, r.username, r.userHash) then r else r.(username := None, userHash := HashFor(hash, None))
  }

  /** After validation the name is always valid, and only a tampered name is touched. */
  lemma ValidatedSpec(hash: string -> string, r: SettingsRecord)
    ensures var v := Validated(hash, r);
      UsernameValid(hash, v.username, v.userHash)
      && (UsernameValid(hash, r.username, r.userHash) <==> v == r)
      && v.(username := r.username, userHash := r.userHash) == r
  {
  }

  function WithDefaultLevels(r: SettingsRecord, subjects: seq<SubjectRecord>): SettingsRecord
  {
    r.(mySubjectLevels := Some(DefaultLevels(LevelsOrEmpty(r.mySubjectLevels), subjects)))
  }

  class SettingsManager {
    const hash: string -> string
    /** `CurrentSettings`. */
    var current: UserSettings
    /** `MySubjects`. */
    var mySubjects: seq<SubjectRecord>
    var palette: Palette
    /** The content of `settings.json`. */
    var file: Stored<SettingsRecord>

    constructor (hash: string -> string, initial: Stored<SettingsRecord>)
      ensures this.hash == hash && fresh(current) && current.hash == hash && current.Record() == DefaultSettings()
      ensures mySubjects == [] && palette == Unset && file == initial
    {
      this.hash := hash;
      current := new UserSettings(hash);
      mySubjects := [];
      palette := Unset;
      file := initial;
    }

    method Save()
      modifies this
      ensures current == old(current) && mySubjects == old(mySubjects) && palette == old(palette)
      ensures file == Parsed(current.Record())
    {
      file := Parsed(current.Record());
    }

    /** The loop that fills in default levels, on the current settings object. */
    method FillDefaultLevels(subjects: seq<SubjectRecord>)
      modifies current
      ensures current.Record() == WithDefaultLevels(old(current.Record()), subjects)
    {
      if current.mySubjectLevels.None? {
        current.mySubjectLevels := Some(map[]);
      }
      var levels := current.mySubjectLevels.value;
      var i := 0;
      while i < |subjects|
        invariant 0 <= i <= |subjects|
        invariant levels == DefaultLevels(LevelsOrEmpty(old(current.mySubjectLevels)), subjects[..i])
      {
        if subjects[i].subjectId !in levels {
          levels := levels[subjects[i].subjectId := HL];
        }
        assert subjects[..i + 1][..i] == subjects[..i];
        i := i + 1;
      }
      assert subjects[..i] == subjects;
      current.mySubjectLevels := Some(levels);
    }

    /** `Load`. The subjects are loaded first. With no settings file the current settings are
      * kept and every subject is followed; an unparseable file resets the settings and
      * leaves `MySubjects` as it was; a parsed file is validated (a tampered name is cleared
      * and saved at once), gets default levels, and selects the followed subjects. The
      * palette follows the theme in all three cases. */
    method Load(subjects: SubjectManager) returns (settings: UserSettings)
      modifies this, current, subjects
      ensures subjects.file == old(subjects.file) && subjects.allSubjects == LoadOr(old(subjects.file), [])
      ensures settings == current
      ensures old(file).Missing? ==>
        current == old(current)
        && current.Record() == WithDefaultLevels(old(current.Record()), subjects.allSubjects)
        && mySubjects == subjects.allSubjects && file == old(file)
      ensures old(file).Unparseable? ==>
        fresh(current) && current.hash == hash && current.Record() == DefaultSettings() && mySubjects == old(mySubjects) && file == old(file)
      ensures old(file).Parsed? ==>
        var v := Validated(hash, old(file).value);
        fresh(current) && current.hash == hash
        && current.Record() == WithDefaultLevels(v, subjects.allSubjects)
        && mySubjects == SelectMySubjects(subjects.allSubjects, v.mySubjectIds)
        && file == (if v == old(file).value then old(file) else Parsed(v))
      ensures palette == PaletteFor(current.theme)
    {
      var allSubjects := subjects.Load();
      if file.Missing? {
        mySubjects := allSubjects;
        FillDefaultLevels(allSubjects);
      } else if file.Unparseable? {
        current := new UserSettings(hash);
      } else {
        var r := file.value;
        var loaded := new UserSettings.FromRecord(hash, r);
        current := loaded;
        if !loaded.IsUsernameValid() {
          loaded.SetUsername(None);
          Save();
        }
        ValidatedSpec(hash, r);
        FillDefaultLevels(allSubjects);
        mySubjects := SelectMySubjects(allSubjects, loaded.mySubjectIds);
      }
      palette := PaletteFor(current.theme);
      settings := current;
    }

    /** Removes the first occurrence of the name; an unknown name changes and saves nothing. */
    method UnblockUser(username: string)
      modifies this, current
      ensures current == old(current)
      ensures mySubjects == old(mySubjects) && palette == old(palette)
      ensures username in old(current.blockedUsers) ==>
        current.Record() == old(current.Record()).(blockedUsers := RemoveFirst(old(current.blockedUsers), username))
        && file == Parsed(current.Record())
      ensures username !in old(current.blockedUsers) ==> current.Record() == old(current.Record()) && file == old(file)
    {
      if username in current.blockedUsers {
        current.blockedUsers := RemoveFirst(current.blockedUsers, username);
        Save();
      }
    }

    method SetUsername(username: Option<string>)
      modifies this, current
      ensures current == old(current) && current.IsUsernameValid()
      ensures mySubjects == old(mySubjects) && palette == old(palette)
      ensures current.Record() == old(current.Record()).(username := username, userHash := HashFor(current.hash, username))
      ensures file == Parsed(current.Record())
    {
      current.SetUsername(username);
      Save();
    }

    /** `LogOut`: clears the name and, through the setter, the hash. */
    method LogOut()
      modifies this, current
      ensures current == old(current)
      ensures mySubjects == old(mySubjects) && palette == old(palette)
      ensures current.Record() == old(current.Record()).(username := None, userHash := None)
      ensures file == Parsed(current.Record())
    {
      current.SetUsername(None);
      Save();
    }

    /** `UpdateMySubjects`: stores the followed ids, saves, and loads again. */
    method UpdateMySubjects(subjectIds: seq<string>, subjects: SubjectManager)
      modifies this, current, subjects
      ensures var saved := old(current.Record()).(mySubjectIds := subjectIds);
        var v := Validated(hash, saved);
        fresh(current) && current.Record() == WithDefaultLevels(v, subjects.allSubjects)
        && mySubjects == SelectMySubjects(subjects.allSubjects, subjectIds)
        && file == Parsed(v)
      ensures current.hash == hash && palette == PaletteFor(current.theme)
      ensures subjects.file == old(subjects.file) && subjects.allSubjects == LoadOr(old(subjects.file), [])
    {
      current.mySubjectIds := subjectIds;
      Save();
      var reloaded := Load(subjects);
    }

    /** Sets the level of one subject; every other entry stays. */
    method UpdateSubjectLevel(subjectId: string, level: Level)
      modifies this, current
      ensures current == old(current)
      ensures mySubjects == old(mySubjects) && palette == old(palette)
      ensures current.Record() == old(current.Record()).(mySubjectLevels := Some(LevelsOrEmpty(old(current.mySubjectLevels))[subjectId := level]))
      ensures file == Parsed(current.Record())
    {
      if current.mySubjectLevels.None? {
        current.mySubjectLevels := Some(map[]);
      }
      current.mySubjectLevels := Some(current.mySubjectLevels.value[subjectId := level]);
      Save();
    }

    /** `GetSubjectLevel`; a null map is replaced by an empty one on the way. */
    method GetSubjectLevel(subjectId: string) returns (level: Level)
      modifies current
      ensures level == SubjectLevel(LevelsOrEmpty(old(current.mySubjectLevels)), subjectId)
      ensures current.Record() == old(current.Record()).(mySubjectLevels := Some(LevelsOrEmpty(old(current.mySubjectLevels))))
    {
      if current.mySubjectLevels.None? {
        current.mySubjectLevels := Some(map[]);
      }
      level := SubjectLevel(current.mySubjectLevels.value, subjectId);
    }

    method ChangeTheme()
      modifies this, current
      ensures current == old(current) && mySubjects == old(mySubjects)
      ensures current.Record() == old(current.Record()).(theme := ToggledTheme(old(current.theme)))
      ensures palette == PaletteFor(current.theme)
      ensures file == Parsed(current.Record())
    {
      if current.theme == "Dark" {
        palette := LightPalette;
        current.theme := "Light";
      } else {
        palette := DarkPalette;
        current.theme := "Dark";
      }
      Save();
    }
  }
}
