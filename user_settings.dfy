/** The user's settings. `hash` stands for `GenerateUserHash`, a SHA-256 digest of the name
  * salted with the machine and account names: a fixed function of the name on one machine. */
module Settings {
  import opened Common
  import opened Flashcards

  /** The settings as `settings.json` holds them. The level map may be null in the file. */
  datatype SettingsRecord = SettingsRecord(
    username: Option<string>,
    userHash: Option<string>,
    mySubjectIds: seq<string>,
    mySubjectLevels: Option<map<string, Level>>,
    errorRateWeight: int,
    timeFactorWeight: int,
    importantTagWeight: int,
    lastSelectedSubjectId: Option<string>,
    lastSelectedTopicIds: seq<string>,
    blockedUsers: seq<string>,
    theme: string)

  /** `new UserSettings()`. */
  function DefaultSettings(): (r: SettingsRecord)
    ensures r.theme == "Light" && r.mySubjectIds == [] && r.mySubjectLevels == Some(map[])
    ensures r.lastSelectedTopicIds == [] && r.blockedUsers == [] && r.username == None && r.userHash == None
  {
    SettingsRecord(None, None, [], Some(map[]), 0, 0, 0, None, [], [], "Light")
  }

  /** What the `Username` setter stores as `userHash` for a new name. */
  function HashFor(hash: string -> string, value: Option<string>): (h: Option<string>)
    ensures h.None? <==> IsNullOrEmpty(value)
  {
    if IsNullOrEmpty(value) then None else Some(hash(value.value))
  }

  /** `IsUsernameValid`: no name at all, or a name whose stored hash matches. */
  predicate UsernameValid(hash: string -> string, username: Option<string>, userHash: Option<string>)
  {
    IsNullOrEmpty(username) || userHash == Some(hash(username.value))
  }

  /** A name set through the `Username` setter is always valid, and a stored hash is valid
    * for a non-empty name exactly when it is the one the setter would have stored. */
  lemma {:induction false} SetterKeepsUsernameValid(hash: string -> string, value: Option<string>, stored: Option<string>)
    ensures UsernameValid(hash, value, HashFor(hash, value))
    ensures !IsNullOrEmpty(value) ==> (UsernameValid(hash, value, stored) <==> stored == HashFor(hash, value))
  {
  }

  class UserSettings {
    const hash: string -> string
    var username: Option<string>
    var userHash: Option<string>
    var mySubjectIds: seq<string>
    var mySubjectLevels: Option<map<string, Level>>
    var errorRateWeight: int
    var timeFactorWeight: int
    var importantTagWeight: int
    var lastSelectedSubjectId: Option<string>
    var lastSelectedTopicIds: seq<string>
    var blockedUsers: seq<string>
    var theme: string

    function Record(): SettingsRecord
      reads this
    {
      SettingsRecord(username, userHash, mySubjectIds, mySubjectLevels, errorRateWeight, timeFactorWeight,
                     importantTagWeight, lastSelectedSubjectId, lastSelectedTopicIds, blockedUsers, theme)
    }

    /** `new UserSettings()`: empty lists and map, light theme. */
    constructor (hash: string -> string)
      ensures this.hash == hash && Record() == DefaultSettings()
    {
      this.hash := hash;
      username, userHash := None, None;
      mySubjectIds, mySubjectLevels := [], Some(map[]);
      errorRateWeight, timeFactorWeight, importantTagWeight := 0, 0, 0;
      lastSelectedSubjectId, lastSelectedTopicIds := None, [];
      blockedUsers, theme := [], "Light";
    }

    /** Deserialisation: the fields are set one by one, `username` and `userHash` independently. */
    constructor FromRecord(hash: string -> string, r: SettingsRecord)
      ensures this.hash == hash && Record() == r
    {
      this.hash := hash;
      username, userHash := r.username, r.userHash;
      mySubjectIds, mySubjectLevels := r.mySubjectIds, r.mySubjectLevels;
      errorRateWeight, timeFactorWeight, importantTagWeight := r.errorRateWeight, r.timeFactorWeight, r.importantTagWeight;
      lastSelectedSubjectId, lastSelectedTopicIds := r.lastSelectedSubjectId, r.lastSelectedTopicIds;
      blockedUsers, theme := r.blockedUsers, r.theme;
    }

    /** The `Username` setter: the hash follows the name, and is cleared with it. */
    method SetUsername(value: Option<string>)
      modifies this
      ensures Record() == old(Record()).(username := value, userHash := HashFor(hash, value))
      ensures IsUsernameValid()
    {
      username := value;
      userHash := HashFor(hash, value);
      SetterKeepsUsernameValid(hash, value, userHash);
    }

    predicate IsUsernameValid()
      reads this
    {
      UsernameValid(hash, username, userHash)
    }
  }
}
