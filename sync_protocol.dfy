/** The LAN sync protocol of `NetworkSyncService` as transitions of one state value: each
  * handler is one atomic step. SHA-256, JSON, the address checks and the file writes are
  * parameters (`Env`); the data folder is a map from file name to text; every message the
  * service sends is appended to an outbox. */
module SyncProtocol {
  import opened Common
  import opened Framing
  import opened CardVersions
  import opened Flashcards
  import opened Topics
  import opened Subjects
  import FlashcardManagement
  import TopicManagement
  import SubjectManagement

  type Address = string

  /** A `Dictionary<string, string>` of file hashes, as its entries in insertion order. */
  type Dict = seq<(string, string)>

  function Keys(d: Dict): seq<string>
  {
    seq(|d|, i requires 0 <= i < |d| => d[i].0)
  }

  /** `d.TryGetValue(k)`: the value stored under `k`, if any. */
  function Get(d: Dict, k: string): (r: Option<string>)
    ensures r.None? <==> k !in Keys(d)
    ensures r.Some? ==> exists i :: 0 <= i < |d| && d[i] == (k, r.value) && k !in Keys(d)[..i]
  {
    var i := IndexOf(Keys(d), k);
    if i < 0 then None else Some(d[i].1)
  }

  /** `d[k] = v`: overwrites the entry under `k` in place, or appends a new one. */
  function Put(d: Dict, k: string, v: string): Dict
  {
    var i := IndexOf(Keys(d), k);
    if i < 0 then d + [(k, v)] else d[i := (k, v)]
  }

  lemma KeysAppend(a: Dict, b: Dict)
    ensures Keys(a + b) == Keys(a) + Keys(b)
  {
  }

  /** Dictionary semantics: the key now maps to the value, every other key keeps its value,
    * a new key goes last, and keys stay distinct. */
  lemma PutSpec(d: Dict, k: string, v: string)
    ensures Get(Put(d, k, v), k) == Some(v)
    ensures forall k' :: k' != k ==> Get(Put(d, k, v), k') == Get(d, k')
    ensures Keys(Put(d, k, v)) == if k in Keys(d) then Keys(d) else Keys(d) + [k]
    ensures NoDuplicates(Keys(d)) ==> NoDuplicates(Keys(Put(d, k, v)))
  {
    var i := IndexOf(Keys(d), k);
    var r := Put(d, k, v);
    if i < 0 {
      KeysAppend(d, [(k, v)]);
      assert Keys(r) == Keys(d) + [k];
      forall k' | k' != k ensures Get(r, k') == Get(d, k') {
        if k' in Keys(d) {
          IndexOfPrefix(Keys(d), Keys(r), k');
        }
      }
    } else {
      assert Keys(r) == Keys(d);
    }
  }

  /** The messages the service sends and understands, as their JSON `Type` tag selects
    * them; a field that the JSON lacks or holds as null is `None`. */
  datatype Message =
    | JsonFile(fileName: Option<string>, content: Option<string>, contentHash: Option<string>)
    | DiscoveryResponse(fileHashes: Option<Dict>)
    | HashManifest(fileHashes: Option<Dict>)
    | FileRequest(requestedFiles: Option<seq<string>>)
    /** Any other tag, or none. */
    | OtherType
    /** A payload that is not JSON. */
    | NotJson

  /** Reading and writing the three store files. */
  datatype Codec = Codec(
    flashcardsFrom: string -> Stored<seq<FlashcardRecord>>,
    flashcardsText: seq<FlashcardRecord> -> string,
    topicsFrom: string -> Stored<seq<Topic>>,
    topicsText: seq<Topic> -> string,
    subjectsFrom: string -> Stored<seq<SubjectRecord>>,
    subjectsText: seq<SubjectRecord> -> string)

  /** What the service consults but does not own. */
  datatype Env = Env(
    /** `ComputeSHA256Hash`, Base64 of SHA-256 of the UTF-8 bytes. */
    hash: string -> string,
    /** `IsLocalIPAddress`. */
    isLocal: Address -> bool,
    /** Whether a TCP connection to the address opens. */
    reachable: Address -> bool,
    /** Whether `File.WriteAllText` on the name inside the data folder succeeds. */
    canWrite: string -> bool,
    /** UTF-8 decoding of a payload followed by `JsonConvert.DeserializeObject`. */
    parse: seq<byte> -> Message,
    codec: Codec)

  /** The service's fields, the data folder it shares with the stores, the topic list the
    * topic store holds in memory, and what it has sent and received. */
  datatype SyncState = SyncState(
    files: map<string, string>,
    localFileHashes: Dict,
    lastSyncTimes: map<Address, nat>,
    discoveredDevices: seq<Address>,
    isRunning: bool,
    memoryTopics: seq<Topic>,
    outbox: seq<(Address, Message)>,
    /** The payloads handed to `JsonDataReceived`, in order. */
    received: seq<seq<byte>>,
    /** How many times `FlashcardsSynced` fired. */
    flashcardsSynced: nat)

  predicate ValidState(st: SyncState)
  {
    NoDuplicates(st.discoveredDevices) && NoDuplicates(Keys(st.localFileHashes))
  }

  const FlashcardsFile: string := "flashcards.json"
  const TopicsFile: string := "topics.json"
  const SubjectsFile: string := "subjects.json"
  const CoreFiles: seq<string> := [FlashcardsFile, TopicsFile, SubjectsFile]
  /** Thirty seconds, in the 100-nanosecond ticks of `DateTime`. */
  const MinSyncInterval: nat := 300_000_000
  const DiscoveryMessage: string := "IBRARY_DISCOVERY"

  function ReadStore<T>(files: map<string, string>, name: string, from: string -> Stored<T>): Stored<T>
  {
    if name in files then from(files[name]) else Missing
  }

  // ---------------------------------------------------------------------------
  // Hash manifest

  function FileHash(env: Env, files: map<string, string>, name: string): string
  {
    if name in files then env.hash(files[name]) else ""
  }

  /** What `UpdateLocalFileHashes` leaves in `localFileHashes`. */
  function CoreHashes(env: Env, files: map<string, string>): Dict
  {
    seq(|CoreFiles|, i requires 0 <= i < |CoreFiles| => (CoreFiles[i], FileHash(env, files, CoreFiles[i])))
  }

  /** Exactly the three core names, each with the hash of its file or "" when there is none. */
  lemma CoreHashesSpec(env: Env, files: map<string, string>)
    ensures Keys(CoreHashes(env, files)) == CoreFiles && NoDuplicates(CoreFiles)
    ensures forall f :: f in CoreFiles ==>
      Get(CoreHashes(env, files), f) == Some(if f in files then env.hash(files[f]) else "")
  {
    assert Keys(CoreHashes(env, files)) == CoreFiles;
    assert IndexOf(CoreFiles, FlashcardsFile) == 0;
    assert IndexOf(CoreFiles, TopicsFile) == 1;
    assert IndexOf(CoreFiles, SubjectsFile) == 2;
  }

  // ---------------------------------------------------------------------------
  // Throttled manifest sends

  /** A manifest went to the target less than thirty seconds ago (or the clock went back). */
  predicate Throttled(times: map<Address, nat>, target: Address, now: nat)
  {
    target in times && now - times[target] < MinSyncInterval
  }

  /** `SendHashManifest(target)` at time `now`. */
  function ManifestSent(st: SyncState, target: Address, now: nat): SyncState
  {
    if Throttled(st.lastSyncTimes, target, now) then st
    else st.(lastSyncTimes := st.lastSyncTimes[target := now],
             outbox := st.outbox + [(target, HashManifest(Some(st.localFileHashes)))])
  }

  /** `InitiateSyncWithAllDevices`: a manifest attempt per device, in registry order. */
  function ManifestsSent(st: SyncState, devices: seq<Address>, now: nat): SyncState
    decreases |devices|
  {
    if devices == [] then st
    else ManifestSent(ManifestsSent(st, devices[..|devices| - 1], now), devices[|devices| - 1], now)
  }

  function Manifests(devices: seq<Address>, hashes: Dict): seq<(Address, Message)>
  {
    seq(|devices|, i requires 0 <= i < |devices| => (devices[i], HashManifest(Some(hashes))))
  }

  /** Once a manifest has gone to a peer, a second attempt inside the next thirty seconds
    * changes nothing. */
  lemma ManifestThrottled(st: SyncState, target: Address, now: nat, later: nat)
    requires !Throttled(st.lastSyncTimes, target, now)
    requires now <= later < now + MinSyncInterval
    ensures var s1 := ManifestSent(st, target, now);
      s1.outbox == st.outbox + [(target, HashManifest(Some(st.localFileHashes)))]
      && ManifestSent(s1, target, later) == s1
  {
  }

  /** A round touches only the sync times and the outbox. */
  lemma {:induction false} ManifestsSentFrame(st: SyncState, devices: seq<Address>, now: nat)
    ensures var r := ManifestsSent(st, devices, now);
      r == st.(lastSyncTimes := r.lastSyncTimes, outbox := r.outbox)
    decreases |devices|
  {
    if devices != [] {
      ManifestsSentFrame(st, devices[..|devices| - 1], now);
    }
  }

  /** The devices of a round that are not throttled when it starts. */
  function Due(times: map<Address, nat>, devices: seq<Address>, now: nat): seq<Address>
  {
    Filter(devices, (d: Address) => !Throttled(times, d, now))
  }

  lemma DueSnoc(times: map<Address, nat>, devices: seq<Address>, d: Address, now: nat)
    ensures Due(times, devices + [d], now) == Due(times, devices, now) + (if Throttled(times, d, now) then [] else [d])
  {
    var p := (x: Address) => !Throttled(times, x, now);
    FilterAppend(devices, [d], p);
    assert Filter([d], p) == if p(d) then [d] else [];
  }

  /** Over a registry without duplicates, a round stamps each due device with `now` and
    * leaves every other entry of `lastSyncTimes` as it was. */
  lemma {:induction false} ManifestsSentTimes(st: SyncState, devices: seq<Address>, now: nat)
    requires NoDuplicates(devices)
    ensures var r := ManifestsSent(st, devices, now);
      var due := Due(st.lastSyncTimes, devices, now);
      (forall a :: a in due ==> a in r.lastSyncTimes && r.lastSyncTimes[a] == now)
      && (forall a :: a !in due ==>
            ((a in r.lastSyncTimes <==> a in st.lastSyncTimes)
             && (a in st.lastSyncTimes ==> r.lastSyncTimes[a] == st.lastSyncTimes[a])))
    decreases |devices|
  {
    if devices != [] {
      var init := devices[..|devices| - 1];
      var d := devices[|devices| - 1];
      assert devices == init + [d];
      ManifestsSentTimes(st, init, now);
      DueSnoc(st.lastSyncTimes, init, d, now);
      assert d !in Due(st.lastSyncTimes, init, now);
      ManifestTimesStep(st, ManifestsSent(st, init, now), d, now, Due(st.lastSyncTimes, init, now));
    }
  }

  /** One attempt of the round stamps `d` exactly when it was due, and no other entry. */
  lemma ManifestTimesStep(st: SyncState, prev: SyncState, d: Address, now: nat, due: seq<Address>)
    requires d !in due
    requires forall a :: a in due ==> a in prev.lastSyncTimes && prev.lastSyncTimes[a] == now
    requires forall a :: a !in due ==>
      ((a in prev.lastSyncTimes <==> a in st.lastSyncTimes)
       && (a in st.lastSyncTimes ==> prev.lastSyncTimes[a] == st.lastSyncTimes[a]))
    ensures var r := ManifestSent(prev, d, now);
      var due' := due + (if Throttled(st.lastSyncTimes, d, now) then [] else [d]);
      (forall a :: a in due' ==> a in r.lastSyncTimes && r.lastSyncTimes[a] == now)
      && (forall a :: a !in due' ==>
            ((a in r.lastSyncTimes <==> a in st.lastSyncTimes)
             && (a in st.lastSyncTimes ==> r.lastSyncTimes[a] == st.lastSyncTimes[a])))
  {
    assert Throttled(prev.lastSyncTimes, d, now) == Throttled(st.lastSyncTimes, d, now);
  }

  /** A device outside the round keeps its sync time. */
  lemma {:induction false} ManifestsSentElsewhere(st: SyncState, devices: seq<Address>, a: Address, now: nat)
    requires a !in devices
    ensures var r := ManifestsSent(st, devices, now);
      (a in r.lastSyncTimes <==> a in st.lastSyncTimes)
      && (a in st.lastSyncTimes ==> r.lastSyncTimes[a] == st.lastSyncTimes[a])
      && r.localFileHashes == st.localFileHashes
    decreases |devices|
  {
    if devices != [] {
      ManifestsSentElsewhere(st, devices[..|devices| - 1], a, now);
    }
  }

  lemma ManifestsSnoc(devices: seq<Address>, d: Address, hashes: Dict)
    ensures Manifests(devices + [d], hashes) == Manifests(devices, hashes) + [(d, HashManifest(Some(hashes)))]
  {
  }

  /** Over a registry without duplicates, one round sends exactly one manifest, carrying the
    * current hashes, to each device that is not throttled, in registry order. */
  lemma {:induction false} ManifestsSentSpec(st: SyncState, devices: seq<Address>, now: nat)
    requires NoDuplicates(devices)
    ensures ManifestsSent(st, devices, now).outbox == st.outbox + Manifests(Due(st.lastSyncTimes, devices, now), st.localFileHashes)
    decreases |devices|
  {
    if devices != [] {
      var init := devices[..|devices| - 1];
      var d := devices[|devices| - 1];
      assert devices == init + [d];
      ManifestsSentSpec(st, init, now);
      ManifestsSentElsewhere(st, init, d, now);
      DueSnoc(st.lastSyncTimes, init, d, now);
      ManifestSentStep(st, ManifestsSent(st, init, now), d, now, Due(st.lastSyncTimes, init, now));
    }
  }

  /** One attempt of the round appends the manifest for `d` exactly when `d` was due. */
  lemma ManifestSentStep(st: SyncState, prev: SyncState, d: Address, now: nat, due: seq<Address>)
    requires prev.outbox == st.outbox + Manifests(due, st.localFileHashes)
    requires prev.localFileHashes == st.localFileHashes
    requires (d in prev.lastSyncTimes <==> d in st.lastSyncTimes)
    requires d in st.lastSyncTimes ==> prev.lastSyncTimes[d] == st.lastSyncTimes[d]
    ensures ManifestSent(prev, d, now).outbox ==
      st.outbox + Manifests(due + (if Throttled(st.lastSyncTimes, d, now) then [] else [d]), st.localFileHashes)
  {
    assert Throttled(prev.lastSyncTimes, d, now) == Throttled(st.lastSyncTimes, d, now);
    ManifestsSnoc(due, d, st.localFileHashes);
    assert due + [] == due;
  }

  // ---------------------------------------------------------------------------
  // Manifest diff

  /** A remote entry is requested when it names a file the remote has and the local hash
    * is missing or different. */
  predicate Wanted(local: Dict, entry: (string, string))
  {
    entry.1 != "" && Get(local, entry.0) != Some(entry.1)
  }

  function FilesToRequest(local: Dict, remote: Dict): seq<string>
  {
    Keys(Filter(remote, (e: (string, string)) => Wanted(local, e)))
  }

  lemma FilesToRequestSnoc(local: Dict, remote: Dict, e: (string, string))
    ensures FilesToRequest(local, remote + [e]) == FilesToRequest(local, remote) + (if Wanted(local, e) then [e.0] else [])
  {
    var p := (x: (string, string)) => Wanted(local, x);
    FilterAppend(remote, [e], p);
    assert Filter([e], p) == if p(e) then [e] else [];
    KeysAppend(Filter(remote, p), Filter([e], p));
  }

  /** The requested names are the names of the wanted remote entries, in remote order. */
  lemma {:induction false} FilesToRequestSpec(local: Dict, remote: Dict)
    ensures |FilesToRequest(local, remote)| <= |remote|
    ensures forall f :: f in FilesToRequest(local, remote) <==>
      exists j :: 0 <= j < |remote| && remote[j].0 == f && Wanted(local, remote[j])
    decreases |remote|
  {
    if remote != [] {
      var init := remote[..|remote| - 1];
      var e := remote[|remote| - 1];
      assert remote == init + [e];
      FilesToRequestSpec(local, init);
      FilesToRequestSnoc(local, init, e);
      forall f | f in FilesToRequest(local, remote)
        ensures exists j :: 0 <= j < |remote| && remote[j].0 == f && Wanted(local, remote[j])
      {
        if f in FilesToRequest(local, init) {
          var j :| 0 <= j < |init| && init[j].0 == f && Wanted(local, init[j]);
          assert remote[j] == init[j];
        } else {
          assert remote[|remote| - 1].0 == f && Wanted(local, remote[|remote| - 1]);
        }
      }
      forall f | exists j :: 0 <= j < |remote| && remote[j].0 == f && Wanted(local, remote[j])
        ensures f in FilesToRequest(local, remote)
      {
        var j :| 0 <= j < |remote| && remote[j].0 == f && Wanted(local, remote[j]);
        if j < |init| {
          assert init[j] == remote[j];
        }
      }
    }
  }

  /** `HandleHashManifest`: a FILE_REQUEST for the wanted files when there are any. */
  function ManifestHandled(st: SyncState, remote: Dict, sender: Address): SyncState
  {
    var wanted := FilesToRequest(st.localFileHashes, remote);
    if wanted == [] then st else st.(outbox := st.outbox + [(sender, FileRequest(Some(wanted)))])
  }

  /** A manifest is answered by at most one message, a FILE_REQUEST to its sender, sent
    * exactly when some file is wanted; nothing else changes and no manifest goes back. */
  lemma ManifestHandledSpec(st: SyncState, remote: Dict, sender: Address)
    ensures var r := ManifestHandled(st, remote, sender);
      var wanted := FilesToRequest(st.localFileHashes, remote);
      r == st.(outbox := r.outbox)
      && (wanted != [] <==> r.outbox == st.outbox + [(sender, FileRequest(Some(wanted)))])
      && (wanted == [] <==> r.outbox == st.outbox)
  {
  }

  // ---------------------------------------------------------------------------
  // Requested files

  /** `Path.GetFileName` on Windows: what follows the last '\', '/' or ':'. */
  predicate IsSeparator(c: char)
  {
    c == '\\' || c == '/' || c == ':'
  }

  function BaseName(path: string): (r: string)
    ensures |r| <= |path|
    decreases |path|
  {
    if path == [] || IsSeparator(path[|path| - 1]) then []
    else BaseName(path[..|path| - 1]) + [path[|path| - 1]]
  }

  /** The base name is the longest suffix without a separator: it ends the path, holds no
    * separator, and is preceded by one unless it is the whole path. */
  lemma {:induction false} BaseNameSpec(path: string)
    ensures var r := BaseName(path);
      path[|path| - |r|..] == r
      && (forall c :: c in r ==> !IsSeparator(c))
      && (|r| < |path| ==> IsSeparator(path[|path| - |r| - 1]))
    decreases |path|
  {
    if path != [] && !IsSeparator(path[|path| - 1]) {
      var init := path[..|path| - 1];
      BaseNameSpec(init);
      var r := BaseName(path);
      var q := BaseName(init);
      assert r == q + [path[|path| - 1]];
      assert path[|path| - |r|..] == init[|init| - |q|..] + [path[|path| - 1]];
      assert |r| < |path| ==> path[|path| - |r| - 1] == init[|init| - |q| - 1];
    }
  }

  /** The JSON_FILE message `SendJsonFile` builds for a file of the data folder. */
  function FileMessage(env: Env, files: map<string, string>, name: string, target: Address): (Address, Message)
    requires name in files
  {
    (target, JsonFile(Some(BaseName(name)), Some(files[name]), Some(env.hash(files[name]))))
  }

  /** `SendRequestedFiles`: one JSON_FILE per requested name the folder holds, in request
    * order. No name is refused: any file the folder resolves is sent. */
  function FileMessages(env: Env, files: map<string, string>, names: seq<string>, target: Address): seq<(Address, Message)>
    decreases |names|
  {
    if names == [] then []
    else
      var name := names[|names| - 1];
      FileMessages(env, files, names[..|names| - 1], target)
        + (if name in files then [FileMessage(env, files, name, target)] else [])
  }

  function FilesSent(env: Env, st: SyncState, names: seq<string>, target: Address): SyncState
  {
    st.(outbox := st.outbox + FileMessages(env, st.files, names, target))
  }

  /** `m` is the JSON_FILE for one of the requested names that the folder holds. */
  predicate AnswersRequest(env: Env, files: map<string, string>, names: seq<string>, target: Address, m: (Address, Message))
  {
    exists n :: n in names && n in files && m == FileMessage(env, files, n, target)
  }

  /** Every file sent goes to the requester as the content of a requested file the folder
    * holds, under that file's base name and with the hash of that content; there are as
    * many as there are requested names the folder holds. */
  lemma {:induction false} FileMessagesSpec(env: Env, files: map<string, string>, names: seq<string>, target: Address)
    ensures var ms := FileMessages(env, files, names, target);
      |ms| == |Filter(names, (n: string) => n in files)|
      && forall k :: 0 <= k < |ms| ==> AnswersRequest(env, files, names, target, ms[k])
  {
    FileMessagesCount(env, files, names, target);
    FileMessagesAnswer(env, files, names, target);
  }

  lemma {:induction false} FileMessagesCount(env: Env, files: map<string, string>, names: seq<string>, target: Address)
    ensures |FileMessages(env, files, names, target)| == |Filter(names, (n: string) => n in files)|
    decreases |names|
  {
    if names != [] {
      var init := names[..|names| - 1];
      var name := names[|names| - 1];
      assert names == init + [name];
      FileMessagesCount(env, files, init, target);
      var p := (n: string) => n in files;
      FilterAppend(init, [name], p);
      assert Filter([name], p) == if p(name) then [name] else [];
    }
  }

  lemma {:induction false} FileMessagesAnswer(env: Env, files: map<string, string>, names: seq<string>, target: Address)
    ensures forall k :: 0 <= k < |FileMessages(env, files, names, target)| ==>
      AnswersRequest(env, files, names, target, FileMessages(env, files, names, target)[k])
    decreases |names|
  {
    if names != [] {
      var init := names[..|names| - 1];
      var name := names[|names| - 1];
      FileMessagesAnswer(env, files, init, target);
      var ms := FileMessages(env, files, names, target);
      var prev := FileMessages(env, files, init, target);
      forall k | 0 <= k < |ms|
        ensures AnswersRequest(env, files, names, target, ms[k])
      {
        if k < |prev| {
          assert AnswersRequest(env, files, init, target, prev[k]);
          var n :| n in init && n in files && prev[k] == FileMessage(env, files, n, target);
          assert ms[k] == prev[k];
          assert n in names;
        } else {
          assert ms[k] == FileMessage(env, files, name, target);
        }
      }
    }
  }

  // ---------------------------------------------------------------------------
  // Received files and the merge they trigger

  /** `SaveReceivedFile`: a write that fails is swallowed. */
  function SavedFiles(env: Env, files: map<string, string>, name: string, content: string): map<string, string>
  {
    if env.canWrite(name) then files[name := content] else files
  }

  /** The flashcard merge as the service performs it: both the stored list and the
    * incoming list are read back from `flashcards.json` after the received text was saved
    * over it. */
  function FlashcardsMergedAsWritten(env: Env, saved: map<string, string>): seq<FlashcardRecord>
  {
    var stored := LoadOr(ReadStore(saved, FlashcardsFile, env.codec.flashcardsFrom), []);
    FlashcardManagement.MergeFlashcardsSpec(stored, stored, false)
  }

  function SubjectsMergedAsWritten(env: Env, saved: map<string, string>): seq<SubjectRecord>
  {
    var stored := LoadOr(ReadStore(saved, SubjectsFile, env.codec.subjectsFrom), []);
    SubjectManagement.MergeSubjectsAll(stored, stored)
  }

  /** The merge the service evidently intends: the received list merged into the store as
    * it was before the received text was written. */
  function FlashcardsMerged(env: Env, before: map<string, string>, content: string): seq<FlashcardRecord>
  {
    FlashcardManagement.MergeFlashcardsSpec(
      LoadOr(ReadStore(before, FlashcardsFile, env.codec.flashcardsFrom), []),
      LoadOr(env.codec.flashcardsFrom(content), []), false)
  }

  function SubjectsMerged(env: Env, before: map<string, string>, content: string): seq<SubjectRecord>
  {
    SubjectManagement.MergeSubjectsAll(
      LoadOr(ReadStore(before, SubjectsFile, env.codec.subjectsFrom), []),
      LoadOr(env.codec.subjectsFrom(content), []))
  }

  /** `TopicManager.MergeTopics` works on the topics in memory, not on the file. */
  function TopicsMerged(env: Env, memory: seq<Topic>, content: string): seq<Topic>
  {
    TopicManagement.MergeTopicsAll(memory, LoadOr(env.codec.topicsFrom(content), []))
  }

  /** `TriggerMergeProcess` as written: every merge reads the file just overwritten. */
  function MergeTriggeredAsWritten(env: Env, st: SyncState, name: string): SyncState
  {
    if name == FlashcardsFile then
      st.(files := st.files[name := env.codec.flashcardsText(FlashcardsMergedAsWritten(env, st.files))],
          flashcardsSynced := st.flashcardsSynced + 1)
    else if name == TopicsFile then
      var topics := TopicManagement.MergeTopicsAll(st.memoryTopics, LoadOr(ReadStore(st.files, name, env.codec.topicsFrom), []));
      st.(memoryTopics := topics, files := st.files[name := env.codec.topicsText(topics)])
    else if name == SubjectsFile then
      st.(files := st.files[name := env.codec.subjectsText(SubjectsMergedAsWritten(env, st.files))])
    else st
  }

  /** `TriggerMergeProcess` with the received content merged into the stores as they were
    * before the save (`before`). */
  function MergeTriggered(env: Env, st: SyncState, name: string, content: string, before: map<string, string>): SyncState
  {
    if name == FlashcardsFile then
      st.(files := st.files[name := env.codec.flashcardsText(FlashcardsMerged(env, before, content))],
          flashcardsSynced := st.flashcardsSynced + 1)
    else if name == TopicsFile then
      var topics := TopicsMerged(env, st.memoryTopics, content);
      st.(memoryTopics := topics, files := st.files[name := env.codec.topicsText(topics)])
    else if name == SubjectsFile then
      st.(files := st.files[name := env.codec.subjectsText(SubjectsMerged(env, before, content))])
    else st
  }

  /** The hash check shared by both versions of `HandleReceivedFile`: a missing content
    * makes hashing throw, a missing name makes the dictionary update throw. */
  predicate Accepted(env: Env, fileName: Option<string>, content: Option<string>, contentHash: Option<string>)
  {
    content.Some? && fileName.Some? && Some(env.hash(content.value)) == contentHash
  }

  /** The state after the save and the hash update, before the merge. */
  function AfterSave(env: Env, st: SyncState, name: string, content: string): SyncState
  {
    st.(files := SavedFiles(env, st.files, name, content),
        localFileHashes := Put(st.localFileHashes, name, env.hash(content)))
  }

  function FileReceivedAsWritten(env: Env, st: SyncState, fileName: Option<string>, content: Option<string>, contentHash: Option<string>): SyncState
  {
    if !Accepted(env, fileName, content, contentHash) then st
    else MergeTriggeredAsWritten(env, AfterSave(env, st, fileName.value, content.value), fileName.value)
  }

  /** `HandleReceivedFile`, with the merge reading the local store from before the save. */
  function FileReceived(env: Env, st: SyncState, fileName: Option<string>, content: Option<string>, contentHash: Option<string>): SyncState
  {
    if !Accepted(env, fileName, content, contentHash) then st
    else MergeTriggered(env, AfterSave(env, st, fileName.value, content.value), fileName.value, content.value, st.files)
  }

  /** The merge step touches only the files, the topics in memory and the sync counter,
    * which it bumps exactly for `flashcards.json`; the topics change only for `topics.json`
    * and the files only for a core name. */
  lemma MergeTriggeredFrame(env: Env, s: SyncState, name: string, content: string, before: map<string, string>)
    ensures var r := MergeTriggered(env, s, name, content, before);
      r == s.(files := r.files, memoryTopics := r.memoryTopics, flashcardsSynced := r.flashcardsSynced)
      && r.flashcardsSynced == s.flashcardsSynced + (if name == FlashcardsFile then 1 else 0)
      && (name != TopicsFile ==> r.memoryTopics == s.memoryTopics)
      && (name !in CoreFiles ==> r.files == s.files)
  {
  }

  /** A file whose hash does not check out (or that lacks a name or content) changes
    * nothing. An accepted one records its hash under its name whether or not the save
    * worked, fires `FlashcardsSynced` exactly for `flashcards.json`, sends nothing, and
    * leaves the registry, the sync times and the running flag alone. A name outside the
    * three core files is saved as received, and the topics in memory change only for
    * `topics.json`. */
  lemma FileReceivedSpec(env: Env, st: SyncState, fileName: Option<string>, content: Option<string>, contentHash: Option<string>)
    ensures var r := FileReceived(env, st, fileName, content, contentHash);
      (!Accepted(env, fileName, content, contentHash) ==> r == st)
      && (Accepted(env, fileName, content, contentHash) ==>
            var name := fileName.value;
            r == st.(files := r.files, memoryTopics := r.memoryTopics, flashcardsSynced := r.flashcardsSynced,
                     localFileHashes := Put(st.localFileHashes, name, env.hash(content.value)))
            && Get(r.localFileHashes, name) == contentHash
            && r.flashcardsSynced == st.flashcardsSynced + (if name == FlashcardsFile then 1 else 0)
            && (name != TopicsFile ==> r.memoryTopics == st.memoryTopics)
            && (name !in CoreFiles ==> r.files == SavedFiles(env, st.files, name, content.value)))
      && (ValidState(st) ==> ValidState(r))
  {
    if Accepted(env, fileName, content, contentHash) {
      var s1 := AfterSave(env, st, fileName.value, content.value);
      MergeTriggeredFrame(env, s1, fileName.value, content.value, st.files);
      PutSpec(st.localFileHashes, fileName.value, env.hash(content.value));
    }
  }

  /** A file sent in answer to a request passes the receiver's hash check, and afterwards the
    * receiver no longer wants it from a manifest that lists that content's hash. */
  lemma SentFileSettlesRequest(env: Env, st: SyncState, m: (Address, Message), remote: Dict, j: int)
    requires m.1.JsonFile? && m.1.content.Some? && m.1.fileName.Some?
    requires m.1.contentHash == Some(env.hash(m.1.content.value))
    requires 0 <= j < |remote| && remote[j] == (m.1.fileName.value, env.hash(m.1.content.value))
    ensures var r := FileReceived(env, st, m.1.fileName, m.1.content, m.1.contentHash);
      Accepted(env, m.1.fileName, m.1.content, m.1.contentHash)
      && !Wanted(r.localFileHashes, remote[j])
  {
    FileReceivedSpec(env, st, m.1.fileName, m.1.content, m.1.contentHash);
  }

  lemma MergeVersionsKnown(vs: seq<CardVersion>, ws: seq<CardVersion>)
    requires forall w :: w in ws ==> FlashcardManagement.RevisionKnown(vs, w)
    ensures FlashcardManagement.MergeVersions(vs, ws) == vs
    decreases |ws|
  {
    if ws != [] {
      assert forall w :: w in ws[..|ws| - 1] ==> w in ws;
      MergeVersionsKnown(vs, ws[..|ws| - 1]);
    }
  }

  /** Merging a list of cards with distinct ids into itself (with the statistics of the
    * incoming copy reset) gives the list back. */
  lemma {:induction false} SelfMergePrefix(cards: seq<FlashcardRecord>, k: nat)
    requires NoDuplicates(Ids(cards)) && k <= |cards|
    ensures FlashcardManagement.MergeAll(cards, FlashcardManagement.ResetStats(cards, true)[..k]) == cards
    decreases k
  {
    var reset := FlashcardManagement.ResetStats(cards, true);
    if k > 0 {
      assert reset[..k][..k - 1] == reset[..k - 1];
      SelfMergePrefix(cards, k - 1);
      var c := reset[k - 1];
      assert Ids(cards)[k - 1] == c.flashcardId;
      assert FlashcardManagement.FindIndex(cards, c.flashcardId) == k - 1;
      var vs := cards[k - 1].versions;
      forall w | w in vs ensures FlashcardManagement.RevisionKnown(vs, w) {
        var n :| 0 <= n < |vs| && vs[n] == w;
        assert FlashcardManagement.SameRevision(vs[n], w);
      }
      MergeVersionsKnown(vs, c.versions);
      assert FlashcardManagement.UpdateExisting(cards[k - 1], c) == cards[k - 1];
    }
  }

  lemma {:induction false} SubjectSelfCovers(subjects: seq<SubjectRecord>)
    requires NoDuplicates(SubjectManagement.SubjectIds(subjects))
    ensures SubjectManagement.Covers(subjects, subjects)
  {
    forall j | 0 <= j < |subjects|
      ensures SubjectManagement.FindSubject(subjects, subjects[j].subjectId) == j
    {
      assert SubjectManagement.SubjectIds(subjects)[j] == subjects[j].subjectId;
    }
  }

  /** As written, an accepted `flashcards.json` replaces the local store: whenever the save
    * succeeds and the received cards have distinct ids, the store ends up holding exactly
    * the received cards, so every local card that the sender lacks is lost. */
  lemma ReceivedFlashcardsReplaceStore(env: Env, st: SyncState, content: string, contentHash: Option<string>)
    requires Accepted(env, Some(FlashcardsFile), Some(content), contentHash) && env.canWrite(FlashcardsFile)
    requires NoDuplicates(Ids(LoadOr(env.codec.flashcardsFrom(content), [])))
    ensures var r := FileReceivedAsWritten(env, st, Some(FlashcardsFile), Some(content), contentHash);
      r.files[FlashcardsFile] == env.codec.flashcardsText(LoadOr(env.codec.flashcardsFrom(content), []))
  {
    var received := LoadOr(env.codec.flashcardsFrom(content), []);
    var saved := SavedFiles(env, st.files, FlashcardsFile, content);
    assert ReadStore(saved, FlashcardsFile, env.codec.flashcardsFrom) == env.codec.flashcardsFrom(content);
    SelfMergePrefix(received, |received|);
    assert FlashcardManagement.ResetStats(received, true)[..|received|] == FlashcardManagement.ResetStats(received, true);
  }

  /** The same for `subjects.json`: the store ends up holding exactly the received subjects. */
  lemma ReceivedSubjectsReplaceStore(env: Env, st: SyncState, content: string, contentHash: Option<string>)
    requires Accepted(env, Some(SubjectsFile), Some(content), contentHash) && env.canWrite(SubjectsFile)
    requires NoDuplicates(SubjectManagement.SubjectIds(LoadOr(env.codec.subjectsFrom(content), [])))
    ensures var r := FileReceivedAsWritten(env, st, Some(SubjectsFile), Some(content), contentHash);
      r.files[SubjectsFile] == env.codec.subjectsText(LoadOr(env.codec.subjectsFrom(content), []))
  {
    var received := LoadOr(env.codec.subjectsFrom(content), []);
    var saved := SavedFiles(env, st.files, SubjectsFile, content);
    assert ReadStore(saved, SubjectsFile, env.codec.subjectsFrom) == env.codec.subjectsFrom(content);
    SubjectSelfCovers(received);
    SubjectManagement.MergeCoveredIsNoop(received, received);
  }

  /** With the merge reading the store from before the save, a received `flashcards.json`
    * keeps every local card in place with its id, star and statistics, and its version log
    * as a prefix, and the ids become the local ids followed by the new received ids. */
  lemma ReceivedFlashcardsMerge(env: Env, st: SyncState, content: string, contentHash: Option<string>)
    requires Accepted(env, Some(FlashcardsFile), Some(content), contentHash)
    ensures var r := FileReceived(env, st, Some(FlashcardsFile), Some(content), contentHash);
      var local := LoadOr(ReadStore(st.files, FlashcardsFile, env.codec.flashcardsFrom), []);
      var received := LoadOr(env.codec.flashcardsFrom(content), []);
      var m := FlashcardsMerged(env, st.files, content);
      r.files[FlashcardsFile] == env.codec.flashcardsText(m)
      && Ids(m) == UnionInOrder(Ids(local), Ids(received))
      && |local| <= |m|
      && (forall i :: 0 <= i < |local| ==>
            m[i].flashcardId == local[i].flashcardId && local[i].versions <= m[i].versions
            && m[i].important == local[i].important && m[i].seen == local[i].seen
            && m[i].lastSeen == local[i].lastSeen)
  {
    var local := LoadOr(ReadStore(st.files, FlashcardsFile, env.codec.flashcardsFrom), []);
    var received := LoadOr(env.codec.flashcardsFrom(content), []);
    var reset := FlashcardManagement.ResetStats(received, true);
    FlashcardManagement.ResetStatsSpec(received, true);
    FlashcardManagement.MergeAllIds(local, reset);
    FlashcardManagement.MergeAllKeepsCards(local, reset);
    FlashcardManagement.MergeWithoutStatsKeepsStoredStats(local, received);
  }

  /** With the same correction, a received `subjects.json` keeps every local subject and its
    * ids, and the subject ids become the local ones followed by the new received ones. */
  lemma ReceivedSubjectsMerge(env: Env, st: SyncState, content: string, contentHash: Option<string>)
    requires Accepted(env, Some(SubjectsFile), Some(content), contentHash)
    ensures var r := FileReceived(env, st, Some(SubjectsFile), Some(content), contentHash);
      var local := LoadOr(ReadStore(st.files, SubjectsFile, env.codec.subjectsFrom), []);
      var received := LoadOr(env.codec.subjectsFrom(content), []);
      var m := SubjectsMerged(env, st.files, content);
      r.files[SubjectsFile] == env.codec.subjectsText(m)
      && SubjectManagement.SubjectIds(m) == UnionInOrder(SubjectManagement.SubjectIds(local), SubjectManagement.SubjectIds(received))
      && SubjectManagement.Grows(local, m)
  {
    var local := LoadOr(ReadStore(st.files, SubjectsFile, env.codec.subjectsFrom), []);
    var received := LoadOr(env.codec.subjectsFrom(content), []);
    SubjectManagement.MergeSubjectsAllIds(local, received);
    SubjectManagement.MergeSubjectsAllGrows(local, received);
  }

  /** A concrete loss under the code as written: a local card `c` that the received file
    * lacks is gone from the store afterwards. */
  lemma LocalCardLostAsWritten(env: Env, st: SyncState, content: string, contentHash: Option<string>, c: FlashcardRecord)
    requires Accepted(env, Some(FlashcardsFile), Some(content), contentHash) && env.canWrite(FlashcardsFile)
    requires c in LoadOr(ReadStore(st.files, FlashcardsFile, env.codec.flashcardsFrom), [])
    requires c.flashcardId !in Ids(LoadOr(env.codec.flashcardsFrom(content), []))
    ensures c.flashcardId !in Ids(FlashcardsMergedAsWritten(env, SavedFiles(env, st.files, FlashcardsFile, content)))
  {
    var received := LoadOr(env.codec.flashcardsFrom(content), []);
    var saved := SavedFiles(env, st.files, FlashcardsFile, content);
    assert LoadOr(ReadStore(saved, FlashcardsFile, env.codec.flashcardsFrom), []) == received;
    var reset := FlashcardManagement.ResetStats(received, true);
    FlashcardManagement.ResetStatsSpec(received, true);
    FlashcardManagement.MergeAllIds(received, reset);
    UnionInOrderSpec(Ids(received), Ids(received));
  }

  /** With the correction the same card `c` stays. */
  lemma LocalCardKept(env: Env, st: SyncState, content: string, c: FlashcardRecord)
    requires c in LoadOr(ReadStore(st.files, FlashcardsFile, env.codec.flashcardsFrom), [])
    ensures c.flashcardId in Ids(FlashcardsMerged(env, st.files, content))
  {
    var local := LoadOr(ReadStore(st.files, FlashcardsFile, env.codec.flashcardsFrom), []);
    var received := LoadOr(env.codec.flashcardsFrom(content), []);
    var reset := FlashcardManagement.ResetStats(received, true);
    FlashcardManagement.MergeAllIds(local, reset);
    UnionInOrderSpec(Ids(local), Ids(reset));
    var i :| 0 <= i < |local| && local[i] == c;
    assert Ids(local)[i] == c.flashcardId;
  }

  // ---------------------------------------------------------------------------
  // Registry, dispatch and the listeners

  /** `AddDiscoveredDevice`. */
  function DeviceAdded(st: SyncState, device: Address): SyncState
  {
    if device in st.discoveredDevices then st
    else st.(discoveredDevices := st.discoveredDevices + [device])
  }

  /** The registry never holds a peer twice, always holds the one just added, and only
    * grows. */
  lemma DeviceAddedSpec(st: SyncState, device: Address)
    ensures var r := DeviceAdded(st, device);
      (NoDuplicates(st.discoveredDevices) ==> NoDuplicates(r.discoveredDevices))
      && device in r.discoveredDevices && st.discoveredDevices <= r.discoveredDevices
      && r == st.(discoveredDevices := r.discoveredDevices)
      && (device in st.discoveredDevices ==> r == st)
  {
  }

  /** `HandleDiscoveryResponse`: the sender is registered first; then, when the response
    * carries hashes, they are handled as a manifest from that sender. */
  function DiscoveryHandled(st: SyncState, fileHashes: Option<Dict>, sender: Address): SyncState
  {
    var registered := DeviceAdded(st, sender);
    if fileHashes.Some? then ManifestHandled(registered, fileHashes.value, sender) else registered
  }

  /** `HandleReceivedJson`: a switch on the tag. A manifest or request whose list is null
    * makes the handler throw, which the dispatcher swallows. */
  function Dispatched(env: Env, st: SyncState, msg: Message, sender: Address): SyncState
  {
    match msg
    case JsonFile(n, c, h) => FileReceived(env, st, n, c, h)
    case DiscoveryResponse(hs) => DiscoveryHandled(st, hs, sender)
    case HashManifest(hs) => if hs.Some? then ManifestHandled(st, hs.value, sender) else st
    case FileRequest(names) => if names.Some? then FilesSent(env, st, names.value, sender) else st
    case OtherType => st
    case NotJson => st
  }

  /** `HandleTcpClient`: an incomplete frame, or one with a negative length, is dropped;
    * a complete one is logged for `JsonDataReceived` and dispatched. */
  function ConnectionHandled(env: Env, st: SyncState, bytes: seq<byte>, sender: Address): SyncState
  {
    var frame := DecodeFrame(bytes);
    if frame.None? then st
    else Dispatched(env, st.(received := st.received + [frame.value]), env.parse(frame.value), sender)
  }

  /** What one connection can do: a bad frame does nothing at all; a good one is logged;
    * an unknown tag or a non-JSON payload then changes nothing else; the registry stays
    * free of duplicates; no received message stamps or sends a manifest, and whatever is
    * sent goes to the sender. */
  lemma ConnectionHandledSpec(env: Env, st: SyncState, bytes: seq<byte>, sender: Address)
    ensures var r := ConnectionHandled(env, st, bytes, sender);
      var frame := DecodeFrame(bytes);
      (frame.None? ==> r == st)
      && (frame.Some? ==> r.received == st.received + [frame.value])
      && (frame.Some? && (env.parse(frame.value).OtherType? || env.parse(frame.value).NotJson?) ==>
            r == st.(received := st.received + [frame.value]))
      && (ValidState(st) ==> ValidState(r))
      && r.lastSyncTimes == st.lastSyncTimes && r.isRunning == st.isRunning
      && st.outbox <= r.outbox
      && (forall k :: |st.outbox| <= k < |r.outbox| ==> r.outbox[k].0 == sender && !r.outbox[k].1.HashManifest?)
  {
    var frame := DecodeFrame(bytes);
    if frame.Some? {
      DispatchedSpec(env, st.(received := st.received + [frame.value]), env.parse(frame.value), sender);
    }
  }

  /** A dispatched message keeps the log, the sync times and the running flag, keeps a valid
    * state valid, changes nothing for an unknown or non-JSON message, and only appends to
    * the outbox messages for the sender that are not manifests. */
  lemma DispatchedSpec(env: Env, st: SyncState, msg: Message, sender: Address)
    ensures var r := Dispatched(env, st, msg, sender);
      ((msg.OtherType? || msg.NotJson?) ==> r == st)
      && (ValidState(st) ==> ValidState(r))
      && r.received == st.received && r.lastSyncTimes == st.lastSyncTimes && r.isRunning == st.isRunning
      && st.outbox <= r.outbox
      && (forall k :: |st.outbox| <= k < |r.outbox| ==> r.outbox[k].0 == sender && !r.outbox[k].1.HashManifest?)
  {
    match msg {
      case JsonFile(n, c, h) =>
        FileReceivedSpec(env, st, n, c, h);
      case DiscoveryResponse(hs) =>
        DeviceAddedSpec(st, sender);
        if hs.Some? {
          ManifestHandledSpec(DeviceAdded(st, sender), hs.value, sender);
        }
      case HashManifest(hs) =>
        if hs.Some? {
          ManifestHandledSpec(st, hs.value, sender);
        }
      case FileRequest(names) =>
        if names.Some? {
          FilesSentToSender(env, st, names.value, sender);
        }
      case OtherType =>
      case NotJson =>
    }
  }

  /** Answering a file request only appends JSON_FILE messages addressed to the requester. */
  lemma FilesSentToSender(env: Env, st: SyncState, names: seq<string>, sender: Address)
    ensures var r := FilesSent(env, st, names, sender);
      r == st.(outbox := r.outbox) && st.outbox <= r.outbox
      && (forall k :: |st.outbox| <= k < |r.outbox| ==> r.outbox[k].0 == sender && !r.outbox[k].1.HashManifest?)
  {
    FileMessagesSpec(env, st.files, names, sender);
    var ms := FileMessages(env, st.files, names, sender);
    forall k | 0 <= k < |ms| ensures ms[k].0 == sender && !ms[k].1.HashManifest? {
      assert AnswersRequest(env, st.files, names, sender, ms[k]);
      var n :| n in names && n in st.files && ms[k] == FileMessage(env, st.files, n, sender);
    }
  }

  /** `SendTcpResponse`: when the connection opens, the peer is registered and a
    * DISCOVERY_RESPONSE carrying the current hashes is sent to it. */
  function ResponseSent(env: Env, st: SyncState, target: Address): SyncState
  {
    if env.reachable(target) then
      var registered := DeviceAdded(st, target);
      registered.(outbox := registered.outbox + [(target, DiscoveryResponse(Some(st.localFileHashes)))])
    else st
  }

  /** The UDP listener's handling of one datagram, while it is listening. */
  function BroadcastHandled(env: Env, st: SyncState, message: string, sender: Address): SyncState
  {
    if st.isRunning && message == DiscoveryMessage && !env.isLocal(sender) then ResponseSent(env, st, sender)
    else st
  }

  /** A datagram leads to a reply only if it is the discovery text from an address that is
    * not local; a reachable such sender is registered and sent exactly one reply. */
  lemma BroadcastHandledSpec(env: Env, st: SyncState, message: string, sender: Address)
    ensures var r := BroadcastHandled(env, st, message, sender);
      (r != st ==> st.isRunning && message == DiscoveryMessage && !env.isLocal(sender))
      && (st.isRunning && message == DiscoveryMessage && !env.isLocal(sender) && env.reachable(sender) ==>
            sender in r.discoveredDevices
            && r.outbox == st.outbox + [(sender, DiscoveryResponse(Some(st.localFileHashes)))])
      && (ValidState(st) ==> ValidState(r))
  {
    DeviceAddedSpec(st, sender);
  }
}
