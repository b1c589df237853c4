/** `NetworkSyncService`: the object whose handlers update the protocol fields in place.
  * Each method is proved to perform the transition of the same name in `SyncProtocol`. */
module NetworkSync {
  import opened Common
  import opened Framing
  import opened Topics
  import opened SyncProtocol

  class NetworkSyncService {
    const env: Env
    /** The data folder: file name to text. */
    var files: map<string, string>
    var localFileHashes: Dict
    var lastSyncTimes: map<Address, nat>
    var discoveredDevices: seq<Address>
    var isRunning: bool
    /** `TopicManager.AllTopics`, which the topic merge works on. */
    var memoryTopics: seq<Topic>
    var outbox: seq<(Address, Message)>
    var received: seq<seq<byte>>
    var flashcardsSynced: nat

    function State(): SyncState
      reads this
    {
      SyncState(files, localFileHashes, lastSyncTimes, discoveredDevices, isRunning, memoryTopics,
                outbox, received, flashcardsSynced)
    }

    predicate Valid()
      reads this
    {
      ValidState(State())
    }

    constructor (env: Env, files: map<string, string>, memoryTopics: seq<Topic>)
      ensures this.env == env && Valid()
      ensures State() == SyncState(files, [], map[], [], false, memoryTopics, [], [], 0)
    {
      this.env := env;
      this.files := files;
      localFileHashes := [];
      lastSyncTimes := map[];
      discoveredDevices := [];
      isRunning := false;
      this.memoryTopics := memoryTopics;
      outbox := [];
      received := [];
      flashcardsSynced := 0;
    }

    /** Rehashes the three core files into a cleared dictionary. */
    method UpdateLocalFileHashes()
      modifies this
      ensures State() == old(State()).(localFileHashes := CoreHashes(env, files))
    {
      var hashes: Dict := [];
      var coreFiles := CoreFiles;
      CoreHashesSpec(env, files);
      for i := 0 to |coreFiles|
        invariant hashes == CoreHashes(env, files)[..i]
      {
        var fileName := coreFiles[i];
        var hash := if fileName in files then env.hash(files[fileName]) else "";
        assert Keys(hashes) == coreFiles[..i];
        assert fileName !in coreFiles[..i];
        hashes := Put(hashes, fileName, hash);
        assert hashes == CoreHashes(env, files)[..i + 1];
      }
      localFileHashes := hashes;
    }

    /** Sets the flag and rehashes, unless the service is already running. */
    method StartListening()
      modifies this
      ensures State() == if old(isRunning) then old(State())
                         else old(State()).(isRunning := true, localFileHashes := CoreHashes(env, files))
    {
      if isRunning {
        return;
      }
      isRunning := true;
      UpdateLocalFileHashes();
    }

    method StopListening()
      modifies this
      ensures State() == old(State()).(isRunning := false)
    {
      isRunning := false;
    }

    method AddDiscoveredDevice(deviceIP: Address)
      modifies this
      ensures State() == DeviceAdded(old(State()), deviceIP)
    {
      if deviceIP !in discoveredDevices {
        discoveredDevices := discoveredDevices + [deviceIP];
      }
    }

    /** `SendHashManifest` at time `now` (both readings of the clock are `now`). */
    method SendHashManifest(targetIP: Address, now: nat)
      modifies this
      ensures State() == ManifestSent(old(State()), targetIP, now)
    {
      if targetIP in lastSyncTimes {
        var timeSinceLastSync := now - lastSyncTimes[targetIP];
        if timeSinceLastSync < MinSyncInterval {
          return;
        }
      }
      lastSyncTimes := lastSyncTimes[targetIP := now];
      outbox := outbox + [(targetIP, HashManifest(Some(localFileHashes)))];
    }

    /** A manifest attempt to a snapshot of the registry, device by device. */
    method InitiateSyncWithAllDevices(now: nat)
      modifies this
      ensures State() == ManifestsSent(old(State()), old(discoveredDevices), now)
    {
      var devices := discoveredDevices;
      for i := 0 to |devices|
        invariant State() == ManifestsSent(old(State()), devices[..i], now)
      {
        SendHashManifest(devices[i], now);
        assert devices[..i + 1][..i] == devices[..i];
      }
      assert devices[..|devices|] == devices;
    }

    /** One `SendJsonFile` per requested name the folder holds, in request order. */
    method SendRequestedFiles(targetIP: Address, requestedFiles: seq<string>)
      modifies this
      ensures State() == FilesSent(env, old(State()), requestedFiles, targetIP)
    {
      for i := 0 to |requestedFiles|
        invariant State() == old(State()).(outbox := outbox)
        invariant outbox == old(outbox) + FileMessages(env, files, requestedFiles[..i], targetIP)
      {
        var fileName := requestedFiles[i];
        assert requestedFiles[..i + 1][..i] == requestedFiles[..i];
        if fileName in files {
          outbox := outbox + [FileMessage(env, files, fileName, targetIP)];
        }
      }
      assert requestedFiles[..|requestedFiles|] == requestedFiles;
    }

    /** `HandleFileRequest`: a null list makes the handler throw. */
    method HandleFileRequest(requestedFiles: Option<seq<string>>, senderIP: Address)
      modifies this
      ensures State() == Dispatched(env, old(State()), FileRequest(requestedFiles), senderIP)
    {
      if requestedFiles.Some? {
        SendRequestedFiles(senderIP, requestedFiles.value);
      }
    }

    /** `HandleHashManifest`: builds the list of wanted files entry by entry. */
    method HandleHashManifest(fileHashes: Option<Dict>, senderIP: Address)
      modifies this
      ensures State() == Dispatched(env, old(State()), HashManifest(fileHashes), senderIP)
    {
      if fileHashes.None? {
        return;
      }
      var remoteHashes := fileHashes.value;
      var filesToRequest: seq<string> := [];
      for i := 0 to |remoteHashes|
        invariant State() == old(State())
        invariant filesToRequest == FilesToRequest(localFileHashes, remoteHashes[..i])
      {
        var fileName := remoteHashes[i].0;
        var remoteHash := remoteHashes[i].1;
        var local := Get(localFileHashes, fileName);
        if local.None? || local.value != remoteHash {
          if remoteHash != "" {
            filesToRequest := filesToRequest + [fileName];
          }
        }
        FilesToRequestSnoc(localFileHashes, remoteHashes[..i], remoteHashes[i]);
        assert remoteHashes[..i + 1] == remoteHashes[..i] + [remoteHashes[i]];
      }
      assert remoteHashes[..|remoteHashes|] == remoteHashes;
      if |filesToRequest| > 0 {
        outbox := outbox + [(senderIP, FileRequest(Some(filesToRequest)))];
      }
    }

    method SaveReceivedFile(fileName: string, content: string)
      modifies this
      ensures State() == old(State()).(files := SavedFiles(env, old(files), fileName, content))
    {
      if env.canWrite(fileName) {
        files := files[fileName := content];
      }
    }

    /** `TriggerMergeProcess`, merging the received content into the stores as they were
      * before the save (`before`); file names without a merge routine are left alone. */
    method TriggerMergeProcess(fileName: string, content: string, before: map<string, string>)
      modifies this
      ensures State() == MergeTriggered(env, old(State()), fileName, content, before)
    {
      if fileName == FlashcardsFile {
        files := files[fileName := env.codec.flashcardsText(FlashcardsMerged(env, before, content))];
        flashcardsSynced := flashcardsSynced + 1;
      } else if fileName == TopicsFile {
        memoryTopics := TopicsMerged(env, memoryTopics, content);
        files := files[fileName := env.codec.topicsText(memoryTopics)];
      } else if fileName == SubjectsFile {
        files := files[fileName := env.codec.subjectsText(SubjectsMerged(env, before, content))];
      }
    }

    /** `HandleReceivedFile`: hash check, save, hash update, merge. */
    method HandleReceivedFile(fileName: Option<string>, content: Option<string>, receivedHash: Option<string>)
      modifies this
      ensures State() == FileReceived(env, old(State()), fileName, content, receivedHash)
    {
      if content.None? {
        return;
      }
      var computedHash := env.hash(content.value);
      if Some(computedHash) != receivedHash {
        return;
      }
      if fileName.None? {
        return;
      }
      var before := files;
      SaveReceivedFile(fileName.value, content.value);
      localFileHashes := Put(localFileHashes, fileName.value, computedHash);
      TriggerMergeProcess(fileName.value, content.value, before);
    }

    /** `HandleDiscoveryResponse`: registers the sender, then handles any hashes. */
    method HandleDiscoveryResponse(fileHashes: Option<Dict>, senderIP: Address)
      modifies this
      ensures State() == DiscoveryHandled(old(State()), fileHashes, senderIP)
    {
      AddDiscoveredDevice(senderIP);
      if fileHashes.Some? {
        HandleHashManifest(fileHashes, senderIP);
      }
    }

    /** `HandleReceivedJson`: the switch on the message type. */
    method HandleReceivedJson(payload: seq<byte>, senderIP: Address)
      modifies this
      ensures State() == Dispatched(env, old(State()), env.parse(payload), senderIP)
    {
      var msg := env.parse(payload);
      if msg.JsonFile? {
        HandleReceivedFile(msg.fileName, msg.content, msg.contentHash);
      } else if msg.DiscoveryResponse? {
        HandleDiscoveryResponse(msg.fileHashes, senderIP);
      } else if msg.HashManifest? {
        HandleHashManifest(msg.fileHashes, senderIP);
      } else if msg.FileRequest? {
        HandleFileRequest(msg.requestedFiles, senderIP);
      }
    }

    /** `HandleTcpClient`: reads one frame from an accepted connection, logs its payload
      * for `JsonDataReceived`, and dispatches it. */
    method HandleTcpClient(stream: ByteStream, senderIP: Address)
      requires stream.pos <= |stream.data|
      modifies this, stream
      ensures State() == ConnectionHandled(env, old(State()), old(stream.Remaining()), senderIP)
    {
      var payload := ReadFrame(stream);
      if payload.None? {
        return;
      }
      received := received + [payload.value];
      HandleReceivedJson(payload.value, senderIP);
    }

    /** `SendTcpResponse`: when the connection opens, registers the peer, then replies. */
    method SendTcpResponse(target: Address)
      modifies this
      ensures State() == ResponseSent(env, old(State()), target)
    {
      if !env.reachable(target) {
        return;
      }
      var hashes := localFileHashes;
      AddDiscoveredDevice(target);
      outbox := outbox + [(target, DiscoveryResponse(Some(hashes)))];
    }

    /** One datagram received by `ListenForBroadcasts`. */
    method HandleBroadcast(message: string, senderIP: Address)
      modifies this
      ensures State() == BroadcastHandled(env, old(State()), message, senderIP)
    {
      if !isRunning {
        return;
      }
      if message == DiscoveryMessage && !env.isLocal(senderIP) {
        SendTcpResponse(senderIP);
      }
    }
  }
}
