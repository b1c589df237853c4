/** The topic store: the static list `AllTopics` and the JSON file behind it. */
module TopicManagement {
  import opened Common
  import opened Flashcards
  import opened Topics

  /** `FirstOrDefault(t => t.TopicId == id)` as a position, or -1. */
  function FindTopic(topics: seq<Topic>, id: string): (i: int)
    ensures i == -1 <==> id !in TopicIds(topics)
    ensures 0 <= i ==> i < |topics| && topics[i].topicId == id
                        && forall j :: 0 <= j < i ==> topics[j].topicId != id
  {
    var i := IndexOf(TopicIds(topics), id);
    assert 0 <= i ==> forall j :: 0 <= j < i ==> topics[j].topicId == TopicIds(topics)[..i][j];
    i
  }

  /** One turn of the loop of `MergeTopics`: a new id is appended; a known topic whose level
    * differs falls back to SL, and nothing else about it changes. */
  function MergeTopic(all: seq<Topic>, t: Topic): seq<Topic>
  {
    var i := FindTopic(all, t.topicId);
    if i < 0 then all + [t]
    else if all[i].level != t.level then all[i := all[i].(level := SL)]
    else all
  }

  function MergeTopicsAll(all: seq<Topic>, incoming: seq<Topic>): seq<Topic>
    decreases |incoming|
  {
    if incoming == [] then all
    else MergeTopic(MergeTopicsAll(all, incoming[..|incoming| - 1]), incoming[|incoming| - 1])
  }

  /** `r` extends `all`: the ids of `all` are a prefix of those of `r`, every topic of `all`
    * keeps its name, and its level either stays or has become SL. */
  predicate Grows(all: seq<Topic>, r: seq<Topic>)
  {
    |all| <= |r| && TopicIds(all) <= TopicIds(r)
    && forall i :: 0 <= i < |all| ==> r[i].topicName == all[i].topicName && (r[i].level == all[i].level || r[i].level == SL)
  }

  lemma MergeTopicGrows(all: seq<Topic>, t: Topic)
    ensures Grows(all, MergeTopic(all, t))
  {
    if FindTopic(all, t.topicId) < 0 {
      assert TopicIds(all + [t])[..|all|] == TopicIds(all);
    } else {
      assert TopicIds(MergeTopic(all, t)) == TopicIds(all);
    }
  }

  lemma FindTopicGrows(all: seq<Topic>, r: seq<Topic>, id: string)
    requires Grows(all, r) && id in TopicIds(all)
    ensures FindTopic(r, id) == FindTopic(all, id)
  {
    IndexOfPrefix(TopicIds(all), TopicIds(r), id);
  }

  /** Merging never removes a topic, renames one, or moves one. */
  lemma {:induction false} MergeTopicsAllGrows(all: seq<Topic>, incoming: seq<Topic>)
    ensures Grows(all, MergeTopicsAll(all, incoming))
    decreases |incoming|
  {
    if incoming != [] {
      MergeTopicsAllGrows(all, incoming[..|incoming| - 1]);
      MergeTopicGrows(MergeTopicsAll(all, incoming[..|incoming| - 1]), incoming[|incoming| - 1]);
    }
  }

  /** Topics with new ids are appended, each id once, in incoming order. */
  lemma {:induction false} MergeTopicsAllIds(all: seq<Topic>, incoming: seq<Topic>)
    ensures TopicIds(MergeTopicsAll(all, incoming)) == UnionInOrder(TopicIds(all), TopicIds(incoming))
    decreases |incoming|
  {
    if incoming != [] {
      var init := incoming[..|incoming| - 1];
      var t := incoming[|incoming| - 1];
      var prev := MergeTopicsAll(all, init);
      MergeTopicsAllIds(all, init);
      assert TopicIds(incoming)[..|incoming| - 1] == TopicIds(init);
      var i := FindTopic(prev, t.topicId);
      if i < 0 {
        assert TopicIds(prev + [t]) == TopicIds(prev) + [t.topicId];
      } else {
        assert TopicIds(prev)[i] == t.topicId;
        assert TopicIds(MergeTopic(prev, t)) == TopicIds(prev);
      }
    }
  }

  /** Some incoming topic with this id has another level. */
  predicate LevelConflict(incoming: seq<Topic>, t: Topic)
  {
    exists j :: 0 <= j < |incoming| && incoming[j].topicId == t.topicId && incoming[j].level != t.level
  }

  /** A stored topic (the first with its id) keeps its name and id, and ends at SL exactly
    * when some incoming topic with its id has another level; otherwise its level stays. */
  lemma {:induction false} MergeTopicsAllLevel(all: seq<Topic>, incoming: seq<Topic>, i: int)
    requires 0 <= i < |all| && FindTopic(all, all[i].topicId) == i
    ensures var r := MergeTopicsAll(all, incoming);
      |all| <= |r|
      && r[i].topicId == all[i].topicId && r[i].topicName == all[i].topicName
      && r[i].level == if LevelConflict(incoming, all[i]) then SL else all[i].level
    decreases |incoming|
  {
    if incoming != [] {
      var init := incoming[..|incoming| - 1];
      var t := incoming[|incoming| - 1];
      var prev := MergeTopicsAll(all, init);
      MergeTopicsAllLevel(all, init, i);
      MergeTopicsAllGrows(all, init);
      assert TopicIds(all)[i] == all[i].topicId;
      FindTopicGrows(all, prev, all[i].topicId);
      MergeTopicAt(prev, t, i);
      assert incoming == init + [t];
      LevelConflictSnoc(init, t, all[i]);
    }
  }

  /** One merge turn changes the first topic with an id only when the incoming topic has
    * that id and another level, and then only to SL. */
  lemma MergeTopicAt(prev: seq<Topic>, t: Topic, i: int)
    requires 0 <= i < |prev| && FindTopic(prev, prev[i].topicId) == i
    ensures var r := MergeTopic(prev, t);
      |prev| <= |r|
      && r[i] == if t.topicId == prev[i].topicId && t.level != prev[i].level then prev[i].(level := SL) else prev[i]
  {
  }

  lemma LevelConflictSnoc(init: seq<Topic>, t: Topic, u: Topic)
    ensures LevelConflict(init + [t], u) <==> LevelConflict(init, u) || (t.topicId == u.topicId && t.level != u.level)
  {
    var incoming := init + [t];
    if LevelConflict(init, u) {
      var j :| 0 <= j < |init| && init[j].topicId == u.topicId && init[j].level != u.level;
      assert incoming[j] == init[j];
    }
    if t.topicId == u.topicId && t.level != u.level {
      assert incoming[|init|] == t;
    }
  }

  /** Every incoming topic's id is present in `r`, and the first topic with that id has the
    * incoming level or SL. */
  predicate Covers(r: seq<Topic>, incoming: seq<Topic>)
  {
    forall j :: 0 <= j < |incoming| ==>
      var k := FindTopic(r, incoming[j].topicId);
      0 <= k && (r[k].level == incoming[j].level || r[k].level == SL)
  }

  lemma GrowsKeepsCover(all: seq<Topic>, r: seq<Topic>, incoming: seq<Topic>)
    requires Covers(all, incoming) && Grows(all, r)
    ensures Covers(r, incoming)
  {
    forall j | 0 <= j < |incoming|
      ensures var k := FindTopic(r, incoming[j].topicId);
        0 <= k && (r[k].level == incoming[j].level || r[k].level == SL)
    {
      FindTopicGrows(all, r, incoming[j].topicId);
    }
  }

  lemma {:induction false} MergeTopicsAllCovers(all: seq<Topic>, incoming: seq<Topic>)
    ensures Covers(MergeTopicsAll(all, incoming), incoming)
    decreases |incoming|
  {
    if incoming != [] {
      var init := incoming[..|incoming| - 1];
      MergeTopicsAllCovers(all, init);
      MergeTopicCovers(MergeTopicsAll(all, init), init, incoming[|incoming| - 1]);
      assert incoming == init + [incoming[|incoming| - 1]];
    }
  }

  /** One merge turn keeps the topics covered so far covered, and covers the incoming one. */
  lemma MergeTopicCovers(prev: seq<Topic>, init: seq<Topic>, t: Topic)
    requires Covers(prev, init)
    ensures Covers(MergeTopic(prev, t), init + [t])
  {
    var r := MergeTopic(prev, t);
    var incoming := init + [t];
    MergeTopicGrows(prev, t);
    GrowsKeepsCover(prev, r, init);
    if FindTopic(prev, t.topicId) < 0 {
      assert TopicIds(r) == TopicIds(prev) + [t.topicId];
      assert FindTopic(r, t.topicId) == |prev| by {
        IndexOfPrefix(TopicIds(prev) + [t.topicId], TopicIds(r), t.topicId);
      }
    } else {
      assert TopicIds(r) == TopicIds(prev);
    }
    forall j | 0 <= j < |incoming|
      ensures var k := FindTopic(r, incoming[j].topicId);
        0 <= k && (r[k].level == incoming[j].level || r[k].level == SL)
    {
      if j < |init| {
        assert incoming[j] == init[j];
      }
    }
  }

  lemma {:induction false} MergeCoveredIsNoop(r: seq<Topic>, incoming: seq<Topic>)
    requires Covers(r, incoming)
    ensures MergeTopicsAll(r, incoming) == r
    decreases |incoming|
  {
    if incoming != [] {
      var init := incoming[..|incoming| - 1];
      assert Covers(r, init) by {
        forall j | 0 <= j < |init| ensures init[j] == incoming[j] { }
      }
      MergeCoveredIsNoop(r, init);
      var k := FindTopic(r, incoming[|incoming| - 1].topicId);
      assert r[k].(level := SL) == r[k] || r[k].level == incoming[|incoming| - 1].level;
    }
  }

  /** Running the merge twice on the same input equals running it once. */
  lemma MergeTopicsIdempotent(all: seq<Topic>, incoming: seq<Topic>)
    ensures MergeTopicsAll(MergeTopicsAll(all, incoming), incoming) == MergeTopicsAll(all, incoming)
  {
    MergeTopicsAllCovers(all, incoming);
    MergeCoveredIsNoop(MergeTopicsAll(all, incoming), incoming);
  }

  class TopicManager {
    /** `AllTopics`. */
    var allTopics: seq<Topic>
    /** The content of `topics.json`. */
    var file: Stored<seq<Topic>>

    constructor (initial: Stored<seq<Topic>>)
      ensures allTopics == [] && file == initial
    {
      allTopics := [];
      file := initial;
    }

    /** `Load`: a missing or unparseable file gives no topics. */
    method Load() returns (topics: seq<Topic>)
      modifies this
      ensures file == old(file)
      ensures topics == allTopics == LoadOr(file, [])
      ensures !file.Parsed? ==> topics == []
    {
      allTopics := LoadOr(file, []);
      topics := allTopics;
    }

    method Save()
      modifies this
      ensures allTopics == old(allTopics) && file == Parsed(allTopics)
    {
      file := Parsed(allTopics);
    }

    /** Appends the topic only when no stored topic has its id. */
    method AddTopic(topic: Topic)
      modifies this
      ensures allTopics == if topic.topicId in TopicIds(old(allTopics)) then old(allTopics) else old(allTopics) + [topic]
      ensures file == if topic.topicId in TopicIds(old(allTopics)) then old(file) else Parsed(allTopics)
    {
      if FindTopic(allTopics, topic.topicId) < 0 {
        allTopics := allTopics + [topic];
        Save();
      }
    }

    /** Acts only for an administrator and a known id; `List.Remove` then drops the first
      * entry equal to `topic`, if there is one. */
    method RemoveTopic(topic: Topic, isAdmin: bool)
      modifies this
      ensures if isAdmin && topic.topicId in TopicIds(old(allTopics)) then
          allTopics == RemoveFirst(old(allTopics), topic) && file == Parsed(allTopics)
        else allTopics == old(allTopics) && file == old(file)
    {
      if isAdmin && FindTopic(allTopics, topic.topicId) >= 0 {
        allTopics := RemoveFirst(allTopics, topic);
        Save();
      }
    }

    /** `MergeTopics`: merges into the topics in memory (it does not load first) and saves. */
    method MergeTopics(topicsToMerge: seq<Topic>)
      modifies this
      ensures allTopics == MergeTopicsAll(old(allTopics), topicsToMerge)
      ensures file == Parsed(allTopics)
    {
      var i := 0;
      while i < |topicsToMerge|
        invariant 0 <= i <= |topicsToMerge|
        invariant allTopics == MergeTopicsAll(old(allTopics), topicsToMerge[..i])
      {
        var topic := topicsToMerge[i];
        var k := FindTopic(allTopics, topic.topicId);
        if k >= 0 {
          if allTopics[k].level != topic.level {
            allTopics := allTopics[k := allTopics[k].(level := SL)];
          }
        } else {
          allTopics := allTopics + [topic];
        }
        assert topicsToMerge[..i + 1][..i] == topicsToMerge[..i];
        i := i + 1;
      }
      assert topicsToMerge[..i] == topicsToMerge;
      Save();
    }
  }
}
