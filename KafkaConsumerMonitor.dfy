/**
 * The consumer monitor: for one topic, list every consumer group, keep each
 * group's committed offsets on that topic, drop the groups that have none,
 * and build one consumer view per remaining group, joined with the topic's
 * partition metadata.
 *
 * The two calls into the cluster admin client become inputs:
 * `consumerGroups` is what `listConsumerGroups` returns, in the order it is
 * iterated, and `listConsumerGroupOffsets` maps a group id to the committed
 * offsets the client reports for it.
 */
module KafkaConsumerMonitor {
  import opened Model

  /** Size and first offset of a partition the topic metadata does not know. */
  const Unknown: int := -1

  /** Committed offsets of one group, keyed by (topic, partition). */
  type OffsetMap = map<TopicPartition, int>

  /** The admin client's answer to `listConsumerGroupOffsets`. */
  type OffsetLister = string -> OffsetMap

  // ---------------------------------------------------------------------------
  // Offset resolution
  // ---------------------------------------------------------------------------

  /** The offsets of one group, as fetched from the admin client; never changed once built. */
  datatype ConsumerGroupOffsets = ConsumerGroupOffsets(groupId: string, offsets: OffsetMap) {

    function IsEmpty(): (empty: bool)
      ensures empty <==> offsets == map[]
    {
      |offsets| == 0
    }

    /** A copy of these offsets that keeps only the entries on `topic`. */
    function ForTopic(topic: string): (r: ConsumerGroupOffsets)
      ensures r.groupId == groupId
      ensures forall tp :: tp in r.offsets <==> tp in offsets && tp.topic == topic
      ensures forall tp :: tp in r.offsets ==> r.offsets[tp] == offsets[tp]
    {
      ConsumerGroupOffsets(groupId, map tp | tp in offsets && tp.topic == topic :: offsets[tp])
    }

    /** Every entry is on `topic`. */
    ghost predicate OnTopic(topic: string) {
      forall tp :: tp in offsets ==> tp.topic == topic
    }
  }

  /** The offsets the admin client reports for `groupId`, under that group id. */
  function ResolveOffsets(listConsumerGroupOffsets: OffsetLister, groupId: string): (r: ConsumerGroupOffsets)
    ensures r.groupId == groupId
    ensures r.offsets == listConsumerGroupOffsets(groupId)
  {
    ConsumerGroupOffsets(groupId, listConsumerGroupOffsets(groupId))
  }

  /**
   * Resolve every listed group, narrow it to `topic` and keep the non-empty
   * ones, in listing order.
   */
  function GetConsumerOffsets(topic: string, consumerGroups: seq<string>, listConsumerGroupOffsets: OffsetLister)
    : (r: seq<ConsumerGroupOffsets>)
    ensures |r| <= |consumerGroups|
    ensures forall j :: 0 <= j < |r| ==> r[j].groupId in consumerGroups
    ensures forall j :: 0 <= j < |r| ==> !r[j].IsEmpty() && r[j].OnTopic(topic)
    ensures forall j :: 0 <= j < |r| ==>
              r[j] == ResolveOffsets(listConsumerGroupOffsets, r[j].groupId).ForTopic(topic)
  {
    if consumerGroups == [] then []
    else
      var offsets := ResolveOffsets(listConsumerGroupOffsets, consumerGroups[0]).ForTopic(topic);
      var rest := GetConsumerOffsets(topic, consumerGroups[1..], listConsumerGroupOffsets);
      if offsets.IsEmpty() then rest else [offsets] + rest
  }

  /** `offsets` has at least one entry on `topic`. */
  ghost predicate HasOffsetsOn(offsets: OffsetMap, topic: string) {
    exists tp :: tp in offsets && tp.topic == topic
  }

  /** Reference definition: the listed group ids that have committed on `topic`, in listing order. */
  ghost function Surviving(topic: string, consumerGroups: seq<string>, listConsumerGroupOffsets: OffsetLister)
    : seq<string>
  {
    if consumerGroups == [] then []
    else
      var rest := Surviving(topic, consumerGroups[1..], listConsumerGroupOffsets);
      if HasOffsetsOn(listConsumerGroupOffsets(consumerGroups[0]), topic) then [consumerGroups[0]] + rest else rest
  }

  /** The group ids of `gs`, in order. */
  function GroupIds(gs: seq<ConsumerGroupOffsets>): (ids: seq<string>)
    ensures |ids| == |gs| && forall j :: 0 <= j < |gs| ==> ids[j] == gs[j].groupId
  {
    if gs == [] then [] else [gs[0].groupId] + GroupIds(gs[1..])
  }

  /** Narrowing to a topic leaves something exactly when the group has an offset on that topic. */
  lemma ForTopicNonEmpty(g: ConsumerGroupOffsets, topic: string)
    ensures !g.ForTopic(topic).IsEmpty() <==> HasOffsetsOn(g.offsets, topic)
  {
    var f := g.ForTopic(topic);
    if HasOffsetsOn(g.offsets, topic) {
      var tp :| tp in g.offsets && tp.topic == topic;
      assert tp in f.offsets;
    }
    if !f.IsEmpty() {
      var tp :| tp in f.offsets;
      assert tp in g.offsets && tp.topic == topic;
    }
  }

  lemma GroupIdsCons(g: ConsumerGroupOffsets, gs: seq<ConsumerGroupOffsets>)
    ensures GroupIds([g] + gs) == [g.groupId] + GroupIds(gs)
  {
    assert ([g] + gs)[1..] == gs;
  }

  /** The surviving groups are exactly the reference filter of the listing, in order. */
  lemma {:induction false} GroupIdsFollowListing(topic: string, consumerGroups: seq<string>,
                                                 listConsumerGroupOffsets: OffsetLister)
    ensures GroupIds(GetConsumerOffsets(topic, consumerGroups, listConsumerGroupOffsets))
            == Surviving(topic, consumerGroups, listConsumerGroupOffsets)
  {
    if consumerGroups != [] {
      var head := ResolveOffsets(listConsumerGroupOffsets, consumerGroups[0]);
      var offsets := head.ForTopic(topic);
      var rest := GetConsumerOffsets(topic, consumerGroups[1..], listConsumerGroupOffsets);
      GroupIdsFollowListing(topic, consumerGroups[1..], listConsumerGroupOffsets);
      ForTopicNonEmpty(head, topic);
      if offsets.IsEmpty() {
        assert GetConsumerOffsets(topic, consumerGroups, listConsumerGroupOffsets) == rest;
      } else {
        assert GetConsumerOffsets(topic, consumerGroups, listConsumerGroupOffsets) == [offsets] + rest;
        GroupIdsCons(offsets, rest);
      }
    }
  }

  /**
   * A group id that has committed on `topic` survives as often as it is
   * listed (a repeated id is not deduplicated); any other id never survives.
   */
  lemma {:induction false} SurvivingCount(topic: string, consumerGroups: seq<string>,
                                          listConsumerGroupOffsets: OffsetLister, groupId: string)
    ensures multiset(Surviving(topic, consumerGroups, listConsumerGroupOffsets))[groupId]
            == if HasOffsetsOn(listConsumerGroupOffsets(groupId), topic) then multiset(consumerGroups)[groupId] else 0
  {
    if consumerGroups != [] {
      SurvivingCount(topic, consumerGroups[1..], listConsumerGroupOffsets, groupId);
      assert consumerGroups == [consumerGroups[0]] + consumerGroups[1..];
    }
  }

  /** Every surviving id is listed, and a listing without repeats survives without repeats. */
  lemma {:induction false} SurvivingDistinct(topic: string, consumerGroups: seq<string>,
                                             listConsumerGroupOffsets: OffsetLister)
    requires Distinct(consumerGroups)
    ensures Distinct(Surviving(topic, consumerGroups, listConsumerGroupOffsets))
  {
    if consumerGroups != [] {
      SurvivingDistinct(topic, consumerGroups[1..], listConsumerGroupOffsets);
      SurvivingCount(topic, consumerGroups[1..], listConsumerGroupOffsets, consumerGroups[0]);
    }
  }

  /** A sequence without repeats has as many elements as the set of its elements. */
  lemma {:induction false} DistinctCardinality<T>(s: seq<T>)
    requires Distinct(s)
    ensures |set x | x in s| == |s|
  {
    if s != [] {
      DistinctCardinality(s[1..]);
      assert (set x | x in s) == {s[0]} + (set x | x in s[1..]);
      assert s[0] !in s[1..];
    }
  }

  ghost predicate Distinct<T>(s: seq<T>) {
    forall i, j :: 0 <= i < j < |s| ==> s[i] != s[j]
  }

  // ---------------------------------------------------------------------------
  // View assembly
  // ---------------------------------------------------------------------------

  /**
   * The partition view of a committed `offset` of group `groupId` on
   * partition `partition` of `topic`: size and first offset come from the
   * topic's metadata, or are Unknown when it has none for that partition.
   */
  function PartitionViewOf(groupId: string, topic: TopicVO, partition: int, offset: int): (v: ConsumerPartitionVO)
    ensures v.groupId == groupId && v.topic == topic.name && v.partitionId == partition && v.offset == offset
    ensures partition in topic.partitions ==>
              v.size == topic.partitions[partition].size && v.firstOffset == topic.partitions[partition].firstOffset
    ensures partition !in topic.partitions ==> v.size == Unknown && v.firstOffset == Unknown
  {
    var topicPartitionVo := topic.GetPartition(partition);
    ConsumerPartitionVO(groupId, topic.name, partition, offset,
                        match topicPartitionVo case Some(p) => p.size case None => Unknown,
                        match topicPartitionVo case Some(p) => p.firstOffset case None => Unknown)
  }

  /** `v` is the view of the entry of `g` on `v`'s partition of `topic`. */
  ghost predicate IsEntryView(v: ConsumerPartitionVO, g: ConsumerGroupOffsets, topic: TopicVO) {
    var tp := TopicPartition(topic.name, v.partitionId);
    tp in g.offsets && v == PartitionViewOf(g.groupId, topic, v.partitionId, g.offsets[tp])
  }

  /**
   * `tv` is the topic view of the (already narrowed) offsets `g`: named after
   * the topic, one partition view per entry of `g`, in some order, and
   * nothing else.
   */
  ghost predicate IsTopicViewOf(tv: ConsumerTopicVO, g: ConsumerGroupOffsets, topic: TopicVO) {
    && tv.topic == topic.name
    && |tv.offsets| == |g.offsets|
    && (forall k :: 0 <= k < |tv.offsets| ==> IsEntryView(tv.offsets[k], g, topic))
    && (forall tp :: tp in g.offsets ==> PartitionViewOf(g.groupId, topic, tp.partition, g.offsets[tp]) in tv.offsets)
    && (forall k, l :: 0 <= k < l < |tv.offsets| ==> tv.offsets[k].partitionId != tv.offsets[l].partitionId)
  }

  /** `c` is the consumer view of `g`: its group id and exactly one topic view. */
  ghost predicate IsConsumerViewOf(c: ConsumerVO, g: ConsumerGroupOffsets, topic: TopicVO) {
    c.groupId == g.groupId && |c.topics| == 1 && IsTopicViewOf(c.topics[0], g, topic)
  }

  /** `cs` are the consumer views of the first `n` offsets in `gs`, one for one and in order. */
  ghost predicate AreConsumerViewsOf(cs: seq<ConsumerVO>, gs: seq<ConsumerGroupOffsets>, n: nat, topic: TopicVO) {
    |cs| == n <= |gs| && forall j :: 0 <= j < n ==> IsConsumerViewOf(cs[j], gs[j], topic)
  }

  lemma AppendConsumerView(cs: seq<ConsumerVO>, gs: seq<ConsumerGroupOffsets>, n: nat, c: ConsumerVO, topic: TopicVO)
    requires AreConsumerViewsOf(cs, gs, n, topic) && n < |gs|
    requires IsConsumerViewOf(c, gs[n], topic)
    ensures AreConsumerViewsOf(cs + [c], gs, n + 1, topic)
  {
  }

  /** `r` is a possible result of `getConsumers` (possible: partition order is the hash map's). */
  ghost predicate IsConsumersResult(r: seq<ConsumerVO>, topic: TopicVO, consumerGroups: seq<string>,
                                    listConsumerGroupOffsets: OffsetLister)
  {
    var resolved := GetConsumerOffsets(topic.name, consumerGroups, listConsumerGroupOffsets);
    AreConsumerViewsOf(r, resolved, |resolved|, topic)
  }

  /**
   * `vs` lists the partition views of the entries `keys` of `g`, one for one
   * and in order, and `keys` lists every entry of `g` exactly once.
   */
  ghost predicate ViewsEnumerate(vs: seq<ConsumerPartitionVO>, keys: seq<TopicPartition>, g: ConsumerGroupOffsets,
                                 topic: TopicVO)
  {
    && |vs| == |keys|
    && (forall k :: 0 <= k < |keys| ==> keys[k] in g.offsets)
    && (forall tp :: tp in g.offsets ==> tp in keys)
    && (forall k, l :: 0 <= k < l < |keys| ==> keys[k] != keys[l])
    && (forall k :: 0 <= k < |keys| ==>
          vs[k] == PartitionViewOf(g.groupId, topic, keys[k].partition, g.offsets[keys[k]]))
  }

  /** Views of all entries of offsets narrowed to `topic`, in any order, form its topic view. */
  lemma EnumerationIsTopicView(vs: seq<ConsumerPartitionVO>, keys: seq<TopicPartition>, g: ConsumerGroupOffsets,
                               topic: TopicVO)
    requires g.OnTopic(topic.name) && ViewsEnumerate(vs, keys, g, topic) && |keys| == |g.offsets|
    ensures IsTopicViewOf(ConsumerTopicVO(topic.name, vs), g, topic)
  {
    forall k | 0 <= k < |vs| ensures IsEntryView(vs[k], g, topic) {
      assert keys[k] == TopicPartition(topic.name, vs[k].partitionId);
    }
    forall tp | tp in g.offsets
      ensures PartitionViewOf(g.groupId, topic, tp.partition, g.offsets[tp]) in vs
    {
      var k :| 0 <= k < |keys| && keys[k] == tp;
      assert vs[k] == PartitionViewOf(g.groupId, topic, tp.partition, g.offsets[tp]);
    }
    forall k, l | 0 <= k < l < |vs| ensures vs[k].partitionId != vs[l].partitionId {
      assert keys[k] != keys[l];
      assert keys[k].topic == keys[l].topic;
    }
  }

  /**
   * The inner loop of `getConsumers`: one partition view per entry of the
   * narrowed offsets `consumerOffsets`, visited in the hash map's (here:
   * unspecified) order. Its caller only passes offsets already narrowed to
   * `topic`, which is what makes the partition numbers distinct.
   */
  method AssembleTopicView(topic: TopicVO, consumerOffsets: ConsumerGroupOffsets)
    returns (consumerTopicVo: ConsumerTopicVO)
    requires consumerOffsets.OnTopic(topic.name)
    ensures IsTopicViewOf(consumerTopicVo, consumerOffsets, topic)
  {
    var partitionVos: seq<ConsumerPartitionVO> := [];
    var remaining := consumerOffsets.offsets.Keys;
    ghost var keys: seq<TopicPartition> := [];
    while remaining != {}
      invariant remaining <= consumerOffsets.offsets.Keys
      invariant |partitionVos| == |keys|
      invariant forall k :: 0 <= k < |keys| ==> keys[k] in consumerOffsets.offsets && keys[k] !in remaining
      invariant forall tp :: tp in consumerOffsets.offsets && tp !in remaining ==> tp in keys
      invariant forall k, l :: 0 <= k < l < |keys| ==> keys[k] != keys[l]
      invariant forall k :: 0 <= k < |keys| ==>
                  partitionVos[k]
                  == PartitionViewOf(consumerOffsets.groupId, topic, keys[k].partition, consumerOffsets.offsets[keys[k]])
      decreases remaining
    {
      var tp :| tp in remaining;
      var partition := tp.partition;
      var offset := consumerOffsets.offsets[tp];
      var offsetVo := PartitionViewOf(consumerOffsets.groupId, topic, partition, offset);
      partitionVos := partitionVos + [offsetVo];
      remaining := remaining - {tp};
      keys := keys + [tp];
    }
    assert (set tp | tp in keys) == consumerOffsets.offsets.Keys;
    DistinctCardinality(keys);
    EnumerationIsTopicView(partitionVos, keys, consumerOffsets, topic);
    consumerTopicVo := ConsumerTopicVO(topic.name, partitionVos);
  }

  /**
   * One consumer view per group that has committed on the topic, in listing
   * order; inside it one topic view with one partition view per committed
   * partition of that topic.
   */
  method GetConsumers(topic: TopicVO, consumerGroups: seq<string>, listConsumerGroupOffsets: OffsetLister)
    returns (consumerVos: seq<ConsumerVO>)
    ensures IsConsumersResult(consumerVos, topic, consumerGroups, listConsumerGroupOffsets)
  {
    var consumerOffsetsList := GetConsumerOffsets(topic.name, consumerGroups, listConsumerGroupOffsets);
    consumerVos := [];
    for i := 0 to |consumerOffsetsList|
      invariant AreConsumerViewsOf(consumerVos, consumerOffsetsList, i, topic)
    {
      var consumerOffsets := consumerOffsetsList[i];
      var consumerTopicVo := AssembleTopicView(topic, consumerOffsets);
      var consumerVo := ConsumerVO(consumerOffsets.groupId, [consumerTopicVo]);
      AppendConsumerView(consumerVos, consumerOffsetsList, i, consumerVo, topic);
      consumerVos := consumerVos + [consumerVo];
    }
  }

  // ---------------------------------------------------------------------------
  // Properties of the result of getConsumers
  // ---------------------------------------------------------------------------

  /** The group ids of the consumer views `cs`, in order. */
  function ConsumerIds(cs: seq<ConsumerVO>): (ids: seq<string>)
    ensures |ids| == |cs| && forall j :: 0 <= j < |cs| ==> ids[j] == cs[j].groupId
  {
    if cs == [] then [] else [cs[0].groupId] + ConsumerIds(cs[1..])
  }

  /** Every reported consumer has exactly one topic view, for the topic, and at least one partition view. */
  lemma EveryConsumerHasPartitions(r: seq<ConsumerVO>, topic: TopicVO, consumerGroups: seq<string>,
                                   listConsumerGroupOffsets: OffsetLister)
    requires IsConsumersResult(r, topic, consumerGroups, listConsumerGroupOffsets)
    ensures forall c :: c in r ==> |c.topics| == 1 && c.topics[0].topic == topic.name && |c.topics[0].offsets| > 0
  {
    var resolved := GetConsumerOffsets(topic.name, consumerGroups, listConsumerGroupOffsets);
    forall c | c in r ensures |c.topics| == 1 && c.topics[0].topic == topic.name && |c.topics[0].offsets| > 0 {
      var j :| 0 <= j < |r| && r[j] == c;
      assert !resolved[j].IsEmpty();
    }
  }

  /**
   * The consumers are reported in listing order, one per listed group that
   * has committed on the topic.
   */
  lemma ConsumersFollowListing(r: seq<ConsumerVO>, topic: TopicVO, consumerGroups: seq<string>,
                               listConsumerGroupOffsets: OffsetLister)
    requires IsConsumersResult(r, topic, consumerGroups, listConsumerGroupOffsets)
    ensures ConsumerIds(r) == Surviving(topic.name, consumerGroups, listConsumerGroupOffsets)
  {
    var resolved := GetConsumerOffsets(topic.name, consumerGroups, listConsumerGroupOffsets);
    GroupIdsFollowListing(topic.name, consumerGroups, listConsumerGroupOffsets);
    assert ConsumerIds(r) == GroupIds(resolved);
  }

  /**
   * A group with an offset on the topic is reported once per time it is
   * listed (no deduplication); a group without one is never reported.
   */
  lemma ConsumerCount(r: seq<ConsumerVO>, topic: TopicVO, consumerGroups: seq<string>,
                      listConsumerGroupOffsets: OffsetLister, groupId: string)
    requires IsConsumersResult(r, topic, consumerGroups, listConsumerGroupOffsets)
    ensures multiset(ConsumerIds(r))[groupId]
            == if HasOffsetsOn(listConsumerGroupOffsets(groupId), topic.name) then multiset(consumerGroups)[groupId] else 0
  {
    ConsumersFollowListing(r, topic, consumerGroups, listConsumerGroupOffsets);
    SurvivingCount(topic.name, consumerGroups, listConsumerGroupOffsets, groupId);
  }

  /** When no listed group has committed on the topic, nothing is reported. */
  lemma NoCommitsNoConsumers(r: seq<ConsumerVO>, topic: TopicVO, consumerGroups: seq<string>,
                             listConsumerGroupOffsets: OffsetLister)
    requires IsConsumersResult(r, topic, consumerGroups, listConsumerGroupOffsets)
    requires forall groupId :: groupId in consumerGroups ==> !HasOffsetsOn(listConsumerGroupOffsets(groupId), topic.name)
    ensures r == []
  {
    if r != [] {
      var groupId := r[0].groupId;
      ConsumerCount(r, topic, consumerGroups, listConsumerGroupOffsets, groupId);
    }
  }

  /**
   * Each partition view of a reported consumer names the group, the topic and
   * a partition the group has committed on, and carries that committed
   * offset unchanged.
   */
  lemma PartitionViewsAreCommittedOffsets(r: seq<ConsumerVO>, topic: TopicVO, consumerGroups: seq<string>,
                                          listConsumerGroupOffsets: OffsetLister, j: nat)
    requires IsConsumersResult(r, topic, consumerGroups, listConsumerGroupOffsets) && j < |r|
    ensures |r[j].topics| == 1
    ensures forall v :: v in r[j].topics[0].offsets ==>
              && v.groupId == r[j].groupId && v.topic == topic.name
              && TopicPartition(topic.name, v.partitionId) in listConsumerGroupOffsets(r[j].groupId)
              && v.offset == listConsumerGroupOffsets(r[j].groupId)[TopicPartition(topic.name, v.partitionId)]
  {
    EveryConsumerHasPartitions(r, topic, consumerGroups, listConsumerGroupOffsets);
    assert r[j] in r;
    forall v | v in r[j].topics[0].offsets
      ensures v.groupId == r[j].groupId && v.topic == topic.name
      ensures TopicPartition(topic.name, v.partitionId) in listConsumerGroupOffsets(r[j].groupId)
      ensures v.offset == listConsumerGroupOffsets(r[j].groupId)[TopicPartition(topic.name, v.partitionId)]
    {
      ViewIsOfCommittedOffset(r, topic, consumerGroups, listConsumerGroupOffsets, j, v);
    }
  }

  /** Each offset a reported consumer has committed on the topic appears in a partition view. */
  lemma CommittedOffsetsHaveViews(r: seq<ConsumerVO>, topic: TopicVO, consumerGroups: seq<string>,
                                  listConsumerGroupOffsets: OffsetLister, j: nat)
    requires IsConsumersResult(r, topic, consumerGroups, listConsumerGroupOffsets) && j < |r|
    ensures |r[j].topics| == 1
    ensures forall tp :: tp in listConsumerGroupOffsets(r[j].groupId) && tp.topic == topic.name ==>
              exists v :: v in r[j].topics[0].offsets && v.partitionId == tp.partition
                          && v.offset == listConsumerGroupOffsets(r[j].groupId)[tp]
  {
    EveryConsumerHasPartitions(r, topic, consumerGroups, listConsumerGroupOffsets);
    assert r[j] in r;
    forall tp | tp in listConsumerGroupOffsets(r[j].groupId) && tp.topic == topic.name
      ensures exists v :: v in r[j].topics[0].offsets && v.partitionId == tp.partition
                          && v.offset == listConsumerGroupOffsets(r[j].groupId)[tp]
    {
      CommittedOffsetHasView(r, topic, consumerGroups, listConsumerGroupOffsets, j, tp);
      var v := PartitionViewOf(r[j].groupId, topic, tp.partition, listConsumerGroupOffsets(r[j].groupId)[tp]);
      assert v in r[j].topics[0].offsets;
    }
  }

  /** A partition view reported for a group is the view of one of that group's committed offsets on the topic. */
  lemma ViewIsOfCommittedOffset(r: seq<ConsumerVO>, topic: TopicVO, consumerGroups: seq<string>,
                                listConsumerGroupOffsets: OffsetLister, j: nat, v: ConsumerPartitionVO)
    requires IsConsumersResult(r, topic, consumerGroups, listConsumerGroupOffsets) && j < |r|
    requires |r[j].topics| == 1 && v in r[j].topics[0].offsets
    ensures TopicPartition(topic.name, v.partitionId) in listConsumerGroupOffsets(r[j].groupId)
    ensures v == PartitionViewOf(r[j].groupId, topic, v.partitionId,
                                 listConsumerGroupOffsets(r[j].groupId)[TopicPartition(topic.name, v.partitionId)])
  {
    var resolved := GetConsumerOffsets(topic.name, consumerGroups, listConsumerGroupOffsets);
    var tv := r[j].topics[0];
    assert IsConsumerViewOf(r[j], resolved[j], topic);
    assert resolved[j] == ResolveOffsets(listConsumerGroupOffsets, resolved[j].groupId).ForTopic(topic.name);
    var k :| 0 <= k < |tv.offsets| && tv.offsets[k] == v;
    assert IsEntryView(tv.offsets[k], resolved[j], topic);
  }

  /** Every committed offset of a reported group on the topic has its partition view. */
  lemma CommittedOffsetHasView(r: seq<ConsumerVO>, topic: TopicVO, consumerGroups: seq<string>,
                               listConsumerGroupOffsets: OffsetLister, j: nat, tp: TopicPartition)
    requires IsConsumersResult(r, topic, consumerGroups, listConsumerGroupOffsets) && j < |r|
    requires tp in listConsumerGroupOffsets(r[j].groupId) && tp.topic == topic.name
    ensures |r[j].topics| == 1
    ensures PartitionViewOf(r[j].groupId, topic, tp.partition, listConsumerGroupOffsets(r[j].groupId)[tp])
            in r[j].topics[0].offsets
  {
    var resolved := GetConsumerOffsets(topic.name, consumerGroups, listConsumerGroupOffsets);
    assert IsConsumerViewOf(r[j], resolved[j], topic);
    assert resolved[j] == ResolveOffsets(listConsumerGroupOffsets, resolved[j].groupId).ForTopic(topic.name);
    assert tp in resolved[j].offsets;
  }

  /** Within one topic view no partition number occurs twice. */
  lemma PartitionIdsDistinct(r: seq<ConsumerVO>, topic: TopicVO, consumerGroups: seq<string>,
                             listConsumerGroupOffsets: OffsetLister, j: nat)
    requires IsConsumersResult(r, topic, consumerGroups, listConsumerGroupOffsets) && j < |r|
    ensures |r[j].topics| == 1
    ensures forall k, l :: 0 <= k < l < |r[j].topics[0].offsets| ==>
              r[j].topics[0].offsets[k].partitionId != r[j].topics[0].offsets[l].partitionId
  {
    var resolved := GetConsumerOffsets(topic.name, consumerGroups, listConsumerGroupOffsets);
    assert IsConsumerViewOf(r[j], resolved[j], topic);
  }

  /**
   * Size and first offset of each partition view come from the topic's
   * metadata for that partition, and are both -1 when it has none.
   */
  lemma PartitionMetadataJoined(r: seq<ConsumerVO>, topic: TopicVO, consumerGroups: seq<string>,
                                listConsumerGroupOffsets: OffsetLister, j: nat)
    requires IsConsumersResult(r, topic, consumerGroups, listConsumerGroupOffsets) && j < |r|
    ensures |r[j].topics| == 1
    ensures forall v :: v in r[j].topics[0].offsets && v.partitionId in topic.partitions ==>
              v.size == topic.partitions[v.partitionId].size
              && v.firstOffset == topic.partitions[v.partitionId].firstOffset
    ensures forall v :: v in r[j].topics[0].offsets && v.partitionId !in topic.partitions ==>
              v.size == Unknown && v.firstOffset == Unknown
  {
    var resolved := GetConsumerOffsets(topic.name, consumerGroups, listConsumerGroupOffsets);
    assert IsConsumerViewOf(r[j], resolved[j], topic);
    forall v | v in r[j].topics[0].offsets
      ensures v.partitionId in topic.partitions ==>
                v.size == topic.partitions[v.partitionId].size
                && v.firstOffset == topic.partitions[v.partitionId].firstOffset
      ensures v.partitionId !in topic.partitions ==> v.size == Unknown && v.firstOffset == Unknown
    {
      ViewIsOfCommittedOffset(r, topic, consumerGroups, listConsumerGroupOffsets, j, v);
    }
  }

  /** The (group, topic, partition) triple of a partition view. */
  function Triple(v: ConsumerPartitionVO): (string, string, int) {
    (v.groupId, v.topic, v.partitionId)
  }

  /**
   * When the listing has no repeated group id, no (group, topic, partition)
   * triple is reported twice in one result.
   */
  lemma TriplesUniqueForDistinctListing(r: seq<ConsumerVO>, topic: TopicVO, consumerGroups: seq<string>,
                                        listConsumerGroupOffsets: OffsetLister)
    requires IsConsumersResult(r, topic, consumerGroups, listConsumerGroupOffsets)
    requires Distinct(consumerGroups)
    ensures forall j1, j2, k1, k2 ::
              0 <= j1 < |r| && 0 <= j2 < |r| && |r[j1].topics| == 1 && |r[j2].topics| == 1
              && 0 <= k1 < |r[j1].topics[0].offsets| && 0 <= k2 < |r[j2].topics[0].offsets| && (j1, k1) != (j2, k2)
              ==> Triple(r[j1].topics[0].offsets[k1]) != Triple(r[j2].topics[0].offsets[k2])
  {
    ConsumersFollowListing(r, topic, consumerGroups, listConsumerGroupOffsets);
    SurvivingDistinct(topic.name, consumerGroups, listConsumerGroupOffsets);
    forall j1, j2, k1, k2 |
      0 <= j1 < |r| && 0 <= j2 < |r| && |r[j1].topics| == 1 && |r[j2].topics| == 1
      && 0 <= k1 < |r[j1].topics[0].offsets| && 0 <= k2 < |r[j2].topics[0].offsets| && (j1, k1) != (j2, k2)
      ensures Triple(r[j1].topics[0].offsets[k1]) != Triple(r[j2].topics[0].offsets[k2])
    {
      TripleDiffers(r, topic, consumerGroups, listConsumerGroupOffsets, j1, k1, j2, k2);
    }
  }

  lemma TripleDiffers(r: seq<ConsumerVO>, topic: TopicVO, consumerGroups: seq<string>,
                      listConsumerGroupOffsets: OffsetLister, j1: nat, k1: nat, j2: nat, k2: nat)
    requires IsConsumersResult(r, topic, consumerGroups, listConsumerGroupOffsets)
    requires Distinct(ConsumerIds(r))
    requires j1 < |r| && j2 < |r| && |r[j1].topics| == 1 && |r[j2].topics| == 1
    requires k1 < |r[j1].topics[0].offsets| && k2 < |r[j2].topics[0].offsets| && (j1, k1) != (j2, k2)
    ensures Triple(r[j1].topics[0].offsets[k1]) != Triple(r[j2].topics[0].offsets[k2])
  {
    var resolved := GetConsumerOffsets(topic.name, consumerGroups, listConsumerGroupOffsets);
    var tv1, tv2 := r[j1].topics[0], r[j2].topics[0];
    assert IsConsumerViewOf(r[j1], resolved[j1], topic);
    assert IsConsumerViewOf(r[j2], resolved[j2], topic);
    if j1 == j2 {
      // Two positions of one topic view: their partition numbers differ.
      assert k1 < k2 || k2 < k1;
      assert tv1.offsets[k1].partitionId != tv1.offsets[k2].partitionId;
    } else {
      // Two consumers: their group ids differ, and each view carries its group's id.
      assert IsEntryView(tv1.offsets[k1], resolved[j1], topic);
      assert IsEntryView(tv2.offsets[k2], resolved[j2], topic);
      assert r[j1].groupId == ConsumerIds(r)[j1] != ConsumerIds(r)[j2] == r[j2].groupId;
    }
  }

  /**
   * The result is determined by its inputs up to the order of partition
   * views: two results for the same listing, offsets and topic report the
   * same groups in the same order with the same partition views.
   */
  lemma Deterministic(r1: seq<ConsumerVO>, r2: seq<ConsumerVO>, topic: TopicVO, consumerGroups: seq<string>,
                      listConsumerGroupOffsets: OffsetLister)
    requires IsConsumersResult(r1, topic, consumerGroups, listConsumerGroupOffsets)
    requires IsConsumersResult(r2, topic, consumerGroups, listConsumerGroupOffsets)
    ensures ConsumerIds(r1) == ConsumerIds(r2)
    ensures forall j :: 0 <= j < |r1| ==>
              && |r1[j].topics| == 1 && |r2[j].topics| == 1 && r1[j].topics[0].topic == r2[j].topics[0].topic
              && (forall v :: v in r1[j].topics[0].offsets <==> v in r2[j].topics[0].offsets)
  {
    var resolved := GetConsumerOffsets(topic.name, consumerGroups, listConsumerGroupOffsets);
    assert ConsumerIds(r1) == GroupIds(resolved) == ConsumerIds(r2);
    forall j | 0 <= j < |r1|
      ensures forall v :: v in r1[j].topics[0].offsets <==> v in r2[j].topics[0].offsets
    {
      assert IsConsumerViewOf(r1[j], resolved[j], topic) && IsConsumerViewOf(r2[j], resolved[j], topic);
      SameTopicViews(r1[j].topics[0], r2[j].topics[0], resolved[j], topic);
    }
  }

  /** Two topic views of the same offsets hold the same partition views. */
  lemma SameTopicViews(tv1: ConsumerTopicVO, tv2: ConsumerTopicVO, g: ConsumerGroupOffsets, topic: TopicVO)
    requires IsTopicViewOf(tv1, g, topic) && IsTopicViewOf(tv2, g, topic)
    ensures forall v :: v in tv1.offsets <==> v in tv2.offsets
  {
    forall v | v in tv1.offsets ensures v in tv2.offsets {
      var k :| 0 <= k < |tv1.offsets| && tv1.offsets[k] == v;
      assert IsEntryView(tv1.offsets[k], g, topic);
    }
    forall v | v in tv2.offsets ensures v in tv1.offsets {
      var k :| 0 <= k < |tv2.offsets| && tv2.offsets[k] == v;
      assert IsEntryView(tv2.offsets[k], g, topic);
    }
  }

  /**
   * The topic's partition metadata never removes a group: even for a topic
   * with no partition metadata at all, every listed group that committed on
   * it is reported, and every size and first offset in the result is -1.
   */
  lemma NoMetadataStillReported(r: seq<ConsumerVO>, topic: TopicVO, consumerGroups: seq<string>,
                                listConsumerGroupOffsets: OffsetLister, groupId: string)
    requires topic.partitions == map[]
    requires groupId in consumerGroups && HasOffsetsOn(listConsumerGroupOffsets(groupId), topic.name)
    requires IsConsumersResult(r, topic, consumerGroups, listConsumerGroupOffsets)
    ensures exists j :: 0 <= j < |r| && r[j].groupId == groupId && |r[j].topics| == 1 && |r[j].topics[0].offsets| > 0
    ensures forall j :: 0 <= j < |r| ==>
              |r[j].topics| == 1 && forall v :: v in r[j].topics[0].offsets ==> v.size == Unknown && v.firstOffset == Unknown
  {
    ConsumerCount(r, topic, consumerGroups, listConsumerGroupOffsets, groupId);
    assert groupId in multiset(ConsumerIds(r));
    var j :| 0 <= j < |r| && ConsumerIds(r)[j] == groupId;
    EveryConsumerHasPartitions(r, topic, consumerGroups, listConsumerGroupOffsets);
    assert r[j] in r;
    forall k | 0 <= k < |r|
      ensures |r[k].topics| == 1 && forall v :: v in r[k].topics[0].offsets ==> v.size == Unknown && v.firstOffset == Unknown
    {
      PartitionMetadataJoined(r, topic, consumerGroups, listConsumerGroupOffsets, k);
    }
  }

  // ---------------------------------------------------------------------------
  // Two concrete scenarios
  // ---------------------------------------------------------------------------

  /** Topic "orders" with metadata for partitions 0 and 1 only. */
  function OrdersTopic(): TopicVO {
    TopicVO("orders", map[0 := TopicPartitionVO(100, 0), 1 := TopicPartitionVO(50, 10)])
  }

  /** What the admin client reports: g1 and g3 on "orders", g2 on "billing" only. */
  function ScenarioOffsets(groupId: string): OffsetMap {
    if groupId == "g1" then map[TopicPartition("orders", 0) := 80, TopicPartition("orders", 1) := 40]
    else if groupId == "g2" then map[TopicPartition("billing", 0) := 5]
    else if groupId == "g3" then map[TopicPartition("orders", 2) := 10]
    else map[]
  }

  /** Of groups g1 and g2 only g1 has committed on "orders". */
  lemma OrdersScenarioListing(r: seq<ConsumerVO>)
    requires IsConsumersResult(r, OrdersTopic(), ["g1", "g2"], ScenarioOffsets)
    ensures ConsumerIds(r) == ["g1"]
  {
    assert TopicPartition("orders", 0) in ScenarioOffsets("g1");
    assert !HasOffsetsOn(ScenarioOffsets("g2"), "orders");
    assert Surviving("orders", ["g1", "g2"], ScenarioOffsets) == ["g1"] by {
      assert ["g1", "g2"][1..] == ["g2"];
      assert Surviving("orders", ["g2"], ScenarioOffsets) == [];
    }
    ConsumersFollowListing(r, OrdersTopic(), ["g1", "g2"], ScenarioOffsets);
  }

  /** g1 is reported with both partitions joined with their metadata; g2 is not reported. */
  lemma OrdersScenario(r: seq<ConsumerVO>)
    requires IsConsumersResult(r, OrdersTopic(), ["g1", "g2"], ScenarioOffsets)
    ensures |r| == 1 && r[0].groupId == "g1" && |r[0].topics| == 1 && r[0].topics[0].topic == "orders"
    ensures |r[0].topics[0].offsets| == 2
    ensures forall v :: v in r[0].topics[0].offsets <==>
              v in [ConsumerPartitionVO("g1", "orders", 0, 80, 100, 0), ConsumerPartitionVO("g1", "orders", 1, 40, 50, 10)]
  {
    var topic, groups := OrdersTopic(), ["g1", "g2"];
    OrdersScenarioListing(r);
    assert |r| == 1 && r[0].groupId == "g1";
    EveryConsumerHasPartitions(r, topic, groups, ScenarioOffsets);
    assert r[0] in r;
    var committed := ScenarioOffsets("g1");
    var p0, p1 := TopicPartition("orders", 0), TopicPartition("orders", 1);
    assert committed == map[p0 := 80, p1 := 40];
    var resolved := GetConsumerOffsets("orders", groups, ScenarioOffsets);
    assert IsConsumerViewOf(r[0], resolved[0], topic);
    assert |resolved[0].offsets| == 2 by {
      assert resolved[0].offsets.Keys == {p0, p1};
    }
    CommittedOffsetHasView(r, topic, groups, ScenarioOffsets, 0, p0);
    CommittedOffsetHasView(r, topic, groups, ScenarioOffsets, 0, p1);
    forall v | v in r[0].topics[0].offsets
      ensures v == ConsumerPartitionVO("g1", "orders", 0, 80, 100, 0) || v == ConsumerPartitionVO("g1", "orders", 1, 40, 50, 10)
    {
      ViewIsOfCommittedOffset(r, topic, groups, ScenarioOffsets, 0, v);
      assert TopicPartition("orders", v.partitionId) in committed;
    }
  }

  /** g3 committed on partition 2, which the topic has no metadata for: both figures are -1. */
  lemma StalePartitionScenario(r: seq<ConsumerVO>)
    requires IsConsumersResult(r, OrdersTopic(), ["g3"], ScenarioOffsets)
    ensures r == [ConsumerVO("g3", [ConsumerTopicVO("orders", [ConsumerPartitionVO("g3", "orders", 2, 10, Unknown, Unknown)])])]
  {
    var topic, groups := OrdersTopic(), ["g3"];
    assert TopicPartition("orders", 2) in ScenarioOffsets("g3");
    assert Surviving("orders", groups, ScenarioOffsets) == ["g3"];
    ConsumersFollowListing(r, topic, groups, ScenarioOffsets);
    assert ConsumerIds(r) == ["g3"];
    var resolved := GetConsumerOffsets("orders", groups, ScenarioOffsets);
    assert IsConsumerViewOf(r[0], resolved[0], topic);
    assert |resolved[0].offsets| == 1 by {
      assert resolved[0].offsets.Keys == {TopicPartition("orders", 2)};
    }
    var tv := r[0].topics[0];
    ViewIsOfCommittedOffset(r, topic, groups, ScenarioOffsets, 0, tv.offsets[0]);
    assert TopicPartition("orders", tv.offsets[0].partitionId) in ScenarioOffsets("g3");
    assert tv.offsets == [ConsumerPartitionVO("g3", "orders", 2, 10, Unknown, Unknown)];
    assert r[0].topics == [tv];
    assert r == [r[0]];
  }
}
