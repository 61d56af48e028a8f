# Consumer-group positions on one topic (kafdrop `KafkaConsumerMonitor`)

This project models, in Dafny, the service that the Kafdrop web UI uses to
show which consumer groups read a topic and how far each one has got. Given
a topic, the service

1. lists every consumer group the cluster knows,
2. fetches each group's committed offsets, keyed by (topic, partition),
3. keeps only the entries on the requested topic and drops the groups left
   with none,
4. builds, for each remaining group, one consumer view holding exactly one
   topic view. The topic view holds one partition view per committed
   partition. Each partition view carries the committed offset unchanged,
   plus the partition's size (high-water mark) and first offset taken from
   the topic's metadata. When the topic has no metadata for that partition,
   both figures are -1.

Files:

- `Model.dfy` (module `Model`): the value types. These are Kafka's
  `TopicPartition` key, the topic metadata `TopicVO` / `TopicPartitionVO`
  with its partial `GetPartition` lookup, and the three view levels
  `ConsumerVO`, `ConsumerTopicVO` and `ConsumerPartitionVO`.
- `KafkaConsumerMonitor.dfy` (module `KafkaConsumerMonitor`): the service
  itself.
  - Offset resolution is written as functions: the immutable
    `ConsumerGroupOffsets` value with `IsEmpty` and `ForTopic`, then
    `ResolveOffsets` and `GetConsumerOffsets`.
  - View assembly is written as methods with loops. `GetConsumers` is
    proved against the predicate `IsConsumersResult`, and its inner loop
    `AssembleTopicView` against `IsTopicViewOf`, the topic-view part of it.
  - The lemmas prove what the service promises about that result.

The two admin-client calls are inputs to the model:

- `consumerGroups: seq<string>` is the group listing, in the order it is
  iterated.
- `listConsumerGroupOffsets: string -> map<TopicPartition, int>` gives each
  group's committed offsets.

The listing is a sequence, not a set, so the model also covers a listing
that repeats a group id. The code does not deduplicate such ids, and
`ConsumerCount` proves that a repeated id is reported once per listing.

The Java code walks each group's offset map in `HashMap` order, which is
unspecified. `AssembleTopicView` therefore picks the next entry with `:|`
(any remaining entry). So the contract fixes which partition views a
topic view contains and how many, but not their order.

Two consequences of the code that a reader might not expect:

- The topic's partition metadata never decides which groups are reported.
  A group that committed on the topic name is reported even when the
  metadata has no partitions, with -1 for every size and first offset
  (`NoMetadataStillReported`).
- (group, topic, partition) triples are unique within one result when the
  listing has no repeated id (`TriplesUniqueForDistinctListing`). A repeated
  id that has committed on the topic repeats its triples, because the code
  passes repeats through (`ConsumerCount`).

## Model

| member | source | states |
|---|---|---|
| `Model.TopicVO.GetPartition` | src/main/java/kafdrop/service/KafkaConsumerMonitor.java:42 | The partition lookup yields a value exactly when the topic has metadata for that partition, and then it yields that metadata. |
| `KafkaConsumerMonitor.ConsumerGroupOffsets.IsEmpty` | src/main/java/kafdrop/service/KafkaConsumerMonitor.java:60-62 | A group's offsets are empty exactly when its map has no entry. |
| `KafkaConsumerMonitor.ConsumerGroupOffsets.ForTopic` | src/main/java/kafdrop/service/KafkaConsumerMonitor.java:64-69 | The narrowed copy keeps the group id. It holds an entry exactly when the original holds it and the entry's topic equals the requested one, so nothing off-topic survives and nothing on-topic is lost. Kept values are unchanged. |
| `KafkaConsumerMonitor.ResolveOffsets` | src/main/java/kafdrop/service/KafkaConsumerMonitor.java:77-79 | The resolved value carries the requested group id and exactly the offsets the admin client reports for it. |
| `KafkaConsumerMonitor.GetConsumerOffsets` | src/main/java/kafdrop/service/KafkaConsumerMonitor.java:81-88 | Each element comes from a listed group. It is that group's resolved offsets narrowed to the topic, it is non-empty, and all its entries are on the topic. There are no more elements than listed groups. |
| `KafkaConsumerMonitor.ForTopicNonEmpty` | src/main/java/kafdrop/service/KafkaConsumerMonitor.java:64-67 | Narrowing leaves a non-empty map exactly when the group has at least one committed offset on the topic. |
| `KafkaConsumerMonitor.GroupIdsFollowListing` | src/main/java/kafdrop/service/KafkaConsumerMonitor.java:81-88 | The group ids of the resolved list equal the reference filter `Surviving`: the listed ids that have an offset on the topic, in listing order. |
| `KafkaConsumerMonitor.SurvivingCount` | src/main/java/kafdrop/service/KafkaConsumerMonitor.java:83-87 | An id with an offset on the topic survives as many times as it is listed. Any other id survives zero times. |
| `KafkaConsumerMonitor.SurvivingDistinct` | src/main/java/kafdrop/service/KafkaConsumerMonitor.java:83-87 | A listing without repeated ids gives surviving ids without repeats. |
| `KafkaConsumerMonitor.PartitionViewOf` | src/main/java/kafdrop/service/KafkaConsumerMonitor.java:39-44 | A partition view carries the group id, the topic name, the partition number and the committed offset. Size and first offset are the partition's metadata when the topic has it, and -1 otherwise. |
| `KafkaConsumerMonitor.EnumerationIsTopicView` | src/main/java/kafdrop/service/KafkaConsumerMonitor.java:36-45 | Listing the views of every entry of on-topic offsets exactly once, in any order, yields a valid topic view of those offsets. |
| `KafkaConsumerMonitor.AssembleTopicView` | src/main/java/kafdrop/service/KafkaConsumerMonitor.java:34-45 | The built topic view is named after the topic and has one view per entry. Every view is the view of an entry, every entry has its view, and partition numbers are distinct. This holds whatever order the entries are visited in. |
| `KafkaConsumerMonitor.GetConsumers` | src/main/java/kafdrop/service/KafkaConsumerMonitor.java:27-48 | The result has one consumer view per resolved group, in order. Each view carries that group's id and exactly one such topic view. |
| `KafkaConsumerMonitor.EveryConsumerHasPartitions` | src/main/java/kafdrop/service/KafkaConsumerMonitor.java:31-41 | Every reported consumer has exactly one topic view. That view is named after the requested topic and holds at least one partition view, so a group with no offsets on the topic never appears. |
| `KafkaConsumerMonitor.ConsumersFollowListing` | src/main/java/kafdrop/service/KafkaConsumerMonitor.java:81-88 | The ids of the reported consumers are exactly the listed ids that have an offset on the topic, in listing order. |
| `KafkaConsumerMonitor.ConsumerCount` | src/main/java/kafdrop/service/KafkaConsumerMonitor.java:83-87 | A group with an offset on the topic is reported once per time it is listed, with no deduplication. A group without one is never reported. |
| `KafkaConsumerMonitor.NoCommitsNoConsumers` | src/main/java/kafdrop/service/KafkaConsumerMonitor.java:81-88 | If no listed group has an offset on the topic, the result is empty. |
| `KafkaConsumerMonitor.PartitionViewsAreCommittedOffsets` | src/main/java/kafdrop/service/KafkaConsumerMonitor.java:36-41 | Each partition view of a consumer names that group, the topic and a partition the group has committed on. Its offset equals that committed offset. |
| `KafkaConsumerMonitor.CommittedOffsetsHaveViews` | src/main/java/kafdrop/service/KafkaConsumerMonitor.java:36-41 | Each offset a reported group has committed on the topic appears as a partition view with that partition and that offset. |
| `KafkaConsumerMonitor.ViewIsOfCommittedOffset` | src/main/java/kafdrop/service/KafkaConsumerMonitor.java:36-44 | A reported partition view is exactly the view of one committed (topic, partition) entry of its group. |
| `KafkaConsumerMonitor.CommittedOffsetHasView` | src/main/java/kafdrop/service/KafkaConsumerMonitor.java:36-44 | For a reported group, the view of any committed entry on the topic is contained in its topic view. |
| `KafkaConsumerMonitor.PartitionIdsDistinct` | src/main/java/kafdrop/service/KafkaConsumerMonitor.java:36-39 | Within one topic view no partition number occurs twice. |
| `KafkaConsumerMonitor.PartitionMetadataJoined` | src/main/java/kafdrop/service/KafkaConsumerMonitor.java:42-44 | A partition view whose partition has metadata carries that size and first offset. Otherwise both are -1. |
| `KafkaConsumerMonitor.TriplesUniqueForDistinctListing` | src/main/java/kafdrop/service/KafkaConsumerMonitor.java:31-40 | When the listing has no repeated id, no two partition views in one result share a (group, topic, partition) triple. |
| `KafkaConsumerMonitor.TripleDiffers` | src/main/java/kafdrop/service/KafkaConsumerMonitor.java:31-40 | Two distinct positions in a result whose consumer ids are distinct hold views with different triples. |
| `KafkaConsumerMonitor.Deterministic` | src/main/java/kafdrop/service/KafkaConsumerMonitor.java:27-48 | Any two results for the same listing, offsets and topic report the same group ids in the same order. Each consumer has the same single topic with the same set of partition views. |
| `KafkaConsumerMonitor.SameTopicViews` | src/main/java/kafdrop/service/KafkaConsumerMonitor.java:36-45 | Two topic views of the same narrowed offsets contain the same partition views. |
| `KafkaConsumerMonitor.NoMetadataStillReported` | src/main/java/kafdrop/service/KafkaConsumerMonitor.java:42-44 | For any listing, when the topic has no partition metadata, every listed group that committed on the topic is still reported with at least one partition view, and every size and first offset in the result is -1. |
| `KafkaConsumerMonitor.OrdersScenarioListing` | src/main/java/kafdrop/service/KafkaConsumerMonitor.java:81-88 | Scenario: of g1 (on "orders") and g2 (only on "billing"), only g1 is reported for "orders". |
| `KafkaConsumerMonitor.OrdersScenario` | src/main/java/kafdrop/service/KafkaConsumerMonitor.java:27-48 | Scenario: for "orders" the result is one consumer, g1. Its topic view holds exactly two partition views, (0, offset 80, size 100, first 0) and (1, offset 40, size 50, first 10). |
| `KafkaConsumerMonitor.StalePartitionScenario` | src/main/java/kafdrop/service/KafkaConsumerMonitor.java:42-44 | Scenario: g3 committed offset 10 on partition 2, which "orders" has no metadata for. The whole result is the single view (2, offset 10, size -1, first -1). |

## Left out

- The admin-client calls `listConsumerGroups` and `listConsumerGroupOffsets` are network I/O through a client whose source is not part of this model. Their results are inputs, and their failures and exception propagation are not modelled.
- The admin client is assumed to answer the same group id the same way within one `getConsumers` call. `listConsumerGroupOffsets` is a function of the group id, so `ConsumerCount` and `Deterministic` rely on a repeated id getting the same map both times.
- Logging (`LOG.debug`) and `ConsumerGroupOffsets.toString` are diagnostics only.
- The Spring wiring is not modelled: the `@Service` annotation and the constructor injection of the admin client.
- `OffsetAndMetadata` is reduced to its `offset()` value. The metadata string and leader epoch are unused here.
- A `null` committed offset is not modelled. In Java it would make `Collectors.toMap` or `offset()` throw. Here offsets are plain integers.
- Offsets, sizes and partition numbers are unbounded integers. The code only copies them and never does arithmetic on them, so the 64-bit width of Java's `long` plays no role.
- The internals of `ConsumerVO`, `ConsumerTopicVO`, `ConsumerPartitionVO`, `TopicVO` and `TopicPartitionVO` are not part of this model. They are plain datatypes: `addTopic` and `addOffset` are appends, and `getPartition` is a map lookup.
- Update in place and aliasing: the Java code appends each view object to its parent before setting its fields. The model builds each view value complete and then appends it. The final result is the same, but the intermediate states of the objects are not modelled.
- GetConsumers: the order of partition views inside a topic view is not fixed, because it is whatever order the Java `HashMap` entry set yields. The contract states the views as a set with no repeated partition, plus their count.
- The lag (size minus committed offset) is not computed by this code, so it is not modelled.
