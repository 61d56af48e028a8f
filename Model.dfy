/**
 * The value types that the consumer monitor reads and builds: Kafka's
 * (topic, partition) key, the topic metadata handed in by the caller, and the
 * three levels of consumer views (group -> topic -> partition).
 *
 * The view classes of the system are mutable beans whose fields are set one by
 * one; here each is a plain datatype value, `addTopic` and `addOffset` are
 * appends to the sequence of children, and `getPartition` is a partial map
 * lookup that returns an Option.
 */
module Model {

  datatype Option<+T> = None | Some(value: T)

  /** Kafka's key of a committed offset: a topic name and a partition number. */
  datatype TopicPartition = TopicPartition(topic: string, partition: int)

  /** Metadata of one partition: high-water mark and earliest retained offset. */
  datatype TopicPartitionVO = TopicPartitionVO(size: int, firstOffset: int)

  /** A topic as the caller knows it: its name and the partitions it has metadata for. */
  datatype TopicVO = TopicVO(name: string, partitions: map<int, TopicPartitionVO>) {

    /** Metadata of partition `partition`, or None when the topic has none for it. */
    function GetPartition(partition: int): (r: Option<TopicPartitionVO>)
      ensures r.Some? <==> partition in partitions
      ensures r.Some? ==> r.value == partitions[partition]
    {
      if partition in partitions then Some(partitions[partition]) else None
    }
  }

  /** What one group has committed on one partition, joined with that partition's metadata. */
  datatype ConsumerPartitionVO = ConsumerPartitionVO(
    groupId: string,
    topic: string,
    partitionId: int,
    offset: int,
    size: int,
    firstOffset: int)

  /** One topic a group consumes, with one partition view per committed partition. */
  datatype ConsumerTopicVO = ConsumerTopicVO(topic: string, offsets: seq<ConsumerPartitionVO>)

  /** One consumer group and the topics it consumes. */
  datatype ConsumerVO = ConsumerVO(groupId: string, topics: seq<ConsumerTopicVO>)
}
