/** The part of a CloudEvent the harness looks at: its identifier and its
    extension attributes (the partition key travels as the extension
    `partitionkey`). Serialisation and the remaining attributes belong to the
    CloudEvents library and are not modelled. */
module Events {

  datatype Event = Event(id: string, extensions: map<string, string>)

  const PartitionKeyExtension := "partitionkey"
}
