/** The records stored in the event streams: event messages with their metadata,
    and the `EventState` wrapper the engine persists them in. */
module Messages {
  import opened Errors

  /** An opaque polymorphic payload: its type discriminator and its serialized content. */
  datatype Polymorphic = Polymorphic(typeName: string, content: string)

  /** The aggregate a message belongs to. */
  datatype DomainMetadata = DomainMetadata(name: string, id: string)

  /** Message metadata; the engine only reads the domain. */
  datatype MessageMetadata = MessageMetadata(id: string, name: string, domain: DomainMetadata)

  /** Context metadata; the engine reads the partition and the optional sequence number. */
  datatype ContextMetadata = ContextMetadata(partitionId: string, sequenceNumber: Option<int>)

  datatype Metadata = Metadata(message: MessageMetadata, context: ContextMetadata)

  /** An event and its metadata, as appended and read by callers. */
  datatype EventMessage = EventMessage(event: Polymorphic, metadata: Metadata)

  /** The stored form of a message: an identity wrapper around it. */
  datatype EventState = EventState(value: EventMessage)

  /** The sequence number the caller expects the message to occupy, if any. */
  function SequenceNumber(m: EventMessage): Option<int>
  {
    m.metadata.context.sequenceNumber
  }
}
