/**
 * The view the query service has of one running Kafka Streams instance
 * (`KafkaStreams`): the three calls it makes on it, each taken as an
 * uninterpreted total function, and the value types those calls return.
 */
module Engines {
  import opened Wrappers

  /** A key after the caller's `Serializer` has turned it into bytes. */
  type Bytes = seq<bv8>

  /** Kafka's `HostInfo`: an advertised host and port. */
  datatype HostInfo = HostInfo(host: string, port: int)

  /** Kafka's `StreamsMetadata`, reduced to the part the query service reads. */
  datatype StreamsMetadata = StreamsMetadata(hostInfo: HostInfo)

  /** A `QueryableStoreType`: which kind of store (key-value, window, ...) the caller asks for. */
  datatype StoreKind = StoreKind(name: string)

  /** A queryable store handle returned by an engine; its contents are not modelled. */
  datatype StoreHandle = StoreHandle(id: nat)

  /** Kafka's `InvalidStateStoreException`: the store is not (yet) queryable on this engine. */
  datatype InvalidStateStore = InvalidStateStore(message: string)

  /** What one `KafkaStreams.store(name, type)` call does: return a handle, return null, or throw. */
  datatype StoreOutcome =
    | Found(handle: StoreHandle)
    | Absent
    | NotAvailable(cause: InvalidStateStore)

  /**
   * One registered engine. `store`, `metadataForKey` and `allMetadataForStore`
   * stand for the engine's answers at the moment it is asked; `None` in the
   * metadata answers is a Java `null`.
   */
  datatype Engine = Engine(
    store: (string, StoreKind) -> StoreOutcome,
    metadataForKey: (string, Bytes) -> Option<StreamsMetadata>,
    allMetadataForStore: string -> seq<Option<StreamsMetadata>>)
}
