/** The values the collection engine passes around: the flow digest it is
    given, the flow-metadata row it keeps in the record store, and the entry of
    its process-local tracker. */
module FlowTypes {
  import opened Wrappers

  /** A flow id as both stores see it: the text `str(flow_id)`. */
  type FlowId = string

  /** A tracker key: `digest.get('flow_id')`, which is None when the digest
      has no flow id. */
  type TrackerKey = Option<FlowId>

  /** Seconds a tracker entry may stay idle before the sweep drops it. */
  const FLOW_TIMEOUT: int := 300
  /** Seconds the cache keeps a per-flow hash after its last refresh. */
  const CACHE_TTL: int := 300
  /** Switch id written into every inserted row. */
  const DEFAULT_SWITCH: string := "switch-1"
  const ACTIVE: string := "active"
  const INACTIVE: string := "inactive"
  /** Digest timestamps are in microseconds since the epoch. */
  const MICROS_PER_SECOND: int := 1_000_000

  /** One flow digest. A field is None when the digest dict lacks that key;
      `flow_duration` and `packet_size` are never read by the engine. */
  datatype Digest = Digest(
    flowId: Option<FlowId>,
    srcIp: Option<int>,
    dstIp: Option<int>,
    protocol: Option<int>,
    srcPort: Option<int>,
    dstPort: Option<int>,
    packetCount: Option<int>,
    byteCount: Option<int>,
    timestamp: Option<int>)

  /** The tracker key a digest is filed under. */
  function TrackerKeyOf(d: Digest): TrackerKey {
    d.flowId
  }

  /** The store key of a tracker key: `str(flow_id)`, where `str(None)` is "None". */
  function StoreKey(k: TrackerKey): FlowId {
    match k
    case Some(id) => id
    case None => "None"
  }

  /** A row of the `monitoring.flow_metadata` table (the `id` primary key is
      not modelled). Times are integer seconds, except the start time, which
      is the digest's microsecond timestamp divided exactly by 10^6. */
  datatype FlowRow = FlowRow(
    flowId: FlowId,
    switchId: string,
    srcIp: string,
    dstIp: string,
    srcPort: int,
    dstPort: int,
    protocol: int,
    flowStartTime: real,
    flowEndTime: Option<int>,
    status: string,
    createdAt: int,
    updatedAt: int)

  /** A tracker entry: when the flow was last seen, and the digest itself. */
  datatype TrackerEntry = TrackerEntry(lastSeen: int, data: Digest)

  /** How the record store behaves during one call:
      Up      — every statement and the commit succeed;
      Failing — some statement raises and the rollback succeeds (or there is
                no connection at all, so no rollback is attempted);
      Lost    — the connection is closed: the statement raises, and so does
                the rollback in the exception handler. */
  datatype DbStatus = Up | Failing | Lost
}
