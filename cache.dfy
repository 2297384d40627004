/** The cache store: a hash per flow (`flow:<id>`) with an expiry deadline, the
    `active_flows` set of flow ids, and the `global_stats` hash of counters. */
module Cache {
  import opened Wrappers
  import opened FlowTypes

  /** Redis integers are signed 64-bit: HINCRBY refuses an increment or a
      result outside this range. */
  const INT64_MIN: int := -0x8000_0000_0000_0000
  const INT64_MAX: int := 0x7FFF_FFFF_FFFF_FFFF

  predicate InInt64(v: int) {
    INT64_MIN <= v <= INT64_MAX
  }

  /** The fields the collector writes into a flow's hash. */
  datatype FlowHash = FlowHash(
    srcIp: string,
    dstIp: string,
    protocol: int,
    srcPort: int,
    dstPort: int,
    packetCount: int,
    byteCount: int,
    lastSeen: int)

  /** A flow's hash and the time it expires (None: no expiry set). Eviction
      when the deadline passes is not modelled. */
  datatype CachedFlow = CachedFlow(hash: FlowHash, expiresAt: Option<int>)

  /** The `global_stats` hash; a field is None until something writes it. */
  datatype GlobalStats = GlobalStats(totalPackets: Option<int>, totalBytes: Option<int>, lastUpdate: Option<int>)

  /** The two counters HINCRBY is applied to. */
  datatype Counter = TotalPackets | TotalBytes

  datatype CacheState = CacheState(flows: map<FlowId, CachedFlow>, activeFlows: set<FlowId>, globalStats: GlobalStats)

  /** An empty cache. */
  const EMPTY_CACHE := CacheState(map[], {}, GlobalStats(None, None, None))

  /** `HSET flow:<key> ...`: replaces the hash's fields; an existing expiry
      stays, a new hash has none. */
  function WithFlowHash(c: CacheState, key: FlowId, h: FlowHash): CacheState {
    var expiry := if key in c.flows then c.flows[key].expiresAt else None;
    c.(flows := c.flows[key := CachedFlow(h, expiry)])
  }

  /** `EXPIRE flow:<key> ...`: sets the deadline of an existing hash; a missing
      key is left missing. */
  function WithExpiry(c: CacheState, key: FlowId, deadline: int): CacheState {
    if key in c.flows then c.(flows := c.flows[key := c.flows[key].(expiresAt := Some(deadline))]) else c
  }

  /** `SADD active_flows key`. */
  function WithMember(c: CacheState, key: FlowId): CacheState {
    c.(activeFlows := c.activeFlows + {key})
  }

  /** `HINCRBY global_stats <counter> amount`: an absent field counts as 0; None
      when Redis answers with an error (a value outside 64 bits). */
  function WithIncrement(c: CacheState, counter: Counter, amount: int): Option<CacheState> {
    var current := if counter == TotalPackets then c.globalStats.totalPackets else c.globalStats.totalBytes;
    var total := current.GetOr(0) + amount;
    if !InInt64(amount) || !InInt64(current.GetOr(0)) || !InInt64(total) then None
    else if counter == TotalPackets then Some(c.(globalStats := c.globalStats.(totalPackets := Some(total))))
    else Some(c.(globalStats := c.globalStats.(totalBytes := Some(total))))
  }

  /** `HSET global_stats last_update t`. */
  function WithLastUpdate(c: CacheState, t: int): CacheState {
    c.(globalStats := c.globalStats.(lastUpdate := Some(t)))
  }

  /** A counter's value as readers see it: 0 while the field is absent. */
  function CounterValue(c: CacheState, counter: Counter): int {
    if counter == TotalPackets then c.globalStats.totalPackets.GetOr(0) else c.globalStats.totalBytes.GetOr(0)
  }

  /** HINCRBY adds exactly `amount` to the counter and changes nothing else, or
      fails and changes nothing at all. */
  lemma IncrementAddsExactly(c: CacheState, counter: Counter, amount: int)
    ensures WithIncrement(c, counter, amount).Some? ==>
      && CounterValue(WithIncrement(c, counter, amount).value, counter) == CounterValue(c, counter) + amount
      && WithIncrement(c, counter, amount).value.flows == c.flows
      && WithIncrement(c, counter, amount).value.activeFlows == c.activeFlows
      && WithIncrement(c, counter, amount).value.globalStats.lastUpdate == c.globalStats.lastUpdate
    ensures InInt64(amount) && InInt64(CounterValue(c, counter)) && InInt64(CounterValue(c, counter) + amount)
      <==> WithIncrement(c, counter, amount).Some?
  {
  }

  /** The cache store, updated in place one Redis command at a time. */
  class CacheStore {
    var flows: map<FlowId, CachedFlow>
    var activeFlows: set<FlowId>
    var globalStats: GlobalStats

    function Snapshot(): CacheState
      reads this
    {
      CacheState(flows, activeFlows, globalStats)
    }

    constructor (initial: CacheState)
      ensures Snapshot() == initial
    {
      flows := initial.flows;
      activeFlows := initial.activeFlows;
      globalStats := initial.globalStats;
    }

    method HSet(key: FlowId, h: FlowHash)
      modifies this
      ensures Snapshot() == WithFlowHash(old(Snapshot()), key, h)
    {
      var expiry := if key in flows then flows[key].expiresAt else None;
      flows := flows[key := CachedFlow(h, expiry)];
    }

    method Expire(key: FlowId, deadline: int)
      modifies this
      ensures Snapshot() == WithExpiry(old(Snapshot()), key, deadline)
    {
      if key in flows {
        flows := flows[key := flows[key].(expiresAt := Some(deadline))];
      }
    }

    method SAdd(key: FlowId)
      modifies this
      ensures Snapshot() == WithMember(old(Snapshot()), key)
    {
      activeFlows := activeFlows + {key};
    }

    /** Returns false, changing nothing, when Redis answers with an error. */
    method HIncrBy(counter: Counter, amount: int) returns (ok: bool)
      modifies this
      ensures ok == WithIncrement(old(Snapshot()), counter, amount).Some?
      ensures Snapshot() == (if ok then WithIncrement(old(Snapshot()), counter, amount).value else old(Snapshot()))
    {
      var current := if counter == TotalPackets then globalStats.totalPackets else globalStats.totalBytes;
      var total := current.GetOr(0) + amount;
      ok := InInt64(amount) && InInt64(current.GetOr(0)) && InInt64(total);
      if ok {
        if counter == TotalPackets {
          globalStats := globalStats.(totalPackets := Some(total));
        } else {
          globalStats := globalStats.(totalBytes := Some(total));
        }
      }
    }

    method HSetLastUpdate(t: int)
      modifies this
      ensures Snapshot() == WithLastUpdate(old(Snapshot()), t)
    {
      globalStats := globalStats.(lastUpdate := Some(t));
    }
  }
}
