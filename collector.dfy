/** `FlowDataCollector`: the write side of the engine. A digest refreshes the
    process-local tracker, upserts the flow's row in the record store and
    updates the cache; a periodic sweep drops idle tracker entries and marks
    their rows inactive. */
module Collector {
  import opened Wrappers
  import opened FlowTypes
  import opened IpAddress
  import opened Records
  import opened Cache

  // ---------------------------------------------------------------------------
  // store_flow_metadata

  /** The row the INSERT writes for a digest, or None when the digest lacks a
      key the INSERT reads (the KeyError rolls the transaction back). */
  function NewRow(d: Digest, now: int): Option<FlowRow> {
    if d.flowId.None? || d.srcIp.None? || d.dstIp.None? || d.protocol.None? || d.timestamp.None? then None
    else Some(FlowRow(
      flowId := d.flowId.value,
      switchId := DEFAULT_SWITCH,
      srcIp := IntToIp(d.srcIp.value),
      dstIp := IntToIp(d.dstIp.value),
      srcPort := d.srcPort.GetOr(0),
      dstPort := d.dstPort.GetOr(0),
      protocol := d.protocol.value,
      flowStartTime := d.timestamp.value as real / MICROS_PER_SECOND as real,
      flowEndTime := None,
      status := ACTIVE,
      createdAt := now,
      updatedAt := now))
  }

  /** The record store after `store_flow_metadata`: the transaction either
      commits (insert when no row has the flow id, otherwise refresh
      `updated_at`) or is rolled back. */
  function StoredRows(rows: seq<FlowRow>, d: Digest, now: int, db: DbStatus): seq<FlowRow> {
    if db != Up || d.flowId.None? then rows
    else if HasFlow(rows, d.flowId.value) then TouchRows(rows, d.flowId.value, now)
    else match NewRow(d, now)
      case Some(row) => rows + [row]
      case None => rows
  }

  // ---------------------------------------------------------------------------
  // update_redis_cache

  /** What `update_redis_cache` reads from the digest before its first write. */
  datatype CacheWrite = CacheWrite(key: FlowId, hash: FlowHash, packets: int, bytes: int)

  /** None when a key the cache update reads is missing: the KeyError comes
      before any command is sent. */
  function CacheWriteOf(d: Digest, now: int): Option<CacheWrite> {
    if d.flowId.None? || d.srcIp.None? || d.dstIp.None? || d.protocol.None?
       || d.packetCount.None? || d.byteCount.None? then None
    else Some(CacheWrite(
      d.flowId.value,
      FlowHash(IntToIp(d.srcIp.value), IntToIp(d.dstIp.value), d.protocol.value,
               d.srcPort.GetOr(0), d.dstPort.GetOr(0), d.packetCount.value, d.byteCount.value, now),
      d.packetCount.value,
      d.byteCount.value))
  }

  /** One Redis command of the cache update. */
  datatype Command =
    | HSetFlow(key: FlowId, hash: FlowHash)
    | ExpireFlow(key: FlowId, deadline: int)
    | AddActive(key: FlowId)
    | Increment(counter: Counter, amount: int)
    | SetLastUpdate(t: int)

  /** The six commands the cache update sends, in order. */
  function CommandsFor(w: CacheWrite, now: int): seq<Command> {
    [HSetFlow(w.key, w.hash), ExpireFlow(w.key, now + CACHE_TTL), AddActive(w.key),
     Increment(TotalPackets, w.packets), Increment(TotalBytes, w.bytes), SetLastUpdate(now)]
  }

  /** The cache after one command, or None when Redis answers with an error. */
  function Apply(c: CacheState, cmd: Command): Option<CacheState> {
    match cmd
    case HSetFlow(key, h) => Some(WithFlowHash(c, key, h))
    case ExpireFlow(key, deadline) => Some(WithExpiry(c, key, deadline))
    case AddActive(key) => Some(WithMember(c, key))
    case Increment(counter, amount) => WithIncrement(c, counter, amount)
    case SetLastUpdate(t) => Some(WithLastUpdate(c, t))
  }

  /** Commands run one after another. The connection answers `answered`
      commands and then fails; the first failure, of either kind, raises and
      ends the update. Redis has no rollback, so what already ran stays. */
  function RunCommands(c: CacheState, cmds: seq<Command>, answered: nat): CacheState
    decreases |cmds|
  {
    if cmds == [] || answered == 0 then c
    else match Apply(c, cmds[0])
      case None => c
      case Some(next) => RunCommands(next, cmds[1..], answered - 1)
  }

  /** Running commands is running the first, then the rest. */
  lemma RunFirstCommand(c: CacheState, cmds: seq<Command>, answered: nat)
    requires cmds != [] && answered > 0
    ensures RunCommands(c, cmds, answered) ==
      match Apply(c, cmds[0])
      case None => c
      case Some(next) => RunCommands(next, cmds[1..], answered - 1)
  {
  }

  /** The cache after `update_redis_cache`. */
  function CacheAfterDigest(c: CacheState, d: Digest, now: int, answered: nat): CacheState {
    match CacheWriteOf(d, now)
    case None => c
    case Some(w) => RunCommands(c, CommandsFor(w, now), answered)
  }

  // ---------------------------------------------------------------------------
  // process_flow_digest and cleanup_expired_flows on the whole state

  /** The tracker, the record store and the cache together. */
  datatype SystemState = SystemState(tracker: map<TrackerKey, TrackerEntry>, rows: seq<FlowRow>, cache: CacheState)

  /** `process_flow_digest`: the tracker entry always; the row unless the
      transaction fails; the cache unless the failed rollback raised out of
      `store_flow_metadata`, which skips the cache update. */
  function Ingest(s: SystemState, d: Digest, now: int, db: DbStatus, answered: nat): SystemState {
    SystemState(
      s.tracker[TrackerKeyOf(d) := TrackerEntry(now, d)],
      StoredRows(s.rows, d, now, db),
      if db == Lost then s.cache else CacheAfterDigest(s.cache, d, now, answered))
  }

  /** An entry idle for strictly more than the timeout. */
  predicate Expired(e: TrackerEntry, now: int) {
    now - e.lastSeen > FLOW_TIMEOUT
  }

  function ExpiredKeys(t: map<TrackerKey, TrackerEntry>, now: int): set<TrackerKey> {
    set k | k in t && Expired(t[k], now)
  }

  function LiveEntries(t: map<TrackerKey, TrackerEntry>, now: int): map<TrackerKey, TrackerEntry> {
    map k | k in t && !Expired(t[k], now) :: t[k]
  }

  function StoreKeys(ks: set<TrackerKey>): set<FlowId> {
    set k | k in ks :: StoreKey(k)
  }

  /** `cleanup_expired_flows`: expired entries leave the tracker; the rows of
      their flow ids are marked inactive, except where the UPDATE fails
      (`failing`); the cache is not touched. */
  function Sweep(s: SystemState, now: int, failing: set<FlowId>): SystemState {
    SystemState(
      LiveEntries(s.tracker, now),
      MarkInactive(s.rows, StoreKeys(ExpiredKeys(s.tracker, now)) - failing, now),
      s.cache)
  }

  /** Calls into the collector, in the order they happen. */
  datatype Event =
    | DigestArrived(d: Digest, now: int, db: DbStatus, answered: nat)
    | SweepRan(now: int, failing: set<FlowId>)

  function Step(s: SystemState, e: Event): SystemState {
    match e
    case DigestArrived(d, now, db, answered) => Ingest(s, d, now, db, answered)
    case SweepRan(now, failing) => Sweep(s, now, failing)
  }

  function Replay(s: SystemState, events: seq<Event>): SystemState
    decreases |events|
  {
    if events == [] then s else Replay(Step(s, events[0]), events[1..])
  }

  // ---------------------------------------------------------------------------
  // Properties of store_flow_metadata

  /** The three outcomes of `store_flow_metadata`: a failed transaction or a
      digest without flow id leaves the store exactly as it was; a known flow
      id only gets its `updated_at` refreshed, so its status (active or not)
      stays; an unknown one gets a single new active row on switch-1, ports
      defaulting to 0, started at timestamp / 10^6 seconds. */
  lemma StoredRowsCases(rows: seq<FlowRow>, d: Digest, now: int, db: DbStatus)
    ensures db != Up || d.flowId.None? ==> StoredRows(rows, d, now, db) == rows
    ensures db == Up && d.flowId.Some? && HasFlow(rows, d.flowId.value) ==>
      && |StoredRows(rows, d, now, db)| == |rows|
      && forall i :: 0 <= i < |rows| ==>
           StoredRows(rows, d, now, db)[i].(updatedAt := rows[i].updatedAt) == rows[i]
           && StoredRows(rows, d, now, db)[i].status == rows[i].status
    ensures db == Up && d.flowId.Some? && !HasFlow(rows, d.flowId.value) && NewRow(d, now).None? ==>
      StoredRows(rows, d, now, db) == rows
    ensures db == Up && d.flowId.Some? && !HasFlow(rows, d.flowId.value) && NewRow(d, now).Some? ==>
      var row := NewRow(d, now).value;
      && StoredRows(rows, d, now, db) == rows + [row]
      && row.flowId == d.flowId.value && row.switchId == DEFAULT_SWITCH && row.status == ACTIVE
      && row.srcPort == d.srcPort.GetOr(0) && row.dstPort == d.dstPort.GetOr(0)
      && row.flowStartTime * MICROS_PER_SECOND as real == d.timestamp.value as real
      && row.flowEndTime.None?
  {
    if db == Up && d.flowId.Some? && HasFlow(rows, d.flowId.value) {
      TouchRowsChangesOnlyUpdatedAt(rows, d.flowId.value, now);
    }
  }

  /** A new row is inserted exactly when the digest is complete, the
      transaction commits, and no row has the flow id yet. */
  lemma StoreInsertsOnlyNewFlows(rows: seq<FlowRow>, d: Digest, now: int, db: DbStatus)
    ensures |StoredRows(rows, d, now, db)| == |rows| + 1 <==>
      db == Up && NewRow(d, now).Some? && !HasFlow(rows, d.flowId.value)
    ensures |StoredRows(rows, d, now, db)| != |rows| + 1 ==> |StoredRows(rows, d, now, db)| == |rows|
  {
    if db == Up && d.flowId.Some? && HasFlow(rows, d.flowId.value) {
      TouchRowsChangesOnlyUpdatedAt(rows, d.flowId.value, now);
    }
  }

  /** Whatever the store held, one call never gives a flow id a second row:
      every count stays the same, or goes from 0 to 1. */
  lemma StoreNeverDuplicates(rows: seq<FlowRow>, d: Digest, now: int, db: DbStatus, key: FlowId)
    ensures CountFlow(StoredRows(rows, d, now, db), key) == CountFlow(rows, key)
         || (CountFlow(rows, key) == 0 && CountFlow(StoredRows(rows, d, now, db), key) == 1)
  {
    if db == Up && d.flowId.Some? {
      if HasFlow(rows, d.flowId.value) {
        TouchRowsChangesOnlyUpdatedAt(rows, d.flowId.value, now);
      } else if NewRow(d, now).Some? {
        var row := NewRow(d, now).value;
        CountFlowAppend(rows, row, key);
        if row.flowId == key {
          CountFlowPositive(rows, key);
        }
      }
    }
  }

  /** The check-then-insert keeps at most one row per flow id. */
  lemma StoreKeepsOneRowPerFlow(rows: seq<FlowRow>, d: Digest, now: int, db: DbStatus)
    requires UniqueFlowIds(rows)
    ensures UniqueFlowIds(StoredRows(rows, d, now, db))
  {
    if db == Up && d.flowId.Some? && !HasFlow(rows, d.flowId.value) && NewRow(d, now).Some? {
      var r := StoredRows(rows, d, now, db);
      forall i, j | 0 <= i < j < |r| ensures r[i].flowId != r[j].flowId {
        if j == |rows| {
          assert r[i] == rows[i];
        }
      }
    }
  }

  /** No row is removed, re-keyed or reactivated by a digest. */
  lemma StoredRowsEvolves(rows: seq<FlowRow>, d: Digest, now: int, db: DbStatus)
    ensures Evolves(rows, StoredRows(rows, d, now, db))
  {
    if db == Up && d.flowId.Some? && HasFlow(rows, d.flowId.value) {
      TouchRowsChangesOnlyUpdatedAt(rows, d.flowId.value, now);
    }
  }

  // ---------------------------------------------------------------------------
  // Properties of update_redis_cache

  /** A digest missing a key the cache update reads leaves the cache as it was,
      however many commands the connection would have answered. */
  lemma CacheMissingFieldUntouched(c: CacheState, d: Digest, now: int, answered: nat)
    requires d.flowId.None? || d.srcIp.None? || d.dstIp.None? || d.protocol.None?
          || d.packetCount.None? || d.byteCount.None?
    ensures CacheAfterDigest(c, d, now, answered) == c
  {
  }

  /** Both counters can take the digest's counts without leaving 64 bits. */
  predicate CountersFit(c: CacheState, w: CacheWrite) {
    && InInt64(w.packets) && InInt64(CounterValue(c, TotalPackets))
    && InInt64(CounterValue(c, TotalPackets) + w.packets)
    && InInt64(w.bytes) && InInt64(CounterValue(c, TotalBytes))
    && InInt64(CounterValue(c, TotalBytes) + w.bytes)
  }

  /** A complete update: the flow's hash is replaced and expires CACHE_TTL
      seconds from now, the id joins the active set, each counter grows by
      exactly the digest's (cumulative) count, and `last_update` is now.
      Other flows' hashes are untouched. */
  lemma CacheDigestFullyApplied(c: CacheState, d: Digest, now: int, answered: nat)
    requires CacheWriteOf(d, now).Some? && answered >= 6
    requires CountersFit(c, CacheWriteOf(d, now).value)
    ensures var w, r := CacheWriteOf(d, now).value, CacheAfterDigest(c, d, now, answered);
      && r.flows == c.flows[w.key := CachedFlow(w.hash, Some(now + CACHE_TTL))]
      && r.activeFlows == c.activeFlows + {w.key}
      && CounterValue(r, TotalPackets) == CounterValue(c, TotalPackets) + w.packets
      && CounterValue(r, TotalBytes) == CounterValue(c, TotalBytes) + w.bytes
      && r.globalStats.lastUpdate == Some(now)
  {
    WriteFullyApplied(c, CacheWriteOf(d, now).value, now, answered);
  }

  /** `CacheDigestFullyApplied` for the values read from the digest. */
  lemma WriteFullyApplied(c: CacheState, w: CacheWrite, now: int, answered: nat)
    requires answered >= 6 && CountersFit(c, w)
    ensures var r := RunCommands(c, CommandsFor(w, now), answered);
      && r.flows == c.flows[w.key := CachedFlow(w.hash, Some(now + CACHE_TTL))]
      && r.activeFlows == c.activeFlows + {w.key}
      && CounterValue(r, TotalPackets) == CounterValue(c, TotalPackets) + w.packets
      && CounterValue(r, TotalBytes) == CounterValue(c, TotalBytes) + w.bytes
      && r.globalStats.lastUpdate == Some(now)
  {
    var cmds := CommandsFor(w, now);
    var c3 := WithMember(WithExpiry(WithFlowHash(c, w.key, w.hash), w.key, now + CACHE_TTL), w.key);
    FlowCommandsApplied(c, cmds, answered);
    assert CounterValue(c3, TotalPackets) == CounterValue(c, TotalPackets);
    assert CounterValue(c3, TotalBytes) == CounterValue(c, TotalBytes);
    StatsCommandsApplied(c3, cmds, w.packets, w.bytes, now, answered - 3);
  }

  /** The first three commands, all answered, write the flow's hash, its
      expiry and its membership. */
  lemma FlowCommandsApplied(c: CacheState, cmds: seq<Command>, answered: nat)
    requires |cmds| >= 3 && answered >= 3
    requires cmds[0].HSetFlow? && cmds[1].ExpireFlow? && cmds[1].key == cmds[0].key && cmds[2] == AddActive(cmds[0].key)
    ensures RunCommands(c, cmds, answered) ==
      RunCommands(WithMember(WithExpiry(WithFlowHash(c, cmds[0].key, cmds[0].hash), cmds[0].key, cmds[1].deadline), cmds[0].key),
                  cmds[3..], answered - 3)
  {
    var c1 := WithFlowHash(c, cmds[0].key, cmds[0].hash);
    var c2 := WithExpiry(c1, cmds[0].key, cmds[1].deadline);
    RunFirstCommand(c, cmds, answered);
    RunFirstCommand(c1, cmds[1..], answered - 1);
    RunFirstCommand(c2, cmds[2..], answered - 2);
    assert cmds[1..][1..] == cmds[2..] && cmds[2..][1..] == cmds[3..];
  }

  /** The last three commands, all answered and within 64 bits, add the counts
      and stamp the time. */
  lemma StatsCommandsApplied(c: CacheState, cmds: seq<Command>, packets: int, bytes: int, now: int, answered: nat)
    requires |cmds| == 6 && answered >= 3
    requires cmds[3..] == [Increment(TotalPackets, packets), Increment(TotalBytes, bytes), SetLastUpdate(now)]
    requires InInt64(packets) && InInt64(CounterValue(c, TotalPackets)) && InInt64(CounterValue(c, TotalPackets) + packets)
    requires InInt64(bytes) && InInt64(CounterValue(c, TotalBytes)) && InInt64(CounterValue(c, TotalBytes) + bytes)
    ensures var r := RunCommands(c, cmds[3..], answered);
      && r.flows == c.flows && r.activeFlows == c.activeFlows
      && CounterValue(r, TotalPackets) == CounterValue(c, TotalPackets) + packets
      && CounterValue(r, TotalBytes) == CounterValue(c, TotalBytes) + bytes
      && r.globalStats.lastUpdate == Some(now)
  {
    var rest := cmds[3..];
    IncrementAddsExactly(c, TotalPackets, packets);
    var c4 := WithIncrement(c, TotalPackets, packets).value;
    IncrementAddsExactly(c4, TotalBytes, bytes);
    var c5 := WithIncrement(c4, TotalBytes, bytes).value;
    RunFirstCommand(c, rest, answered);
    RunFirstCommand(c4, rest[1..], answered - 1);
    RunFirstCommand(c5, rest[2..], answered - 2);
    assert rest[1..][1..] == rest[2..] && rest[2..][1..] == [];
  }

  /** Only Increment commands touch the counters. */
  predicate NonNegativeIncrements(cmds: seq<Command>) {
    forall i :: 0 <= i < |cmds| && cmds[i].Increment? ==> cmds[i].amount >= 0
  }

  lemma {:induction false} RunCommandsCountersGrow(c: CacheState, cmds: seq<Command>, answered: nat)
    requires NonNegativeIncrements(cmds)
    ensures CounterValue(RunCommands(c, cmds, answered), TotalPackets) >= CounterValue(c, TotalPackets)
    ensures CounterValue(RunCommands(c, cmds, answered), TotalBytes) >= CounterValue(c, TotalBytes)
    decreases |cmds|
  {
    if cmds != [] && answered > 0 {
      match Apply(c, cmds[0])
      case None =>
      case Some(next) =>
        if cmds[0].Increment? {
          IncrementAddsExactly(c, cmds[0].counter, cmds[0].amount);
        }
        assert NonNegativeIncrements(cmds[1..]) by {
          forall i | 0 <= i < |cmds[1..]| && cmds[1..][i].Increment? ensures cmds[1..][i].amount >= 0 {
            assert cmds[1..][i] == cmds[i + 1];
          }
        }
        RunCommandsCountersGrow(next, cmds[1..], answered - 1);
    }
  }

  /** For non-negative counts the global counters never decrease, whatever
      part of the update goes through. */
  lemma CacheCountersNeverDecrease(c: CacheState, d: Digest, now: int, answered: nat)
    requires d.packetCount.GetOr(0) >= 0 && d.byteCount.GetOr(0) >= 0
    ensures CounterValue(CacheAfterDigest(c, d, now, answered), TotalPackets) >= CounterValue(c, TotalPackets)
    ensures CounterValue(CacheAfterDigest(c, d, now, answered), TotalBytes) >= CounterValue(c, TotalBytes)
  {
    match CacheWriteOf(d, now)
    case None =>
    case Some(w) =>
      RunCommandsCountersGrow(c, CommandsFor(w, now), answered);
  }

  /** Commands that add only `key` to the active set. */
  predicate AddsOnly(cmds: seq<Command>, key: FlowId) {
    forall i :: 0 <= i < |cmds| && cmds[i].AddActive? ==> cmds[i].key == key
  }

  lemma {:induction false} RunCommandsActiveSet(c: CacheState, cmds: seq<Command>, answered: nat, key: FlowId)
    requires AddsOnly(cmds, key)
    ensures c.activeFlows <= RunCommands(c, cmds, answered).activeFlows <= c.activeFlows + {key}
    decreases |cmds|
  {
    if cmds != [] && answered > 0 {
      match Apply(c, cmds[0])
      case None =>
      case Some(next) =>
        assert AddsOnly(cmds[1..], key) by {
          forall i | 0 <= i < |cmds[1..]| && cmds[1..][i].AddActive? ensures cmds[1..][i].key == key {
            assert cmds[1..][i] == cmds[i + 1];
          }
        }
        RunCommandsActiveSet(next, cmds[1..], answered - 1, key);
    }
  }

  /** The active set gains at most the digest's own id and loses nothing; an
      id already present leaves it unchanged. */
  lemma CacheActiveSetGrowsByKey(c: CacheState, d: Digest, now: int, answered: nat)
    requires d.flowId.Some?
    ensures c.activeFlows <= CacheAfterDigest(c, d, now, answered).activeFlows <= c.activeFlows + {d.flowId.value}
    ensures d.flowId.value in c.activeFlows ==> CacheAfterDigest(c, d, now, answered).activeFlows == c.activeFlows
  {
    match CacheWriteOf(d, now)
    case None =>
    case Some(w) =>
      RunCommandsActiveSet(c, CommandsFor(w, now), answered, w.key);
  }

  /** The source's counters add each digest's cumulative counts: two digests
      for one flow, reporting p1 and then p2 >= p1 packets in total, raise
      total_packets by p1 + p2, more than the flow's p2 packets whenever
      p1 > 0 (likewise for bytes). */
  lemma CumulativeCountsOvercount(c: CacheState, d1: Digest, d2: Digest, t1: int, t2: int)
    requires CacheWriteOf(d1, t1).Some? && CacheWriteOf(d2, t2).Some?
    requires d1.flowId == d2.flowId
    requires 0 <= d1.packetCount.value <= d2.packetCount.value
    requires 0 <= d1.byteCount.value <= d2.byteCount.value
    requires 0 <= CounterValue(c, TotalPackets) && CounterValue(c, TotalPackets) + d1.packetCount.value + d2.packetCount.value <= INT64_MAX
    requires 0 <= CounterValue(c, TotalBytes) && CounterValue(c, TotalBytes) + d1.byteCount.value + d2.byteCount.value <= INT64_MAX
    ensures var c2 := CacheAfterDigest(CacheAfterDigest(c, d1, t1, 6), d2, t2, 6);
      && CounterValue(c2, TotalPackets) == CounterValue(c, TotalPackets) + d1.packetCount.value + d2.packetCount.value
      && CounterValue(c2, TotalBytes) == CounterValue(c, TotalBytes) + d1.byteCount.value + d2.byteCount.value
      && (d1.packetCount.value > 0 ==> CounterValue(c2, TotalPackets) - CounterValue(c, TotalPackets) > d2.packetCount.value)
  {
    CacheDigestFullyApplied(c, d1, t1, 6);
    var c1 := CacheAfterDigest(c, d1, t1, 6);
    CacheDigestFullyApplied(c1, d2, t2, 6);
  }

  // ---------------------------------------------------------------------------
  // Properties of process_flow_digest and cleanup_expired_flows

  /** A digest without flow id is still filed in the tracker, under None, but
      changes neither store. */
  lemma MissingFlowIdOnlyTracked(s: SystemState, d: Digest, now: int, db: DbStatus, answered: nat)
    requires d.flowId.None?
    ensures Ingest(s, d, now, db, answered).tracker == s.tracker[None := TrackerEntry(now, d)]
    ensures Ingest(s, d, now, db, answered).rows == s.rows
    ensures Ingest(s, d, now, db, answered).cache == s.cache
  {
  }

  /** The sweep keeps exactly the entries idle for at most FLOW_TIMEOUT seconds
      (one exactly FLOW_TIMEOUT seconds old stays), marks inactive, with end
      time now, every row of a dropped id whose UPDATE succeeds, leaves all
      other rows alone, and does not touch the cache. */
  lemma SweepEffect(s: SystemState, now: int, failing: set<FlowId>)
    ensures forall k :: k in Sweep(s, now, failing).tracker <==> k in s.tracker && now - s.tracker[k].lastSeen <= FLOW_TIMEOUT
    ensures forall k :: k in Sweep(s, now, failing).tracker ==> Sweep(s, now, failing).tracker[k] == s.tracker[k]
    ensures |Sweep(s, now, failing).rows| == |s.rows|
    ensures forall i :: 0 <= i < |s.rows| ==>
      var dropped := exists k :: k in s.tracker && Expired(s.tracker[k], now) && StoreKey(k) == s.rows[i].flowId;
      Sweep(s, now, failing).rows[i] ==
        if dropped && s.rows[i].flowId !in failing
        then s.rows[i].(status := INACTIVE, flowEndTime := Some(now))
        else s.rows[i]
    ensures Sweep(s, now, failing).cache == s.cache
  {
    var keys := StoreKeys(ExpiredKeys(s.tracker, now)) - failing;
    MarkInactiveEffect(s.rows, keys, now);
    forall i | 0 <= i < |s.rows|
      ensures (s.rows[i].flowId in keys) ==
              ((exists k :: k in s.tracker && Expired(s.tracker[k], now) && StoreKey(k) == s.rows[i].flowId)
               && s.rows[i].flowId !in failing)
    {
      if s.rows[i].flowId in keys {
        var k :| k in ExpiredKeys(s.tracker, now) && StoreKey(k) == s.rows[i].flowId;
      }
    }
  }

  lemma IngestEvolves(s: SystemState, d: Digest, now: int, db: DbStatus, answered: nat)
    ensures Evolves(s.rows, Ingest(s, d, now, db, answered).rows)
    ensures UniqueFlowIds(s.rows) ==> UniqueFlowIds(Ingest(s, d, now, db, answered).rows)
  {
    StoredRowsEvolves(s.rows, d, now, db);
    if UniqueFlowIds(s.rows) {
      StoreKeepsOneRowPerFlow(s.rows, d, now, db);
    }
  }

  lemma SweepEvolves(s: SystemState, now: int, failing: set<FlowId>)
    ensures Evolves(s.rows, Sweep(s, now, failing).rows)
    ensures UniqueFlowIds(s.rows) ==> UniqueFlowIds(Sweep(s, now, failing).rows)
  {
    MarkInactiveEffect(s.rows, StoreKeys(ExpiredKeys(s.tracker, now)) - failing, now);
  }

  /** Over any run of digests and sweeps, no row disappears, changes flow id or
      creation time, or becomes active again once it is not; and if no flow id
      had two rows at the start, none has two rows at the end. */
  lemma {:induction false} ReplayKeepsOneRowPerFlow(s: SystemState, events: seq<Event>)
    ensures Evolves(s.rows, Replay(s, events).rows)
    ensures UniqueFlowIds(s.rows) ==> UniqueFlowIds(Replay(s, events).rows)
    decreases |events|
  {
    if events != [] {
      var next := Step(s, events[0]);
      match events[0] {
        case DigestArrived(d, now, db, answered) => IngestEvolves(s, d, now, db, answered);
        case SweepRan(now, failing) => SweepEvolves(s, now, failing);
      }
      ReplayKeepsOneRowPerFlow(next, events[1..]);
      EvolvesTransitive(s.rows, next.rows, Replay(next, events[1..]).rows);
    }
  }

  /** Digests whose counts are not negative. */
  predicate NonNegativeCounts(events: seq<Event>) {
    forall i :: 0 <= i < |events| && events[i].DigestArrived? ==>
      events[i].d.packetCount.GetOr(0) >= 0 && events[i].d.byteCount.GetOr(0) >= 0
  }

  /** The global counters never decrease over a run of non-negative digests. */
  lemma {:induction false} ReplayCountersNeverDecrease(s: SystemState, events: seq<Event>)
    requires NonNegativeCounts(events)
    ensures CounterValue(Replay(s, events).cache, TotalPackets) >= CounterValue(s.cache, TotalPackets)
    ensures CounterValue(Replay(s, events).cache, TotalBytes) >= CounterValue(s.cache, TotalBytes)
    decreases |events|
  {
    if events != [] {
      match events[0] {
        case DigestArrived(d, now, db, answered) =>
          if db != Lost {
            CacheCountersNeverDecrease(s.cache, d, now, answered);
          }
        case SweepRan(now, failing) =>
      }
      assert NonNegativeCounts(events[1..]) by {
        forall i | 0 <= i < |events[1..]| && events[1..][i].DigestArrived?
          ensures events[1..][i].d.packetCount.GetOr(0) >= 0 && events[1..][i].d.byteCount.GetOr(0) >= 0
        {
          assert events[1..][i] == events[i + 1];
        }
      }
      ReplayCountersNeverDecrease(Step(s, events[0]), events[1..]);
    }
  }

  // ---------------------------------------------------------------------------
  // The collector object

  class FlowDataCollector {
    const records: RecordStore
    const cache: CacheStore
    /** The tracker: flow id to last-seen time and digest. */
    var activeFlows: map<TrackerKey, TrackerEntry>

    function State(): SystemState
      reads this, records, cache
    {
      SystemState(activeFlows, records.rows, cache.Snapshot())
    }

    constructor (records: RecordStore, cache: CacheStore)
      ensures this.records == records && this.cache == cache
      ensures activeFlows == map[]
    {
      this.records := records;
      this.cache := cache;
      activeFlows := map[];
    }

    /** Never raises: every outcome of the two store steps is a state. */
    method ProcessFlowDigest(d: Digest, now: int, db: DbStatus, answered: nat)
      modifies this, records, cache
      ensures activeFlows == old(activeFlows)[TrackerKeyOf(d) := TrackerEntry(now, d)]
      ensures State() == Ingest(old(State()), d, now, db, answered)
    {
      activeFlows := activeFlows[TrackerKeyOf(d) := TrackerEntry(now, d)];
      var raised := StoreFlowMetadata(d, now, db);
      if !raised {
        UpdateRedisCache(d, now, answered);
      }
    }

    /** Returns whether an exception escapes (only when the rollback raises). */
    method StoreFlowMetadata(d: Digest, now: int, db: DbStatus) returns (raised: bool)
      modifies records
      ensures records.rows == StoredRows(old(records.rows), d, now, db)
      ensures raised <==> db == Lost
    {
      if db != Up {
        // A statement or the commit raised; the handler rolls back, and the
        // rollback raises in turn when the connection is closed.
        return db == Lost;
      }
      raised := false;
      if d.flowId.None? {
        return;
      }
      var key := d.flowId.value;
      if HasFlow(records.rows, key) {
        records.Touch(key, now);
      } else {
        var row := NewRow(d, now);
        if row.Some? {
          records.Insert(row.value);
        }
      }
    }

    method UpdateRedisCache(d: Digest, now: int, answered: nat)
      modifies cache
      ensures cache.Snapshot() == CacheAfterDigest(old(cache.Snapshot()), d, now, answered)
    {
      var write := CacheWriteOf(d, now);
      if write.Some? {
        SendCommands(CommandsFor(write.value, now), answered);
      }
    }

    /** Sends the six commands of one cache update in order; the first that
        raises ends the update, and what already ran stays. */
    method SendCommands(cmds: seq<Command>, answered: nat)
      requires |cmds| == 6
      modifies cache
      ensures cache.Snapshot() == RunCommands(old(cache.Snapshot()), cmds, answered)
    {
      ghost var goal := RunCommands(cache.Snapshot(), cmds, answered);
      var ok := SendCommand(cmds, 0, answered, goal);
      if !ok {
        return;
      }
      ok := SendCommand(cmds, 1, answered - 1, goal);
      if !ok {
        return;
      }
      ok := SendCommand(cmds, 2, answered - 2, goal);
      if !ok {
        return;
      }
      ok := SendCommand(cmds, 3, answered - 3, goal);
      if !ok {
        return;
      }
      ok := SendCommand(cmds, 4, answered - 4, goal);
      if !ok {
        return;
      }
      ok := SendCommand(cmds, 5, answered - 5, goal);
    }

    /** Sends `cmds[k]` while `left` replies are still to come; `goal` is the
        cache once the commands from `k` on have run. Returns false, changing
        nothing, when the connection has failed (no reply left) or Redis
        answers with an error: either raises and ends the update. */
    method SendCommand(cmds: seq<Command>, k: nat, left: nat, ghost goal: CacheState) returns (ok: bool)
      requires k < |cmds| && RunCommands(cache.Snapshot(), cmds[k..], left) == goal
      modifies cache
      ensures ok <==> left > 0 && Apply(old(cache.Snapshot()), cmds[k]).Some?
      ensures ok ==> RunCommands(cache.Snapshot(), cmds[k + 1..], left - 1) == goal
      ensures !ok ==> cache.Snapshot() == goal
    {
      if left == 0 {
        return false;
      }
      ghost var before := cache.Snapshot();
      match cmds[k] {
        case HSetFlow(key, h) =>
          cache.HSet(key, h);
          ok := true;
        case ExpireFlow(key, deadline) =>
          cache.Expire(key, deadline);
          ok := true;
        case AddActive(key) =>
          cache.SAdd(key);
          ok := true;
        case Increment(counter, amount) =>
          ok := cache.HIncrBy(counter, amount);
        case SetLastUpdate(t) =>
          cache.HSetLastUpdate(t);
          ok := true;
      }
      RunFirstCommand(before, cmds[k..], left);
      assert cmds[k..][1..] == cmds[k + 1..];
    }

    method CleanupExpiredFlows(now: int, failing: set<FlowId>)
      modifies this, records
      ensures activeFlows == LiveEntries(old(activeFlows), now)
      ensures records.rows == MarkInactive(old(records.rows), StoreKeys(ExpiredKeys(old(activeFlows), now)) - failing, now)
      ensures State() == Sweep(old(State()), now, failing)
    {
      // First pass: collect the expired ids.
      var expired: seq<TrackerKey> := [];
      var pending := activeFlows.Keys;
      while pending != {}
        invariant pending <= activeFlows.Keys
        invariant forall k :: k in expired <==> k in activeFlows && k !in pending && Expired(activeFlows[k], now)
        invariant forall i, j :: 0 <= i < j < |expired| ==> expired[i] != expired[j]
        decreases pending
      {
        var k :| k in pending;
        if now - activeFlows[k].lastSeen > FLOW_TIMEOUT {
          expired := expired + [k];
        }
        pending := pending - {k};
      }
      // Second pass: drop each from the tracker, then mark its rows inactive.
      ghost var tracker0 := activeFlows;
      ghost var rows0 := records.rows;
      ghost var swept: set<TrackerKey> := {};
      var i := 0;
      while i < |expired|
        invariant 0 <= i <= |expired|
        invariant swept == set j | 0 <= j < i :: expired[j]
        invariant activeFlows == map k | k in tracker0 && k !in swept :: tracker0[k]
        invariant records.rows == MarkInactive(rows0, StoreKeys(swept) - failing, now)
      {
        var k := expired[i];
        assert k !in swept;
        assert k in activeFlows;
        activeFlows := activeFlows - {k};
        if StoreKey(k) !in failing {
          MarkInactiveAddKey(rows0, StoreKeys(swept) - failing, StoreKey(k), now);
          records.Deactivate(StoreKey(k), now);
          assert StoreKeys(swept + {k}) - failing == (StoreKeys(swept) - failing) + {StoreKey(k)};
        } else {
          assert StoreKeys(swept + {k}) - failing == StoreKeys(swept) - failing;
        }
        swept := swept + {k};
        i := i + 1;
      }
      assert swept == ExpiredKeys(tracker0, now);
    }
  }
}
