# Flow collection and aggregation engine — Dafny model

This project models the flow collection engine of an SDN monitoring control
plane (`control_plane/data_collector.py`). The engine has two parts.

- **`FlowDataCollector`** is the write side.
  - For every flow digest a P4 switch reports, it refreshes a process-local tracker keyed by flow id.
  - It upserts the flow's row in the relational record store (`monitoring.flow_metadata`).
  - It updates the key-value cache: a per-flow hash with a 300-second expiry, the `active_flows` set and the `global_stats` counters.
  - A periodic sweep drops tracker entries idle for more than 300 seconds and marks their rows inactive.
- **`StatisticsAggregator`** is the read side. It answers the protocol mix of the active rows, the newest active rows, and the cache's current counters. Any store error becomes an empty or zeroed answer.

Modules:

- `Wrappers`: `Option`.
- `Decimal`: decimal text of integers, with a parser and injectivity.
- `IpAddress`: `int_to_ip` and its inverse.
- `FlowTypes`: the digest, the row, the tracker entry, the constants, and `DbStatus`.
- `Records`: the record store as the `RecordStore` class, and the functions that specify its statements.
- `Cache`: the cache as the `CacheStore` class, one method per command, and the functions that specify them.
- `Collector`: the `FlowDataCollector` class, with the specification of its operations on the whole state (`Ingest`, `Sweep`, `Replay`) and their properties.
- `Statistics`: the aggregator's queries as functions of the stores' contents.
- `Scenarios`: concrete runs.

How the environment is represented:

- **Clock.** `time.time()` and the store's `NOW()` become one integer `now` per call.
- **Record store failure.** It is a `DbStatus` parameter:
  - `Up`: the transaction commits.
  - `Failing`: a statement raises and the rollback succeeds.
  - `Lost`: the rollback raises too, the exception leaves `store_flow_metadata`, and `process_flow_digest` skips the cache update.
- **Cache connection failure.** `answered` is the number of commands the connection answers before it fails. Redis has no rollback, so the commands already run stay applied.
- **Counter overflow.** `HINCRBY` outside the signed 64-bit range is an error reply, and it ends the update in the same way as a connection failure.
- **Sweep failures.** `failing` is the set of flow ids whose UPDATE fails during the sweep.

The model follows the code as written, including where a cleaner design would differ:

- Both counters grow by each digest's cumulative count, not by the change since the last report. `CumulativeCountsOvercount` states the resulting overcount.
- A digest without a flow id is rejected by nothing up front. It is still filed in the tracker under None, and both stores are left unchanged because the KeyError is caught.
- The sweep never removes ids from the cache's `active_flows` set. The current statistics keep counting a swept flow (`SweepExpiresIdleFlow`).
- An existing row is only refreshed. A row marked inactive stays inactive when its flow reports again (`Records.Evolves`).
- `get_top_flows` orders only by `created_at`. Equal timestamps have no tie-breaker, so `TopFlowsSpec` states only what every order of equal timestamps shares.

## Model

| member | source | states |
|---|---|---|
| Decimal.NatToString | control_plane/data_collector.py:171 | the decimal text of a natural: non-empty, digits only, with a leading '0' exactly for 0 |
| Decimal.ParseNatToString | control_plane/data_collector.py:171 | reading the decimal text back gives the number (round trip) |
| Decimal.NatToStringInjective | control_plane/data_collector.py:171 | different numbers have different decimal texts |
| Decimal.IntToStringInjective | control_plane/data_collector.py:246 | different integers, of either sign, have different texts |
| IpAddress.IntToIpRoundTrip | control_plane/data_collector.py:168-171 | the dotted text splits into four decimal octets, and parsing it gives back the address modulo 2^32 |
| IpAddress.IntToIpLow32 | control_plane/data_collector.py:171 | only the low 32 bits of the integer reach the text: x and x mod 2^32 print the same |
| IpAddress.OctetInByteRange | control_plane/data_collector.py:171 | each `>> k & 0xFF` octet lies in 0..255 |
| IpAddress.OctetsRecombine | control_plane/data_collector.py:171 | the four octets, weighted by 2^24, 2^16, 2^8 and 1, give back x mod 2^32 |
| IpAddress.IntToIpExamples | control_plane/data_collector.py:168-171 | 0xC0A80164 prints as 192.168.1.100 and 0x0A000032 as 10.0.0.50 |
| Records.CountFlowPositive | control_plane/data_collector.py:95-101 | the existence check finds a row exactly when some row carries the flow id |
| Records.CountFlowUnique | control_plane/data_collector.py:95-118 | while no flow id is stored twice, each id has at most one row |
| Records.TouchRowsChangesOnlyUpdatedAt | control_plane/data_collector.py:119-125 | the refresh sets `updated_at` on the id's rows and changes no other field and no other row |
| Records.MarkInactiveEffect | control_plane/data_collector.py:186-193 | marking sets 'inactive' and the end time exactly on the rows of the given ids, and keeps the rest |
| Records.MarkInactiveAddKey | control_plane/data_collector.py:182-193 | marking one id after a set is marking the set with that id added |
| Records.EvolvesTransitive | control_plane/data_collector.py:90-133 | "rows only appended, ids, creation times and protocols kept, never reactivated" composes |
| Records.RecordStore.Insert | control_plane/data_collector.py:103-118 | the INSERT appends exactly the row |
| Records.RecordStore.Touch | control_plane/data_collector.py:121-125 | the store becomes the refreshed rows |
| Records.RecordStore.Deactivate | control_plane/data_collector.py:187-192 | the store becomes the rows with that id marked inactive |
| Cache.IncrementAddsExactly | control_plane/data_collector.py:159-162 | HINCRBY succeeds exactly when the amount, the old value and the sum fit in 64 bits; then it adds exactly the amount and changes nothing else |
| Cache.CacheStore.HSet | control_plane/data_collector.py:141-150 | the flow's hash is replaced and an existing expiry kept |
| Cache.CacheStore.Expire | control_plane/data_collector.py:153 | the expiry of an existing hash is set; a missing hash stays missing |
| Cache.CacheStore.SAdd | control_plane/data_collector.py:156 | the id joins the active set |
| Cache.CacheStore.HIncrBy | control_plane/data_collector.py:159-162 | reports whether Redis accepted the increment, and changes the counter only when it did |
| Cache.CacheStore.HSetLastUpdate | control_plane/data_collector.py:163 | `last_update` is set to the time |
| Collector.StoredRowsCases | control_plane/data_collector.py:90-133 | the three outcomes: rolled back (rows unchanged), existing id (refreshed) or new id (row appended, or unchanged when a required field is missing) |
| Collector.StoreInsertsOnlyNewFlows | control_plane/data_collector.py:95-118 | a row is added exactly when the store is up, the id is new and the digest has every inserted field; otherwise the row count does not change |
| Collector.StoreNeverDuplicates | control_plane/data_collector.py:95-125 | the check-then-insert never adds a second row for an id that already has one |
| Collector.StoreKeepsOneRowPerFlow | control_plane/data_collector.py:95-125 | storing a digest preserves "one row per flow id" |
| Collector.StoredRowsEvolves | control_plane/data_collector.py:90-133 | storing only appends rows, and never reactivates or renames a row |
| Collector.CacheMissingFieldUntouched | control_plane/data_collector.py:138-148 | a digest lacking flow id, an address or the protocol leaves the cache unchanged (the KeyError comes before any write) |
| Collector.CacheDigestFullyApplied | control_plane/data_collector.py:135-163 | a fully answered update replaces the hash with a 300 s expiry, adds the id to the active set, adds the counts to both counters and stamps `last_update` |
| Collector.RunCommandsCountersGrow | control_plane/data_collector.py:159-162 | non-negative increments, however many commands run, never lower a counter |
| Collector.CacheCountersNeverDecrease | control_plane/data_collector.py:135-166 | a digest with non-negative counts never lowers either counter, even when the update fails partway |
| Collector.RunCommandsActiveSet | control_plane/data_collector.py:156 | commands that add only one id grow the active set by at most that id |
| Collector.CacheActiveSetGrowsByKey | control_plane/data_collector.py:135-166 | the active set gains at most the digest's id and loses nothing; an id already present leaves it unchanged |
| Collector.CumulativeCountsOvercount | control_plane/data_collector.py:159-162 | two full reports of one flow add both cumulative counts, more than the flow's latest count whenever the first is positive |
| Collector.MissingFlowIdOnlyTracked | control_plane/data_collector.py:71-83 | a digest without a flow id is filed under None and changes neither store |
| Collector.SweepEffect | control_plane/data_collector.py:173-195 | the sweep keeps exactly the entries idle for at most 300 s, marks the rows of the expired ids inactive except where the UPDATE fails, and leaves the cache alone |
| Collector.IngestEvolves | control_plane/data_collector.py:68-88 | a digest only appends rows, and keeps one row per flow id |
| Collector.SweepEvolves | control_plane/data_collector.py:173-195 | a sweep only changes rows in place, and keeps one row per flow id |
| Collector.ReplayKeepsOneRowPerFlow | control_plane/data_collector.py:68-195 | over any sequence of digests and sweeps, rows are only appended, never reactivated, and stay one per flow id |
| Collector.ReplayCountersNeverDecrease | control_plane/data_collector.py:68-195 | over any sequence of digests with non-negative counts and sweeps, neither counter decreases |
| Collector.FlowDataCollector.constructor | control_plane/data_collector.py:64-66 | the collector starts with an empty tracker over the given stores |
| Collector.FlowDataCollector.ProcessFlowDigest | control_plane/data_collector.py:68-88 | the tracker entry is refreshed under the digest's flow id, and the whole state becomes `Ingest` of the old one |
| Collector.FlowDataCollector.StoreFlowMetadata | control_plane/data_collector.py:90-133 | the rows become `StoredRows` of the old ones, and an exception escapes exactly when the rollback fails |
| Collector.FlowDataCollector.UpdateRedisCache | control_plane/data_collector.py:135-166 | the cache becomes `CacheAfterDigest` of the old cache |
| Collector.FlowDataCollector.SendCommands | control_plane/data_collector.py:141-163 | the six cache commands of one digest are sent in order, and the cache becomes what running them on the old cache with `answered` replies gives |
| Collector.FlowDataCollector.SendCommand | control_plane/data_collector.py:141-166 | one command succeeds exactly when the connection still answers and Redis accepts it; on failure the cache is left where the remaining run would leave it |
| Collector.FlowCommandsApplied | control_plane/data_collector.py:141-156 | once three replies arrive, the hash write, its expiry and the set addition have all taken effect before the counters are touched |
| Collector.StatsCommandsApplied | control_plane/data_collector.py:159-163 | with all replies, the last three commands add the counts to both counters and stamp `last_update`, changing neither the hashes nor the active set |
| Collector.FlowDataCollector.CleanupExpiredFlows | control_plane/data_collector.py:173-198 | the tracker keeps only the live entries, the expired ids' rows are marked inactive except where the UPDATE fails, and the whole state becomes `Sweep` of the old one |
| Statistics.ProtocolNameInjective | control_plane/data_collector.py:238-246 | different protocol numbers get different names, so no distribution entry overwrites another |
| Statistics.ProtocolNameExamples | control_plane/data_collector.py:238-246 | 1, 6 and 17 are ICMP, TCP and UDP; any other number is spelled `Protocol-<n>` |
| Statistics.ActiveRowsSpec | control_plane/data_collector.py:210-215 | the WHERE clause keeps exactly the active rows, each as often as it is stored |
| Statistics.ProtocolsSpec | control_plane/data_collector.py:210-215 | GROUP BY yields each protocol once, exactly those with a positive count |
| Statistics.GroupCountsAddUp | control_plane/data_collector.py:210-220 | the group counts add up to the number of rows grouped |
| Statistics.DistributeEntries | control_plane/data_collector.py:224-230 | the loop writes one entry per protocol, under its name, with its count and percentage |
| Statistics.DistributeTotal | control_plane/data_collector.py:220-230 | the percentages the loop writes add up to the groups' share of the total |
| Statistics.SharesTotalRemove | control_plane/data_collector.py:224-230 | the sum of a distribution's percentages does not depend on the order it is taken in |
| Statistics.ProtocolDistributionSpec | control_plane/data_collector.py:206-236 | {} exactly on a store error or no active row; otherwise one entry per active protocol, with its count of active rows and its percentage of them, the percentages summing to 100 |
| Statistics.InsertByAgeSpec | control_plane/data_collector.py:253-256 | inserting a row into a newest-first list keeps it newest-first and adds exactly that row |
| Statistics.SortNewestFirstSpec | control_plane/data_collector.py:253-256 | `ORDER BY created_at DESC` gives a newest-first permutation of the rows |
| Statistics.PrefixOfSorted | control_plane/data_collector.py:256-257 | LIMIT takes a newest-first prefix, and nothing after it is newer than anything in it |
| Statistics.TopFlowsSpec | control_plane/data_collector.py:248-267 | [] on a store error or a negative limit; otherwise min(limit, #active) active rows of the store, newest first, none repeated beyond its stored count, and no omitted active row newer than a returned one |
| Statistics.StatisticsAfterDigest | control_plane/data_collector.py:269-285 | after a complete cache update the statistics show one more active flow when the id is new, totals grown by the digest's counts, and `last_update` the arrival time |
| Statistics.StatisticsOnCacheError | control_plane/data_collector.py:287-293 | a cache error answers 0 active flows, 0 packets, 0 bytes and 0 switches, stamped with the current time, whatever the cache holds |
| Scenarios.FirstDigestRecorded | control_plane/data_collector.py:68-171 | a first digest gives one active row with dotted addresses and the start time in seconds, and statistics of 1 flow, 10 packets and 640 bytes |
| Scenarios.RepeatedDigestKeepsOneRow | control_plane/data_collector.py:95-163 | a second digest of the same flow refreshes its single row and adds its cumulative counts on top |
| Scenarios.SweepExpiresIdleFlow | control_plane/data_collector.py:173-267 | 300 s of silence keeps a flow, while 301 s marks its row inactive and removes it from the top flows and the protocol mix; the cache still counts it active |
| Scenarios.DigestWithoutIdChangesNoStatistic | control_plane/data_collector.py:68-88 | a digest without a flow id is tracked under None and leaves the rows and the statistics unchanged |
| Scenarios.StoreFailureScenarios | control_plane/data_collector.py:80-133 | a failed transaction stores no row but the cache is still updated; a failed rollback skips the cache too; a failing store yields no top flows |

## Left out

- `DatabaseManager`, connection set-up, the module-level singletons and `initialize_data_collector` are not modelled. Each store is a value or object passed to the operations. This model covers `data_collector.py` only.
- Concurrency and `async` scheduling are not modelled. Each call runs to completion, and events are applied in the order given to `Replay`.
- Logging is left out. It has no effect on state.
- Time is an integer number of seconds (`now`), not a float. A digest's microsecond timestamp becomes an exact real number of seconds. The timezone-aware `datetime` and its range error for out-of-range timestamps are not modelled; such a failure behaves like `Failing`.
- Percentages are exact reals, not floats, so "sums to 100" is exact here, not up to rounding.
- The cache's TTL eviction is not modelled. The expiry is stored, but nothing evicts a hash once its deadline passes.
- Redis key names (`flow:<id>`, `active_flows`, `global_stats`) are fields of the cache state, not strings.
- Field values are stored as the model's values rather than as Redis strings. `last_update` is an integer.
- The table's `id` primary key is not modelled. The model assumes the deployed table gives `id`, `created_at` and `updated_at` server-side defaults, so an inserted row gets an id and `created_at = updated_at = now`. The raw INSERT names none of these columns. The SQLAlchemy declaration in `control_plane/database.py` gives them only Python-side defaults, which a raw INSERT does not apply. Without server-side defaults the INSERT would fail on `id`, and `ORDER BY created_at DESC` would sort NULLs. That declaration is not part of this model.
- The digest's `flow_duration` and `packet_size` are not modelled, because the engine never reads them.
- Digest fields of the wrong type, and keys present with the value None, are not modelled. Each numeric field is either present with an integer or absent. The flow id is either absent or present as its text `str(flow_id)`.
- The tracker key is that text (`FlowTypes.TrackerKey`), not the raw flow id. The source keys `active_flows` by the raw value and converts to text only for the two stores. So digests with flow ids `1` and `"1"` get two tracker entries in the source and one in the model. Both stores see one flow id `"1"` either way.
- If a statement fails during the sweep, psycopg2 leaves the transaction aborted until a rollback. The sweep never rolls back, so later UPDATEs in the same sweep would fail too. `CleanupExpiredFlows` does not model that carry-over: which UPDATEs fail is given freely as `failing`.
- Dictionary iteration order is not modelled. The sweep's order of expired ids does not change its outcome (`Records.MarkInactiveAddKey`).
- `switches_connected` is the source's fixed mock value 2, not a count of real switches.
- `get_top_flows` defaults `limit` to 10. `Statistics.TopFlows` takes `limit` as a plain parameter, and the default is the caller's to pass.
- Statistics.TopFlowsSpec: the order of rows with equal `created_at` is left open, as in the SQL query. The function fixes one such order, and the lemma states only what every such order shares.
