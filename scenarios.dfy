/** Concrete runs of the engine: one TCP flow from 192.168.1.100:12345 to
    10.0.0.50:80 seen twice, then swept; and a digest without a flow id. */
module Scenarios {
  import opened Wrappers
  import opened FlowTypes
  import opened IpAddress
  import opened Records
  import opened Cache
  import opened Collector
  import opened Statistics

  /** The arrival time of the first digest, in seconds. */
  const T: int := 1_700_000_000

  const EMPTY_STATE := SystemState(map[], [], EMPTY_CACHE)

  /** Flow "1" after 10 packets and 640 bytes. */
  const FIRST := Digest(Some("1"), Some(0xC0A8_0164), Some(0x0A00_0032), Some(6), Some(12345), Some(80),
                        Some(10), Some(640), Some(T * MICROS_PER_SECOND))

  /** The same flow five seconds later, with cumulative counts 15 and 960. */
  const SECOND := FIRST.(packetCount := Some(15), byteCount := Some(960), timestamp := Some((T + 5) * MICROS_PER_SECOND))

  /** A digest that carries no key at all. */
  const NO_ID := Digest(None, None, None, None, None, None, None, None, None)

  /** The state after the first digest, as the later steps see it. */
  lemma AfterFirstDigest()
    ensures var s := Ingest(EMPTY_STATE, FIRST, T, Up, 6);
      && s.rows == [NewRow(FIRST, T).value]
      && s.tracker == map[Some("1") := TrackerEntry(T, FIRST)]
      && s.cache.activeFlows == {"1"}
      && CounterValue(s.cache, TotalPackets) == 10 && CounterValue(s.cache, TotalBytes) == 640
      && s.cache.globalStats.lastUpdate == Some(T)
  {
    CacheDigestFullyApplied(EMPTY_CACHE, FIRST, T, 6);
  }

  /** The row the first digest inserts. */
  lemma FirstRow()
    ensures var row := NewRow(FIRST, T).value;
      && row.flowId == "1" && row.status == ACTIVE && row.switchId == DEFAULT_SWITCH
      && row.createdAt == T && row.updatedAt == T && row.protocol == 6
      && row.flowStartTime == T as real
      && row.srcIp == "192.168.1.100" && row.dstIp == "10.0.0.50"
  {
    IntToIpExamples();
  }

  /** After the first digest: one active row with the dotted addresses and the
      start time in seconds, and the statistics report 1 flow, 10 packets and
      640 bytes. */
  lemma FirstDigestRecorded()
    ensures var s := Ingest(EMPTY_STATE, FIRST, T, Up, 6);
      && |s.rows| == 1
      && s.rows[0].flowId == "1" && s.rows[0].status == ACTIVE
      && s.rows[0].srcIp == "192.168.1.100" && s.rows[0].dstIp == "10.0.0.50"
      && s.rows[0].flowStartTime == T as real
      && s.rows[0].switchId == DEFAULT_SWITCH
      && CurrentStatistics(s.cache, true, T) == NetworkStats(1, 10, 640, T, SWITCHES_CONNECTED)
  {
    AfterFirstDigest();
    FirstRow();
  }

  /** The second digest of the same flow refreshes its row instead of adding
      one, and adds its cumulative counts on top of the first's. */
  lemma RepeatedDigestKeepsOneRow()
    ensures var s := Replay(EMPTY_STATE, [DigestArrived(FIRST, T, Up, 6), DigestArrived(SECOND, T + 5, Up, 6)]);
      && |s.rows| == 1 && CountFlow(s.rows, "1") == 1
      && s.rows[0].status == ACTIVE && s.rows[0].createdAt == T && s.rows[0].updatedAt == T + 5
      && s.tracker == map[Some("1") := TrackerEntry(T + 5, SECOND)]
      && CurrentStatistics(s.cache, true, T + 5) == NetworkStats(1, 25, 1600, T + 5, SWITCHES_CONNECTED)
  {
    var s1 := Ingest(EMPTY_STATE, FIRST, T, Up, 6);
    AfterFirstDigest();
    FirstRow();
    assert s1.rows[0].flowId == "1";
    assert HasFlow(s1.rows, "1");
    var s2 := Ingest(s1, SECOND, T + 5, Up, 6);
    SecondDigest(s1);
    ReplayPair(EMPTY_STATE, DigestArrived(FIRST, T, Up, 6), DigestArrived(SECOND, T + 5, Up, 6));
    assert CountFlow(s2.rows, "1") == CountFlow(s2.rows[..0], "1") + 1;
  }

  /** Replaying two events is stepping through them in order. */
  lemma ReplayPair(s: SystemState, e1: Event, e2: Event)
    ensures Replay(s, [e1, e2]) == Step(Step(s, e1), e2)
  {
    assert [e1, e2][1..] == [e2];
    assert Replay(s, [e1, e2]) == Replay(Step(s, e1), [e2]);
  }

  /** The second digest on any state that already holds flow "1" once, with
      10 packets and 640 bytes counted. */
  lemma SecondDigest(s1: SystemState)
    requires |s1.rows| == 1 && s1.rows[0].flowId == "1" && s1.rows[0].status == ACTIVE && s1.rows[0].createdAt == T
    requires s1.tracker == map[Some("1") := TrackerEntry(T, FIRST)]
    requires s1.cache.activeFlows == {"1"}
    requires CounterValue(s1.cache, TotalPackets) == 10 && CounterValue(s1.cache, TotalBytes) == 640
    ensures var s2 := Ingest(s1, SECOND, T + 5, Up, 6);
      && |s2.rows| == 1 && s2.rows[0] == s1.rows[0].(updatedAt := T + 5)
      && s2.tracker == map[Some("1") := TrackerEntry(T + 5, SECOND)]
      && CurrentStatistics(s2.cache, true, T + 5) == NetworkStats(1, 25, 1600, T + 5, SWITCHES_CONNECTED)
  {
    assert HasFlow(s1.rows, "1");
    CacheDigestFullyApplied(s1.cache, SECOND, T + 5, 6);
  }

  /** Exactly FLOW_TIMEOUT seconds of silence keep the flow; one more second
      expires it: the row turns inactive with its end time, it leaves the top
      flows and the protocol mix, yet the cache still counts it active. */
  lemma SweepExpiresIdleFlow()
    ensures var s := Ingest(EMPTY_STATE, FIRST, T, Up, 6);
      && Sweep(s, T + FLOW_TIMEOUT, {}) == s
      && var swept := Sweep(s, T + FLOW_TIMEOUT + 1, {});
      && swept.tracker == map[]
      && swept.rows[0].status == INACTIVE && swept.rows[0].flowEndTime == Some(T + FLOW_TIMEOUT + 1)
      && TopFlows(swept.rows, 10, Up) == []
      && ProtocolDistribution(swept.rows, Up) == map[]
      && CurrentStatistics(swept.cache, true, T + FLOW_TIMEOUT + 1).activeFlows == 1
  {
    var s := Ingest(EMPTY_STATE, FIRST, T, Up, 6);
    AfterFirstDigest();
    FirstRow();
    SweepOneFlow(s);
  }

  /** Sweeping a state whose only flow, "1", was last seen at T. */
  lemma SweepOneFlow(s: SystemState)
    requires |s.rows| == 1 && s.rows[0].flowId == "1"
    requires s.tracker == map[Some("1") := TrackerEntry(T, FIRST)]
    requires s.cache.activeFlows == {"1"}
    ensures Sweep(s, T + FLOW_TIMEOUT, {}) == s
    ensures var swept := Sweep(s, T + FLOW_TIMEOUT + 1, {});
      && swept.tracker == map[]
      && swept.rows[0].status == INACTIVE && swept.rows[0].flowEndTime == Some(T + FLOW_TIMEOUT + 1)
      && TopFlows(swept.rows, 10, Up) == []
      && ProtocolDistribution(swept.rows, Up) == map[]
      && CurrentStatistics(swept.cache, true, T + FLOW_TIMEOUT + 1).activeFlows == 1
  {
    assert ExpiredKeys(s.tracker, T + FLOW_TIMEOUT) == {};
    assert LiveEntries(s.tracker, T + FLOW_TIMEOUT) == s.tracker;
    assert MarkInactive(s.rows, {}, T + FLOW_TIMEOUT) == s.rows;
    assert ExpiredKeys(s.tracker, T + FLOW_TIMEOUT + 1) == {Some("1")};
    assert StoreKeys({Some("1")}) == {"1"};
    var swept := Sweep(s, T + FLOW_TIMEOUT + 1, {});
    assert swept.rows[0].status == INACTIVE;
    assert ActiveRows(swept.rows) == [] by {
      assert swept.rows[..0] == [];
    }
    assert LiveEntries(s.tracker, T + FLOW_TIMEOUT + 1) == map[];
  }

  /** A digest without a flow id is tracked under None and changes neither
      store, so the statistics do not move. */
  lemma DigestWithoutIdChangesNoStatistic(s: SystemState, now: int, db: DbStatus, answered: nat, t: int)
    ensures var after := Ingest(s, NO_ID, now, db, answered);
      && None in after.tracker
      && after.rows == s.rows
      && CurrentStatistics(after.cache, true, t) == CurrentStatistics(s.cache, true, t)
  {
    MissingFlowIdOnlyTracked(s, NO_ID, now, db, answered);
  }

  /** The store failing while the first digest arrives: no row, but the cache
      is still updated when the rollback succeeds, and not at all when it fails. */
  lemma StoreFailureScenarios()
    ensures Ingest(EMPTY_STATE, FIRST, T, Failing, 6).rows == []
    ensures CurrentStatistics(Ingest(EMPTY_STATE, FIRST, T, Failing, 6).cache, true, T).totalPackets == 10
    ensures Ingest(EMPTY_STATE, FIRST, T, Lost, 6).cache == EMPTY_CACHE
    ensures TopFlows(Ingest(EMPTY_STATE, FIRST, T, Up, 6).rows, 10, Failing) == []
  {
    CacheDigestFullyApplied(EMPTY_CACHE, FIRST, T, 6);
  }
}
