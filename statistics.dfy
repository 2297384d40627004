/** `StatisticsAggregator`: the read side. Each query is a function of the
    stores' current contents and of whether the store call fails; a failure
    yields an empty or zeroed result instead of an exception. */
module Statistics {
  import opened Wrappers
  import opened Decimal
  import opened FlowTypes
  import opened Records
  import opened Cache
  import opened Collector

  // ---------------------------------------------------------------------------
  // get_protocol_name

  function ProtocolName(p: int): string {
    if p == 1 then "ICMP"
    else if p == 6 then "TCP"
    else if p == 17 then "UDP"
    else "Protocol-" + IntToString(p)
  }

  /** The well-known numbers and the fallback spelling. */
  lemma ProtocolNameExamples()
    ensures ProtocolName(1) == "ICMP" && ProtocolName(6) == "TCP" && ProtocolName(17) == "UDP"
    ensures ProtocolName(2) == "Protocol-2" && ProtocolName(-3) == "Protocol--3"
  {
    assert NatToString(2) == "2" && NatToString(3) == "3";
  }

  /** Distinct protocol numbers get distinct names, so no entry of the
      distribution overwrites another. */
  lemma ProtocolNameInjective(p: int, q: int)
    requires ProtocolName(p) == ProtocolName(q)
    ensures p == q
  {
    var prefix := "Protocol-";
    if p !in {1, 6, 17} && q !in {1, 6, 17} {
      assert ProtocolName(p)[|prefix|..] == IntToString(p);
      assert ProtocolName(q)[|prefix|..] == IntToString(q);
      IntToStringInjective(p, q);
    }
  }

  // ---------------------------------------------------------------------------
  // Active rows

  /** `WHERE status = 'active'`, in store order. */
  function ActiveRows(rows: seq<FlowRow>): seq<FlowRow> {
    if rows == [] then []
    else ActiveRows(rows[..|rows| - 1]) + (if rows[|rows| - 1].status == ACTIVE then [rows[|rows| - 1]] else [])
  }

  /** The active rows are exactly the rows whose status is 'active', each
      taken as often as it occurs. */
  lemma {:induction false} ActiveRowsSpec(rows: seq<FlowRow>)
    ensures forall x :: x in ActiveRows(rows) ==> x.status == ACTIVE
    ensures forall x: FlowRow :: x.status == ACTIVE ==> multiset(ActiveRows(rows))[x] == multiset(rows)[x]
    ensures forall x: FlowRow :: x.status != ACTIVE ==> multiset(ActiveRows(rows))[x] == 0
  {
    if rows != [] {
      var init := rows[..|rows| - 1];
      ActiveRowsSpec(init);
      assert rows == init + [rows[|rows| - 1]];
    }
  }

  // ---------------------------------------------------------------------------
  // calculate_protocol_distribution

  /** The number of rows with protocol `p`. */
  function CountProtocol(rows: seq<FlowRow>, p: int): nat {
    if rows == [] then 0
    else CountProtocol(rows[..|rows| - 1], p) + (if rows[|rows| - 1].protocol == p then 1 else 0)
  }

  /** The distinct protocols of `rows`, in order of first appearance. */
  function Protocols(rows: seq<FlowRow>): seq<int> {
    if rows == [] then []
    else
      var ps := Protocols(rows[..|rows| - 1]);
      if rows[|rows| - 1].protocol in ps then ps else ps + [rows[|rows| - 1].protocol]
  }

  predicate Distinct(ps: seq<int>) {
    forall i, j :: 0 <= i < j < |ps| ==> ps[i] != ps[j]
  }

  /** A row of `SELECT protocol, COUNT(*) ... GROUP BY protocol`. */
  datatype GroupRow = GroupRow(protocol: int, count: nat)

  /** The GROUP BY result over the given protocols. */
  function Groups(rows: seq<FlowRow>, ps: seq<int>): seq<GroupRow> {
    seq(|ps|, i requires 0 <= i < |ps| => GroupRow(ps[i], CountProtocol(rows, ps[i])))
  }

  /** The GROUP BY result, one row per distinct protocol (SQL fixes no order;
      this takes the order of first appearance). */
  function GroupByProtocol(rows: seq<FlowRow>): seq<GroupRow> {
    Groups(rows, Protocols(rows))
  }

  /** `sum(row['count'] for row in results)`. */
  function SumCounts(groups: seq<GroupRow>): nat {
    if groups == [] then 0 else SumCounts(groups[..|groups| - 1]) + groups[|groups| - 1].count
  }

  /** A distribution entry: `{'count': ..., 'percentage': ...}`, exact. */
  datatype Share = Share(count: nat, percentage: real)

  function ShareOf(count: nat, total: nat): Share
    requires total > 0
  {
    Share(count, count as real / total as real * 100.0)
  }

  /** The loop over the GROUP BY rows: each row sets the entry named by
      `name` (the protocol naming) for its protocol. */
  function Distribute(groups: seq<GroupRow>, total: nat, name: int -> string): map<string, Share>
    requires total > 0
  {
    if groups == [] then map[]
    else
      var g := groups[|groups| - 1];
      Distribute(groups[..|groups| - 1], total, name)[name(g.protocol) := ShareOf(g.count, total)]
  }

  /** `calculate_protocol_distribution`: {} on a store error or when no row is
      active, otherwise each active protocol's name mapped to its count and
      percentage of all active rows. */
  function ProtocolDistribution(rows: seq<FlowRow>, db: DbStatus): map<string, Share> {
    if db != Up then map[]
    else
      var groups := GroupByProtocol(ActiveRows(rows));
      var total := SumCounts(groups);
      if total == 0 then map[] else Distribute(groups, total, ProtocolName)
  }

  /** The percentages of a distribution added up (in any order). */
  ghost function SharesTotal(m: map<string, Share>): real
    decreases |m|
  {
    if m == map[] then 0.0
    else
      var k :| k in m;
      m[k].percentage + SharesTotal(m - {k})
  }

  lemma SharesTotalRemove(m: map<string, Share>, k: string)
    requires k in m
    ensures SharesTotal(m) == m[k].percentage + SharesTotal(m - {k})
    decreases |m|
  {
    var j :| j in m && SharesTotal(m) == m[j].percentage + SharesTotal(m - {j});
    if j != k {
      assert |m - {j}| < |m|;
      SharesTotalRemove(m - {j}, k);
      SharesTotalRemove(m - {k}, j);
      assert m - {j} - {k} == m - {k} - {j};
    }
  }

  lemma {:induction false} ProtocolsSpec(rows: seq<FlowRow>)
    ensures Distinct(Protocols(rows))
    ensures forall p :: p in Protocols(rows) <==> CountProtocol(rows, p) > 0
  {
    if rows != [] {
      ProtocolsSpec(rows[..|rows| - 1]);
    }
  }

  lemma {:induction false} SumCountsAppendRow(init: seq<FlowRow>, x: FlowRow, ps: seq<int>)
    requires Distinct(ps)
    ensures SumCounts(Groups(init + [x], ps)) == SumCounts(Groups(init, ps)) + (if x.protocol in ps then 1 else 0)
  {
    var rows := init + [x];
    assert rows[..|rows| - 1] == init;
    if ps != [] {
      var ps' := ps[..|ps| - 1];
      assert Groups(rows, ps)[..|ps| - 1] == Groups(rows, ps');
      assert Groups(init, ps)[..|ps| - 1] == Groups(init, ps');
      SumCountsAppendRow(init, x, ps');
    }
  }

  /** The GROUP BY counts add up to the number of rows grouped. */
  lemma {:induction false} GroupCountsAddUp(rows: seq<FlowRow>)
    ensures SumCounts(GroupByProtocol(rows)) == |rows|
  {
    if rows != [] {
      var init, x := rows[..|rows| - 1], rows[|rows| - 1];
      assert rows == init + [x];
      GroupCountsAddUp(init);
      ProtocolsSpec(init);
      var ps := Protocols(init);
      SumCountsAppendRow(init, x, ps);
      if x.protocol !in ps {
        var ps' := ps + [x.protocol];
        assert Groups(rows, ps')[..|ps|] == Groups(rows, ps);
        assert CountProtocol(init, x.protocol) == 0;
      }
    }
  }

  predicate DistinctProtocols(groups: seq<GroupRow>) {
    forall i, j :: 0 <= i < j < |groups| ==> groups[i].protocol != groups[j].protocol
  }

  /** A naming that gives distinct protocols distinct names. */
  ghost predicate Injective(name: int -> string) {
    forall p, q :: name(p) == name(q) ==> p == q
  }

  lemma ProtocolNameIsInjective()
    ensures Injective(ProtocolName)
  {
    forall p, q | ProtocolName(p) == ProtocolName(q) ensures p == q {
      ProtocolNameInjective(p, q);
    }
  }

  /** The entries the distribution loop builds from distinct protocols under
      an injective naming: one per protocol, under its name, with its share. */
  lemma {:induction false} DistributeEntries(groups: seq<GroupRow>, total: nat, name: int -> string)
    requires total > 0
    requires DistinctProtocols(groups) && Injective(name)
    ensures forall n :: n in Distribute(groups, total, name) <==>
      exists i :: 0 <= i < |groups| && name(groups[i].protocol) == n
    ensures forall i :: 0 <= i < |groups| ==>
      Distribute(groups, total, name)[name(groups[i].protocol)] == ShareOf(groups[i].count, total)
  {
    if groups != [] {
      var init, g := groups[..|groups| - 1], groups[|groups| - 1];
      DistributeEntries(init, total, name);
      var before, after := Distribute(init, total, name), Distribute(groups, total, name);
      assert after == before[name(g.protocol) := ShareOf(g.count, total)];
      forall n ensures n in after <==> exists i :: 0 <= i < |groups| && name(groups[i].protocol) == n {
        if n in before {
          var i :| 0 <= i < |init| && name(init[i].protocol) == n;
          assert groups[i] == init[i];
        }
        if exists i :: 0 <= i < |groups| && name(groups[i].protocol) == n {
          var i :| 0 <= i < |groups| && name(groups[i].protocol) == n;
          if i < |init| {
            assert init[i] == groups[i];
            assert n in before;
          }
        }
      }
      forall i | 0 <= i < |groups| ensures after[name(groups[i].protocol)] == ShareOf(groups[i].count, total) {
        if i < |init| {
          assert groups[i] == init[i];
          assert name(groups[i].protocol) != name(g.protocol);
        }
      }
    }
  }

  lemma ShareAdds(a: nat, b: nat, total: nat)
    requires total > 0
    ensures ShareOf(a, total).percentage + b as real / total as real * 100.0
         == (a + b) as real / total as real * 100.0
  {
  }

  lemma WholeShare(n: nat)
    requires n > 0
    ensures n as real / n as real * 100.0 == 100.0
  {
  }

  /** The name of the last group is not yet in the map the earlier groups built. */
  lemma LastNameIsNew(groups: seq<GroupRow>, total: nat, name: int -> string)
    requires total > 0 && groups != []
    requires DistinctProtocols(groups) && Injective(name)
    ensures name(groups[|groups| - 1].protocol) !in Distribute(groups[..|groups| - 1], total, name)
  {
    var init, g := groups[..|groups| - 1], groups[|groups| - 1];
    DistributeEntries(init, total, name);
    forall i | 0 <= i < |init| ensures name(init[i].protocol) != name(g.protocol) {
      assert init[i].protocol != g.protocol;
    }
  }

  /** The percentages the loop writes add up to the groups' share of `total`. */
  lemma {:induction false} DistributeTotal(groups: seq<GroupRow>, total: nat, name: int -> string)
    requires total > 0
    requires DistinctProtocols(groups) && Injective(name)
    ensures SharesTotal(Distribute(groups, total, name)) == SumCounts(groups) as real / total as real * 100.0
  {
    if groups != [] {
      var init, g := groups[..|groups| - 1], groups[|groups| - 1];
      DistributeTotal(init, total, name);
      var before := Distribute(init, total, name);
      var key := name(g.protocol);
      LastNameIsNew(groups, total, name);
      var after := Distribute(groups, total, name);
      assert after - {key} == before;
      SharesTotalRemove(after, key);
      ShareAdds(g.count, SumCounts(init), total);
    }
  }

  /** Some active row has protocol `p`. */
  predicate HasActiveProtocol(rows: seq<FlowRow>, p: int) {
    exists i :: 0 <= i < |rows| && rows[i].status == ACTIVE && rows[i].protocol == p
  }

  lemma ActiveProtocolCounted(rows: seq<FlowRow>, p: int)
    ensures HasActiveProtocol(rows, p) <==> CountProtocol(ActiveRows(rows), p) > 0
  {
    ActiveRowsSpec(rows);
    CountProtocolPositive(ActiveRows(rows), p);
    if HasActiveProtocol(rows, p) {
      var i :| 0 <= i < |rows| && rows[i].status == ACTIVE && rows[i].protocol == p;
      assert rows[i] in multiset(rows);
      assert rows[i] in ActiveRows(rows);
    }
    if CountProtocol(ActiveRows(rows), p) > 0 {
      var x :| x in ActiveRows(rows) && x.protocol == p;
      assert x in multiset(ActiveRows(rows));
      assert x in multiset(rows);
    }
  }

  lemma {:induction false} CountProtocolPositive(rows: seq<FlowRow>, p: int)
    ensures CountProtocol(rows, p) > 0 <==> exists x :: x in rows && x.protocol == p
  {
    if rows != [] {
      var init := rows[..|rows| - 1];
      CountProtocolPositive(init, p);
      assert rows == init + [rows[|rows| - 1]];
    }
  }

  /** The GROUP BY over the active rows lists exactly the active protocols,
      each once, and its counts add up to the number of active rows. */
  lemma ActiveGroups(rows: seq<FlowRow>)
    ensures DistinctProtocols(GroupByProtocol(ActiveRows(rows)))
    ensures SumCounts(GroupByProtocol(ActiveRows(rows))) == |ActiveRows(rows)|
    ensures forall p :: HasActiveProtocol(rows, p) <==> p in Protocols(ActiveRows(rows))
  {
    var active := ActiveRows(rows);
    GroupCountsAddUp(active);
    ProtocolsSpec(active);
    forall p ensures HasActiveProtocol(rows, p) <==> p in Protocols(active) {
      ActiveProtocolCounted(rows, p);
    }
  }

  /** The names in the distribution of the active rows are the names of the active protocols. */
  lemma DistributionKeys(rows: seq<FlowRow>)
    requires |ActiveRows(rows)| > 0
    ensures forall name :: name in Distribute(GroupByProtocol(ActiveRows(rows)), |ActiveRows(rows)|, ProtocolName) <==>
      exists p :: HasActiveProtocol(rows, p) && ProtocolName(p) == name
  {
    var active := ActiveRows(rows);
    var ps := Protocols(active);
    var groups := GroupByProtocol(active);
    ActiveGroups(rows);
    ProtocolNameIsInjective();
    DistributeEntries(groups, |active|, ProtocolName);
    var r := Distribute(groups, |active|, ProtocolName);
    forall name ensures name in r <==> exists p :: HasActiveProtocol(rows, p) && ProtocolName(p) == name {
      if name in r {
        var i :| 0 <= i < |groups| && ProtocolName(groups[i].protocol) == name;
        assert HasActiveProtocol(rows, ps[i]);
      }
      if exists p :: HasActiveProtocol(rows, p) && ProtocolName(p) == name {
        var p :| HasActiveProtocol(rows, p) && ProtocolName(p) == name;
        var i :| 0 <= i < |ps| && ps[i] == p;
        assert groups[i].protocol == p;
      }
    }
  }

  /** An active protocol's entry holds its count and share of the active rows. */
  lemma DistributionValue(rows: seq<FlowRow>, p: int)
    requires |ActiveRows(rows)| > 0 && HasActiveProtocol(rows, p)
    ensures ProtocolName(p) in Distribute(GroupByProtocol(ActiveRows(rows)), |ActiveRows(rows)|, ProtocolName)
    ensures Distribute(GroupByProtocol(ActiveRows(rows)), |ActiveRows(rows)|, ProtocolName)[ProtocolName(p)] ==
      ShareOf(CountProtocol(ActiveRows(rows), p), |ActiveRows(rows)|)
  {
    var active := ActiveRows(rows);
    var ps := Protocols(active);
    var groups := GroupByProtocol(active);
    ActiveGroups(rows);
    assert p in ps;
    var i :| 0 <= i < |ps| && ps[i] == p;
    assert groups[i] == GroupRow(p, CountProtocol(active, p));
    ProtocolNameIsInjective();
    DistributeEntries(groups, |active|, ProtocolName);
  }

  /** The protocol mix: empty exactly when the store fails or no row is active;
      otherwise one entry per active protocol, under its name, holding the
      number of active rows with that protocol and that number's percentage
      of all active rows; the percentages add up to 100. */
  lemma ProtocolDistributionSpec(rows: seq<FlowRow>, db: DbStatus)
    ensures ProtocolDistribution(rows, db) == map[] <==> db != Up || |ActiveRows(rows)| == 0
    ensures forall name :: name in ProtocolDistribution(rows, db) <==>
      db == Up && exists p :: HasActiveProtocol(rows, p) && ProtocolName(p) == name
    ensures db == Up ==> forall p :: HasActiveProtocol(rows, p) ==>
      ProtocolDistribution(rows, db)[ProtocolName(p)] ==
        ShareOf(CountProtocol(ActiveRows(rows), p), |ActiveRows(rows)|)
    ensures ProtocolDistribution(rows, db) != map[] ==> SharesTotal(ProtocolDistribution(rows, db)) == 100.0
  {
    var active := ActiveRows(rows);
    var r := ProtocolDistribution(rows, db);
    if db == Up && |active| > 0 {
      var groups := GroupByProtocol(active);
      ActiveGroups(rows);
      assert r == Distribute(groups, |active|, ProtocolName);
      DistributionKeys(rows);
      forall p | HasActiveProtocol(rows, p)
        ensures r[ProtocolName(p)] == ShareOf(CountProtocol(active, p), |active|)
      {
        DistributionValue(rows, p);
      }
      ProtocolNameIsInjective();
      DistributeTotal(groups, |active|, ProtocolName);
      WholeShare(|active|);
      assert HasActiveProtocol(rows, active[0].protocol) by {
        ActiveProtocolCounted(rows, active[0].protocol);
        CountProtocolPositive(active, active[0].protocol);
      }
      DistributionValue(rows, active[0].protocol);
    } else if db == Up {
      assert r == map[];
      forall p ensures !HasActiveProtocol(rows, p) {
        ActiveProtocolCounted(rows, p);
      }
    }
  }

  // ---------------------------------------------------------------------------
  // get_top_flows

  /** Ordered by `created_at`, newest first. */
  predicate NewestFirst(s: seq<FlowRow>) {
    forall i, j :: 0 <= i < j < |s| ==> s[i].createdAt >= s[j].createdAt
  }

  function InsertByAge(r: FlowRow, s: seq<FlowRow>): seq<FlowRow> {
    if s == [] || r.createdAt >= s[0].createdAt then [r] + s
    else [s[0]] + InsertByAge(r, s[1..])
  }

  /** `ORDER BY created_at DESC`. SQL leaves the order of equal timestamps
      open; this definition fixes one, and the lemmas below say only what
      every such order shares. */
  function SortNewestFirst(rows: seq<FlowRow>): seq<FlowRow> {
    if rows == [] then [] else InsertByAge(rows[0], SortNewestFirst(rows[1..]))
  }

  lemma {:induction false} InsertByAgeContents(r: FlowRow, s: seq<FlowRow>)
    ensures multiset(InsertByAge(r, s)) == multiset(s) + multiset{r}
  {
    if s != [] && r.createdAt < s[0].createdAt {
      InsertByAgeContents(r, s[1..]);
      assert s == [s[0]] + s[1..];
    }
  }

  /** No element of `s` is newer than `a`. */
  predicate NoneNewerThan(s: seq<FlowRow>, a: int) {
    forall i :: 0 <= i < |s| ==> s[i].createdAt <= a
  }

  /** A row no older than anything in a newest-first sequence may go in front. */
  lemma ConsNewestFirst(x: FlowRow, t: seq<FlowRow>)
    requires NewestFirst(t) && NoneNewerThan(t, x.createdAt)
    ensures NewestFirst([x] + t)
  {
  }

  lemma {:induction false} InsertByAgeSpec(r: FlowRow, s: seq<FlowRow>)
    requires NewestFirst(s)
    ensures NewestFirst(InsertByAge(r, s))
    ensures multiset(InsertByAge(r, s)) == multiset(s) + multiset{r}
    ensures forall a :: NoneNewerThan(s, a) && r.createdAt <= a ==> NoneNewerThan(InsertByAge(r, s), a)
  {
    InsertByAgeContents(r, s);
    if s == [] || r.createdAt >= s[0].createdAt {
      ConsNewestFirst(r, s);
    } else {
      var t := InsertByAge(r, s[1..]);
      InsertByAgeSpec(r, s[1..]);
      assert NoneNewerThan(s[1..], s[0].createdAt);
      assert NoneNewerThan(t, s[0].createdAt);
      ConsNewestFirst(s[0], t);
      forall a | NoneNewerThan(s, a) && r.createdAt <= a ensures NoneNewerThan([s[0]] + t, a) {
        assert NoneNewerThan(s[1..], a);
      }
    }
  }

  lemma {:induction false} SortNewestFirstSpec(rows: seq<FlowRow>)
    ensures NewestFirst(SortNewestFirst(rows))
    ensures multiset(SortNewestFirst(rows)) == multiset(rows)
  {
    if rows != [] {
      SortNewestFirstSpec(rows[1..]);
      InsertByAgeSpec(rows[0], SortNewestFirst(rows[1..]));
      assert rows == [rows[0]] + rows[1..];
    }
  }

  /** `get_top_flows`: [] on a store error, including the error a negative
      LIMIT raises; otherwise the first `limit` active rows, newest first.
      `get_top_flows` defaults `limit` to 10; callers pass it explicitly here. */
  function TopFlows(rows: seq<FlowRow>, limit: int, db: DbStatus): seq<FlowRow> {
    if db != Up || limit < 0 then []
    else
      var sorted := SortNewestFirst(ActiveRows(rows));
      if limit < |sorted| then sorted[..limit] else sorted
  }

  /** The top flows: empty on an error or a negative limit; otherwise
      min(limit, number of active rows) active rows of the store, newest
      first, none taken more often than it is stored, and no active row
      left out is newer than one returned. */
  lemma TopFlowsSpec(rows: seq<FlowRow>, limit: int, db: DbStatus)
    ensures db != Up || limit < 0 ==> TopFlows(rows, limit, db) == []
    ensures db == Up && limit >= 0 ==>
      |TopFlows(rows, limit, db)| == (if limit < |ActiveRows(rows)| then limit else |ActiveRows(rows)|)
    ensures NewestFirst(TopFlows(rows, limit, db))
    ensures multiset(TopFlows(rows, limit, db)) <= multiset(ActiveRows(rows))
    ensures forall x :: x in TopFlows(rows, limit, db) ==> x.status == ACTIVE && x in rows
    ensures forall x, y ::
      (x in multiset(ActiveRows(rows)) - multiset(TopFlows(rows, limit, db)) && y in TopFlows(rows, limit, db))
      ==> x.createdAt <= y.createdAt
  {
    var active := ActiveRows(rows);
    SortNewestFirstSpec(active);
    if db == Up && limit >= 0 {
      var sorted := SortNewestFirst(active);
      var k := if limit < |sorted| then limit else |sorted|;
      assert TopFlows(rows, limit, db) == sorted[..k];
      PrefixOfSorted(sorted, k);
      TopFlowsFromStore(rows, TopFlows(rows, limit, db));
    }
  }

  /** A prefix of a newest-first sequence is newest-first, and nothing after
      it is newer than anything in it. */
  lemma PrefixOfSorted(sorted: seq<FlowRow>, k: nat)
    requires NewestFirst(sorted) && k <= |sorted|
    ensures NewestFirst(sorted[..k])
    ensures multiset(sorted[..k]) <= multiset(sorted)
    ensures forall x, y :: (x in multiset(sorted) - multiset(sorted[..k]) && y in sorted[..k]) ==> x.createdAt <= y.createdAt
  {
    var r, rest := sorted[..k], sorted[k..];
    SplitMultiset(sorted, k);
    forall x: FlowRow, y: FlowRow | x in multiset(rest) && y in r ensures x.createdAt <= y.createdAt {
      LaterNoNewer(sorted, k, x, y);
    }
  }

  /** Cutting a sequence at `k` splits its multiset in two. */
  lemma SplitMultiset(sorted: seq<FlowRow>, k: nat)
    requires k <= |sorted|
    ensures multiset(sorted[..k]) <= multiset(sorted)
    ensures multiset(sorted) - multiset(sorted[..k]) == multiset(sorted[k..])
  {
    assert sorted == sorted[..k] + sorted[k..];
  }

  lemma LaterNoNewer(sorted: seq<FlowRow>, k: nat, x: FlowRow, y: FlowRow)
    requires NewestFirst(sorted) && k <= |sorted|
    requires x in sorted[k..] && y in sorted[..k]
    ensures x.createdAt <= y.createdAt
  {
    var j :| 0 <= j < |sorted[k..]| && sorted[k..][j] == x;
    var i :| 0 <= i < k && sorted[..k][i] == y;
    assert sorted[i] == y && sorted[k + j] == x;
  }

  /** Rows taken from the active rows are active rows of the store. */
  lemma TopFlowsFromStore(rows: seq<FlowRow>, r: seq<FlowRow>)
    requires multiset(r) <= multiset(ActiveRows(rows))
    ensures forall x :: x in r ==> x.status == ACTIVE && x in rows
  {
    ActiveRowsSpec(rows);
    forall x: FlowRow | x in r ensures x.status == ACTIVE && x in rows {
      assert x in multiset(r);
      assert x in multiset(ActiveRows(rows));
      assert x in multiset(rows);
    }
  }

  // ---------------------------------------------------------------------------
  // get_current_statistics

  /** The value `get_current_statistics` answers with. */
  datatype NetworkStats = NetworkStats(
    activeFlows: nat,
    totalPackets: int,
    totalBytes: int,
    lastUpdate: int,
    switchesConnected: nat)

  /** The fixed switch count reported while the cache answers. */
  const SWITCHES_CONNECTED: nat := 2

  /** `get_current_statistics`: from the cache when it answers (the size of
      the active set, the counters and last update defaulting to 0), otherwise
      zeros stamped with the current time and no switches. */
  function CurrentStatistics(c: CacheState, cacheUp: bool, now: int): NetworkStats {
    if cacheUp then
      NetworkStats(|c.activeFlows|, CounterValue(c, TotalPackets), CounterValue(c, TotalBytes),
                   c.globalStats.lastUpdate.GetOr(0), SWITCHES_CONNECTED)
    else NetworkStats(0, 0, 0, now, 0)
  }

  /** The statistics follow a complete cache update: one more active flow
      when the id is new (none otherwise), the totals grown by the digest's
      counts, and the last update stamped with the digest's arrival. */
  lemma StatisticsAfterDigest(s: SystemState, d: Digest, now: int, db: DbStatus, answered: nat, t: int)
    requires db != Lost && CacheWriteOf(d, now).Some? && answered >= 6
    requires CountersFit(s.cache, CacheWriteOf(d, now).value)
    ensures var before, after := CurrentStatistics(s.cache, true, t),
                                 CurrentStatistics(Ingest(s, d, now, db, answered).cache, true, t);
      && after.activeFlows == before.activeFlows + (if d.flowId.value in s.cache.activeFlows then 0 else 1)
      && after.totalPackets == before.totalPackets + d.packetCount.GetOr(0)
      && after.totalBytes == before.totalBytes + d.byteCount.GetOr(0)
      && after.lastUpdate == now
      && after.switchesConnected == SWITCHES_CONNECTED
  {
    CacheDigestFullyApplied(s.cache, d, now, answered);
    var a, key := s.cache.activeFlows, d.flowId.value;
    assert Ingest(s, d, now, db, answered).cache.activeFlows == a + {key};
    if key in a {
      assert a + {key} == a;
    } else {
      assert |a + {key}| == |a| + |{key}|;
    }
  }

  /** A cache error reports nothing from the cache: every count is zero, no
      switch is connected, and the last update is the current time. */
  lemma StatisticsOnCacheError(c: CacheState, c': CacheState, now: int)
    ensures CurrentStatistics(c, false, now) == NetworkStats(0, 0, 0, now, 0)
    ensures CurrentStatistics(c, false, now) == CurrentStatistics(c', false, now)
  {
  }
}
