/** The record store: the rows of `monitoring.flow_metadata`, and the three
    statements the collector runs against them. */
module Records {
  import opened Wrappers
  import opened FlowTypes

  /** `SELECT id FROM monitoring.flow_metadata WHERE flow_id = key` finds a row. */
  predicate HasFlow(rows: seq<FlowRow>, key: FlowId) {
    exists i :: 0 <= i < |rows| && rows[i].flowId == key
  }

  /** The number of rows whose flow id is `key`. */
  function CountFlow(rows: seq<FlowRow>, key: FlowId): nat {
    if rows == [] then 0
    else CountFlow(rows[..|rows| - 1], key) + (if rows[|rows| - 1].flowId == key then 1 else 0)
  }

  /** The invariant the check-then-insert keeps: no two rows share a flow id
      (the table itself does not enforce it: only `id` is a key). */
  predicate UniqueFlowIds(rows: seq<FlowRow>) {
    forall i, j :: 0 <= i < j < |rows| ==> rows[i].flowId != rows[j].flowId
  }

  /** `UPDATE ... SET updated_at = NOW() WHERE flow_id = key`. */
  function TouchRows(rows: seq<FlowRow>, key: FlowId, now: int): seq<FlowRow> {
    seq(|rows|, i requires 0 <= i < |rows| =>
      if rows[i].flowId == key then rows[i].(updatedAt := now) else rows[i])
  }

  /** `UPDATE ... SET status = 'inactive', flow_end_time = NOW() WHERE flow_id = key`,
      run for every key in `keys`. */
  function MarkInactive(rows: seq<FlowRow>, keys: set<FlowId>, now: int): seq<FlowRow> {
    seq(|rows|, i requires 0 <= i < |rows| =>
      if rows[i].flowId in keys then rows[i].(status := INACTIVE, flowEndTime := Some(now)) else rows[i])
  }

  /** `after` is `before` with, at most, rows appended at the end: every earlier
      row keeps its flow id, its creation time and its protocol, and no row that
      was not active becomes active again. */
  ghost predicate Evolves(before: seq<FlowRow>, after: seq<FlowRow>) {
    && |before| <= |after|
    && forall i :: 0 <= i < |before| ==>
         && after[i].flowId == before[i].flowId
         && after[i].createdAt == before[i].createdAt
         && after[i].protocol == before[i].protocol
         && (before[i].status != ACTIVE ==> after[i].status != ACTIVE)
  }

  lemma EvolvesTransitive(a: seq<FlowRow>, b: seq<FlowRow>, c: seq<FlowRow>)
    requires Evolves(a, b) && Evolves(b, c)
    ensures Evolves(a, c)
  {
  }

  lemma {:induction false} CountFlowAppend(rows: seq<FlowRow>, row: FlowRow, key: FlowId)
    ensures CountFlow(rows + [row], key) == CountFlow(rows, key) + (if row.flowId == key then 1 else 0)
  {
    assert (rows + [row])[..|rows|] == rows;
  }

  /** A flow id is counted exactly when some row carries it. */
  lemma {:induction false} CountFlowPositive(rows: seq<FlowRow>, key: FlowId)
    ensures CountFlow(rows, key) > 0 <==> HasFlow(rows, key)
  {
    if rows != [] {
      var init := rows[..|rows| - 1];
      CountFlowPositive(init, key);
      if HasFlow(init, key) {
        var i :| 0 <= i < |init| && init[i].flowId == key;
        assert rows[i].flowId == key;
      }
      if HasFlow(rows, key) && rows[|rows| - 1].flowId != key {
        var i :| 0 <= i < |rows| && rows[i].flowId == key;
        assert init[i].flowId == key;
      }
    }
  }

  /** Under the invariant no flow id is counted twice. */
  lemma {:induction false} CountFlowUnique(rows: seq<FlowRow>, key: FlowId)
    requires UniqueFlowIds(rows)
    ensures CountFlow(rows, key) <= 1
  {
    if rows != [] {
      var init := rows[..|rows| - 1];
      CountFlowUnique(init, key);
      if rows[|rows| - 1].flowId == key {
        assert forall i :: 0 <= i < |init| ==> init[i].flowId != key;
        CountFlowPositive(init, key);
      }
    }
  }

  /** Touching rows changes their `updated_at` and nothing else. */
  lemma TouchRowsChangesOnlyUpdatedAt(rows: seq<FlowRow>, key: FlowId, now: int)
    ensures |TouchRows(rows, key, now)| == |rows|
    ensures forall i :: 0 <= i < |rows| ==>
      TouchRows(rows, key, now)[i] ==
        (if rows[i].flowId == key then rows[i].(updatedAt := now) else rows[i])
    ensures Evolves(rows, TouchRows(rows, key, now))
    ensures forall k :: CountFlow(TouchRows(rows, key, now), k) == CountFlow(rows, k)
  {
    forall k ensures CountFlow(TouchRows(rows, key, now), k) == CountFlow(rows, k) {
      SameIdsSameCount(rows, TouchRows(rows, key, now), k);
    }
  }

  /** Marking rows inactive sets exactly the rows of `keys` to 'inactive' with
      end time `now`, and leaves every other row as it was. */
  lemma MarkInactiveEffect(rows: seq<FlowRow>, keys: set<FlowId>, now: int)
    ensures |MarkInactive(rows, keys, now)| == |rows|
    ensures forall i :: 0 <= i < |rows| && rows[i].flowId in keys ==>
      MarkInactive(rows, keys, now)[i].status == INACTIVE
      && MarkInactive(rows, keys, now)[i].flowEndTime == Some(now)
    ensures forall i :: 0 <= i < |rows| && rows[i].flowId !in keys ==>
      MarkInactive(rows, keys, now)[i] == rows[i]
    ensures Evolves(rows, MarkInactive(rows, keys, now))
    ensures forall k :: CountFlow(MarkInactive(rows, keys, now), k) == CountFlow(rows, k)
  {
    forall k ensures CountFlow(MarkInactive(rows, keys, now), k) == CountFlow(rows, k) {
      SameIdsSameCount(rows, MarkInactive(rows, keys, now), k);
    }
  }

  /** Marking for `keys` and then for one more key is marking for both at once
      (the second write of a row repeats the same values). */
  lemma MarkInactiveAddKey(rows: seq<FlowRow>, keys: set<FlowId>, key: FlowId, now: int)
    ensures MarkInactive(MarkInactive(rows, keys, now), {key}, now) == MarkInactive(rows, keys + {key}, now)
  {
  }

  lemma {:induction false} SameIdsSameCount(a: seq<FlowRow>, b: seq<FlowRow>, key: FlowId)
    requires |a| == |b|
    requires forall i :: 0 <= i < |a| ==> a[i].flowId == b[i].flowId
    ensures CountFlow(a, key) == CountFlow(b, key)
  {
    if a != [] {
      SameIdsSameCount(a[..|a| - 1], b[..|b| - 1], key);
    }
  }

  /** The record store, updated in place by the collector's statements. */
  class RecordStore {
    var rows: seq<FlowRow>

    constructor (initial: seq<FlowRow>)
      ensures rows == initial
    {
      rows := initial;
    }

    /** `INSERT INTO monitoring.flow_metadata ...` of one row. */
    method Insert(row: FlowRow)
      modifies this
      ensures rows == old(rows) + [row]
    {
      rows := rows + [row];
    }

    /** `UPDATE ... SET updated_at = NOW() WHERE flow_id = key`. */
    method Touch(key: FlowId, now: int)
      modifies this
      ensures rows == TouchRows(old(rows), key, now)
    {
      rows := TouchRows(rows, key, now);
    }

    /** `UPDATE ... SET status = 'inactive', flow_end_time = NOW() WHERE flow_id = key`. */
    method Deactivate(key: FlowId, now: int)
      modifies this
      ensures rows == MarkInactive(old(rows), {key}, now)
    {
      rows := MarkInactive(rows, {key}, now);
    }
  }
}
