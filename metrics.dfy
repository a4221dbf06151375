/** The Metric table (main.go:22-30) as a value: hourly bucket rows in storage
    order with the identifier the store hands out next, the two find-or-create
    writes of the handlers, and the last-24-hours query. Timestamps are whole
    seconds; the hour key is the formatted bucket name, passed in. */
module Metrics {
  import opened Wrappers

  datatype Metric = Metric(
    id: nat,
    currentCount: int,
    totalCount: int,
    usedCount: int,
    apiCallCount: int,
    timestamp: int,
    hour: string)

  /** What `First(&lastMetric)` leaves behind when the table is empty: Go's zero value. */
  const NoMetric := Metric(0, 0, 0, 0, 0, 0, "")

  datatype Table = Table(rows: seq<Metric>, nextId: nat)

  /** Rows appear in the order they were created: ids strictly increase. */
  predicate IdsIncrease(rows: seq<Metric>)
  {
    forall i, j :: 0 <= i < j < |rows| ==> rows[i].id < rows[j].id
  }

  /** At most one bucket row per hour key. */
  predicate OnePerHour(rows: seq<Metric>)
  {
    forall i, j :: 0 <= i < j < |rows| ==> rows[i].hour != rows[j].hour
  }

  predicate TableValid(t: Table)
  {
    && IdsIncrease(t.rows)
    && OnePerHour(t.rows)
    && 0 < t.nextId
    && forall i :: 0 <= i < |t.rows| ==> 0 < t.rows[i].id < t.nextId
  }

  /** `Order("id desc").First(&lastMetric)`: the row with the highest id, or
      the zero row when there is none. */
  function LastMetric(rows: seq<Metric>): (r: Metric)
    ensures rows == [] ==> r == NoMetric
  {
    if rows == [] then NoMetric
    else
      var rest := LastMetric(rows[1..]);
      if rows[1..] == [] || rows[0].id > rest.id then rows[0] else rest
  }

  /** The newest row is one of the rows, and no row has a higher id. */
  lemma {:induction false} LastIsNewest(rows: seq<Metric>)
    requires rows != []
    ensures LastMetric(rows) in rows
    ensures forall i :: 0 <= i < |rows| ==> rows[i].id <= LastMetric(rows).id
  {
    var tail := rows[1..];
    if tail != [] {
      LastIsNewest(tail);
      forall i | 1 <= i < |rows|
        ensures rows[i].id <= LastMetric(rows).id
      {
        assert rows[i] == tail[i - 1];
      }
    }
  }

  /** In a table whose ids increase, the newest row is the last one. */
  lemma NewestIsLast(rows: seq<Metric>)
    requires IdsIncrease(rows) && rows != []
    ensures LastMetric(rows) == rows[|rows| - 1]
  {
    LastIsNewest(rows);
    var r := LastMetric(rows);
    var k :| 0 <= k < |rows| && rows[k] == r;
    assert rows[|rows| - 1].id <= r.id;
  }

  /** `Where("hour = ?", hour).First(&hourMetric)`: the position of the first
      row for `hour`, or None when the hour has no row yet. */
  function FindHour(rows: seq<Metric>, hour: string): (r: Option<nat>)
    ensures r.Some? ==> r.value < |rows| && rows[r.value].hour == hour
    ensures r.Some? ==> forall j :: 0 <= j < r.value ==> rows[j].hour != hour
    ensures r.None? <==> forall j :: 0 <= j < |rows| ==> rows[j].hour != hour
  {
    if rows == [] then None
    else if rows[0].hour == hour then Some(0)
    else
      match FindHour(rows[1..], hour)
      case None =>
        assert forall j :: 1 <= j < |rows| ==> rows[j] == rows[1..][j - 1];
        None
      case Some(k) => Some(k + 1)
  }

  /** The first row for `hour` is the one FindHour finds. */
  lemma FirstOfHour(rows: seq<Metric>, hour: string, k: nat)
    requires k < |rows| && rows[k].hour == hour
    requires forall j :: 0 <= j < k ==> rows[j].hour != hour
    ensures FindHour(rows, hour) == Some(k)
  {
    var r := FindHour(rows, hour);
    assert r.Some?;
    assert r.value == k;
  }

  /** The counters of a bucket row. */
  predicate HasCounters(m: Metric, current: int, total: int, used: int, calls: int)
  {
    m.currentCount == current && m.totalCount == total && m.usedCount == used && m.apiCallCount == calls
  }

  /** How a find-or-create write relates the table after to the table before:
      rows of other hours are untouched; an existing row for `hour` keeps its
      position and id and no id is spent; otherwise exactly one row is
      appended, with the next id. Either way the hour then has its row. */
  predicate Upserted(t: Table, r: Table, hour: string)
  {
    && FindHour(r.rows, hour).Some?
    && (forall j :: 0 <= j < |t.rows| && t.rows[j].hour != hour ==> j < |r.rows| && r.rows[j] == t.rows[j])
    && (if FindHour(t.rows, hour).Some? then
          var k := FindHour(t.rows, hour).value;
          |r.rows| == |t.rows| && r.nextId == t.nextId && r.rows[k].id == t.rows[k].id
          && FindHour(r.rows, hour) == Some(k)
        else
          |r.rows| == |t.rows| + 1 && r.nextId == t.nextId + 1 && r.rows[|t.rows|].id == t.nextId
          && FindHour(r.rows, hour) == Some(|t.rows|))
  }

  /** The bucket row for `hour` in a table where it exists. */
  function HourRow(t: Table, hour: string): Metric
    requires FindHour(t.rows, hour).Some?
  {
    t.rows[FindHour(t.rows, hour).value]
  }

  /** Rewriting one row in place with its id and hour kept keeps the table valid. */
  lemma RewriteValid(t: Table, k: nat, m: Metric)
    requires k < |t.rows| && m.id == t.rows[k].id && m.hour == t.rows[k].hour
    ensures TableValid(t) ==> TableValid(Table(t.rows[k := m], t.nextId))
  {
  }

  /** Appending a row for an hour that has none, with the next id, keeps the
      table valid. */
  lemma AppendValid(t: Table, m: Metric)
    requires FindHour(t.rows, m.hour).None? && m.id == t.nextId
    ensures TableValid(t) ==> TableValid(Table(t.rows + [m], t.nextId + 1))
  {
    if TableValid(t) {
      var rows := t.rows + [m];
      forall i, j | 0 <= i < j < |rows|
        ensures rows[i].id < rows[j].id && rows[i].hour != rows[j].hour
      {
        if j == |t.rows| {
          assert rows[i] == t.rows[i];
        }
      }
    }
  }

  /** Rewriting the hour's row in place, with its id and hour kept, is an upsert. */
  lemma RewriteUpserts(t: Table, hour: string, k: nat, m: Metric)
    requires FindHour(t.rows, hour) == Some(k)
    requires m.id == t.rows[k].id && m.hour == hour
    ensures var r := Table(t.rows[k := m], t.nextId);
      Upserted(t, r, hour) && HourRow(r, hour) == m
  {
    var r := Table(t.rows[k := m], t.nextId);
    assert forall j :: 0 <= j < k ==> r.rows[j] == t.rows[j];
    FirstOfHour(r.rows, hour, k);
  }

  /** Appending a row for an hour that has none, with the next id, is an upsert. */
  lemma AppendUpserts(t: Table, hour: string, m: Metric)
    requires FindHour(t.rows, hour).None?
    requires m.id == t.nextId && m.hour == hour
    ensures var r := Table(t.rows + [m], t.nextId + 1);
      Upserted(t, r, hour) && HourRow(r, hour) == m
  {
    var rows := t.rows + [m];
    assert forall j :: 0 <= j < |t.rows| ==> rows[j] == t.rows[j];
    FirstOfHour(rows, hour, |t.rows|);
  }

  /** The metric write of a consume of `count` accounts (main.go:152-178):
      the hour's row is rewritten in place, or created when the hour has none. */
  function ConsumeUpsert(t: Table, hour: string, now: int, current: int, count: int): Table
  {
    var last := LastMetric(t.rows);
    match FindHour(t.rows, hour)
    case Some(k) =>
      var m := t.rows[k].(currentCount := current, totalCount := last.totalCount,
                          usedCount := last.usedCount + count, apiCallCount := last.apiCallCount + 1,
                          timestamp := now);
      Table(t.rows[k := m], t.nextId)
    case None =>
      var m := Metric(t.nextId, current, last.totalCount, last.usedCount + count,
                      last.apiCallCount + 1, now, hour);
      Table(t.rows + [m], t.nextId + 1)
  }

  /** The value of a consume when the hour already has row `k`. */
  lemma ConsumeAt(t: Table, hour: string, now: int, current: int, count: int, k: nat)
    requires FindHour(t.rows, hour) == Some(k)
    ensures var last := LastMetric(t.rows);
      ConsumeUpsert(t, hour, now, current, count)
        == Table(t.rows[k := t.rows[k].(currentCount := current, totalCount := last.totalCount,
                                        usedCount := last.usedCount + count,
                                        apiCallCount := last.apiCallCount + 1, timestamp := now)],
                 t.nextId)
  {
  }

  /** The value of a consume when the hour has no row yet. */
  lemma ConsumeNew(t: Table, hour: string, now: int, current: int, count: int)
    requires FindHour(t.rows, hour).None?
    ensures var last := LastMetric(t.rows);
      ConsumeUpsert(t, hour, now, current, count)
        == Table(t.rows + [Metric(t.nextId, current, last.totalCount, last.usedCount + count,
                                  last.apiCallCount + 1, now, hour)],
                 t.nextId + 1)
  {
  }

  /** After a consume the hour has exactly its one row, and both branches give
      it the same counters: the pool size now, the newest row's total, its
      used count plus `count` and its call count plus one. */
  lemma ConsumeBucket(t: Table, hour: string, now: int, current: int, count: int)
    ensures var r := ConsumeUpsert(t, hour, now, current, count);
      var last := LastMetric(t.rows);
      && Upserted(t, r, hour)
      && (TableValid(t) ==> TableValid(r))
      && HasCounters(HourRow(r, hour), current, last.totalCount, last.usedCount + count, last.apiCallCount + 1)
      && HourRow(r, hour).timestamp == now
  {
    var last := LastMetric(t.rows);
    var r := ConsumeUpsert(t, hour, now, current, count);
    match FindHour(t.rows, hour)
    case Some(k) =>
      var m := t.rows[k].(currentCount := current, totalCount := last.totalCount,
                          usedCount := last.usedCount + count, apiCallCount := last.apiCallCount + 1,
                          timestamp := now);
      assert r == Table(t.rows[k := m], t.nextId);
      RewriteUpserts(t, hour, k, m);
      RewriteValid(t, k, m);
    case None =>
      var m := Metric(t.nextId, current, last.totalCount, last.usedCount + count,
                      last.apiCallCount + 1, now, hour);
      assert r == Table(t.rows + [m], t.nextId + 1);
      AppendUpserts(t, hour, m);
      AppendValid(t, m);
  }

  /** The metric write of a bulk add of which `added` inserts succeeded
      (main.go:194-225): the hour's row is rewritten in place, or created when
      the hour has none. */
  function AddUpsert(t: Table, hour: string, now: int, current: int, added: int): Table
  {
    var last := LastMetric(t.rows);
    match FindHour(t.rows, hour)
    case Some(k) =>
      var m := t.rows[k].(currentCount := current, totalCount := last.totalCount + added, timestamp := now);
      Table(t.rows[k := m], t.nextId)
    case None =>
      var m := Metric(t.nextId, current, last.totalCount + added, last.usedCount, last.apiCallCount, now, hour);
      Table(t.rows + [m], t.nextId + 1)
  }

  /** The value of a bulk add's metric write when the hour already has row `k`. */
  lemma AddAt(t: Table, hour: string, now: int, current: int, added: int, k: nat)
    requires FindHour(t.rows, hour) == Some(k)
    ensures var last := LastMetric(t.rows);
      AddUpsert(t, hour, now, current, added)
        == Table(t.rows[k := t.rows[k].(currentCount := current, totalCount := last.totalCount + added,
                                        timestamp := now)],
                 t.nextId)
  {
  }

  /** The value of a bulk add's metric write when the hour has no row yet. */
  lemma AddNew(t: Table, hour: string, now: int, current: int, added: int)
    requires FindHour(t.rows, hour).None?
    ensures var last := LastMetric(t.rows);
      AddUpsert(t, hour, now, current, added)
        == Table(t.rows + [Metric(t.nextId, current, last.totalCount + added, last.usedCount,
                                  last.apiCallCount, now, hour)],
                 t.nextId + 1)
  {
  }

  /** After a bulk add the hour has exactly its one row, with the pool size now
      and the newest row's total plus `added`; an existing row keeps its own
      used and call counts, a new one copies the newest row's. */
  lemma AddBucket(t: Table, hour: string, now: int, current: int, added: int)
    ensures var r := AddUpsert(t, hour, now, current, added);
      var last := LastMetric(t.rows);
      && Upserted(t, r, hour)
      && (TableValid(t) ==> TableValid(r))
      && var row := HourRow(r, hour);
      && row.currentCount == current && row.totalCount == last.totalCount + added && row.timestamp == now
      && (if FindHour(t.rows, hour).Some? then
            var before := t.rows[FindHour(t.rows, hour).value];
            row.usedCount == before.usedCount && row.apiCallCount == before.apiCallCount
          else
            row.usedCount == last.usedCount && row.apiCallCount == last.apiCallCount)
  {
    var last := LastMetric(t.rows);
    var r := AddUpsert(t, hour, now, current, added);
    match FindHour(t.rows, hour)
    case Some(k) =>
      var m := t.rows[k].(currentCount := current, totalCount := last.totalCount + added, timestamp := now);
      assert r == Table(t.rows[k := m], t.nextId);
      RewriteUpserts(t, hour, k, m);
      RewriteValid(t, k, m);
    case None =>
      var m := Metric(t.nextId, current, last.totalCount + added, last.usedCount, last.apiCallCount, now, hour);
      assert r == Table(t.rows + [m], t.nextId + 1);
      AppendUpserts(t, hour, m);
      AppendValid(t, m);
  }

  /** Twenty-four hours, in seconds. */
  const Day := 24 * 60 * 60

  predicate SortedByTime(rows: seq<Metric>)
  {
    forall i, j :: 0 <= i < j < |rows| ==> rows[i].timestamp <= rows[j].timestamp
  }

  /** `Where("timestamp >= ?", cutoff)`: the rows stamped at or after `cutoff`, in storage order. */
  function Since(rows: seq<Metric>, cutoff: int): (r: seq<Metric>)
    ensures forall m :: m in r <==> m in rows && m.timestamp >= cutoff
    ensures forall m :: multiset(r)[m] == if m.timestamp >= cutoff then multiset(rows)[m] else 0
  {
    if rows == [] then []
    else
      var rest := Since(rows[1..], cutoff);
      assert rows == [rows[0]] + rows[1..];
      if rows[0].timestamp >= cutoff then [rows[0]] + rest else rest
  }

  /** A row no later than the head of a time-ordered sequence can go in front of it. */
  lemma ConsSorted(m: Metric, rows: seq<Metric>)
    requires SortedByTime(rows)
    requires rows == [] || m.timestamp <= rows[0].timestamp
    ensures SortedByTime([m] + rows)
  {
    var r := [m] + rows;
    forall i, j | 0 <= i < j < |r|
      ensures r[i].timestamp <= r[j].timestamp
    {
      if i > 0 {
        assert r[i] == rows[i - 1] && r[j] == rows[j - 1];
      } else if j > 1 {
        assert r[j] == rows[j - 1];
      }
    }
  }

  /** Dropping the head of a time-ordered sequence keeps it in order. */
  lemma TailSorted(rows: seq<Metric>)
    requires SortedByTime(rows) && rows != []
    ensures SortedByTime(rows[1..])
  {
    var tail := rows[1..];
    forall i, j | 0 <= i < j < |tail| ensures tail[i].timestamp <= tail[j].timestamp {
      assert tail[i] == rows[i + 1] && tail[j] == rows[j + 1];
    }
  }

  /** Places `m` among rows already in timestamp order: before the first row
      stamped later than it. */
  function InsertByTime(m: Metric, rows: seq<Metric>): (r: seq<Metric>)
    requires SortedByTime(rows)
    ensures SortedByTime(r)
    ensures |r| == |rows| + 1 && (r[0] == m || (rows != [] && r[0] == rows[0]))
  {
    if rows == [] || m.timestamp <= rows[0].timestamp then
      ConsSorted(m, rows);
      [m] + rows
    else
      TailSorted(rows);
      var rest := InsertByTime(m, rows[1..]);
      ConsSorted(rows[0], rest);
      [rows[0]] + rest
  }

  /** Inserting adds exactly `m` to the rows. */
  lemma {:induction false} InsertByTimeAdds(m: Metric, rows: seq<Metric>)
    requires SortedByTime(rows)
    ensures multiset(InsertByTime(m, rows)) == multiset(rows) + multiset{m}
  {
    if rows == [] || m.timestamp <= rows[0].timestamp {
    } else {
      TailSorted(rows);
      InsertByTimeAdds(m, rows[1..]);
      assert rows == [rows[0]] + rows[1..];
    }
  }

  /** Sorting by insertion: the result is in timestamp order and holds the same rows. */
  function SortByTime(rows: seq<Metric>): (r: seq<Metric>)
    ensures SortedByTime(r)
    ensures multiset(r) == multiset(rows)
  {
    if rows == [] then []
    else
      var tail := rows[1..];
      var rest := SortByTime(tail);
      InsertByTimeAdds(rows[0], rest);
      assert rows == [rows[0]] + tail;
      assert multiset(rows) == multiset(tail) + multiset{rows[0]};
      InsertByTime(rows[0], rest)
  }

  /** The metrics query (main.go:230-235): the rows stamped within the last
      twenty-four hours of `now`, oldest first. */
  function RecentMetrics(rows: seq<Metric>, now: int): (r: seq<Metric>)
    ensures SortedByTime(r)
    ensures forall m :: m in r <==> m in rows && now - Day <= m.timestamp
    ensures forall m :: multiset(r)[m] == if now - Day <= m.timestamp then multiset(rows)[m] else 0
  {
    var since := Since(rows, now - Day);
    var r := SortByTime(since);
    assert forall m :: m in r <==> m in multiset(since);
    r
  }
}
