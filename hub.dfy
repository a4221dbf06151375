/** The service's store and its two writing handlers: the listing that
    consumes accounts (main.go:124-183) and the bulk add (main.go:185-228).
    The clock is a parameter: `hour` is the current bucket key and `now` the
    current time in seconds. */
module Hub {
  import opened Wrappers
  import opened Accounts
  import opened Metrics
  import opened Auth

  /** The reply of GET /api/accounts. */
  datatype ListReply =
    | Listed(accounts: seq<Account>)
    | ListError(status: int, error: string)
    | Insufficient(available: nat, requested: int)
  {
    /** The HTTP status the reply goes out with. */
    function Status(): int
    {
      match this
      case Listed(_) => 200
      case ListError(status, _) => status
      case Insufficient(_, _) => 400
    }
  }

  /** The reply of POST /api/accounts: 200 with "accounts added", or 400 when
      the body does not bind. */
  datatype AddReply = AccountsAdded | BadBody

  /** The database: the Account and Metric tables with their id counters.
      `Valid()` is the schema's guarantees on both tables. The handlers and
      `TakeAccounts` keep it. The single-write steps (`CreateAccount`,
      `DeleteAccount`, `InsertBatch`, `RecordConsume`, `RecordAdd`) state
      their new state as a value-level function of the old one instead; the
      handlers get validity from the lemmas about those functions
      (`InsertAllValid`, `ConsumeBucket`, `AddBucket`), which keeps each
      step's proof small. */
  class Database {
    var accounts: seq<Account>
    var nextAccountId: nat
    var metrics: seq<Metric>
    var nextMetricId: nat

    ghost function AccountPool(): Pool
      reads this
    {
      Pool(accounts, nextAccountId)
    }

    ghost function MetricTable(): Table
      reads this
    {
      Table(metrics, nextMetricId)
    }

    ghost predicate Valid()
      reads this
    {
      PoolValid(AccountPool()) && TableValid(MetricTable())
    }

    /** A freshly migrated, empty database. */
    constructor ()
      ensures Valid()
      ensures accounts == [] && nextAccountId == 1 && metrics == [] && nextMetricId == 1
    {
      accounts, nextAccountId := [], 1;
      metrics, nextMetricId := [], 1;
    }

    /** `db.Create(&account)`. */
    method CreateAccount(a: Account) returns (ok: bool)
      modifies this
      ensures (AccountPool(), ok) == Insert(old(AccountPool()), a)
      ensures metrics == old(metrics) && nextMetricId == old(nextMetricId)
    {
      ghost var r := Insert(AccountPool(), a);
      if a.clientId in ClientIds(accounts) || (a.id != 0 && a.id in Ids(accounts)) {
        return false;
      }
      var row := if a.id == 0 then a.(id := nextAccountId) else a;
      accounts := accounts + [row];
      if nextAccountId <= row.id {
        nextAccountId := row.id + 1;
      }
      ok := true;
      assert AccountPool() == r.0;
    }

    /** `db.Delete(&account)`: removes the row with that primary key. */
    method DeleteAccount(id: nat)
      modifies this
      ensures accounts == Without(old(accounts), {id})
      ensures nextAccountId == old(nextAccountId)
      ensures metrics == old(metrics) && nextMetricId == old(nextMetricId)
    {
      accounts := Without(accounts, {id});
    }

    /** `Limit(count).Find(&accounts)` followed by one `Delete` per row
        (main.go:147-150): `n` accounts of the pool are returned and are gone
        from it afterwards; every other account stays. The model takes the
        first `n` rows in storage order; the contract holds for any choice. */
    method TakeAccounts(n: nat) returns (taken: seq<Account>)
      requires Valid() && 0 < n <= |accounts|
      modifies this
      ensures Valid()
      ensures |taken| == n && UniqueIds(taken)
      ensures forall a :: a in taken ==> a in old(accounts)
      ensures accounts == Without(old(accounts), Ids(taken))
      ensures |accounts| == |old(accounts)| - n
      ensures nextAccountId == old(nextAccountId)
      ensures metrics == old(metrics) && nextMetricId == old(nextMetricId)
    {
      taken := accounts[..n];
      ghost var pool := accounts;
      assert taken[..0] == [];
      WithoutNothing(pool);
      var i := 0;
      while i < |taken|
        invariant 0 <= i <= |taken|
        invariant accounts == Without(pool, Ids(taken[..i]))
        invariant nextAccountId == old(nextAccountId)
        invariant metrics == old(metrics) && nextMetricId == old(nextMetricId)
      {
        DeleteNext(pool, taken, i);
        DeleteAccount(taken[i].id);
        i := i + 1;
      }
      assert taken[..i] == taken;
      TakePrefix(old(AccountPool()), n);
    }

    /** The hourly find-or-create of the consume path (main.go:152-178). */
    method RecordConsume(hour: string, now: int, count: int)
      modifies this
      ensures MetricTable() == ConsumeUpsert(old(MetricTable()), hour, now, |accounts|, count)
      ensures accounts == old(accounts) && nextAccountId == old(nextAccountId)
    {
      ghost var t := MetricTable();
      var last := LastMetric(metrics);
      var current := |accounts|;
      match FindHour(metrics, hour) {
        case Some(k) =>
          var hourMetric := metrics[k];
          hourMetric := hourMetric.(currentCount := current, totalCount := last.totalCount,
                                    usedCount := last.usedCount + count,
                                    apiCallCount := last.apiCallCount + 1, timestamp := now);
          metrics := metrics[k := hourMetric];
          ConsumeAt(t, hour, now, current, count, k);
          assert hourMetric == t.rows[k].(currentCount := current, totalCount := last.totalCount,
                                          usedCount := last.usedCount + count,
                                          apiCallCount := last.apiCallCount + 1, timestamp := now);
        case None =>
          var created := Metric(nextMetricId, current, last.totalCount, last.usedCount + count,
                                last.apiCallCount + 1, now, hour);
          metrics := metrics + [created];
          nextMetricId := nextMetricId + 1;
          ConsumeNew(t, hour, now, current, count);
      }
    }

    /** The hourly find-or-create of the add path (main.go:194-195, 204-225).
        The newest row is read before the inserts in the source; the inserts
        do not touch the Metric table, so reading it here is the same. */
    method RecordAdd(hour: string, now: int, added: int)
      modifies this
      ensures MetricTable() == AddUpsert(old(MetricTable()), hour, now, |accounts|, added)
      ensures accounts == old(accounts) && nextAccountId == old(nextAccountId)
    {
      ghost var t := MetricTable();
      var last := LastMetric(metrics);
      var current := |accounts|;
      match FindHour(metrics, hour) {
        case Some(k) =>
          var hourMetric := metrics[k];
          hourMetric := hourMetric.(currentCount := current, totalCount := last.totalCount + added,
                                    timestamp := now);
          metrics := metrics[k := hourMetric];
          AddAt(t, hour, now, current, added, k);
          assert hourMetric == t.rows[k].(currentCount := current, totalCount := last.totalCount + added,
                                          timestamp := now);
        case None =>
          var created := Metric(nextMetricId, current, last.totalCount + added, last.usedCount,
                                last.apiCallCount, now, hour);
          metrics := metrics + [created];
          nextMetricId := nextMetricId + 1;
          AddNew(t, hour, now, current, added);
      }
    }

    /** The insert loop of the bulk add (main.go:197-202). */
    method InsertBatch(input: seq<Account>) returns (added: nat)
      modifies this
      ensures (AccountPool(), added) == InsertAll(old(AccountPool()), input)
      ensures metrics == old(metrics) && nextMetricId == old(nextMetricId)
    {
      ghost var goal := InsertAll(AccountPool(), input);
      added := 0;
      var i := 0;
      while i < |input|
        invariant 0 <= i <= |input|
        invariant InsertAll(AccountPool(), input[i..]).0 == goal.0
        invariant added + InsertAll(AccountPool(), input[i..]).1 == goal.1
        invariant metrics == old(metrics) && nextMetricId == old(nextMetricId)
      {
        assert input[i..][1..] == input[i + 1..];
        var ok := CreateAccount(input[i]);
        if ok {
          added := added + 1;
        }
        i := i + 1;
      }
      assert input[i..] == [];
    }

    /** GET /api/accounts. `authorization` is the header (empty when absent);
        `count` the parsed query parameter, "0" when absent, None when it is
        not an integer. A count of 0 lists the pool; a positive count takes
        that many accounts out of the pool and records the consumption. */
    method GetAccounts(authorization: string, count: Option<int>, hour: string, now: int)
      returns (reply: ListReply)
      requires Valid()
      modifies this
      ensures Valid()
      ensures !BearerGate(authorization) ==>
        reply == ListError(401, "unauthorized") && unchanged(this)
      ensures BearerGate(authorization) && (count.None? || count.value < 0) ==>
        reply == ListError(400, "invalid count parameter") && unchanged(this)
      ensures BearerGate(authorization) && count == Some(0) ==>
        reply == Listed(old(accounts)) && unchanged(this)
      ensures BearerGate(authorization) && count.Some? && count.value > |old(accounts)| ==>
        reply == Insufficient(|old(accounts)|, count.value) && unchanged(this)
      ensures BearerGate(authorization) && count.Some? && 0 < count.value <= |old(accounts)| ==>
        && reply.Listed?
        && |reply.accounts| == count.value
        && UniqueIds(reply.accounts)
        && (forall a :: a in reply.accounts ==> a in old(accounts))
        && accounts == Without(old(accounts), Ids(reply.accounts))
        && |accounts| == |old(accounts)| - count.value
        && nextAccountId == old(nextAccountId)
        && MetricTable() == ConsumeUpsert(old(MetricTable()), hour, now, |accounts|, count.value)
    {
      if !BearerGate(authorization) {
        return ListError(401, "unauthorized");
      }
      if count.None? || count.value < 0 {
        return ListError(400, "invalid count parameter");
      }
      var n := count.value;
      if n == 0 {
        return Listed(accounts);
      }
      var total := |accounts|;
      if total < n {
        return Insufficient(total, n);
      }
      var taken := TakeAccounts(n);
      ConsumeBucket(MetricTable(), hour, now, |accounts|, n);
      RecordConsume(hour, now, n);
      reply := Listed(taken);
    }

    /** POST /api/accounts. `batch` is the bound body's account list, None
        when the body does not bind. Each account is inserted on its own; the
        successful inserts are counted and recorded in the hour's bucket. The
        reply does not depend on how many were added. */
    method AddAccounts(batch: Option<seq<Account>>, hour: string, now: int) returns (reply: AddReply)
      requires Valid()
      modifies this
      ensures Valid()
      ensures batch.None? ==> reply == BadBody && unchanged(this)
      ensures batch.Some? ==>
        && reply == AccountsAdded
        && var (pool, added) := InsertAll(old(AccountPool()), batch.value);
        && AccountPool() == pool
        && MetricTable() == AddUpsert(old(MetricTable()), hour, now, |pool.rows|, added)
    {
      if batch.None? {
        return BadBody;
      }
      InsertAllValid(AccountPool(), batch.value);
      var added := InsertBatch(batch.value);
      AddBucket(MetricTable(), hour, now, |accounts|, added);
      RecordAdd(hour, now, added);
      reply := AccountsAdded;
    }
  }

  /** Two accounts with different client ids and no ids of their own go
      into an empty table as rows 1 and 2. */
  lemma TwoIntoEmpty(a: Account, b: Account)
    requires a.id == 0 && b.id == 0 && a.clientId != b.clientId
    ensures InsertAll(Pool([], 1), [a, b]) == (Pool([a.(id := 1), b.(id := 2)], 3), 2)
  {
    var a1, b2 := a.(id := 1), b.(id := 2);
    assert Insert(Pool([], 1), a) == (Pool([a1], 2), true);
    assert [a1][..0] == [];
    assert ClientIds([a1]) == {a.clientId};
    assert Accepts([a1], b);
    assert [a1] + [b2] == [a1, b2];
    assert Insert(Pool([a1], 2), b).1;
    assert Insert(Pool([a1], 2), b).0.rows == [a1, b2];
    assert Insert(Pool([a1], 2), b) == (Pool([a1, b2], 3), true);
    assert InsertAll(Pool([a1, b2], 3), []) == (Pool([a1, b2], 3), 0);
    assert [b][1..] == [];
    assert InsertAll(Pool([a1], 2), [b]) == (Pool([a1, b2], 3), 1);
    assert [a, b][1..] == [b];
  }

  /** On an empty Metric table, adding two accounts creates the hour's row;
      consuming one afterwards rewrites that row in place. */
  lemma FirstBuckets(hour: string, now: int)
    ensures AddUpsert(Table([], 1), hour, now, 2, 2) == Table([Metric(1, 2, 2, 0, 0, now, hour)], 2)
    ensures ConsumeUpsert(Table([Metric(1, 2, 2, 0, 0, now, hour)], 2), hour, now, 1, 1)
      == Table([Metric(1, 1, 2, 1, 1, now, hour)], 2)
  {
  }

  /** A first hour of service on an empty database: two accounts are added,
      one is consumed in the same hour, then five are asked for. The hour has
      one bucket row, rewritten in place by the consume, and the last request
      is refused with the one account that is left. */
  method Walkthrough(hour: string, now: int)
    returns (buckets: nat, total: int, used: int, calls: int, current: int, refused: ListReply)
    ensures buckets == 1 && total == 2 && used == 1 && calls == 1 && current == 1
    ensures refused == Insufficient(1, 5)
  {
    var db := new Database();
    var a := Account(0, "token-a", "client-a", "secret-a");
    var b := Account(0, "token-b", "client-b", "secret-b");
    assert a.clientId[7] != b.clientId[7];
    TwoIntoEmpty(a, b);
    FirstBuckets(hour, now);
    var added := db.AddAccounts(Some([a, b]), hour, now);
    assert |db.accounts| == 2 && db.metrics == [Metric(1, 2, 2, 0, 0, now, hour)] && db.nextMetricId == 2;
    AnyTokenPasses("token");
    var taken := db.GetAccounts("Bearer " + "token", Some(1), hour, now);
    assert |db.accounts| == 1 && db.metrics == [Metric(1, 1, 2, 1, 1, now, hour)];
    refused := db.GetAccounts("Bearer " + "token", Some(5), hour, now);
    buckets := |db.metrics|;
    var row := db.metrics[0];
    total, used, calls, current := row.totalCount, row.usedCount, row.apiCallCount, row.currentCount;
  }
}
