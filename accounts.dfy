/** The Account table (main.go:15-20) as a value: its rows in storage order,
    the identifier the store hands out next, the two unique indexes, and the
    two row-level writes the handlers issue (insert one row, delete by id). */
module Accounts {

  /** One stored credential. In a request body `id == 0` means "absent": the
      store then assigns the next identifier. */
  datatype Account = Account(id: nat, refreshToken: string, clientId: string, clientSecret: string)

  /** The table together with the identifier the store would assign next. */
  datatype Pool = Pool(rows: seq<Account>, nextId: nat)

  /** The primary keys in use. */
  function Ids(rows: seq<Account>): (r: set<nat>)
    ensures forall a :: a in rows ==> a.id in r
  {
    if rows == [] then {}
    else
      var front := rows[..|rows| - 1];
      assert rows == front + [rows[|rows| - 1]];
      Ids(front) + {rows[|rows| - 1].id}
  }

  /** The client ids in use. */
  function ClientIds(rows: seq<Account>): (r: set<string>)
    ensures forall a :: a in rows ==> a.clientId in r
  {
    if rows == [] then {}
    else
      var front := rows[..|rows| - 1];
      assert rows == front + [rows[|rows| - 1]];
      ClientIds(front) + {rows[|rows| - 1].clientId}
  }

  /** The primary-key index: no two rows share an id. */
  predicate UniqueIds(rows: seq<Account>)
  {
    rows == [] ||
    (rows[|rows| - 1].id !in Ids(rows[..|rows| - 1]) && UniqueIds(rows[..|rows| - 1]))
  }

  /** The unique index on `client_id` (main.go:18). */
  predicate UniqueClientIds(rows: seq<Account>)
  {
    rows == [] ||
    (rows[|rows| - 1].clientId !in ClientIds(rows[..|rows| - 1]) && UniqueClientIds(rows[..|rows| - 1]))
  }

  /** The schema's guarantees: primary keys and client ids are unique, and every
      identifier in use is positive and below the next one to be assigned. */
  ghost predicate PoolValid(p: Pool)
  {
    && UniqueIds(p.rows)
    && UniqueClientIds(p.rows)
    && 0 < p.nextId
    && forall a :: a in p.rows ==> 0 < a.id < p.nextId
  }

  lemma AppendRow(rows: seq<Account>, a: Account)
    ensures Ids(rows + [a]) == Ids(rows) + {a.id}
    ensures ClientIds(rows + [a]) == ClientIds(rows) + {a.clientId}
    ensures UniqueIds(rows + [a]) <==> UniqueIds(rows) && a.id !in Ids(rows)
    ensures UniqueClientIds(rows + [a]) <==> UniqueClientIds(rows) && a.clientId !in ClientIds(rows)
  {
    assert (rows + [a])[..|rows|] == rows;
  }

  /** Every id in use is below any bound all rows stay below. */
  lemma {:induction false} IdsBelow(rows: seq<Account>, bound: nat)
    ensures (forall a :: a in rows ==> a.id < bound) ==> forall k :: k in Ids(rows) ==> k < bound
  {
    if rows != [] {
      var front := rows[..|rows| - 1];
      assert forall a :: a in front ==> a in rows;
      IdsBelow(front, bound);
    }
  }

  lemma {:induction false} ClientIdsCons(a: Account, rows: seq<Account>)
    ensures ClientIds([a] + rows) == {a.clientId} + ClientIds(rows)
  {
    if rows == [] {
      assert [a] + rows == [a];
      assert [a][..0] == [];
    } else {
      var front := rows[..|rows| - 1];
      assert ([a] + rows)[..|rows|] == [a] + front;
      ClientIdsCons(a, front);
    }
  }

  /** Without duplicate ids there are as many ids as rows. */
  lemma {:induction false} IdsCard(rows: seq<Account>)
    requires UniqueIds(rows)
    ensures |Ids(rows)| == |rows|
  {
    if rows != [] {
      IdsCard(rows[..|rows| - 1]);
    }
  }

  /** Without duplicate client ids there are as many client ids as rows. */
  lemma {:induction false} ClientIdsCard(rows: seq<Account>)
    requires UniqueClientIds(rows)
    ensures |ClientIds(rows)| == |rows|
  {
    if rows != [] {
      ClientIdsCard(rows[..|rows| - 1]);
    }
  }

  /** A prefix of rows with unique ids has unique ids, all of them in use. */
  lemma {:induction false} UniquePrefix(rows: seq<Account>, n: nat)
    requires UniqueIds(rows) && n <= |rows|
    ensures UniqueIds(rows[..n])
    ensures Ids(rows[..n]) <= Ids(rows)
  {
    if n < |rows| {
      var front := rows[..|rows| - 1];
      assert rows[..n] == front[..n];
      UniquePrefix(front, n);
    } else {
      assert rows[..n] == rows;
    }
  }

  /** `rows` without the rows whose id is in `gone`, in the same order: what
      deleting those rows by primary key leaves behind. */
  function Without(rows: seq<Account>, gone: set<nat>): (r: seq<Account>)
    ensures forall a :: a in r <==> a in rows && a.id !in gone
    ensures Ids(r) == Ids(rows) - gone
    ensures ClientIds(r) <= ClientIds(rows)
    ensures UniqueIds(rows) ==> UniqueIds(r)
    ensures UniqueClientIds(rows) ==> UniqueClientIds(r)
  {
    if rows == [] then []
    else
      var front := rows[..|rows| - 1];
      var last := rows[|rows| - 1];
      assert rows == front + [last];
      var rest := Without(front, gone);
      AppendRow(front, last);
      if last.id in gone then rest
      else
        AppendRow(rest, last);
        rest + [last]
  }

  /** Deleting no ids leaves the table as it is. */
  lemma {:induction false} WithoutNothing(rows: seq<Account>)
    ensures Without(rows, {}) == rows
  {
    if rows != [] {
      WithoutNothing(rows[..|rows| - 1]);
      assert rows == rows[..|rows| - 1] + [rows[|rows| - 1]];
    }
  }

  /** Deleting `a` and then `b` is deleting `a + b`. */
  lemma {:induction false} WithoutTwice(rows: seq<Account>, a: set<nat>, b: set<nat>)
    ensures Without(Without(rows, a), b) == Without(rows, a + b)
  {
    if rows != [] {
      var front := rows[..|rows| - 1];
      var last := rows[|rows| - 1];
      WithoutTwice(front, a, b);
      if last.id !in a {
        var once := Without(rows, a);
        assert once == Without(front, a) + [last];
        assert once[..|once| - 1] == Without(front, a);
      }
    }
  }

  /** When the ids are unique and every id in `gone` is in use, deleting
      them shrinks the table by exactly `|gone|` rows. */
  lemma DeleteCount(rows: seq<Account>, gone: set<nat>)
    requires UniqueIds(rows) && gone <= Ids(rows)
    ensures |Without(rows, gone)| == |rows| - |gone|
  {
    var r := Without(rows, gone);
    IdsCard(rows);
    IdsCard(r);
  }

  /** Deleting the rows of `taken[..i]` and then the row of `taken[i]` is
      deleting the rows of `taken[..i + 1]`. */
  lemma DeleteNext(rows: seq<Account>, taken: seq<Account>, i: nat)
    requires i < |taken|
    ensures Without(Without(rows, Ids(taken[..i])), {taken[i].id}) == Without(rows, Ids(taken[..i + 1]))
  {
    assert taken[..i + 1] == taken[..i] + [taken[i]];
    AppendRow(taken[..i], taken[i]);
    WithoutTwice(rows, Ids(taken[..i]), {taken[i].id});
  }

  /** Taking the first `n` rows of a valid table and deleting them by id
      leaves a valid table, `n` rows smaller. */
  lemma TakePrefix(p: Pool, n: nat)
    requires PoolValid(p) && n <= |p.rows|
    ensures UniqueIds(p.rows[..n]) && |p.rows[..n]| == n
    ensures forall a :: a in p.rows[..n] ==> a in p.rows
    ensures |Without(p.rows, Ids(p.rows[..n]))| == |p.rows| - n
    ensures PoolValid(Pool(Without(p.rows, Ids(p.rows[..n])), p.nextId))
  {
    UniquePrefix(p.rows, n);
    IdsCard(p.rows[..n]);
    DeleteCount(p.rows, Ids(p.rows[..n]));
  }

  /** What the store checks before it accepts an insert: the client id is
      new, and so is an explicitly given primary key. */
  predicate Accepts(rows: seq<Account>, a: Account)
  {
    a.clientId !in ClientIds(rows) && (a.id == 0 || a.id !in Ids(rows))
  }

  /** `db.Create(&account)`: the row is appended with its own id or, when that
      is absent, the next one; a row that breaks a unique index is refused and
      leaves the table as it was. The flag says whether the insert succeeded. */
  function Insert(p: Pool, a: Account): (r: (Pool, bool))
    ensures r.1 <==> Accepts(p.rows, a)
    ensures !r.1 ==> r.0 == p
    ensures r.1 ==> |r.0.rows| == |p.rows| + 1 && r.0.rows[..|p.rows|] == p.rows
    ensures r.1 ==> var row := r.0.rows[|p.rows|];
      row.clientId == a.clientId && row.clientSecret == a.clientSecret &&
      row.refreshToken == a.refreshToken && (a.id != 0 ==> row.id == a.id)
  {
    if Accepts(p.rows, a) then
      var row := if a.id == 0 then a.(id := p.nextId) else a;
      assert (p.rows + [row])[..|p.rows|] == p.rows;
      (Pool(p.rows + [row], if row.id < p.nextId then p.nextId else row.id + 1), true)
    else
      (p, false)
  }

  /** An insert keeps both unique indexes and the id counter above every id. */
  lemma InsertValid(p: Pool, a: Account)
    requires PoolValid(p)
    ensures PoolValid(Insert(p, a).0)
  {
    if Accepts(p.rows, a) {
      var row := if a.id == 0 then a.(id := p.nextId) else a;
      AppendRow(p.rows, row);
      IdsBelow(p.rows, p.nextId);
    }
  }

  /** The insert loop of the bulk add: each account is inserted on its own, in
      order, and the successful inserts are counted. */
  function InsertAll(p: Pool, batch: seq<Account>): (r: (Pool, nat))
    ensures r.1 <= |batch|
    ensures |r.0.rows| == |p.rows| + r.1
    ensures r.0.rows[..|p.rows|] == p.rows
    decreases |batch|
  {
    if batch == [] then (p, 0)
    else
      var first := Insert(p, batch[0]);
      var rest := InsertAll(first.0, batch[1..]);
      assert rest.0.rows[..|p.rows|] == rest.0.rows[..|first.0.rows|][..|p.rows|];
      (rest.0, rest.1 + if first.1 then 1 else 0)
  }

  /** The inserts of a batch keep both unique indexes and the id counter. */
  lemma {:induction false} InsertAllValid(p: Pool, batch: seq<Account>)
    requires PoolValid(p)
    ensures PoolValid(InsertAll(p, batch).0)
    decreases |batch|
  {
    if batch != [] {
      InsertValid(p, batch[0]);
      InsertAllValid(Insert(p, batch[0]).0, batch[1..]);
    }
  }

  /** One insert with no explicit id adds its client id to the column,
      whether it succeeds or is refused as a duplicate. */
  lemma InsertClientIds(p: Pool, a: Account)
    requires a.id == 0
    ensures ClientIds(Insert(p, a).0.rows) == ClientIds(p.rows) + {a.clientId}
  {
    var (p1, ok) := Insert(p, a);
    if ok {
      AppendRow(p.rows, p1.rows[|p.rows|]);
      assert p1.rows == p.rows + [p1.rows[|p.rows|]];
    }
  }

  /** `row` stores the credential of the request `a`: its client id, refresh
      token and client secret. */
  predicate Carries(row: Account, a: Account)
  {
    row.clientId == a.clientId && row.refreshToken == a.refreshToken && row.clientSecret == a.clientSecret
  }

  /** Some row from position `n` on stores the credential of `a`. */
  predicate StoredFrom(rows: seq<Account>, n: nat, a: Account)
  {
    exists j :: n <= j < |rows| && Carries(rows[j], a)
  }

  /** `row` stores the credential of one of the requests of `batch`. */
  predicate FromBatch(row: Account, batch: seq<Account>)
  {
    exists i :: 0 <= i < |batch| && Carries(row, batch[i])
  }

  /** Every row from position `n` on stores the credential of a request of `batch`. */
  predicate AllFromBatch(rows: seq<Account>, n: nat, batch: seq<Account>)
  {
    forall j :: n <= j < |rows| ==> FromBatch(rows[j], batch)
  }

  /** Every row a batch appends stores the credential of one of the batch's
      requests. */
  lemma {:induction false} InsertAllRows(p: Pool, batch: seq<Account>)
    ensures AllFromBatch(InsertAll(p, batch).0.rows, |p.rows|, batch)
    decreases |batch|
  {
    if batch != [] {
      var first := Insert(p, batch[0]);
      var tail := batch[1..];
      var rows := InsertAll(first.0, tail).0.rows;
      assert InsertAll(p, batch).0.rows == rows;
      InsertAllRows(first.0, tail);
      forall j | |p.rows| <= j < |rows|
        ensures FromBatch(rows[j], batch)
      {
        if j < |first.0.rows| {
          assert rows[..|first.0.rows|][j] == first.0.rows[j];
          assert Carries(rows[j], batch[0]);
        } else {
          assert FromBatch(rows[j], tail);
          var i :| 0 <= i < |tail| && Carries(rows[j], tail[i]);
          assert tail[i] == batch[i + 1];
        }
      }
    }
  }

  /** An accepted insert without an explicit id stores its request's credential
      right after the old rows, and the rest of the batch keeps that row. */
  lemma FirstStored(p: Pool, batch: seq<Account>)
    requires batch != [] && batch[0].id == 0 && batch[0].clientId !in ClientIds(p.rows)
    ensures StoredFrom(InsertAll(p, batch).0.rows, |p.rows|, batch[0])
  {
    var first := Insert(p, batch[0]);
    var rows := InsertAll(first.0, batch[1..]).0.rows;
    assert InsertAll(p, batch).0.rows == rows;
    assert rows[..|first.0.rows|][|p.rows|] == first.0.rows[|p.rows|];
    assert Carries(rows[|p.rows|], batch[0]);
  }

  /** A request new to the table and to the requests before it is still new
      after the first request of the batch has been inserted. */
  lemma StaysNew(p: Pool, batch: seq<Account>, i: nat)
    requires 0 < i < |batch| && batch[0].id == 0
    requires batch[i].clientId !in ClientIds(p.rows) + ClientIds(batch[..i])
    ensures batch[i].clientId !in ClientIds(Insert(p, batch[0]).0.rows) + ClientIds(batch[1..][..i - 1])
  {
    InsertClientIds(p, batch[0]);
    assert batch[0] in batch[..i];
    var tail := batch[1..];
    assert tail[..i - 1] == batch[1..i];
    ClientIdsSub(tail[..i - 1], batch[..i]);
  }

  /** With no explicit ids in the batch, each request whose client id is new,
      to the table and to the requests before it, is stored: some appended row
      carries its credential. */
  lemma {:induction false} FirstOfEachStored(p: Pool, batch: seq<Account>)
    requires forall i :: 0 <= i < |batch| ==> batch[i].id == 0
    ensures forall i :: 0 <= i < |batch| && batch[i].clientId !in ClientIds(p.rows) + ClientIds(batch[..i]) ==>
      StoredFrom(InsertAll(p, batch).0.rows, |p.rows|, batch[i])
    decreases |batch|
  {
    if batch != [] {
      var first := Insert(p, batch[0]);
      var tail := batch[1..];
      var rows := InsertAll(first.0, tail).0.rows;
      assert InsertAll(p, batch).0.rows == rows;
      FirstOfEachStored(first.0, tail);
      forall i | 0 <= i < |batch| && batch[i].clientId !in ClientIds(p.rows) + ClientIds(batch[..i])
        ensures StoredFrom(rows, |p.rows|, batch[i])
      {
        if i == 0 {
          assert batch[..0] == [];
          FirstStored(p, batch);
        } else {
          StaysNew(p, batch, i);
          assert tail[i - 1] == batch[i];
          assert StoredFrom(rows, |first.0.rows|, tail[i - 1]);
        }
      }
    }
  }

  /** The client ids of rows drawn from `big` are among `big`'s. */
  lemma {:induction false} ClientIdsSub(small: seq<Account>, big: seq<Account>)
    requires forall a :: a in small ==> a in big
    ensures ClientIds(small) <= ClientIds(big)
  {
    if small != [] {
      var front := small[..|small| - 1];
      assert forall a :: a in front ==> a in small;
      ClientIdsSub(front, big);
    }
  }

  /** With no explicit ids in the batch, the client ids afterwards are the old
      ones and the batch's. */
  lemma {:induction false} InsertAllClientIds(p: Pool, batch: seq<Account>)
    requires forall i :: 0 <= i < |batch| ==> batch[i].id == 0
    ensures ClientIds(InsertAll(p, batch).0.rows) == ClientIds(p.rows) + ClientIds(batch)
    decreases |batch|
  {
    if batch != [] {
      var p1 := Insert(p, batch[0]).0;
      InsertClientIds(p, batch[0]);
      InsertAllClientIds(p1, batch[1..]);
      ClientIdsCons(batch[0], batch[1..]);
      assert [batch[0]] + batch[1..] == batch;
    }
  }

  /** Set union counted: `b` adds only what `a` lacks. */
  lemma UnionCard<T>(a: set<T>, b: set<T>)
    ensures |a + b| == |a| + |b - a|
  {
    assert a + b == a + (b - a);
    assert a * (b - a) == {};
  }

  /** With no explicit ids in the batch, `added` is the number of client ids
      the batch brings that the table did not have: a duplicate, whether of a
      stored row or of an earlier account of the same batch, is not counted. */
  lemma AddedAreNewClientIds(p: Pool, batch: seq<Account>)
    requires PoolValid(p)
    requires forall i :: 0 <= i < |batch| ==> batch[i].id == 0
    ensures InsertAll(p, batch).1 == |ClientIds(batch) - ClientIds(p.rows)|
  {
    var r := InsertAll(p, batch);
    InsertAllValid(p, batch);
    InsertAllClientIds(p, batch);
    ClientIdsCard(p.rows);
    ClientIdsCard(r.0.rows);
    UnionCard(ClientIds(p.rows), ClientIds(batch));
  }
}
