# amazonq-account-hub, modelled in Dafny

The hub is a small HTTP service, `main.go`, that holds a pool of credential
accounts in a relational store.

- A shared passkey is exchanged for a token: `POST /api/auth`.
- Any `Bearer …` header may consume accounts: `GET /api/accounts?count=N`. A
  consume returns N accounts and deletes them from the pool.
- Accounts are bulk-added one insert at a time: `POST /api/accounts`.
  Duplicates are skipped silently.
- Every consume and add is recorded in a Metric row for the current hour. The
  row is found or created and carries cumulative totals forward from the
  newest row.
- The last 24 hours of those rows can be read back: `GET /api/metrics`.

The project is split into five files:

- `wrappers.dfy`: `Option`.
- `accounts.dfy` (module `Accounts`): the Account table as a value.
  - `Pool`: the rows in storage order and the next identifier.
  - The two unique indexes: the primary key and `client_id`.
  - `Insert`: the single-row insert of GORM's `Create`, including its refusal
    of a duplicate key.
  - `InsertAll`: the insert loop of the bulk add.
  - `Without`: delete by primary key.
- `metrics.dfy` (module `Metrics`): the Metric table as a value.
  - `LastMetric`: "the newest row", `Order("id desc").First`.
  - `FindHour`: "the hour's row", `Where("hour = ?").First`.
  - The two find-or-create writes: `ConsumeUpsert` and `AddUpsert`.
  - `RecentMetrics`: the 24-hour query, as a filter followed by an insertion
    sort on the timestamp.
- `auth.dfy` (module `Auth`): the login handler and the bearer-header check.
- `hub.dfy` (module `Hub`): `class Database` with the two tables as fields
  that its methods update in place. The handlers `GetAccounts` and
  `AddAccounts` are methods built from the store's row-level writes:
  - `CreateAccount`
  - `DeleteAccount`
  - the delete loop `TakeAccounts`
  - the insert loop `InsertBatch`
  - the hourly writes `RecordConsume` and `RecordAdd`

  Each method is proved against the value-level function of the same step.
  The properties of those functions are proved as lemmas.

Three behaviours of `main.go` that are easy to miss are modelled as written:

- Both branches of the consume path's metric write add `count` to
  `used_count` and 1 to `api_call_count`. That includes the branch that
  creates a new hour row (main.go:173-174), not only the in-place update
  (main.go:165-166).
- The bulk add binds each account's `id` field and passes it to `Create`
  (main.go:187, 199). A non-zero id is stored as the primary key. An id that
  clashes with a stored row makes the insert fail and go uncounted, as a
  duplicate `client_id` does.
- The bearer check (main.go:126) accepts the header `"Bearer "` with nothing
  after it.

The weak bearer check is kept as written. `Auth.AnyTokenPasses` states it.

## Model

| member | source | states |
|---|---|---|
| Auth.Authenticate | main.go:97-122 | the four outcomes partition the inputs, each as an if-and-only-if. An unbindable body gives 400 "invalid request". An empty passkey gives 400 "passkey required". A non-empty passkey with no configured secret gives 500. A match gives 200 with the passkey itself as token. Any other passkey gives 401 "invalid passkey". |
| Auth.GateIsPrefixOnly | main.go:125-129 | the header check admits exactly the headers that are "Bearer " followed by anything |
| Auth.AnyTokenPasses | main.go:125-129 | every token after the prefix passes, including the empty one and one that is not the passkey |
| Accounts.AppendRow | main.go:15-20 | appending a row adds its id and client id to the two indexes. The unique indexes hold afterwards exactly when they held before and the new keys were absent. |
| Accounts.IdsCard | main.go:16 | with a unique primary key there are as many ids as rows |
| Accounts.ClientIdsCard | main.go:18 | with a unique client_id index there are as many client ids as rows |
| Accounts.Insert | main.go:199 | an insert succeeds exactly when the store accepts it, that is the client id is new and so is any explicit id. A refused insert leaves the table unchanged. An accepted insert appends one row carrying the request's fields (and its explicit id, if any) and keeps the rows before it. |
| Accounts.InsertValid | main.go:199 | an insert keeps both unique indexes and keeps every id positive and below the next id |
| Accounts.InsertAll | main.go:197-202 | the count of successful inserts is at most the batch length. The table grows by exactly that count, and its old rows are kept as a prefix. |
| Accounts.InsertAllRows | main.go:197-202 | every row the batch appends stores the client id, refresh token and client secret of one of the batch's requests |
| Accounts.FirstOfEachStored | main.go:197-202 | with no explicit ids, every request whose client id is new to the table and to the requests before it is stored: an appended row carries its client id, refresh token and secret. With the unique client_id index this is the one row for that client id. |
| Accounts.InsertAllValid | main.go:197-202 | a whole batch of inserts keeps the table valid |
| Accounts.InsertClientIds | main.go:199 | an insert without an explicit id leaves the client_id column as the old one plus the request's client id, whether it succeeds or is a duplicate |
| Accounts.InsertAllClientIds | main.go:197-202 | after a batch without explicit ids, the client ids are the old ones plus the batch's |
| Accounts.AddedAreNewClientIds | main.go:197-202 | with no explicit ids, the number added is the number of client ids the batch brings that the table lacked. Duplicates of stored rows and repeats within the batch are not counted. |
| Accounts.Without | main.go:149 | deleting by id keeps exactly the rows whose id is not deleted. The ids left are the old ones minus those deleted. Both unique indexes are kept. |
| Accounts.WithoutNothing | main.go:148-150 | deleting no ids changes nothing |
| Accounts.WithoutTwice | main.go:148-150 | deleting one set of ids and then another is deleting their union |
| Accounts.DeleteCount | main.go:148-150 | deleting k ids that are in use removes exactly k rows |
| Accounts.DeleteNext | main.go:148-150 | one more iteration of the delete loop deletes one more id |
| Accounts.UniquePrefix | main.go:147 | a prefix of the table has unique ids, all of them in use |
| Accounts.TakePrefix | main.go:147-150 | n rows taken from a valid table have unique ids. Deleting them leaves a valid table exactly n rows smaller. |
| Metrics.LastMetric | main.go:152-153 | on an empty table the newest row is Go's zero Metric |
| Metrics.LastIsNewest | main.go:152-153 | on a non-empty table the newest row is one of the rows, and no row has a higher id |
| Metrics.NewestIsLast | main.go:152-153 | when ids increase with storage order, the newest row is the last one |
| Metrics.FindHour | main.go:161-162 | finds the first row for the hour, or none exactly when no row has that hour |
| Metrics.FirstOfHour | main.go:161-162 | the first row whose hour matches is the one found |
| Metrics.RewriteValid | main.go:168 | saving a row in place with its id and hour unchanged keeps the table valid: ids increasing, one row per hour, ids below the next id |
| Metrics.AppendValid | main.go:170-177 | creating a row for an hour that has none, with the next id, keeps the table valid |
| Metrics.RewriteUpserts | main.go:161-168 | rewriting the hour's row in place is a find-or-create. Rows of other hours are untouched, the length and next id stay the same, and the row is found again at the same position. |
| Metrics.AppendUpserts | main.go:169-177 | creating the hour's row is a find-or-create. Exactly one row is appended, with the next id, and it is the one found for the hour afterwards. |
| Metrics.ConsumeBucket | main.go:152-178 | after a consume the hour has its one row with those counters and the current time, other hours are untouched, and the table stays valid. This holds whichever branch was taken. |
| Metrics.AddBucket | main.go:194-225 | after an add the hour has its one row with the current count, total and timestamp, and the table stays valid. An existing row keeps its own used and call counts; a created row copies the newest row's. |
| Metrics.Since | main.go:233 | keeps exactly the rows stamped at or after the cutoff, each as often as it is stored, and no others |
| Metrics.ConsSorted | main.go:233 | a row no later than the head can be put in front of a time-ordered sequence |
| Metrics.TailSorted | main.go:233 | the tail of a time-ordered sequence is time-ordered |
| Metrics.InsertByTime | main.go:233 | placing a row into time-ordered rows keeps them ordered and adds one row |
| Metrics.InsertByTimeAdds | main.go:233 | placing a row adds exactly that row: the multiset grows by it |
| Metrics.SortByTime | main.go:233 | the result is in ascending timestamp order and is a permutation of the input |
| Metrics.RecentMetrics | main.go:230-235 | the reply is in ascending timestamp order and holds exactly the rows stamped within the last 24 hours, each as often as it is stored |
| Hub.Database.constructor | main.go:34-44 | a freshly migrated store: both tables empty, both id counters at 1, valid |
| Hub.Database.CreateAccount | main.go:199 | the in-place insert changes the Account table exactly as Insert does and leaves the Metric table alone |
| Hub.Database.DeleteAccount | main.go:149 | the in-place delete removes exactly the row with that id and nothing else |
| Hub.Database.TakeAccounts | main.go:147-150 | n accounts with distinct ids are taken from the pool, and the pool afterwards is the old one without them. It is n rows smaller and still valid. |
| Hub.Database.RecordConsume | main.go:152-178 | the in-place consume write leaves the Metric table as ConsumeUpsert says and the Account table alone |
| Hub.Database.RecordAdd | main.go:194-225 | the in-place add write leaves the Metric table as AddUpsert says and the Account table alone |
| Hub.Database.InsertBatch | main.go:197-202 | the insert loop leaves the Account table and the count as InsertAll says |
| Hub.Database.GetAccounts | main.go:124-183 | gives 401 for a header that fails the check. Gives 400 "invalid count parameter" for a count that does not parse or is negative. Gives the whole pool for count 0. Gives 400 insufficient (available, requested) when the pool is too small. Each of these changes nothing. Otherwise returns count distinct pool accounts, deletes exactly those, and applies the consume write with the new pool size. The store stays valid. |
| Hub.Database.AddAccounts | main.go:185-228 | a body that does not bind gives 400 and changes nothing. Otherwise the reply is "accounts added" whatever was inserted, the Account table is as InsertAll says, and the add write uses the pool size and the count of successful inserts. The store stays valid. |
| Hub.TwoIntoEmpty | main.go:197-202 | two new accounts with different client ids go into an empty table as rows 1 and 2, and both are counted |
| Hub.FirstBuckets | main.go:161-225 | on an empty Metric table an add of two creates the hour's row with total 2. A consume of one then rewrites that same row: current 1, used 1, calls 1. |
| Hub.Walkthrough | main.go:124-228 | on an empty store: add two accounts, consume one, then ask for five. The result is one bucket row with total 2, used 1, calls 1 and current 1, and the last request is refused with available 1 and requested 5. |

## Left out

- HTTP routing is not modelled: Gin, the CORS middleware and its 204 reply to OPTIONS (main.go:60-69), the static files and the NoRoute fallback (main.go:76-80). These are web plumbing that carries no state.
- Program start-up is not modelled: `main`, `.env` loading, `GIN_MODE`, `PORT` and the log line. The secret is a parameter of `Auth.Authenticate` instead of the `PASSKEY` environment variable.
- `initDB` panics when SQLite cannot be opened or migrated. The model starts from the migrated empty store, the `Database` constructor.
- The SQL store is modelled as in-memory sequences. Storage failures other than a unique-key clash on insert are not modelled, because the handlers ignore them.
- JSON binding is not modelled. A body that does not bind is `None`, and the bind error's text in the 400 reply of the bulk add is not modelled. An absent `passkey` field binds to the empty string, which the model gives as `Some("")`.
- `Hub.Database.GetAccounts`: `count` is the result of `strconv.Atoi`, with `None` for a parse error. Atoi's 64-bit range limit is not modelled: any integer is accepted.
- The clock is not modelled. `time.Now()` and its `Format("2006-01-02 15:00:00")` are parameters: `now` in whole seconds and the `hour` key. Nothing ties `hour` to `now`.
- The 24-hour window uses whole seconds. Sub-second timestamps are not modelled.
- Concurrency is not modelled. Each handler runs alone, so the lost-update races between the count check, the deletes and the find-or-create are left out.
- `Hub.Database.TakeAccounts`: `Limit(count).Find` returns rows in an order the store chooses. The model takes the first `n` rows in storage order. Its contract promises only facts that hold for any choice of `n` distinct rows.
- `Metrics.RecentMetrics`: the store's sort does not fix the order of rows with equal timestamps, and neither does the contract.
- Integer overflow is not modelled: `Metrics.ConsumeBucket` and `Metrics.AddBucket` use unbounded integers for the counters and ids, where Go uses 64-bit `int` and `uint`.
- `Auth.GateIsPrefixOnly`: Go's `len` and slicing count bytes and the model counts characters. The two agree on the ASCII prefix `"Bearer "`, but they can disagree on how many leading characters a non-ASCII header has.
- The front end under `frontend/` is not part of this model. It is a browser client of these endpoints.
