# Lockfile server: admission, store and start-up rules

This project models the sequential logic of a small Go lockfile server. The
server stores one lockfile per repository id. It lets a caller write only
when the address string the router reports for it (`c.ClientIP()`) lies in
one of the GitHub Actions CIDR ranges in the list captured when the PUT route
was registered (main.go:116, 215).

- **Admission** (`admission.dfy`). `isAllowedIP` is a loop over the allowed
  ranges that returns as soon as one matches. `Admission.IsAllowedIP` models
  it as a method with that loop. The method is proved equal to the recursive
  `Check`. When every range parses, it also equals the order-free
  existential `Admits`. A range is a network number plus a prefix length, in
  the CIDR sense of section 3.1 of RFC 4632. Addresses are bit strings.
  `net.ParseIP` and `net.ParseCIDR` are function parameters. A range that
  does not parse is not skipped: Go returns a nil `*IPNet`, and
  `ipNet.Contains` dereferences it. The model gives this its own outcome,
  `NilDereference`. `Filter` is the decision of `IPFilterMiddleware`.
- **Store** (`store.dfy`). The `lockfiles` table is a class with a
  `map<string, Lockfile>` keyed by `repository_id`. That key makes the
  UNIQUE constraint structural. The class also holds a counter clock for
  `CURRENT_TIMESTAMP` and a counter of fresh ids for `uuid_generate_v4()`.
  `Put` is the `ON CONFLICT (repository_id) DO UPDATE` upsert. `Get` is the
  point lookup. The GET and PUT handlers map their outcomes to status codes.
  `Replay` runs a sequence of back-to-back writes, and `LastWriteWins`
  proves that the last write to a key decides its row.
- **Content column** (`scan.dfy`). `Scan` dispatches on the type of the
  value it receives. JSON encoding and decoding are parameters.
- **Start-up** (`schema.dfy`). `initTables` decides whether to drop the
  table and then issues the create, unless an earlier statement failed.
- **Wiring** (`server.dfy`). The global `githubActionsIPs` is refreshed by
  plain assignment. The PUT filter checks the list captured when the route
  was registered.

Behaviour of the code that the model keeps, although a reader might expect
otherwise:

- A malformed range is not skipped. If the walk reaches it before any
  matching range, the request fails with a nil dereference (main.go:229-230).
  Behind a matching range it is never reached.
- A failed refresh does not keep the previous list. It replaces the global
  with whatever the failed fetch returned (main.go:125-128).
- The PUT filter uses the list captured at main.go:116, not the refreshed
  global.
- Only `repositoryName` (non-empty) and `posts` (non-null) are validated on
  a PUT. The `required` tags on each post's fields (main.go:39-42) are not
  applied: the `posts` field has no rule that descends into the list.
- The `repository_id` and `repository_name` columns are VARCHAR(255)
  (main.go:77-78). A longer value makes the upsert fail, so the PUT handler
  answers 500, unless the excess is all spaces, which are cut off.

## Model

| member | source | states |
|---|---|---|
| `Admission.Check` | main.go:226-235 | The recursive walk of `isAllowedIP`: an empty list admits no one, true implies some range contains the caller, an unparsed caller is never admitted, and well-formed ranges never dereference nil. |
| `Admission.ContainsIsMaskedEquality` | main.go:230 | Prefix containment holds iff the families match and address AND mask equals network AND mask. |
| `Admission.CheckOutcomes` | main.go:226-235 | `isAllowedIP` has three outcomes, each in closed form. It returns true iff some range matches and every earlier range parsed and missed. It dereferences nil iff a malformed range comes before any match. It returns false iff every range parsed and missed. |
| `Admission.CheckIsAdmitsWhenWellFormed` | main.go:226-235 | When every range parses, the result is true iff some range contains the caller, and it never dereferences nil. |
| `Admission.UnparsedCallerNeverAdmitted` | main.go:227-230 | A caller address that does not parse is never admitted. |
| `Admission.AdmitsIgnoresOrder` | main.go:228-233 | The existential admission decision is the same for any permutation of the ranges. |
| `Admission.CheckIgnoresOrderWhenWellFormed` | main.go:228-233 | If every range parses, reordering the ranges does not change the result of `isAllowedIP`. |
| `Admission.MalformedRangeMakesOrderMatter` | main.go:229-230 | A malformed range placed after a matching range is never reached. Placed before it, the walk dereferences nil. |
| `Admission.IsAllowedIP` | main.go:226-235 | The early-return loop equals `Check`. It equals the existential when every range parses. It never admits an unparsable caller, and an empty list admits no one. |
| `Admission.FilterAdmitsIff` | main.go:211-223 | The middleware hands the request on iff `isAllowedIP` returned true. With well-formed ranges, it aborts with 403 iff no range contains the caller. An unparsable caller never reaches the handler. |
| `Admission.Filter` | main.go:215-220 | The middleware goes on to the handler iff `isAllowedIP` returned true, aborts with 403 iff it returned false, and unwinds iff it dereferenced nil. |
| `Records.ShouldBindJSON` | main.go:68-71 | No body binds nothing, and a bound request carries the body's name, which is non-empty. |
| `Records.EmptyNameIsRejected` | main.go:68-71 | A body with an empty `repositoryName` fails binding. |
| `Records.BindAcceptsExactlyNamedBodies` | main.go:68-71 | Binding succeeds iff the name is non-empty and `posts` is present. An empty list is accepted. Both fields are carried over unchanged. |
| `Store.ToVarchar` | main.go:77-78 | Assignment to a VARCHAR(255) column: a value that fits is kept; a longer one fails iff some character past the limit is not a space, and otherwise is cut to exactly its first 255 characters; a kept value fits and is a prefix of the input. |
| `Store.Lookup` | main.go:146 | The point query finds a row iff the key is stored, and the row found is the stored one. |
| `Store.Upsert` | main.go:169-173 | The upsert's key set is the old key set plus the written key: no row is removed. |
| `Store.UpsertThenLookup` | main.go:169-173 | After an upsert, a lookup of the key returns the submitted name and posts, stamped with the write's time. An existing row keeps its id and creation time. A new row gets the fresh id and is created at the write's time. |
| `Store.UpsertLeavesOthers` | main.go:169-180 | An upsert does not change the row of any other `repository_id`. |
| `Store.UpsertRowCount` | main.go:76-77 | An upsert on a new key adds exactly one row. On an existing key it adds none. |
| `Store.UpsertKeepsInvariant` | main.go:74-83 | An upsert at the next tick, with the next fresh id, keeps the table invariant: each row sits under its own key, ids are unique, and created ≤ updated ≤ clock. |
| `Store.UpsertEffect` | main.go:169-173 | One upsert as a whole: the key reads back the submitted name and posts, other keys read as before, an existing row keeps its id and creation time with `updated_at` set to the write's time, and only a new key adds a row. |
| `Store.Replay` | main.go:169-180 | A run of committed writes never loses a row. |
| `Store.FirstWrite` | main.go:169-173 | The index of the first write to a key in a run: it writes that key and no earlier write does; none iff no write does. |
| `Store.ReplaySnoc` | main.go:169-180 | Committing one more write after a run equals the run extended by it, at the next tick and with the next id. With the `Replay` clause of `LockfileStore.Commit` and `LockfileStore.Put`, this carries `LastWriteWins` over any sequence of commits to the class. |
| `Store.ReplaySingle` | main.go:169-180 | A run of one write is that write's upsert at the next tick, with the next id. |
| `Store.LastWriteWins` | main.go:169-180 | After a run of writes, a written key's row carries the name and posts of the last write to it, stamped with that write's tick. A key that existed keeps its id and creation time. A key the run created keeps the id drawn and the tick of its first write. Unwritten keys are untouched. |
| `Store.LockfileStore.Get` | main.go:146-156 | A lookup finds a row iff the key is stored. A row found belongs to that key. No row is a normal answer. |
| `Store.LockfileStore.constructor` | main.go:262-264 | A freshly created table has no rows, and nothing has been drawn from the clock or the id generator; the table invariant holds. |
| `Store.LockfileStore.Restore` | main.go:246-260 | A table that a release-mode start kept (see `Schema.ReleaseKeepsRows`) is reopened with its rows and counters as they were, provided it satisfies the table invariant. |
| `Store.LockfileStore.Commit` | main.go:169-180 | An upsert of values that fit their columns keeps the table invariant, ticks the clock and id generator once, leaves the table equal to `Upsert` of the old one at the new tick, which is `Replay` of the old table with this one write, and `Get` of the key then returns the submitted name and posts. |
| `Store.LockfileStore.Put` | main.go:169-183 | The statement succeeds iff the id and name fit their columns; on failure nothing changes. On success the clock and id generator tick once and the converted values are upserted: `Get` of the stored key returns them, other keys are unchanged, an existing row keeps its id and `created_at` while its `updated_at` strictly increases, and a new key adds exactly one row. The new table is `Replay` of the old one with the one write of the converted values. Values that already fit read back as submitted. |
| `Store.GetLockfileHandler` | main.go:142-157 | A key never written answers 200 with no data. A stored key answers 200 with its row. A query fault answers 500. |
| `Store.PutLockfileHandler` | main.go:160-187 | A binding failure answers 400 and leaves the table unchanged. A storage fault, or an id or name too long for its column, answers 500 and leaves it unchanged. Otherwise the upsert commits, the clock and id generator tick once, and the handler answers 200. |
| `ContentScan.ScanOutcome` | main.go:51-64 | NULL keeps the slice with no error; an unsupported type keeps it with the unsupported-type error; only decoding bytes or a string can change the slice. |
| `ContentScan.ScanNilIsNoOp` | main.go:52-54 | Scanning NULL returns no error and leaves the slice unchanged. |
| `ContentScan.ScanRejectsOtherTypes` | main.go:61-62 | A value that is neither bytes nor a string returns an error and leaves the slice unchanged. |
| `ContentScan.ScanTextAsBytes` | main.go:57-60 | A string decodes exactly like a byte slice holding the same bytes. |
| `ContentScan.ValueScanRoundTrip` | main.go:46-60 | If decoding inverts encoding, scanning what `Value` stored restores the written posts with no error. This holds whether the value comes back as bytes or as a string. |
| `ContentScan.LockfileContentArray.Scan` | main.go:51-64 | `Scan` writes the decoded posts and returns the decoder's error. NULL is a no-op. An unsupported type is an error that leaves the slice unchanged. |
| `Schema.ShouldDrop` | main.go:256 | The drop rule reduces to: the table is empty, or the mode is not "release". |
| `Schema.Create` | main.go:263-265 | The create is issued last; it fails iff its statement fails, leaving the table as it was; otherwise a table exists afterwards, and an existing table is kept. |
| `Schema.InitTables` | main.go:239-268 | Every run starts with the existence check. A run without error leaves a table and issues the create last. A failing run stops at the failed statement. A table disappears only through the drop. |
| `Schema.DropIff` | main.go:246-263 | Once both checks succeed, the table is dropped iff it exists and is empty or the mode is not "release". The create follows unless the drop fails. |
| `Schema.ReleaseKeepsRows` | main.go:253-260 | In release mode, a successful start keeps every row. |
| `Schema.OtherModesEmptyTheTable` | main.go:253-260 | In any mode other than release, a successful start leaves an empty table. |
| `Server.Server.constructor` | main.go:106-118 | After start-up, the global and the PUT filter's list both hold the first fetched list. |
| `Server.Server.Refresh` | main.go:124-129 | A refresh sets the global to the fetched value even when the fetch failed. |
| `Server.Server.HandlePut` | main.go:116-118 | The filter decides against the list captured at start-up. On 403 or on a nil dereference the table is unchanged. An admitted caller reaches the handler with its 400, 500 or 200 outcome. The 200 case commits the converted values and ticks the clock and id generator once. If no well-formed range contains the caller, the answer is 403. |

## Left out

- HTTP routing, JSON responses, `ShouldBindJSON` internals and `c.ClientIP()` (main.go:111-118, 164). A body is either absent (None) or a decoded `PutBody`, and the client address is an input string.
- `net.ParseIP` and `net.ParseCIDR` are function parameters, so the model does not cover their byte layouts or the mapping of IPv4 addresses into IPv6 form.
- Postgres, `sqlx` and the driver. The table is a map. Storage faults other than the VARCHAR(255) length limit are boolean inputs (`queryFails`, `execFails`, and the `failing` set of `initTables`). Lengths count characters, as Postgres does for a UTF-8 database.
- `Store.LockfileStore.Put`: `CURRENT_TIMESTAMP` is a counter clock that ticks once per write, so `updated_at` strictly increases. Real timestamps can repeat. The `time.Now()` argument at main.go:178 is never used by the SQL statement.
- `Store.LockfileStore.Put`: the UUID generator is a counter that advances on every write, so ids are unique by construction rather than with high probability.
- `Store.Replay`: a run holds only writes that the table accepted, with their values as stored. A rejected PUT changes nothing (see `Store.LockfileStore.Put`), so it is not part of a run.
- `fetchGithubActionsIPs` (main.go:190-208) is a network call. Its result is an input list plus a failure flag.
- The refresh goroutine, `time.Sleep` and the mutex (main.go:85-86, 121-131, 213-214). A refresh is a single sequential assignment, and concurrent interleavings are not modelled.
- The panic raised by the nil dereference is an outcome of the model. The model assumes the router's recovery turns it into a 500 response.
- `json.Marshal` and `json.Unmarshal` (main.go:47, 58, 60) are function parameters. The round trip is proved only under the assumption that decoding inverts encoding.
- `main()` configuration from environment variables and its panics (main.go:89-109), and `PingHandler` (main.go:137-139).
