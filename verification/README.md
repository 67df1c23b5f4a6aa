# ProxySQL prepared-statement tables, modelled in Dafny

ProxySQL returns its own statement id to a client that prepares a
statement. Each backend connection then maps that global id to the
`MYSQL_STMT *` handle it got from its own backend. The header
`include/MySQL_PreparedStatement.h` declares three classes:

- `MySQL_STMTs_local`: the per-connection map from global id to backend
  handle, with an `unsigned int num_entries` kept beside it. Its
  constructor, `insert` and `find` are written inline in the header.
- `MySQL_STMT_Global_info`: the shared metadata of one prepared statement.
- `MySQL_STMT_Manager`: the process-wide registry. It holds a
  `next_statement_id` counter, an index by statement id (`m`) and an index
  by hash (`h`). Its only inline member is `total_prepared_statements`.

The project has three modules:

- `Uint` (`uint.dfy`) defines the fixed-width C integer types. It also
  writes out the unsigned 32-bit `++` and `- 1` with their wrap-around.
- `StmtsLocal` (`stmts_local.dfy`) models `MySQL_STMTs_local`. The table
  is an immutable value: `num_entries` plus a `map<uint32, StmtPtr>`.
  `insert` and `find` are pure functions over it, and `std::map::insert`
  is modelled as `MapInsert`. A history of `insert` calls is replayed with
  `Replay`, which lets first-write-wins and the counter invariant be
  stated for any sequence of calls.
- `StmtManager` (`stmt_manager.dfy`) models the manager's state as a
  record, the statement metadata as a datatype, and
  `total_prepared_statements`.

A backend handle is the datatype `StmtPtr = Null | Ptr(addr)`. `Null` is
C's `NULL`. A non-null handle is never looked into.

Points where the code's exact behaviour shapes the model:

- `insert` returns `void`. It reads only the `.second` of
  `std::map::insert`'s result to decide whether to bump `num_entries`
  (lines 51-54). `Insert` therefore returns only the new table.
- `find` returns `NULL` on a miss (line 62). It also returns `NULL` for a
  key stored with `insert(id, NULL)`. `FindNullIff` states exactly when
  `find` returns NULL.
- `num_entries` is an `unsigned int`, so `num_entries++` wraps modulo
  2^32. The invariant is therefore stated as
  `num_entries == |m| % 2^32`.

## Model

| member | source | states |
|---|---|---|
| `Uint.Inc32` | include/MySQL_PreparedStatement.h:53 | the C `++` on a 32-bit unsigned counter yields the successor modulo 2^32 |
| `Uint.Dec32` | include/MySQL_PreparedStatement.h:113 | `x - 1` on a `uint32_t` yields the predecessor modulo 2^32, so 0 becomes 2^32 - 1 |
| `Uint.IncDecInverse` | include/MySQL_PreparedStatement.h:113 | 32-bit decrement and increment undo each other in both orders |
| `StmtsLocal.New` | include/MySQL_PreparedStatement.h:44-46 | a new table has `num_entries == 0` and an empty map, satisfies the counter invariant, and `find` returns NULL for every id |
| `StmtsLocal.MapInsert` | include/MySQL_PreparedStatement.h:50-52 | `std::map::insert` reports success exactly when the key was absent; it adds that key with the given value and leaves every existing binding unchanged |
| `StmtsLocal.Insert` | include/MySQL_PreparedStatement.h:49-55 | for a new id, adds exactly that mapping and bumps `num_entries` by one modulo 2^32; for a present id, returns the table unchanged (first write wins); it never changes the binding of any key already present |
| `StmtsLocal.InsertPreservesValid` | include/MySQL_PreparedStatement.h:41-55 | `insert` preserves the invariant that `num_entries` is the number of keys modulo 2^32 |
| `StmtsLocal.Find` | include/MySQL_PreparedStatement.h:57-63 | the stored handle when the id is present, NULL when it is absent |
| `StmtsLocal.FindNullIff` | include/MySQL_PreparedStatement.h:57-63 | `find` returns NULL if and only if the id is absent or NULL was stored under it |
| `StmtsLocal.FindAfterInsert` | include/MySQL_PreparedStatement.h:49-63 | after `insert(id, stmt)`, `find(k)` gives `stmt` exactly when `k == id` and `id` was absent; every other lookup gives what it gave before |
| `StmtsLocal.InsertIdempotent` | include/MySQL_PreparedStatement.h:49-55 | inserting one id twice, with any handles, gives the same table as inserting it once with the first handle |
| `StmtsLocal.InsertCommutes` | include/MySQL_PreparedStatement.h:49-55 | inserts of two different ids give the same table in either order |
| `StmtsLocal.ReplayKeys` | include/MySQL_PreparedStatement.h:49-55 | after any history of inserts, the key set is the old keys plus the ids inserted: no key is ever lost |
| `StmtsLocal.ReplayPreservesValid` | include/MySQL_PreparedStatement.h:41-55 | any history of inserts keeps `num_entries` equal to the number of keys modulo 2^32 |
| `StmtsLocal.ReplayFirstWriteWins` | include/MySQL_PreparedStatement.h:49-63 | after any history of inserts, `find(id)` gives the handle already stored for `id`; failing that, the handle of the first call naming `id`; failing that, NULL |
| `StmtsLocal.ReplayRepeatIsNoop` | include/MySQL_PreparedStatement.h:49-55 | repeating an insert of an id that is already present or already inserted earlier in the history leaves the table unchanged, whatever the handle |
| `StmtsLocal.ReplayFromNew` | include/MySQL_PreparedStatement.h:41-55 | starting from a new table, any history leaves exactly its distinct ids as keys, and `num_entries` is their count modulo 2^32 |
| `StmtManager.TotalPreparedStatements` | include/MySQL_PreparedStatement.h:113 | the result is the 32-bit predecessor of `next_statement_id`: its successor is the counter, and a counter of 0 yields 2^32 - 1 |
| `StmtManager.TotalIsPredecessor` | include/MySQL_PreparedStatement.h:113 | a value is the total if and only if its 32-bit successor is `next_statement_id`, so the indices do not affect the total |
| `StmtManager.TotalCountsIssuedIds` | include/MySQL_PreparedStatement.h:101-113 | advancing `next_statement_id` by one raises the total by one modulo 2^32, whatever the indices hold |
| `StmtManager.TotalWithoutWrap` | include/MySQL_PreparedStatement.h:113 | while `next_statement_id >= 1`, the total is exactly `next_statement_id - 1` |

## Left out

- `MySQL_STMTs_local::erase` (line 64): only declared in the header; its body is not part of this model, so no erase semantics is stated.
- `MySQL_STMTs_local::compute_hash` and `MySQL_STMT_Global_info::compute_hash` (lines 65, 75): only declared; the hash function is not part of this model.
- `MySQL_STMT_Manager::ref_count`, both `add_prepared_statement` overloads, `find_prepared_statement_by_stmt_id` and `find_prepared_statement_by_hash` (lines 108-112): only declared; their bodies are not part of this model. The registry's deduplication, reference counting and erase-on-zero are therefore not modelled.
- The destructor of `MySQL_STMTs_local` and the constructors and destructors of `MySQL_STMT_Global_info` and `MySQL_STMT_Manager` (lines 47, 95-96, 106-107): not shown. They manage memory and client-library objects. The manager's initial counter value is therefore not modelled; `StmtManager.TotalWithoutWrap` states the total for any counter of at least 1.
- `rwlock` and the `bool lock=true` parameters (lines 102, 108-112): these exist only for concurrency. The model is sequential.
- `MYSQL_STMT`, `MYSQL_FIELD **fields` and the `properties` bundle (lines 88-93): client-library types and opaque policy data. A backend handle is only an opaque `StmtPtr`.
- `StmtsLocal.Valid`: states `num_entries == |m| % 2^32`, not `num_entries == |m|`. A map keyed by `uint32_t` holds at most 2^32 keys, so the counter can only wrap when every id is present. The model does not prove that cardinality bound.
- `StmtManager.Manager`: in the code, `m` and `h` map to `MySQL_STMT_Global_info *` (lines 103-104), so both indices share one descriptor object. The model stores `GlobalInfo` values, so it does not represent that sharing. Nothing modelled changes a descriptor, so no stated result depends on it.
