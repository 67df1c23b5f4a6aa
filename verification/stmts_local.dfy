/** `MySQL_STMTs_local`: the table one backend connection keeps from the
    proxy's global statement id to the backend's own `MYSQL_STMT *` handle,
    with the `num_entries` counter kept beside the map. */
module StmtsLocal {
  import opened Uint

  /** A backend `MYSQL_STMT *`: NULL, or some non-null handle whose contents
      this table never looks at. */
  datatype StmtPtr = Null | Ptr(addr: nat)

  /** The two private members: `num_entries` (an `unsigned int`) and the
      `std::map<uint32_t, MYSQL_STMT *>` called `m`. */
  datatype Table = Table(numEntries: uint32, m: map<uint32, StmtPtr>)

  /** Representation invariant: `num_entries` is the number of keys of `m`,
      as an unsigned 32-bit value. */
  predicate Valid(t: Table)
  {
    t.numEntries as int == |t.m| % UINT32_LIMIT
  }

  /** The constructor: an empty map and a zero counter. */
  function New(): (t: Table)
    ensures t.numEntries == 0 && |t.m| == 0
    ensures Valid(t)
    ensures forall id: uint32 :: Find(t, id) == Null
  {
    Table(0, map[])
  }

  /** `std::map::insert`: adds `k -> v` only when `k` is absent, and reports
      (the `.second` of the returned pair) whether it did. */
  function MapInsert<K, V>(m: map<K, V>, k: K, v: V): (r: (map<K, V>, bool))
    ensures r.1 <==> k !in m
    ensures r.0.Keys == m.Keys + {k}
    ensures forall j :: j in m ==> r.0[j] == m[j]
    ensures k !in m ==> r.0[k] == v
    ensures |r.0| == if r.1 then |m| + 1 else |m|
  {
    if k in m then (m, false) else (m[k := v], true)
  }

  /** `insert`: first write wins; the counter moves only when a key is created. */
  function Insert(t: Table, id: uint32, stmt: StmtPtr): (t': Table)
    ensures t'.m.Keys == t.m.Keys + {id}
    ensures forall k :: k in t.m ==> t'.m[k] == t.m[k]
    ensures id in t.m ==> t' == t
    ensures id !in t.m ==> t'.m[id] == stmt && |t'.m| == |t.m| + 1
    ensures id !in t.m ==> t'.numEntries as int == (t.numEntries as int + 1) % UINT32_LIMIT
  {
    var (m', inserted) := MapInsert(t.m, id, stmt);
    if inserted then Table(Inc32(t.numEntries), m') else Table(t.numEntries, m')
  }

  /** `insert` keeps `num_entries` equal to the number of keys. */
  lemma InsertPreservesValid(t: Table, id: uint32, stmt: StmtPtr)
    requires Valid(t)
    ensures Valid(Insert(t, id, stmt))
  {
  }

  /** `find`: the stored handle when the id is present, NULL when it is not.
      A stored NULL is returned as NULL too, so a caller cannot tell it from
      a miss. */
  function Find(t: Table, id: uint32): (p: StmtPtr)
    ensures id in t.m ==> p == t.m[id]
    ensures id !in t.m ==> p == Null
  {
    if id in t.m then t.m[id] else Null
  }

  /** `find` reports NULL exactly for a missing id or a stored NULL. */
  lemma FindNullIff(t: Table, id: uint32)
    ensures Find(t, id) == Null <==> (id !in t.m || t.m[id] == Null)
  {
  }

  /** What `find` sees after one `insert`: the new handle only for a key that
      was absent; every other lookup is as before. */
  lemma FindAfterInsert(t: Table, id: uint32, stmt: StmtPtr, k: uint32)
    ensures Find(Insert(t, id, stmt), k)
            == if k == id && id !in t.m then stmt else Find(t, k)
  {
  }

  /** Inserting the same id twice, with any handles, is inserting it once
      with the first handle. */
  lemma InsertIdempotent(t: Table, id: uint32, first: StmtPtr, second: StmtPtr)
    ensures Insert(Insert(t, id, first), id, second) == Insert(t, id, first)
  {
  }

  /** Inserts of different ids commute. */
  lemma InsertCommutes(t: Table, a: uint32, x: StmtPtr, b: uint32, y: StmtPtr)
    requires a != b
    ensures Insert(Insert(t, a, x), b, y) == Insert(Insert(t, b, y), a, x)
  {
  }

  /** One call of `insert` as recorded in a connection's history. */
  datatype InsertCall = InsertCall(id: uint32, stmt: StmtPtr)

  /** The table after a history of `insert` calls, oldest first. */
  function Replay(t: Table, calls: seq<InsertCall>): Table
    decreases |calls|
  {
    if |calls| == 0 then t
    else Replay(Insert(t, calls[0].id, calls[0].stmt), calls[1..])
  }

  /** The ids a history inserts. */
  function Ids(calls: seq<InsertCall>): set<uint32>
    decreases |calls|
  {
    if |calls| == 0 then {} else {calls[0].id} + Ids(calls[1..])
  }

  datatype Option<T> = None | Some(value: T)

  /** The handle given by the first call of the history for `id`, if any. */
  function FirstStmt(calls: seq<InsertCall>, id: uint32): Option<StmtPtr>
    decreases |calls|
  {
    if |calls| == 0 then None
    else if calls[0].id == id then Some(calls[0].stmt)
    else FirstStmt(calls[1..], id)
  }

  /** A history adds exactly its ids to the key set. */
  lemma {:induction false} ReplayKeys(t: Table, calls: seq<InsertCall>)
    ensures Replay(t, calls).m.Keys == t.m.Keys + Ids(calls)
    decreases |calls|
  {
    if |calls| > 0 {
      ReplayKeys(Insert(t, calls[0].id, calls[0].stmt), calls[1..]);
    }
  }

  /** A history of inserts keeps the counter invariant. */
  lemma {:induction false} ReplayPreservesValid(t: Table, calls: seq<InsertCall>)
    requires Valid(t)
    ensures Valid(Replay(t, calls))
    decreases |calls|
  {
    if |calls| > 0 {
      InsertPreservesValid(t, calls[0].id, calls[0].stmt);
      ReplayPreservesValid(Insert(t, calls[0].id, calls[0].stmt), calls[1..]);
    }
  }

  /** First write wins over a whole history: an id already in the table keeps
      its handle, otherwise `find` returns the handle of the first call for
      it, and NULL when no call named it. */
  lemma {:induction false} ReplayFirstWriteWins(t: Table, calls: seq<InsertCall>, id: uint32)
    ensures Find(Replay(t, calls), id)
            == if id in t.m then t.m[id]
               else match FirstStmt(calls, id)
                 case Some(stmt) => stmt
                 case None => Null
    decreases |calls|
  {
    if |calls| > 0 {
      var t1 := Insert(t, calls[0].id, calls[0].stmt);
      ReplayFirstWriteWins(t1, calls[1..], id);
    }
  }

  /** Replaying one more call is one more `insert` on the replayed table. */
  lemma {:induction false} ReplayAppend(t: Table, calls: seq<InsertCall>, c: InsertCall)
    ensures Replay(t, calls + [c]) == Insert(Replay(t, calls), c.id, c.stmt)
    decreases |calls|
  {
    if |calls| > 0 {
      assert (calls + [c])[1..] == calls[1..] + [c];
      ReplayAppend(Insert(t, calls[0].id, calls[0].stmt), calls[1..], c);
    }
  }

  /** Idempotence over a history: re-inserting an id the table already holds,
      or that the history already inserted, changes nothing, whatever handle
      the repeated call carries. */
  lemma {:induction false} ReplayRepeatIsNoop(t: Table, calls: seq<InsertCall>, id: uint32, stmt: StmtPtr)
    requires id in t.m || id in Ids(calls)
    ensures Replay(t, calls + [InsertCall(id, stmt)]) == Replay(t, calls)
  {
    ReplayAppend(t, calls, InsertCall(id, stmt));
    ReplayKeys(t, calls);
  }

  /** From a fresh table, a history leaves exactly as many entries as it has
      distinct ids, and `num_entries` counts them (modulo 2^32). */
  lemma {:induction false} ReplayFromNew(calls: seq<InsertCall>)
    ensures Replay(New(), calls).m.Keys == Ids(calls)
    ensures Replay(New(), calls).numEntries as int == |Ids(calls)| % UINT32_LIMIT
  {
    ReplayKeys(New(), calls);
    ReplayPreservesValid(New(), calls);
  }
}
