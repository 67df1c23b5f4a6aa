/** `MySQL_STMT_Global_info` and the state of `MySQL_STMT_Manager`: the
    process-wide registry of prepared statements, indexed by the proxy's
    statement id and by the statement's hash. Only its state and the one
    inline accessor, `total_prepared_statements`, are modelled. */
module StmtManager {
  import opened Uint

  /** The metadata of one prepared statement, shared by every connection
      that has it prepared. The client-library parts (`fields`, the
      `properties` policy bundle) are not modelled. */
  datatype GlobalInfo = GlobalInfo(
    hash: uint64,
    username: string,
    schemaname: string,
    query: string,
    queryLength: uint32,
    hostgroupId: uint32,
    refCount: int32,
    statementId: uint32,
    numColumns: uint16,
    numParams: uint16,
    warningCount: uint16)

  /** The manager's state without its lock: the next id to hand out, the
      index by statement id (`m`) and the index by hash (`h`). */
  datatype Manager = Manager(
    nextStatementId: uint32,
    m: map<uint32, GlobalInfo>,
    h: map<uint64, GlobalInfo>)

  /** `total_prepared_statements`: `next_statement_id - 1` in `uint32_t`
      arithmetic, i.e. the value whose successor is the next id. */
  function TotalPreparedStatements(mgr: Manager): (r: uint32)
    ensures Inc32(r) == mgr.nextStatementId
    ensures mgr.nextStatementId == 0 ==> r == UINT32_MAX
  {
    Dec32(mgr.nextStatementId)
  }

  /** The total is determined by the counter alone, and is its unique
      predecessor modulo 2^32: both directions. */
  lemma TotalIsPredecessor(mgr: Manager, r: uint32)
    ensures TotalPreparedStatements(mgr) == r <==> Inc32(r) == mgr.nextStatementId
  {
  }

  /** Handing out one more id (the counter's `++`) raises the total by one,
      in 32-bit arithmetic, and the indices play no part in it. */
  lemma TotalCountsIssuedIds(mgr: Manager, m': map<uint32, GlobalInfo>, h': map<uint64, GlobalInfo>)
    ensures TotalPreparedStatements(Manager(Inc32(mgr.nextStatementId), m', h'))
            == Inc32(TotalPreparedStatements(mgr))
  {
  }

  /** Without wrap-around, the total is the number of ids issued from 1. */
  lemma TotalWithoutWrap(mgr: Manager)
    requires mgr.nextStatementId >= 1
    ensures TotalPreparedStatements(mgr) as int == mgr.nextStatementId as int - 1
  {
  }
}
