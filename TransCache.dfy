/**
 * The per-session binlog transaction cache (binlog_trx_data) and the rules
 * that end a transaction or a statement with it (binlog_end_trans and the
 * post-steps of binlog_commit), plus the statement-begin mark set by
 * binlog_start_trans_and_stmt / binlog_set_stmt_begin.
 *
 * The cache itself is an IO_CACHE; only its write position (`len`, what
 * my_b_tell returns) matters to these rules.  The pending rows event is
 * represented by a flag; when it is flushed its size is a parameter.
 */
module TransCache {
  import opened Common

  /** MY_OFF_T_UNDEF: ~(my_off_t)0, "no statement begun". */
  const MY_OFF_T_UNDEF: nat := U64 - 1

  /** The two session option bits that open a multi-statement transaction. */
  datatype ThdOption = OptionBegin | OptionNotAutocommit

  /**
   * ending_trans: true when the commit ends a real transaction, either
   * because `all` is set or because the statement runs in autocommit mode
   * outside BEGIN.
   */
  predicate EndingTrans(all: bool, options: set<ThdOption>)
  {
    all || (!all && !(OptionBegin in options || OptionNotAutocommit in options))
  }

  /**
   * trans_has_updated_non_trans_table: either the transaction or the current
   * statement modified a non-transactional table.
   */
  predicate TransHasUpdatedNonTransTable(allModified: bool, stmtModified: bool)
  {
    allModified || stmtModified
  }

  /** What binlog_end_trans did with the cache. */
  datatype EndOutcome =
    | Written(cacheLen: nat, incident: bool)  // the cache was written to the binlog, then reset
    | Discarded(incidentLogged: bool)          // the cache was reset; an incident event was logged if one was flagged
    | StmtRolledBack(pos: nat)                 // the cache was truncated back to the statement mark

  /** The transaction data of one session. */
  class TrxData {
    var len: nat              // my_b_tell(&trans_log): bytes in the cache
    var pending: bool         // m_pending != NULL
    var beforeStmtPos: nat    // position before the current statement, or MY_OFF_T_UNDEF
    var atLeastOneStmt: bool  // at_least_one_stmt_committed
    var incident: bool

    /** my_off_t bounds, and the statement mark never lies past the end of the cache. */
    predicate Valid()
      reads this
    {
      len < U64 && (beforeStmtPos == MY_OFF_T_UNDEF || beforeStmtPos <= len)
    }

    /** empty(): no pending event and nothing in the cache. */
    predicate Empty()
      reads this
    {
      !pending && len == 0
    }

    constructor()
      ensures Valid() && Empty()
      ensures beforeStmtPos == MY_OFF_T_UNDEF && !atLeastOneStmt && !incident
    {
      len := 0;
      pending := false;
      beforeStmtPos := MY_OFF_T_UNDEF;
      atLeastOneStmt := false;
      incident := false;
    }

    /**
     * truncate(pos): drops the pending event and everything in the cache from
     * pos on; a statement mark past pos is forgotten.
     */
    method Truncate(pos: nat)
      requires Valid() && pos < U64
      modifies this
      ensures Valid() && len == pos && !pending && atLeastOneStmt == (pos > 0)
      ensures beforeStmtPos == if pos < old(beforeStmtPos) then MY_OFF_T_UNDEF else old(beforeStmtPos)
      ensures incident == old(incident)
    {
      pending := false;
      len := pos;
      if pos < beforeStmtPos {
        beforeStmtPos := MY_OFF_T_UNDEF;
      }
      atLeastOneStmt := pos > 0;
    }

    /** reset(): empties the cache and clears the statement mark and the incident flag. */
    method Reset()
      requires Valid()
      modifies this
      ensures Valid() && Empty() && beforeStmtPos == MY_OFF_T_UNDEF && !incident
      ensures atLeastOneStmt == (old(atLeastOneStmt) && old(Empty()))
    {
      if !Empty() {
        Truncate(0);
      }
      beforeStmtPos := MY_OFF_T_UNDEF;
      incident := false;
    }

    /** set_incident(). */
    method SetIncident()
      modifies this
      ensures incident
      ensures len == old(len) && pending == old(pending) && beforeStmtPos == old(beforeStmtPos)
      ensures atLeastOneStmt == old(atLeastOneStmt)
    {
      incident := true;
    }

    /** binlog_set_stmt_begin: the statement mark is the current position. */
    method SetStmtBegin()
      requires Valid()
      modifies this
      ensures Valid() && beforeStmtPos == len
      ensures len == old(len) && pending == old(pending)
      ensures atLeastOneStmt == old(atLeastOneStmt) && incident == old(incident)
    {
      beforeStmtPos := len;
    }

    /**
     * binlog_start_trans_and_stmt: sets the statement mark only when none is
     * set, so the first caller's position wins.
     */
    method StartTransAndStmt()
      requires Valid()
      modifies this
      ensures Valid()
      ensures beforeStmtPos == if old(beforeStmtPos) == MY_OFF_T_UNDEF then len else old(beforeStmtPos)
      ensures len == old(len) && pending == old(pending)
      ensures atLeastOneStmt == old(atLeastOneStmt) && incident == old(incident)
    {
      if beforeStmtPos == MY_OFF_T_UNDEF {
        SetStmtBegin();
      }
    }

    /**
     * THD::binlog_flush_pending_rows_event: the pending rows event, of
     * pendingSize bytes, is appended to the cache.
     */
    method FlushPending(pendingSize: nat)
      requires Valid() && len + pendingSize < U64
      modifies this
      ensures Valid() && !pending && len == old(len) + (if old(pending) then pendingSize else 0)
      ensures beforeStmtPos == old(beforeStmtPos)
      ensures atLeastOneStmt == old(atLeastOneStmt) && incident == old(incident)
    {
      if pending {
        len := len + pendingSize;
        pending := false;
      }
    }

    /**
     * binlog_end_trans.  With an end event (endEv) the cache is written and
     * reset; a rollback of a whole transaction, or of a statement outside
     * one, resets the cache (logging an incident if one is flagged); a
     * rollback of a statement inside a transaction truncates the cache back
     * to the statement mark.
     */
    method EndTrans(endEv: bool, all: bool, options: set<ThdOption>, pendingSize: nat) returns (r: EndOutcome)
      requires Valid() && len + pendingSize < U64
      modifies this
      ensures Valid() && !pending
      ensures endEv ==> r == Written(old(len) + (if old(pending) then pendingSize else 0), old(incident))
      ensures !endEv && EndingTrans(all, options) ==> r == Discarded(old(incident))
      ensures endEv || EndingTrans(all, options) ==>
                Empty() && beforeStmtPos == MY_OFF_T_UNDEF && !incident
                && atLeastOneStmt == (old(atLeastOneStmt) && (if endEv then r.cacheLen == 0 else old(len) == 0))
      ensures !endEv && !EndingTrans(all, options) ==>
                r == StmtRolledBack(old(beforeStmtPos)) && len == old(beforeStmtPos)
                && beforeStmtPos == old(beforeStmtPos) && atLeastOneStmt == (old(beforeStmtPos) > 0)
                && incident == old(incident)
    {
      if endEv {
        FlushPending(pendingSize);
        r := Written(len, incident);
        Reset();
      } else {
        pending := false;
        if all || !(OptionBegin in options || OptionNotAutocommit in options) {
          r := Discarded(incident);
          Reset();
        } else {
          r := StmtRolledBack(beforeStmtPos);
          Truncate(beforeStmtPos);
        }
      }
    }

    /**
     * binlog_commit: an empty cache is only reset.  Otherwise the cache is
     * flushed with a COMMIT event when the transaction ends, or when a first
     * statement changed only non-transactional tables; then the
     * at-least-one-statement flag follows the cache, and a statement commit
     * clears the statement mark.  r is the end_trans outcome when the cache
     * was flushed.
     */
    method Commit(all: bool, options: set<ThdOption>, stmtUpdatedTrans: bool, stmtUpdatedNonTrans: bool,
                  pendingSize: nat) returns (r: Option<EndOutcome>)
      requires Valid() && len + pendingSize < U64
      modifies this
      ensures Valid()
      ensures old(Empty()) ==> r == None && Empty() && beforeStmtPos == MY_OFF_T_UNDEF && !incident
                               && atLeastOneStmt == old(atLeastOneStmt)
      ensures !old(Empty()) ==>
                (r.Some? <==> EndingTrans(all, options)
                              || (!all && !old(atLeastOneStmt) && !stmtUpdatedTrans && stmtUpdatedNonTrans))
      ensures !old(Empty()) ==> atLeastOneStmt == (len > 0) && (!all ==> beforeStmtPos == MY_OFF_T_UNDEF)
      ensures !old(Empty()) && r.Some? ==>
                r.value == Written(old(len) + (if old(pending) then pendingSize else 0), old(incident))
                && Empty() && beforeStmtPos == MY_OFF_T_UNDEF && !incident && !atLeastOneStmt
      ensures !old(Empty()) && r.None? ==>
                len == old(len) && pending == old(pending) && incident == old(incident)
                && beforeStmtPos == (if all then old(beforeStmtPos) else MY_OFF_T_UNDEF)
    {
      if Empty() {
        Reset();
        return None;
      }
      if EndingTrans(all, options) || (!all && !atLeastOneStmt && !stmtUpdatedTrans && stmtUpdatedNonTrans) {
        var o := EndTrans(true, all, options, pendingSize);
        r := Some(o);
      } else {
        r := None;
      }
      atLeastOneStmt := len > 0;
      if !all {
        beforeStmtPos := MY_OFF_T_UNDEF;
      }
    }
  }
}
