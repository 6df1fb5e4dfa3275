/**
 * The group-commit ticket dispenser of MYSQL_BIN_LOG: sessions whose engine
 * orders its commits take a ticket when their XID event is written, and
 * commit in ticket order.  Any inconsistency disables group commit for good.
 * Also the pure decisions of flush_and_sync about when to fsync and whether
 * to wait for other sessions to share the fsync.
 *
 * The mutex, the condition variables and the timed waits are not modelled;
 * wait_for_group_commit_order is represented by its loop condition.
 */
module GroupCommit {
  import opened Common

  /** A client session; `ticket` is thd->ticket, 0 when it holds none. */
  class Session {
    var ticket: nat

    constructor()
      ensures ticket == 0
    {
      ticket := 0;
    }
  }

  /** The group-commit state of the binlog. */
  class Dispenser {
    var allowed: bool   // group_commit_allowed
    var current: nat    // current_ticket: the ticket whose turn it is
    var next: nat       // next_ticket: the ticket handed out next
    ghost var issued: set<nat>  // the tickets handed out for ordered commit

    /** ulonglong bounds; while group commit is on, every issued ticket is below next. */
    ghost predicate Valid()
      reads this
    {
      current < U64 && next < U64 && (allowed ==> forall t :: t in issued ==> t < next)
    }

    constructor()
      ensures Valid() && allowed && current == 1 && next == 1 && issued == {}
    {
      allowed := true;
      current := 1;
      next := 1;
      issued := {};
    }

    /** disable_group_commit: switches group commit off for good. */
    method Disable()
      requires current < U64 && next < U64
      modifies this
      ensures Valid() && !allowed
      ensures current == old(current) && next == old(next) && issued == old(issued)
    {
      allowed := false;
    }

    /**
     * order_for_group_commit: returns 0 when the commit of thd is to be
     * ordered, giving it the next ticket.  `ordered` is the engine's answer
     * (force_binlog_order, a handlerton and is_ordered_commit).  A session
     * that already holds a ticket, or a ticket whose successor wraps to 0,
     * disables group commit.
     */
    method Order(thd: Session, ordered: bool) returns (r: int)
      requires Valid()
      modifies this, thd
      ensures Valid() && (allowed ==> old(allowed)) && current == old(current)
      ensures r == 0 <==> old(thd.ticket) == 0 && old(allowed) && ordered && old(next) + 1 < U64
      ensures r != 0 ==> r == 1
      ensures r == 0 ==> thd.ticket == old(next) && next == old(next) + 1 && allowed
      ensures r == 0 ==> thd.ticket !in old(issued) && issued == old(issued) + {thd.ticket}
      ensures old(thd.ticket) != 0 ==> !allowed && thd.ticket == old(thd.ticket) && next == old(next)
      ensures old(thd.ticket) == 0 && (!old(allowed) || !ordered) ==>
                thd.ticket == 0 && next == old(next) && allowed == old(allowed)
      ensures r != 0 ==> issued == old(issued)
      ensures old(thd.ticket) == 0 && old(allowed) && ordered && old(next) + 1 == U64 ==>
                !allowed && thd.ticket == old(next) && next == 0
    {
      if thd.ticket != 0 {
        Disable();
        return 1;
      }
      if !allowed || !ordered {
        return 1;
      }
      thd.ticket := next;
      next := (next + 1) % U64;
      if (thd.ticket + 1) % U64 == 0 {
        Disable();
        return 1;
      }
      issued := issued + {thd.ticket};
      return 0;
    }

    /**
     * increment_group_commit_ticket: hands the turn to the next ticket and
     * clears thd's; a no-op for a session without a ticket.  A session that
     * finishes out of turn disables group commit.
     */
    method Increment(thd: Session)
      requires Valid()
      modifies this, thd
      ensures Valid() && next == old(next) && issued == old(issued)
      ensures old(thd.ticket) == 0 ==> current == old(current) && allowed == old(allowed) && thd.ticket == 0
      ensures old(thd.ticket) != 0 ==>
                current == (old(current) + 1) % U64 && thd.ticket == 0
                && allowed == (old(allowed) && old(thd.ticket) == old(current))
    {
      if thd.ticket == 0 {
        return;
      }
      if thd.ticket != current {
        Disable();
      }
      current := (current + 1) % U64;
      thd.ticket := 0;
    }

    /**
     * The loop condition of wait_for_group_commit_order, negated: thd may go
     * on with its commit once group commit is off or its turn has come.
     */
    predicate MayProceed(ticket: nat)
      reads this
    {
      !allowed || ticket <= current
    }
  }

  /** Sessions proceed in ticket order: a later ticket never goes before an earlier one. */
  lemma ProceedInOrder(d: Dispenser, t1: nat, t2: nat)
    requires t1 <= t2 && d.MayProceed(t2)
    ensures d.MayProceed(t1)
  {
  }

  // ---------------------------------------------------------------------
  // The fsync decisions of flush_and_sync.

  /**
   * `!async && (++sync_binlog_counter >= sync_period && sync_period)`: whether
   * this commit syncs the binlog, and the counter as the test sees it (not
   * counted for async commits; a sync later resets it to 0).
   */
  function SyncDue(async: bool, counter: nat, period: nat): (bool, nat)
  {
    if async then (false, counter)
    else (counter + 1 >= period && period != 0, counter + 1)
  }

  /** The number of commits in the run that are not async. */
  function Counted(asyncs: seq<bool>): (n: nat)
    ensures n <= |asyncs|
  {
    if |asyncs| == 0 then 0 else Counted(asyncs[..|asyncs| - 1]) + (if asyncs[|asyncs| - 1] then 0 else 1)
  }

  /**
   * sync_binlog_counter after a run of commits from 0, async[k] telling
   * whether commit k is async; a commit that syncs sets it back to 0.
   */
  function CounterAfter(asyncs: seq<bool>, period: nat): nat
  {
    if |asyncs| == 0 then 0
    else
      var (sync, c) := SyncDue(asyncs[|asyncs| - 1], CounterAfter(asyncs[..|asyncs| - 1], period), period);
      if sync then 0 else c
  }

  /**
   * The counter after a run of commits from 0: the number of commits that
   * were not async, taken modulo the period when there is one.
   */
  lemma {:induction false} CounterValue(asyncs: seq<bool>, period: nat)
    ensures CounterAfter(asyncs, period) == if period == 0 then Counted(asyncs) else Counted(asyncs) % period
  {
    if |asyncs| > 0 {
      var init := asyncs[..|asyncs| - 1];
      CounterValue(init, period);
      if period != 0 {
        ModStep(Counted(init), period);
      }
    }
  }

  /**
   * The sync_binlog promise: after a run of commits from counter 0 the next
   * commit syncs exactly when it is not async and it is the period-th,
   * 2*period-th, ... commit that is not async; with period 0 none syncs.
   */
  lemma SyncPeriodic(asyncs: seq<bool>, period: nat, async: bool)
    ensures SyncDue(async, CounterAfter(asyncs, period), period).0
            <==> !async && period != 0 && (Counted(asyncs) + 1) % period == 0
  {
    CounterValue(asyncs, period);
    if period != 0 {
      ModStep(Counted(asyncs), period);
    }
  }

  /** n % p + 1 reaches p exactly when n + 1 is a multiple of p, and otherwise is (n + 1) % p. */
  lemma {:induction false} ModStep(n: nat, p: nat)
    requires p > 0
    ensures (n % p + 1 >= p <==> (n + 1) % p == 0)
    ensures n % p + 1 < p ==> n % p + 1 == (n + 1) % p
  {
    var q := n / p;
    if n % p + 1 == p {
      assert n + 1 == (q + 1) * p + 0;
      DivModUnique(n + 1, p, q + 1, 0);
    } else {
      DivModUnique(n + 1, p, q, n % p + 1);
    }
  }

  /** C's `/` on int: the quotient truncated toward zero. */
  function CDiv(a: int, b: int): (q: int)
    requires b > 0
    ensures a >= 0 ==> 0 <= a - q * b < b
    ensures a < 0 ==> -b < a - q * b <= 0
  {
    if a >= 0 then a / b else -((-a) / b)
  }

  /**
   * Whether the committing session waits on binlog_cond for another session
   * to share the fsync: only an ordered commit, with at least min_size
   * commits pending and fewer than pending/2 sessions already waiting.
   */
  function WaitForGroupSync(groupCommitOn: bool, pending: int, minSize: int, waiting: int): (r: bool)
    ensures pending >= 0 ==> (r <==> groupCommitOn && pending >= minSize && 2 * waiting + 2 <= pending)
    ensures pending < 0 ==> (r <==> groupCommitOn && pending >= minSize && 2 * waiting + 1 <= pending)
  {
    var enoughPending := pending >= minSize;
    var notTooManyWaiting := enoughPending && waiting < CDiv(pending, 2);
    groupCommitOn && enoughPending && notTooManyWaiting
  }
}
