/**
 * TC_LOG_BINLOG, the binary log acting as the two-phase-commit coordinator:
 * the count of prepared xids whose commit is written but not yet unlogged,
 * the crash-recovery scan of the last binlog, and the trimming of that
 * binlog to the last position where no transaction was open.
 *
 * Events are abstract: read_log_event is not part of this model, so each
 * event carries what the scan looks at (its kind, whether it is valid,
 * whether the read left an I/O error, and the read position after it).
 */
module TcLogBinlog {
  import opened Common

  /** BIN_LOG_HEADER_SIZE + FLAGS_OFFSET: the low byte of the format description event's flags. */
  const FLAGS_POS: nat := 4 + 17

  /** The events the scan tells apart: the BEGIN and COMMIT queries, Xid events, anything else. */
  datatype EventKind = Begin | Commit | Xid(id: nat) | Other

  /**
   * One event as the scan reads it: `valid` is is_valid(), `ioError` is the
   * cache's error flag after the read, `end` is my_b_tell after the event.
   */
  datatype Event = Event(kind: EventKind, valid: bool, ioError: bool, end: nat)

  /** What the scan has gathered so far. */
  datatype ScanState = ScanState(xids: set<nat>, inTrans: bool, validPos: nat)

  /** in_transaction after an event of kind k. */
  function InTransAfter(inTrans: bool, k: EventKind): bool
  {
    match k
    case Begin => true
    case Commit => false
    case Xid(_) => false
    case Other => inTrans
  }

  /** One round of the scan: note an xid, track the transaction, advance valid_pos outside one. */
  function Step(s: ScanState, e: Event): ScanState
  {
    var inTrans := InTransAfter(s.inTrans, e.kind);
    ScanState(s.xids + (if e.kind.Xid? then {e.kind.id} else {}), inTrans,
              if !e.ioError && !inTrans then e.end else s.validPos)
  }

  /** The scan over evs, starting at valid_pos `start`. */
  function Scan(evs: seq<Event>, start: nat): ScanState
  {
    if |evs| == 0 then ScanState({}, false, start) else Step(Scan(evs[..|evs| - 1], start), evs[|evs| - 1])
  }

  /** How many events the loop reads: it stops at the first invalid one. */
  function ReadLen(evs: seq<Event>): (n: nat)
    ensures n <= |evs| && (forall k :: 0 <= k < n ==> evs[k].valid) && (n < |evs| ==> !evs[n].valid)
  {
    if |evs| == 0 || !evs[0].valid then 0 else 1 + ReadLen(evs[1..])
  }

  /** Inside `BEGIN ...` : a BEGIN came and no COMMIT or Xid event after it. */
  ghost predicate InsideTrans(evs: seq<Event>)
  {
    exists k :: 0 <= k < |evs| && evs[k].kind == Begin && forall j :: k < j < |evs| ==> evs[j].kind.Other?
  }

  /** The scan is in a transaction exactly when it is inside BEGIN ... (COMMIT | Xid). */
  lemma {:induction false} ScanInTrans(evs: seq<Event>, start: nat)
    ensures Scan(evs, start).inTrans <==> InsideTrans(evs)
  {
    if |evs| > 0 {
      var t := evs[..|evs| - 1];
      var e := evs[|evs| - 1];
      ScanInTrans(t, start);
      assert forall j :: 0 <= j < |t| ==> t[j] == evs[j];
      if e.kind.Other? {
        if InsideTrans(t) {
          var k :| 0 <= k < |t| && t[k].kind == Begin && forall j :: k < j < |t| ==> t[j].kind.Other?;
          assert evs[k].kind == Begin && forall j :: k < j < |evs| ==> evs[j].kind.Other?;
        }
        if InsideTrans(evs) {
          var k :| 0 <= k < |evs| && evs[k].kind == Begin && forall j :: k < j < |evs| ==> evs[j].kind.Other?;
          assert t[k].kind == Begin && forall j :: k < j < |t| ==> t[j].kind.Other?;
        }
      } else if e.kind == Begin {
        assert evs[|evs| - 1].kind == Begin;
      } else {
        forall k | 0 <= k < |evs| && evs[k].kind == Begin
          ensures !forall j :: k < j < |evs| ==> evs[j].kind.Other?
        {
          assert !evs[|evs| - 1].kind.Other?;
        }
      }
    }
  }

  /** The scan collects the id of every Xid event it reads, and nothing else. */
  lemma {:induction false} ScanXids(evs: seq<Event>, start: nat, x: nat)
    ensures x in Scan(evs, start).xids <==> exists k :: 0 <= k < |evs| && evs[k].kind == Xid(x)
  {
    if |evs| > 0 {
      var t := evs[..|evs| - 1];
      ScanXids(t, start, x);
      assert forall j :: 0 <= j < |t| ==> t[j] == evs[j];
      if exists k :: 0 <= k < |evs| && evs[k].kind == Xid(x) {
        var k :| 0 <= k < |evs| && evs[k].kind == Xid(x);
        if k < |t| {
          assert t[k].kind == Xid(x);
        }
      }
    }
  }

  /** After event k the scan stands outside any transaction, with no read error. */
  ghost predicate Settles(evs: seq<Event>, k: nat)
    requires k < |evs|
  {
    !evs[k].ioError && !InsideTrans(evs[..k + 1])
  }

  /** Whether an event settles depends only on the events up to it. */
  lemma SettlesPrefix(evs: seq<Event>, k: nat)
    requires |evs| > 0 && k < |evs| - 1
    ensures Settles(evs, k) <==> Settles(evs[..|evs| - 1], k)
  {
    assert evs[..|evs| - 1][..k + 1] == evs[..k + 1];
  }

  /** The last event settles exactly when the scan is outside a transaction after it. */
  lemma SettlesLast(evs: seq<Event>, start: nat)
    requires |evs| > 0
    ensures Settles(evs, |evs| - 1) <==> !evs[|evs| - 1].ioError && !Scan(evs, start).inTrans
  {
    assert evs[..|evs|] == evs;
    ScanInTrans(evs, start);
  }

  /** valid_pos stays at its start while no event settles. */
  lemma {:induction false} ValidPosUnmoved(evs: seq<Event>, start: nat)
    requires forall k :: 0 <= k < |evs| ==> !Settles(evs, k)
    ensures Scan(evs, start).validPos == start
  {
    if |evs| > 0 {
      var t := evs[..|evs| - 1];
      forall k | 0 <= k < |t|
        ensures !Settles(t, k)
      {
        SettlesPrefix(evs, k);
      }
      ValidPosUnmoved(t, start);
      SettlesLast(evs, start);
    }
  }

  /** valid_pos is the end of the last event after which the scan stood outside a transaction. */
  lemma {:induction false} ValidPosLastSettled(evs: seq<Event>, start: nat, k: nat)
    requires k < |evs| && Settles(evs, k)
    requires forall j :: k < j < |evs| ==> !Settles(evs, j)
    ensures Scan(evs, start).validPos == evs[k].end
  {
    var t := evs[..|evs| - 1];
    SettlesLast(evs, start);
    if k < |evs| - 1 {
      SettlesPrefix(evs, k);
      forall j | k < j < |t|
        ensures !Settles(t, j)
      {
        SettlesPrefix(evs, j);
      }
      ValidPosLastSettled(t, start, k);
    }
  }

  /**
   * TC_LOG_BINLOG::recover over the events of the crashed binlog, read from
   * position `start`: the ids of the Xid events read before the first
   * invalid one are handed to the engines (None when the format description
   * event is invalid or the engines fail), and valid_pos is where a trim
   * keeps only whole transactions.
   */
  method Recover(events: seq<Event>, start: nat, fdValid: bool, engineFails: bool)
    returns (r: Option<set<nat>>, validPos: nat)
    ensures !fdValid ==> r == None && validPos == start
    ensures fdValid ==> var s := Scan(events[..ReadLen(events)], start);
                        validPos == s.validPos && r == (if engineFails then None else Some(s.xids))
  {
    validPos := start;
    if !fdValid {
      return None, validPos;
    }
    var xids: set<nat> := {};
    var inTrans := false;
    var k := 0;
    while k < |events| && events[k].valid
      invariant 0 <= k <= ReadLen(events)
      invariant ScanState(xids, inTrans, validPos) == Scan(events[..k], start)
    {
      var ev := events[k];
      if ev.kind == Begin {
        inTrans := true;
      }
      if ev.kind == Commit {
        inTrans := false;
      } else if ev.kind.Xid? {
        inTrans := false;
        xids := xids + {ev.kind.id};
      }
      if !ev.ioError && !inTrans {
        validPos := ev.end;
      }
      assert events[..k + 1][..k] == events[..k];
      k := k + 1;
    }
    if engineFails {
      return None, validPos;
    }
    r := Some(xids);
  }

  /**
   * The trim step of open() after a recovery: with a valid_pos a binlog
   * longer than it is cut to it, and the in-use flag byte of its format
   * description event is cleared.
   */
  function Trim(file: seq<byte>, validPos: nat): (r: seq<byte>)
    requires validPos == 0 || (FLAGS_POS < validPos && FLAGS_POS < |file|)
    ensures validPos == 0 ==> r == file
    ensures validPos > 0 ==> |r| == (if validPos < |file| then validPos else |file|)
    ensures validPos > 0 ==> r[FLAGS_POS] == 0
    ensures validPos > 0 ==> forall i :: 0 <= i < |r| && i != FLAGS_POS ==> r[i] == file[i]
  {
    if validPos == 0 then file
    else
      var kept := if validPos < |file| then file[..validPos] else file;
      kept[FLAGS_POS := 0]
  }

  /** The prepared-xid count of the binlog coordinator. */
  class Coordinator {
    var preparedXids: nat

    constructor()
      ensures preparedXids == 0
    {
      preparedXids := 0;
    }

    /** After MYSQL_BIN_LOG::write: an Xid commit event counts one more prepared xid. */
    method Wrote(commitIsXid: bool)
      modifies this
      ensures preparedXids == old(preparedXids) + (if commitIsXid then 1 else 0)
    {
      if commitIsXid {
        preparedXids := preparedXids + 1;
      }
    }

    /** unlog: one prepared xid less; `drained` says the waiters for rotation are woken. */
    method Unlog() returns (drained: bool)
      requires preparedXids > 0
      modifies this
      ensures preparedXids == old(preparedXids) - 1 && (drained <==> MayRotate())
    {
      preparedXids := preparedXids - 1;
      drained := preparedXids == 0;
    }

    /** new_file_impl may rotate the binlog only once no prepared xid is left in it. */
    predicate MayRotate()
      reads this
    {
      preparedXids == 0
    }
  }
}
