/**
 * The binlog index file and the purge of old binlogs.
 *
 * The index is a sequence of lines, one log name each; an empty line (a
 * my_b_gets read of at most one character) ends every scan of it.  The log
 * files on disk are a map from name to modification time.  A purge first
 * registers the names it will remove in the purge index ("register") file,
 * then rewrites the index without them, and only then unlinks the files that
 * the rewritten index no longer lists; replaying a left-over register file
 * when the index is opened finishes a purge that a crash interrupted.
 *
 * Read and write errors of the index and register files, and stat or unlink
 * errors other than a missing file, are not part of this model.
 */
module LogIndex {
  import opened Common

  /** The number of index lines before the first empty one: the entries the scans see. */
  function Entries(index: seq<string>): (n: nat)
    ensures n <= |index| && (forall k :: 0 <= k < n ==> index[k] != "") && (n < |index| ==> index[n] == "")
  {
    if |index| == 0 || index[0] == "" then 0 else 1 + Entries(index[1..])
  }

  /** The entries of the index. */
  function Live(index: seq<string>): seq<string>
  {
    index[..Entries(index)]
  }

  /** A prefix of the entries has no empty line, so all of it is live. */
  lemma {:induction false} LivePrefix(index: seq<string>, n: nat)
    requires n <= Entries(index)
    ensures Live(index[..n]) == index[..n]
  {
    if n > 0 {
      assert index[..n][1..] == index[1..][..n - 1];
      LivePrefix(index[1..], n - 1);
    }
  }

  /**
   * find_log_pos: the first entry equal to `name`, or the first entry at
   * all when no name is given; None (LOG_INFO_EOF) when the scan reaches an
   * empty line or the end of the index first.
   */
  method FindLogPos(index: seq<string>, name: Option<string>) returns (r: Option<nat>)
    ensures r.Some? ==> r.value < Entries(index)
    ensures name.None? ==> r == (if Entries(index) > 0 then Some(0) else None)
    ensures name.Some? ==> (r.None? <==> name.value !in Live(index))
    ensures name.Some? && r.Some? ==> index[r.value] == name.value
                                      && forall j :: 0 <= j < r.value ==> index[j] != name.value
  {
    var k := 0;
    while true
      invariant k <= Entries(index)
      invariant name.Some? ==> forall j :: 0 <= j < k ==> index[j] != name.value
      invariant name.None? ==> k == 0
      decreases |index| - k
    {
      if k >= |index| || index[k] == "" {
        assert k == Entries(index);
        assert name.Some? ==> forall j :: 0 <= j < |Live(index)| ==> Live(index)[j] != name.value;
        return None;
      }
      if name.None? || index[k] == name.value {
        assert Live(index)[k] == index[k];
        return Some(k);
      }
      k := k + 1;
    }
  }

  /**
   * find_next_log: the entry on line k, the line after the last one found;
   * None (LOG_INFO_EOF) past the last entry.
   */
  function NextLog(index: seq<string>, k: nat): (r: Option<string>)
    ensures k <= Entries(index) ==> (r.Some? <==> k < Entries(index))
    ensures r.Some? ==> k < |index| && r.value == index[k]
  {
    if k < |index| && index[k] != "" then Some(index[k]) else None
  }

  /** Neither the log being written (is_active) nor one a reader has open (log_in_use). */
  predicate Purgeable(name: string, active: string, inUse: set<string>)
  {
    name != active && name !in inUse
  }

  /**
   * How many leading entries purge_logs removes: it goes on while the entry
   * is purgeable, stopping before toLog, or just after it when `included`.
   */
  function PurgeLen(names: seq<string>, toLog: string, included: bool, active: string, inUse: set<string>): (n: nat)
    ensures n <= |names|
  {
    if |names| == 0 || !Purgeable(names[0], active, inUse) then 0
    else if names[0] == toLog then (if included then 1 else 0)
    else 1 + PurgeLen(names[1..], toLog, included, active, inUse)
  }

  /**
   * Everything purge_logs removes is purgeable, and toLog is among it only
   * when `included`, as the last entry removed.
   */
  lemma {:induction false} PurgeLenPrefix(names: seq<string>, toLog: string, included: bool, active: string,
                                          inUse: set<string>, j: nat)
    requires j < PurgeLen(names, toLog, included, active, inUse)
    ensures Purgeable(names[j], active, inUse)
    ensures names[j] == toLog ==> included && j == PurgeLen(names, toLog, included, active, inUse) - 1
  {
    if names[0] != toLog && j > 0 {
      PurgeLenPrefix(names[1..], toLog, included, active, inUse, j - 1);
    }
  }

  /**
   * purge_logs stops only for a reason: the next entry is not purgeable or
   * is toLog, or toLog was just removed.
   */
  lemma {:induction false} PurgeLenStops(names: seq<string>, toLog: string, included: bool, active: string,
                                         inUse: set<string>)
    ensures var n := PurgeLen(names, toLog, included, active, inUse);
            n < |names| ==> !Purgeable(names[n], active, inUse) || names[n] == toLog || (n > 0 && names[n - 1] == toLog)
  {
    if |names| > 0 && Purgeable(names[0], active, inUse) && names[0] != toLog {
      PurgeLenStops(names[1..], toLog, included, active, inUse);
    }
  }

  /**
   * When every entry up to the first toLog is purgeable, purge_logs removes
   * exactly the entries before it, and toLog itself when `included`.
   */
  lemma {:induction false} PurgeLenReaches(names: seq<string>, toLog: string, included: bool, active: string,
                                           inUse: set<string>, t: nat)
    requires t < |names| && names[t] == toLog && forall j :: 0 <= j < t ==> names[j] != toLog
    requires forall j :: 0 <= j <= t ==> Purgeable(names[j], active, inUse)
    ensures PurgeLen(names, toLog, included, active, inUse) == t + (if included then 1 else 0)
  {
    if t > 0 {
      PurgeLenReaches(names[1..], toLog, included, active, inUse, t - 1);
    }
  }

  /** PurgeLen unfolded at position k of names. */
  lemma PurgeLenAt(names: seq<string>, k: nat, toLog: string, included: bool, active: string, inUse: set<string>)
    requires k < |names|
    ensures PurgeLen(names[k..], toLog, included, active, inUse) ==
            if !Purgeable(names[k], active, inUse) then 0
            else if names[k] == toLog then (if included then 1 else 0)
            else 1 + PurgeLen(names[k + 1..], toLog, included, active, inUse)
    ensures toLog in names[k..] && names[k] != toLog ==> toLog in names[k + 1..]
  {
    assert names[k..][0] == names[k];
    assert names[k..][1..] == names[k + 1..];
  }

  /** purge_index_entry for one registered name: unlink it if it exists and the index no longer lists it. */
  function SweepOne(name: string, live: seq<string>, files: map<string, int>): (map<string, int>, seq<string>)
  {
    if name !in files then (files, [name])
    else if name in live then (files, [])
    else (files - {name}, [])
  }

  /**
   * purge_index_entry over a register file: the files left on disk and the
   * names reported missing (ER_LOG_PURGE_NO_FILE).
   */
  function Sweep(reg: seq<string>, live: seq<string>, files: map<string, int>): (map<string, int>, seq<string>)
  {
    if |reg| == 0 then (files, [])
    else
      var (f, w) := Sweep(reg[..|reg| - 1], live, files);
      var (f', w') := SweepOne(reg[|reg| - 1], live, f);
      (f', w + w')
  }

  /**
   * The sweep unlinks exactly the registered files that the index no longer
   * lists, leaves every other file (and its mtime) alone, and reports every
   * registered name that was missing from the start.
   */
  lemma {:induction false} SweepEffect(reg: seq<string>, live: seq<string>, files: map<string, int>, n: string)
    ensures n in Sweep(reg, live, files).0 <==> n in files && !(n in reg && n !in live)
    ensures n in Sweep(reg, live, files).0 ==> Sweep(reg, live, files).0[n] == files[n]
    ensures n in reg && n !in files ==> n in Sweep(reg, live, files).1
    ensures n in Sweep(reg, live, files).1 ==> n in reg
  {
    if |reg| > 0 {
      var t := reg[..|reg| - 1];
      SweepEffect(t, live, files, n);
      assert reg == t + [reg[|reg| - 1]];
      if n in reg && n != reg[|reg| - 1] {
        assert n in t;
      }
    }
  }

  /** Entry k of the index, and the index lines up to and after it. */
  lemma EntryStep(index: seq<string>, k: nat)
    requires k < Entries(index)
    ensures Live(index)[k] == index[k] && index[..k + 1] == index[..k] + [index[k]]
    ensures k + 1 == Entries(index) ==> Live(index)[k + 1..] == []
  {
  }

  /**
   * The registering loop of purge_logs: from the first entry, every entry
   * that is purgeable and is not toLog (or is toLog, when `included`) is
   * registered; `start` is the index line where the kept entries begin.
   */
  method SelectPurge(index: seq<string>, toLog: string, included: bool, active: string, inUse: set<string>)
    returns (reg: seq<string>, start: nat)
    requires toLog in Live(index)
    ensures start == PurgeLen(Live(index), toLog, included, active, inUse)
    ensures reg == index[..start]
  {
    ghost var live := Live(index);
    reg := [];
    var k := 0;
    while true
      invariant k < Entries(index) && reg == index[..k]
      invariant PurgeLen(live, toLog, included, active, inUse) == k + PurgeLen(live[k..], toLog, included, active, inUse)
      invariant toLog in live[k..]
      decreases Entries(index) - k
    {
      var name := index[k];
      PurgeLenAt(live, k, toLog, included, active, inUse);
      var exitLoop := name == toLog && included;
      if !((name != toLog || exitLoop) && Purgeable(name, active, inUse)) {
        start := k;
        return;
      }
      EntryStep(index, k);
      reg := reg + [name];
      var next := NextLog(index, k + 1);
      if next.None? || exitLoop {
        start := k + 1;
        return;
      }
      k := k + 1;
    }
  }

  /** The log files, the index and the register file of a binary log. */
  class Binlog {
    var index: seq<string>        // the index file, line by line
    var register: seq<string>     // the purge index file
    var files: map<string, int>   // the log files on disk, with their mtimes
    var logName: string           // log_file_name: the log being written

    constructor (index: seq<string>, register: seq<string>, files: map<string, int>, logName: string)
      ensures this.index == index && this.register == register && this.files == files && this.logName == logName
    {
      this.index := index;
      this.register := register;
      this.files := files;
      this.logName := logName;
    }

    /**
     * purge_index_entry: each registered name, up to the first empty line of
     * the register file, is unlinked if the file exists and find_log_pos no
     * longer finds it in the index; a missing file is reported, not an error.
     */
    method PurgeIndexEntry() returns (missing: seq<string>)
      modifies this
      ensures index == old(index) && register == old(register) && logName == old(logName)
      ensures (files, missing) == Sweep(Live(register), Live(index), old(files))
    {
      ghost var reg := Live(register);
      missing := [];
      var k := 0;
      while k < |register| && register[k] != ""
        invariant 0 <= k <= Entries(register) && index == old(index) && register == old(register)
        invariant logName == old(logName)
        invariant (files, missing) == Sweep(reg[..k], Live(index), old(files))
      {
        var name := register[k];
        assert reg[k] == name;
        assert reg[..k + 1][..k] == reg[..k];
        ghost var step := SweepOne(name, Live(index), files);
        ghost var before := missing;
        if name !in files {
          missing := missing + [name];
        } else {
          var pos := FindLogPos(index, Some(name));
          if pos.None? {
            files := files - {name};
          }
        }
        assert files == step.0 && missing == before + step.1;
        k := k + 1;
      }
      assert reg[..k] == reg;
    }

    /**
     * The index sync of open_index_file: a register file left behind by a
     * crash is replayed, so a log that was registered but never (or no
     * longer) indexed is removed, and the register file is deleted.
     */
    method OpenIndex() returns (missing: seq<string>)
      modifies this
      ensures index == old(index) && register == [] && logName == old(logName)
      ensures (files, missing) == Sweep(Live(old(register)), Live(index), old(files))
    {
      missing := PurgeIndexEntry();
      register := [];
    }

    /** update_log_index: the index loses its first `start` lines. */
    method UpdateLogIndex(start: nat)
      requires start <= |index|
      modifies this
      ensures index == old(index)[start..] && |index| == |old(index)| - start
      ensures register == old(register) && files == old(files) && logName == old(logName)
    {
      index := index[start..];
    }

    /** The registering step of purge_logs: the selected names go to the register file. */
    method RegisterPurge(toLog: string, included: bool, inUse: set<string>) returns (start: nat)
      requires toLog in Live(index)
      modifies this
      ensures index == old(index) && files == old(files) && logName == old(logName)
      ensures start == PurgeLen(Live(index), toLog, included, logName, inUse)
      ensures register == index[..start]
    {
      var reg;
      reg, start := SelectPurge(index, toLog, included, logName, inUse);
      register := reg;
    }

    /**
     * purge_logs: LOG_INFO_EOF (false) when toLog is not in the index.
     * Otherwise the leading entries up to toLog are registered, the index is
     * rewritten without them, then their files that the new index no longer
     * lists are unlinked, and the register file is deleted.
     */
    method PurgeLogs(toLog: string, included: bool, inUse: set<string>) returns (found: bool, missing: seq<string>)
      modifies this
      ensures logName == old(logName)
      ensures found <==> toLog in Live(old(index))
      ensures !found ==> index == old(index) && register == old(register) && files == old(files) && missing == []
      ensures found ==> var n := PurgeLen(Live(old(index)), toLog, included, logName, inUse);
                        index == old(index)[n..] && register == []
                        && (files, missing) == Sweep(old(index)[..n], Live(index), old(files))
    {
      var pos := FindLogPos(index, Some(toLog));
      if pos.None? {
        return false, [];
      }
      found := true;
      var start := RegisterPurge(toLog, included, inUse);
      LivePrefix(index, start);
      UpdateLogIndex(start);
      missing := PurgeIndexEntry();
      register := [];
    }

    /**
     * The boundary loop of purge_logs_before_date: the position of the last
     * entry, in the leading run of purgeable entries, whose file is older
     * than purgeTime; missing files are skipped and the first file that is
     * not older ends the run.
     */
    method DateBoundary(purgeTime: int, inUse: set<string>) returns (r: Option<nat>)
      ensures r == DateBound(Live(index), 0, files, purgeTime, logName, inUse)
    {
      ghost var live := Live(index);
      r := None;
      var k := 0;
      if Entries(index) == 0 {
        return;
      }
      while true
        invariant k < Entries(index)
        invariant DateBound(live, 0, files, purgeTime, logName, inUse) == DateBound(live, k, files, purgeTime, logName, inUse)
                  || (r.Some? && r.value < k && DateBound(live, k, files, purgeTime, logName, inUse) == None
                      && DateBound(live, 0, files, purgeTime, logName, inUse) == r)
        invariant r.Some? ==> r.value < k && DateBound(live, 0, files, purgeTime, logName, inUse) ==
                              (if DateBound(live, k, files, purgeTime, logName, inUse).Some?
                               then DateBound(live, k, files, purgeTime, logName, inUse) else r)
        invariant r.None? ==> DateBound(live, 0, files, purgeTime, logName, inUse) == DateBound(live, k, files, purgeTime, logName, inUse)
        decreases Entries(index) - k
      {
        var name := index[k];
        assert live[k] == name;
        if !Purgeable(name, logName, inUse) {
          return;
        }
        if name in files {
          if files[name] < purgeTime {
            r := Some(k);
          } else {
            return;
          }
        }
        var next := NextLog(index, k + 1);
        if next.None? {
          return;
        }
        k := k + 1;
      }
    }

    /**
     * purge_logs_before_date: LOG_INFO_EOF (false) on an empty index;
     * otherwise purge_logs up to and including the boundary entry, if there
     * is one.
     */
    method PurgeLogsBeforeDate(purgeTime: int, inUse: set<string>) returns (ok: bool, toLog: Option<string>, missing: seq<string>)
      modifies this
      ensures logName == old(logName)
      ensures ok <==> Entries(old(index)) > 0
      ensures var b := DateBound(Live(old(index)), 0, old(files), purgeTime, logName, inUse);
              toLog == (if b.Some? then Some(old(index)[b.value]) else None)
      ensures toLog.None? ==> index == old(index) && register == old(register) && files == old(files) && missing == []
      ensures toLog.Some? ==> var n := PurgeLen(Live(old(index)), toLog.value, true, logName, inUse);
                              index == old(index)[n..] && register == []
                              && (files, missing) == Sweep(old(index)[..n], Live(index), old(files))
    {
      var first := FindLogPos(index, None);
      if first.None? {
        return false, None, [];
      }
      ok := true;
      var b := DateBoundary(purgeTime, inUse);
      if b.None? {
        return ok, None, [];
      }
      toLog := Some(index[b.value]);
      DateBoundLive(Live(index), 0, files, purgeTime, logName, inUse);
      assert Live(index)[b.value] == index[b.value];
      var found;
      found, missing := PurgeLogs(index[b.value], true, inUse);
    }
  }

  /**
   * The purge_logs_before_date boundary over names[k..]: the position of
   * the last entry of the leading purgeable run whose file is older than
   * purgeTime, skipping missing files and stopping at the first newer one.
   */
  function DateBound(names: seq<string>, k: nat, files: map<string, int>, purgeTime: int, active: string,
                     inUse: set<string>): (r: Option<nat>)
    ensures r.Some? ==> k <= r.value < |names|
    decreases |names| - k
  {
    if k >= |names| || !Purgeable(names[k], active, inUse) then None
    else if names[k] in files && files[names[k]] >= purgeTime then None
    else
      var rest := DateBound(names, k + 1, files, purgeTime, active, inUse);
      if rest.Some? then rest
      else if names[k] in files then Some(k)
      else None
  }

  /**
   * The boundary is an entry of names whose file exists and is older than
   * purgeTime, and every entry up to it is purgeable.
   */
  lemma {:induction false} DateBoundLive(names: seq<string>, k: nat, files: map<string, int>, purgeTime: int,
                                         active: string, inUse: set<string>)
    ensures var r := DateBound(names, k, files, purgeTime, active, inUse);
            r.Some? ==> k <= r.value < |names| && names[r.value] in files && files[names[r.value]] < purgeTime
                        && forall j :: k <= j <= r.value ==> Purgeable(names[j], active, inUse)
    decreases |names| - k
  {
    if k < |names| && Purgeable(names[k], active, inUse) && !(names[k] in files && files[names[k]] >= purgeTime) {
      DateBoundLive(names, k + 1, files, purgeTime, active, inUse);
    }
  }

  /**
   * Every existing file in the leading run before the boundary is older
   * than purgeTime, and nothing after the boundary in that run is: the
   * boundary is the last such entry.
   */
  lemma {:induction false} DateBoundLast(names: seq<string>, k: nat, files: map<string, int>, purgeTime: int,
                                         active: string, inUse: set<string>, j: nat)
    requires DateBound(names, k, files, purgeTime, active, inUse).Some?
    requires var b := DateBound(names, k, files, purgeTime, active, inUse).value;
             b < j < |names| && (forall i :: b < i <= j ==> Purgeable(names[i], active, inUse))
             && (forall i :: b < i < j ==> names[i] !in files || files[names[i]] < purgeTime)
    ensures names[j] !in files || files[names[j]] >= purgeTime
    decreases |names| - k
  {
    var b := DateBound(names, k, files, purgeTime, active, inUse).value;
    var rest := DateBound(names, k + 1, files, purgeTime, active, inUse);
    if rest.Some? {
      DateBoundLast(names, k + 1, files, purgeTime, active, inUse, j);
    } else {
      assert b == k;
      DateBoundNone(names, k + 1, files, purgeTime, active, inUse, j);
    }
  }

  /** No boundary from k on: every existing file of the purgeable run from k up to j is newer. */
  lemma {:induction false} DateBoundNone(names: seq<string>, k: nat, files: map<string, int>, purgeTime: int,
                                         active: string, inUse: set<string>, j: nat)
    requires DateBound(names, k, files, purgeTime, active, inUse).None?
    requires k <= j < |names| && (forall i :: k <= i <= j ==> Purgeable(names[i], active, inUse))
    requires forall i :: k <= i < j ==> names[i] !in files || files[names[i]] < purgeTime
    ensures names[j] !in files || files[names[j]] >= purgeTime
    decreases |names| - k
  {
    if k < j {
      if !(names[k] in files && files[names[k]] >= purgeTime) {
        DateBoundNone(names, k + 1, files, purgeTime, active, inUse, j);
      }
    }
  }
}
