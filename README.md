# MySQL 5.1 binary log and transaction-coordinator core, modelled in Dafny

This project models the core of the MySQL 5.1 logging subsystem in
`sql/log.cc` and the small time-windowed HyperLogLog counter in
`mysys/hyperloglog.c`, and proves properties of the model. It covers:

- **TransCache** — the per-session transaction cache (`binlog_trx_data`):
  truncation to a statement boundary, reset, the incident flag, the
  `before_stmt_pos` savepoint, `binlog_end_trans` and `binlog_commit` with
  `ending_trans` and `trans_has_updated_non_trans_table`.
- **EventFixup** — `MYSQL_BIN_LOG::write_cache`: the rewrite of every
  event's end position (`LOG_POS`) by the offset of the cache in the
  binlog, modulo 2^32, while the cache is copied in chunks. A header may be
  split over a chunk boundary. The chunked, in-place array loop is proved
  to produce the same bytes as a header-by-header specification, `FixAll`.
  Properties of `FixAll` are proved separately: the length is kept, only
  the end-position fields change, every end position becomes
  (old + group) mod 2^32, and the event chain survives.
- **GroupCommit** — the group-commit ticket dispenser (`order_for_group_commit`,
  `increment_group_commit_ticket`, `disable_group_commit`, the wait
  predicate), the `sync_binlog` period counter and the
  "enough pending, not too many waiting" test of `flush_and_sync`.
- **TcLogMmap** — `TC_LOG_MMAP`, the memory-mapped two-phase-commit log: page
  layout, choosing the active page from the pool, storing an xid in a free
  slot and returning its cookie, `unlog`, and crash recovery. The per-page
  invariant says `free` counts the zero slots, and every slot between
  `start` and `ptr` is in use. It is kept by every operation.
- **TcLogBinlog** — `TC_LOG_BINLOG`: the prepared-xid counter, the recovery
  scan of a crashed binlog (the Xid set and `valid_pos`, the last position
  outside a transaction), and the trim that cuts the file to `valid_pos`
  and clears the in-use flag.
- **LogIndex** — the binlog index file: `find_log_pos`, `find_next_log`, the
  purge selection of `purge_logs` and `purge_logs_before_date`, the
  purge-register file and the crash-safe sweep of `purge_index_entry`.
- **FileNames** — `find_uniq_filename` (the next `base.NNNNNN` name) and
  `test_if_number` with `atol`, including a round trip:
  `%06ld` formatting is accepted by `test_if_number`, and `atol` reads the
  number back.
- **HyperLogLog** — `find_first_set_bit_after_index`, init, reset, insert,
  and the integer part of the query: the per-register maximum rank seen
  since a time, and the count of empty registers.

Integers are unbounded in Dafny; where the source relies on a machine width
it is written out: `uint32` end positions modulo 2^32, the 64-bit
`ulonglong` ticket rolling over, the `long` saturation of `strtol`, and the
`ulong` wrap in `find_uniq_filename`. Files, clocks and the storage engines
are parameters: a directory listing, a map from file name to mtime, a
`syncFails` or `engineFails` flag.

## Model

| member | source | states |
|---|---|---|
| TransCache.EndingTrans | sql/log.cc:4669-4673 | (a predicate, no contract of its own) defines ending_trans: a statement ends the transaction exactly when it is a full commit/rollback or neither BEGIN nor NOT_AUTOCOMMIT is in effect |
| TransCache.TransHasUpdatedNonTransTable | sql/log.cc:4684-4688 | (a predicate, no contract of its own) true exactly when the transaction or the statement touched a non-transactional table |
| TransCache.TrxData.Empty | sql/log.cc:193-196 | (a predicate, no contract of its own) the cache has no pending event and a length of 0 |
| TransCache.TrxData.constructor | sql/log.cc:176-181 | a new cache is empty, with no savepoint (MY_OFF_T_UNDEF), no statement committed and no incident |
| TransCache.TrxData.Truncate | sql/log.cc:202-225 | the cache is cut to pos, the pending event is dropped, at_least_one_stmt_committed becomes pos > 0, a savepoint beyond pos is forgotten, the incident flag is kept |
| TransCache.TrxData.Reset | sql/log.cc:231-238 | the cache is empty, savepoint and incident cleared; at_least_one_stmt_committed survives only if the cache was already empty |
| TransCache.TrxData.SetIncident | sql/log.cc:252-255 | the incident flag is set and nothing else changes |
| TransCache.TrxData.SetStmtBegin | sql/log.cc:4809-4823 | the savepoint becomes the current cache length; nothing else changes |
| TransCache.TrxData.StartTransAndStmt | sql/log.cc:4779-4807 | the savepoint is set to the current length only if none was set; nothing else changes |
| TransCache.TrxData.FlushPending | sql/log.cc:1455-1458 | a pending rows event is appended to the cache (its size added to the length) and is no longer pending |
| TransCache.TrxData.EndTrans | sql/log.cc:1435-1506 | with an end event the whole cache (with flushed pending event) is written with the incident flag; at the end of a transaction it is discarded; otherwise the cache is rolled back to the savepoint; the cache is reset exactly when the transaction ends |
| TransCache.TrxData.Commit | sql/log.cc:1532-1574 | an empty cache is only reset; otherwise the cache is written exactly when the transaction ends or, for a statement inside BEGIN or NOT_AUTOCOMMIT before any statement was committed to the cache (!all && !at_least_one_stmt_committed), the statement changed only non-transactional tables; otherwise it is kept, with the savepoint cleared for a statement commit |
| EventFixup.Uint4 | sql/log.cc:5423-5424 | uint4korr yields a value below 2^32 |
| EventFixup.Uint4OfStore4 | sql/log.cc:5473-5474 | reading back what int4store wrote yields the value modulo 2^32 |
| EventFixup.FixAt | sql/log.cc:5470-5474 | fixing one header keeps the length of the byte stream |
| EventFixup.FixAtPosValue | sql/log.cc:5470-5474 | after a fix the header's end position is (old + group) mod 2^32 |
| EventFixup.FixAtByte | sql/log.cc:5470-5474 | a fix changes no byte outside the 4-byte end-position field |
| EventFixup.FixAtKeepsLen | sql/log.cc:5470-5478 | a fix leaves the event-length field, and so the chaining to the next header, intact |
| EventFixup.FixFromStep | sql/log.cc:5453-5481 | fixing the chain from h is fixing the header at h and then the chain from the next header |
| EventFixup.FixFromPrefix | sql/log.cc:5379-5511 | the rewrite keeps the length of the cache and every byte before the first header it touches |
| EventFixup.FixFromKeeps | sql/log.cc:5379-5511 | the rewrite changes no byte that is not inside some chained header's end-position field |
| EventFixup.FixFromPosField | sql/log.cc:5379-5511 | every chained header's end position becomes (old + group) mod 2^32 |
| EventFixup.FixFromKeepsChain | sql/log.cc:5379-5511 | the rewritten stream is still a chain of events with the same lengths |
| EventFixup.FixAllWellChained | sql/log.cc:5379-5511 | a well-chained cache stays well chained after the rewrite |
| EventFixup.ConcatPrefix | sql/log.cc:5496-5504 | chunk k of the cache sits right after chunks 0..k-1 in the concatenation |
| EventFixup.CopyBytes | sql/log.cc:5434 | memcpy: the destination range holds the source range, the rest of the destination is untouched |
| EventFixup.FixEndLogPos | sql/log.cc:5470-5474 | the in-place fix of one header leaves exactly FixAt of the old buffer |
| EventFixup.CompleteHeader | sql/log.cc:5419-5424 | the split header is completed from the new chunk and its end position fixed |
| EventFixup.RestoreTail | sql/log.cc:5430-5434 | the fixed tail of a split header is written back over the head of the chunk |
| EventFixup.ReassembleHeader | sql/log.cc:5415-5440 | the split-header branch: the emitted bytes and the chunk are those of FixAt of the stream, and hdr_offs points to the next header |
| EventFixup.SaveHead | sql/log.cc:5460-5465 | the bytes of a header cut by the chunk end are saved in `header` |
| EventFixup.FixWholeHeader | sql/log.cc:5466-5479 | a whole header in the chunk is fixed in place and the scan moves to the next header |
| EventFixup.ScanHeader | sql/log.cc:5453-5481 | one scan step either fixes a whole header or saves a split one and stops, keeping the fixup invariant |
| EventFixup.ScanChunk | sql/log.cc:5444-5492 | the scan over one chunk keeps the fixup invariant and leaves either hdr_offs past the chunk or a carried header prefix |
| EventFixup.ResumeSplit | sql/log.cc:5415-5440 | finishing a split header at the start of a chunk keeps the fixup invariant |
| EventFixup.WriteChunk | sql/log.cc:5408-5497 | one round of the loop, for a split header carried in or not, keeps the fixup invariant and the emitted prefix |
| EventFixup.CacheRound | sql/log.cc:5408-5504 | one round over chunk k advances the emitted prefix to the end of chunk k and keeps the fixup invariant |
| EventFixup.LoadChunk | sql/log.cc:5504 | my_b_fill: a fresh read buffer holding exactly the next chunk |
| EventFixup.WriteCache | sql/log.cc:5379-5511 | the bytes written are exactly FixAll of the cache with group = filePos mod 2^32 (so every end position is fixed, nothing else changes, the length is kept), and no split header is carried past the end (carry == 0, the assertion at 5506) |
| EventFixup.FixingDone | sql/log.cc:5504-5506 | once the fixup state has reached the end of the cache, the emitted bytes are the fixed cache |
| GroupCommit.Session.constructor | sql/log.cc:4403-4405 | a new session holds no ticket |
| GroupCommit.Dispenser.constructor | sql/log.cc:2575-2577 | group commit starts allowed, with current and next ticket 1 and no ticket issued |
| GroupCommit.Dispenser.Disable | sql/log.cc:4274-4288 | group commit becomes disallowed; the tickets are unchanged |
| GroupCommit.Dispenser.Order | sql/log.cc:4295-4328 | a fresh ticket (the old next, never issued before) is handed out exactly when the session has none, group commit is allowed, the engine asks for order and next does not roll over; an already set ticket disables group commit; a rolled-over ticket disables it and restarts next at 0 |
| GroupCommit.Dispenser.Increment | sql/log.cc:4334-4363 | a session holding a ticket advances current (mod 2^64) and drops its ticket; a ticket other than current disables group commit |
| GroupCommit.Dispenser.MayProceed | sql/log.cc:4407-4408 | (a predicate, no contract of its own) a session may go on with its commit once group commit is off or its ticket is at most current |
| GroupCommit.ProceedInOrder | sql/log.cc:4407-4408 | if a ticket may proceed, every smaller ticket may too |
| GroupCommit.SyncDue | sql/log.cc:4513 | (no contract of its own) one commit's sync test and counter; its meaning over a run is stated by SyncPeriodic |
| GroupCommit.Counted | sql/log.cc:4513 | the number of commits that bump sync_binlog_counter (the non-async ones) is at most the run's length |
| GroupCommit.CounterValue | sql/log.cc:4513-4617 | after a run of commits from 0, with the counter reset to 0 by every sync, the counter is the number of non-async commits, modulo the period when it is non-zero |
| GroupCommit.SyncPeriodic | sql/log.cc:4513-4617 | sync_binlog = period: the next commit syncs exactly when it is not async and is the period-th, 2*period-th, ... non-async commit; with period 0 no commit syncs |
| GroupCommit.ModStep | sql/log.cc:4513 | the counter test n % p + 1 >= p holds exactly when p divides n + 1, and otherwise n % p + 1 is (n + 1) % p |
| GroupCommit.CDiv | sql/log.cc:4551 | C integer division truncating toward zero: the remainder has the sign of the dividend and is smaller than the divisor |
| GroupCommit.WaitForGroupSync | sql/log.cc:4548-4554 | a thread waits for a group fsync exactly when ordered, at least minSize are pending and waiting < pending/2 rounded toward zero |
| TcLogMmap.CountZeros | sql/log.cc:6606-6609 | the number of free slots is at most the number of slots |
| TcLogMmap.CountZerosUpdate | sql/log.cc:6774-6775 | storing or clearing one slot changes the free count by exactly one |
| TcLogMmap.FreshPage | sql/log.cc:6597-6607 | a laid-out page is all free, non-empty, and its search position (ptr) is at its start |
| TcLogMmap.PageBounds | sql/log.cc:6597-6607 | pages are adjacent, non-empty and inside the file |
| TcLogMmap.PageGeometry | sql/log.cc:6608-6610 | page 0, which holds the header, has exactly one slot less |
| TcLogMmap.PagesDisjoint | sql/log.cc:6597-6607 | a slot belongs to one page only |
| TcLogMmap.PagesOkUpdate | sql/log.cc:6774-6776 | changing a slot of one page keeps the invariant of every other page |
| TcLogMmap.FullPageHasNoFreeSlot | sql/log.cc:6766-6770 | a page whose free count is 0 has no zero slot |
| TcLogMmap.FreshPagesOk | sql/log.cc:6597-6610 | a zeroed file with freshly laid-out pages satisfies the page invariant |
| TcLogMmap.ScanPool | sql/log.cc:6668-6676 | the second strategy picks a waiter-free page with the most free slots, the first such in pool order, or none |
| TcLogMmap.ChooseActive | sql/log.cc:6654-6694 | the choice is Choice of the pool pages: the first page if it is waiter-free with a free slot, otherwise the scan's best of the rest; none only when no page qualifies |
| TcLogMmap.MostFree | sql/log.cc:6668-6676 | the reference answer over pp[lo..] is a takeable page inside the range |
| TcLogMmap.MostFreeIs | sql/log.cc:6668-6676 | the reference answer is the scan's answer: the most free takeable page, the first on a tie, or none |
| TcLogMmap.IsMostFreeUnique | sql/log.cc:6668-6676 | the scan's answer is unique, so the scan and the reference agree |
| TcLogMmap.Choice | sql/log.cc:6654-6694 | the corrected choice is a takeable page of the pool |
| TcLogMmap.ChooseActiveAsWritten | sql/log.cc:6661-6678 | as written, the first page is taken whenever it has no waiters |
| TcLogMmap.AsWrittenTakesFullPage | sql/log.cc:6665-6666 | a full first page without waiters is taken although no slot after its ptr is free |
| TcLogMmap.QueueTake | sql/log.cc:6680-6690 | unlinking the chosen page keeps each page in exactly one of pool and active |
| TcLogMmap.QueueReturn | sql/log.cc:6828-6832 | putting the synced page at the pool's tail keeps each page in exactly one place |
| TcLogMmap.XidsMembers | sql/log.cc:6930-6935 | the recovered set holds exactly the non-zero slot values |
| TcLogMmap.XidsConcat | sql/log.cc:6930-6935 | the xids of two ranges are the union of their xids |
| TcLogMmap.PoolPagesAt | sql/log.cc:6654-6694 | the pool pages, head first, are the pages the pool entries name |
| TcLogMmap.LayPages | sql/log.cc:6597-6611 | every page is laid out fresh |
| TcLogMmap.Log.constructor | sql/log.cc:6541-6611 | the log maps the file and lays out npages pages, with no active page and an empty pool |
| TcLogMmap.Log.CollectPages | sql/log.cc:6930-6935 | the recovery loop gathers exactly the xids stored in the file |
| TcLogMmap.Log.CollectSlots | sql/log.cc:6932-6933 | the inner recovery loop adds exactly the xids of slots lo..hi to the set |
| TcLogMmap.Log.ZeroFile | sql/log.cc:6941 | bzero: every slot and the header are zero; active page and pool unchanged |
| TcLogMmap.Log.Recover | sql/log.cc:6902-6952 | with the right magic and engine count and no engine failure the stored xids are returned and the file is zeroed; otherwise nothing changes |
| TcLogMmap.Log.Start | sql/log.cc:6617-6633 | the header is written, page 0 is active and pages 1..n-1 form the pool in order |
| TcLogMmap.Log.TakeActive | sql/log.cc:6654-6694 | the page Choice picks from the pool pages is unlinked from the pool and made active; when Choice is none nothing changes |
| TcLogMmap.Log.FindSlot | sql/log.cc:6765-6770 | the slot search stops at the first zero slot at or after ptr, inside the page |
| TcLogMmap.Log.Store | sql/log.cc:6772-6776 | the xid is stored in that slot, the page has one free slot less, its ptr moves past the slot, it is dirty, and the invariant holds |
| TcLogMmap.Log.SyncActive | sql/log.cc:6815-6843 | the synced page joins the pool's tail in state POOL or ERROR and no page is active |
| TcLogMmap.Log.LogToActive | sql/log.cc:6762-6812 | the xid lands in the first zero slot at or after ptr of the active page (never slot 0); only that slot and that page change, the page becoming LoggedPage (one free slot less, ptr after the slot, state POOL or ERROR), and it goes to the tail of the pool |
| TcLogMmap.Log.LogXid | sql/log.cc:6739-6812 | Blocked exactly when the active page is full or, with none active, Choice finds no pool page, and then nothing changes; otherwise the xid is logged as in LogToActive on the active page or on the page Choice takes (the pool losing that entry), and the cookie is the slot's byte offset (never 0), or 0 when the sync failed |
| TcLogMmap.Log.LogFromPool | sql/log.cc:6758-6812 | with no active page: Blocked exactly when Choice finds no pool page; otherwise the xid is logged on the page Choice takes, which moves from its place in the pool to the tail |
| TcLogMmap.Log.Unlog | sql/log.cc:6850-6869 | the cookie's slot is cleared, and its page gets one more free slot and a ptr no later than that slot |
| TcLogMmap.StoredPage | sql/log.cc:6773-6776 | a store leaves one free slot less, ptr after the slot, the page dirty |
| TcLogMmap.LoggedPage | sql/log.cc:6772-6843 | after the store and the sync the page has one free slot less, ptr after the slot and state POOL, or ERROR when the sync failed; its bounds and waiters are kept |
| TcLogMmap.UnloggedPage | sql/log.cc:6860-6862 | an unlog adds one free slot and moves ptr back to the cleared slot if earlier |
| TcLogMmap.StoreOk | sql/log.cc:6765-6776 | storing an xid in the first free slot after ptr keeps the page invariant |
| TcLogMmap.UnlogOk | sql/log.cc:6855-6862 | clearing a used slot keeps the page invariant and free never exceeds size |
| TcLogMmap.CookiePage | sql/log.cc:6852-6856 | the page computed from a cookie is the page holding the cookie's slot |
| TcLogBinlog.ReadLen | sql/log.cc:7210 | the recovery loop reads the events before the first invalid one |
| TcLogBinlog.ScanInTrans | sql/log.cc:7212-7229 | the scan is inside a transaction exactly when a BEGIN came and no COMMIT or Xid after it |
| TcLogBinlog.ScanXids | sql/log.cc:7222-7235 | the scan collects exactly the ids of the Xid events read |
| TcLogBinlog.ValidPosUnmoved | sql/log.cc:7264-7265 | valid_pos stays at its start while no event ends outside a transaction without error |
| TcLogBinlog.ValidPosLastSettled | sql/log.cc:7264-7265 | valid_pos is the end of the last event after which the scan stood outside a transaction without error |
| TcLogBinlog.Recover | sql/log.cc:7189-7286 | recovery returns the scanned xids and valid_pos, or fails when the format description event is invalid or the engines fail |
| TcLogBinlog.Trim | sql/log.cc:7089-7138 | with a valid_pos the binlog is cut to it (if longer) and the flags byte of the format description event is zeroed; no other byte changes |
| TcLogBinlog.Coordinator.constructor | sql/log.cc:2578 | the coordinator starts with no prepared xid |
| TcLogBinlog.Coordinator.Wrote | sql/log.cc:5712-5717 | writing an Xid commit event counts one more prepared xid |
| TcLogBinlog.Coordinator.Unlog | sql/log.cc:7176-7187 | unlog counts one prepared xid less and wakes the rotation waiters exactly when rotation may go on (MayRotate) |
| TcLogBinlog.Coordinator.MayRotate | sql/log.cc:4058-4074 | (a predicate, no contract of its own) new_file_impl goes on only when no prepared xid is left |
| LogIndex.Entries | sql/log.cc:3096-3128 | the index holds its names up to the first empty line |
| LogIndex.LivePrefix | sql/log.cc:3528-3547 | a prefix of the entries contains no empty line, so a register file holding it is read whole |
| LogIndex.FindLogPos | sql/log.cc:3079-3128 | with no name the first entry is found (or none for an empty index); with a name, the first entry equal to it, and none exactly when it is not in the index |
| LogIndex.NextLog | sql/log.cc:3155-3182 | the next entry after position k exists exactly when k is before the end of the index, and is index[k] |
| LogIndex.PurgeLen | sql/log.cc:3530-3543 | the purge selection is a prefix of the index |
| LogIndex.Purgeable | sql/log.cc:3531-3532 | (a predicate, no contract of its own) a log may be purged only when it is neither the active log (is_active) nor in use by a reader (log_in_use) |
| LogIndex.PurgeLenPrefix | sql/log.cc:3530-3543 | every selected log is neither active nor in use, and to_log is selected only when included and last |
| LogIndex.PurgeLenStops | sql/log.cc:3530-3543 | the selection stops at an active or in-use log, at to_log, or right after it |
| LogIndex.PurgeLenReaches | sql/log.cc:3530-3543 | when every log up to to_log may go, the selection reaches to_log, taking it when included |
| LogIndex.SweepEffect | sql/log.cc:3671-3846 | the sweep deletes exactly the registered files no longer in the index, keeps all others, and reports registered files already missing |
| LogIndex.SelectPurge | sql/log.cc:3528-3543 | the loop registers exactly the selected prefix of the index |
| LogIndex.Binlog.constructor | sql/log.cc:2649-2700 | the binlog holds the given index, register file, files and active log name |
| LogIndex.Binlog.PurgeIndexEntry | sql/log.cc:3671-3846 | the registered names up to the first empty line are swept against the live index; index and register unchanged |
| LogIndex.Binlog.OpenIndex | sql/log.cc:2697-2700 | opening the index finishes an interrupted purge of the registered names up to the first empty line and empties the register |
| LogIndex.Binlog.UpdateLogIndex | sql/log.cc:3461-3470 | the purged prefix is removed from the index |
| LogIndex.Binlog.RegisterPurge | sql/log.cc:3528-3547 | the selected prefix is written to the register file |
| LogIndex.Binlog.PurgeLogs | sql/log.cc:3496-3575 | to_log must be in the index; then the selected prefix is removed from the index, its files no longer named by the index are deleted and the register is emptied; otherwise nothing changes |
| LogIndex.Binlog.DateBoundary | sql/log.cc:3880-3931 | the scan of purge_logs_before_date finds DateBound of the index |
| LogIndex.Binlog.PurgeLogsBeforeDate | sql/log.cc:3867-3938 | the last log older than purge_time before the first active, in-use or newer one is purged with everything before it; none found changes nothing |
| LogIndex.DateBound | sql/log.cc:3883-3931 | the boundary, if any, lies inside the scanned range |
| LogIndex.DateBoundLive | sql/log.cc:3883-3928 | the boundary log exists, is older than purge_time, and it and all logs before it may be purged |
| LogIndex.DateBoundLast | sql/log.cc:3883-3931 | no later purgeable log is older than purge_time unless a newer log stops the scan first |
| LogIndex.DateBoundNone | sql/log.cc:3883-3931 | with no boundary, no purgeable log before the scan stops is older than purge_time |
| FileNames.SpacesEnd | sql/log.cc:6251 | the end of the leading blanks |
| FileNames.DigitsEnd | sql/log.cc:6254-6259 | the end of a run of digits |
| FileNames.Saturate | sql/log.cc:6270 | strtol's result is exact between LONG_MIN and LONG_MAX and is LONG_MAX (positive) or LONG_MIN (negative) beyond them |
| FileNames.SkipSpaces | sql/log.cc:6251 | the loop skips exactly the leading blanks |
| FileNames.ReadDigits | sql/log.cc:6254-6259 | the loop reads exactly the run of digits and its value, clamped |
| FileNames.AtoL | sql/log.cc:6270 | atol yields LongValue: optional blanks and sign, then digits, saturated |
| FileNames.TestIfNumber | sql/log.cc:6243-6272 | a string is accepted exactly when it is blanks, an optional sign, digits and optionally a dot followed by digits; the value is then atol of it, else 0 |
| FileNames.NumeralAccepted | sql/log.cc:6243-6272 | every numeral is accepted and read as its saturated integer part |
| FileNames.AcceptsOnlyNumerals | sql/log.cc:6243-6272 | every accepted string is a numeral, split into its parts |
| FileNames.Format06 | sql/log.cc:1926 | %06ld gives at least six characters, exactly six for values from -99999 to 999999, and a result longer than six has no leading zero after the sign; digits reading back as the value for v >= 0, and a minus sign followed by digits reading back as -v for v < 0 |
| FileNames.PaddedValue | sql/log.cc:1926 | the zero-padded decimal reads back as its value |
| FileNames.FormatRoundTrip | sql/log.cc:1915-1926 | for every long value, negative ones included, a %06ld name extension is accepted by test_if_number and atol reads it back |
| FileNames.SignedRoundTrip | sql/log.cc:1915-1926 | a minus sign followed by a zero-padded decimal of at most LONG_MAX + 1 is accepted and read back as its negation |
| FileNames.Decimal | sql/log.cc:1926 | the decimal of n is a non-empty run of digits, one digit below 10, starting with 0 only for 0 |
| FileNames.Pow10 | sql/log.cc:1926 | 10^k is at least 1 |
| FileNames.DecimalShort | sql/log.cc:1926 | a number below 10^k has at most k decimal digits |
| FileNames.PaddedShape | sql/log.cc:1926 | padding to width w gives exactly w characters below 10^w, and a longer result has no leading zero |
| FileNames.MaxFound | sql/log.cc:1915-1922 | the maximum is at least every numeric extension of a matching entry and is 0 or one of them |
| FileNames.ULong | sql/log.cc:1920 | the long-to-ulong cast adds 2^64 to a negative value |
| FileNames.AsLong | sql/log.cc:1926 | the ulong-to-long view is the inverse of that cast |
| FileNames.Succ | sql/log.cc:1926 | max_found + 1 wraps to 0 at 2^64 |
| FileNames.MaxFoundStep | sql/log.cc:1915-1922 | one loop step raises the maximum to the entry's number if bigger |
| FileNames.ReadEntry | sql/log.cc:1917-1918 | an entry is read as a number exactly when it is `base.` followed by text test_if_number accepts |
| FileNames.FindUniqFilename | sql/log.cc:1889-1926 | (corrected, see Findings) the new name is base.(max_found + 1) in %06ld; the call fails exactly when max_found + 1 wraps to 0, and otherwise the name is not in the directory; an unreadable directory fails with base.1 |
| FileNames.UniqNameIsNew | sql/log.cc:1889-1926 | unless max_found + 1 wraps (max_found == 2^64 - 1), the new name is not in the directory |
| FileNames.WrapCollides | sql/log.cc:1920-1926 | as written, the listing b.-1, b.000000 gives max_found 2^64 - 1, and the new name b.000000 is already in the directory |
| FileNames.EntryMinusOne | sql/log.cc:1917-1920 | the entry b.-1 reads as -1, which the cast to ulong makes 2^64 - 1 |
| FileNames.FormatZero | sql/log.cc:1926 | %06ld of 0 is 000000 |
| HyperLogLog.Window | mysys/hyperloglog.c:8 | bit_parts halves from 16 to 1, so each part is half the window before it |
| HyperLogLog.FirstSetBitLowest | mysys/hyperloglog.c:12-28 | with no bit set at or after start_bit the result is 32 - start_bit; otherwise it is the lowest set bit of hash >> start_bit, at most 31 - start_bit |
| HyperLogLog.LowBitIsLowest | mysys/hyperloglog.c:20-26 | the reference scan finds the one position p with all bits below p clear and bit p set |
| HyperLogLog.FindFirstSetBitAfterIndex | mysys/hyperloglog.c:12-28 | the binary search returns FirstSetBit: the position of the lowest set bit after start_bit |
| HyperLogLog.FirstSetBitBound | mysys/hyperloglog.c:46-48 | after skipping the index bits the rank is below max_bit_position, so insert stays inside the row |
| HyperLogLog.Cell | mysys/hyperloglog.c:106-109 | the updated cell is inside the table |
| HyperLogLog.Row | mysys/hyperloglog.c:73 | register i's row is cells i*max_bit_position .. +max_bit_position |
| HyperLogLog.RankUnique | mysys/hyperloglog.c:66-77 | a register has at most one rank for a given time |
| HyperLogLog.InsertSeen | mysys/hyperloglog.c:102-110 | after an insert at a time after since, the hashed register's rank is not "none" and at least the inserted rank + 1 |
| HyperLogLog.InsertOtherRank | mysys/hyperloglog.c:102-110 | an insert leaves the rank of every other register unchanged |
| HyperLogLog.ResetRanks | mysys/hyperloglog.c:55-57 | after a reset every register has no rank (32) for any non-negative time |
| HyperLogLog.Count32Append | mysys/hyperloglog.c:78-79 | the count of empty registers grows by one exactly for an empty register |
| HyperLogLog.Table.constructor | mysys/hyperloglog.c:45-53 | data_size is 1024, max_bit_position 23 and all cells are zero |
| HyperLogLog.Table.Reset | mysys/hyperloglog.c:55-57 | all cells are zero |
| HyperLogLog.Table.Insert | mysys/hyperloglog.c:102-110 | exactly the cell of the hash's register and rank gets the current time |
| HyperLogLog.Table.MaxValidIndex | mysys/hyperloglog.c:66-77 | the inner loop finds the register's rank: the largest j whose cell is newer than since, or 32 |
| HyperLogLog.Table.Ranks | mysys/hyperloglog.c:59-84 | every register's rank and the number of empty registers |

## Left out

- I/O errors other than a missing file (ENOENT) are not modelled; a failing sync or engine is a boolean parameter.
- Mutexes, condition variables and the waits they guard are not modelled, and neither are the statistics counters or the DBUG hooks.
- read_log_event and the event classes are not part of this model: recovery works on abstract events (kind, validity, I/O-error flag, end position).
- ha_recover is a parameter: the engines either take the xid set or fail.
- binlog_rollback, binlog_savepoint_* and table logging (check_if_log_table, the slow and general logs) are not modelled.
- The relay log and new_file_impl (rotation) are left out; only the condition for rotating, that no prepared xid is left, is modelled.
- EventFixup.WriteCache: it requires every chunk but the first and last to be at least a header long (19 bytes). The source reads the rest of a split header from the next chunk alone, and IO_CACHE chunks are far larger.
- EventFixup.WriteCache: hdr_offs is not wrapped at 32 bits.
- TcLogMmap.Log.LogXid: it is sequential: the writer always syncs its own page, so the hand-off to another syncer (sql/log.cc:6780-6843) and waiters are not modelled.
- TcLogMmap.Log.constructor: open() sets `pg->end` tc_log_page_size slots after the start, where it means bytes (sql/log.cc:6605), and never sets `pg->ptr`. The model ends a page `size` slots after its start and starts `ptr` at `start`.
- TcLogMmap.Log.LogXid: where the source waits (a full active page at sql/log.cc:6755-6756, no usable pool page in overflow()), the model returns Blocked and changes nothing.
- TcLogMmap.Log.TakeActive: when the chosen page is the last of the pool the source does not unlink it (sql/log.cc:6687-6690); the model always takes the page out of the pool, so each page is in exactly one of the pool and the active slot.
- TcLogMmap.Log.constructor: the page size is required to be a multiple of 8 bytes (one my_xid).
- GroupCommit.WaitForGroupSync: wait_for_group_commit_order's timed wait loop is modelled only as its proceed predicate (Dispenser.MayProceed).
- LogIndex: the index is a sequence of lines; FN_REFLEN line splitting, IO_CACHE seeking and adjust_linfo_offsets are not modelled. The register file is written once, at the end of the selection loop.
- FileNames.AtoL: only the space character counts as a blank, and strtol's saturation is that of glibc with a 64-bit long.
- FileNames.TestIfNumber: wildcards are not modelled; find_uniq_filename calls it with allow_wildcards false.
- FileNames.FindUniqFilename: reports failure when max_found + 1 wraps to 0, where the source returns success with a name that may already exist (see Findings).
- FileNames.FindUniqFilename: dirname_part and the directory read are not modelled; the directory listing is a parameter.
- HyperLogLog: the floating-point estimate (harmonic mean constant, small- and large-range corrections), my_malloc and destroy are left out; the query computes only the integer ranks and the count of empty registers.
- HyperLogLog.FindFirstSetBitAfterIndex: uint32 shifts and masks are modelled as division and remainder by powers of two.

## Findings

| source | as written | input that shows it | evidently intended | confidence | as-written member | corrected member |
|---|---|---|---|---|---|---|
| sql/log.cc:6665-6666 | get_active_from_pool takes the first pool page whenever it has no waiters, whatever its free count; log_xid then searches that page for a zero slot (6766-6769) and runs past its end | a pool whose first page has no waiters and every slot in use (free == 0) | take the first page only when it has no waiters and a free slot, otherwise fall back to the most-free page | not executed | TcLogMmap.ChooseActiveAsWritten, TcLogMmap.AsWrittenTakesFullPage | TcLogMmap.ChooseActive |
| sql/log.cc:1920-1926 | find_uniq_filename casts a negative extension such as -1 to ulong, so max_found becomes 2^64 - 1; max_found + 1 then wraps to 0 and sprintf writes base.000000, which can be in the directory already, yet the call returns success | the listing b.-1, b.000000 with base b | return nonzero when no unique name can be formed, as the function's comment promises (log.cc:1880-1887) | not executed | FileNames.WrapCollides | FileNames.FindUniqFilename, FileNames.UniqNameIsNew |
