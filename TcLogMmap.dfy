/**
 * TC_LOG_MMAP, the memory-mapped transaction-coordinator log used for
 * two-phase commit when the binary log is off.
 *
 * The log file is cut into pages of tc_log_page_size bytes and viewed as one
 * flat array of my_xid slots (`data`, slot k is bytes 8k..8k+7).  The first
 * five bytes of the file hold the magic and the number of two-phase-commit
 * engines (`header`), so page 0 loses its first slot.  A committed xid is
 * stored in a zero slot of the active page; its byte offset in the file is
 * the cookie that unlog later uses to clear the slot again.  Pages not in use
 * wait in the pool, a FIFO queue.
 *
 * The model is sequential: log_xid always finds the syncing slot free, so it
 * syncs its page itself and puts it back at the tail of the pool before it
 * returns.  The source's `pg->end` of open() adds tc_log_page_size slots
 * instead of bytes and its `pg->ptr` is never set; here a page ends `size`
 * slots after its start and `ptr` starts at `start`.
 */
module TcLogMmap {
  import opened Common

  /** sizeof(my_xid). */
  const XID_SIZE: nat := 8
  /** TC_LOG_HEADER_SIZE: the magic and the engine-count byte. */
  const HEADER_SIZE: nat := 5
  /** tc_log_magic. */
  const MAGIC: seq<byte> := [254, 0x23, 0x05, 0x74]

  datatype PageState = Pool | Error | Dirty

  /**
   * The PAGE control structure: its slots are data[start..end], `free` of
   * them are zero, and `ptr` is where the search for a zero slot begins.
   */
  datatype Page = Page(size: nat, free: nat, start: nat, end: nat, ptr: nat, state: PageState, waiters: nat)

  // ---------------------------------------------------------------------
  // Counting free slots.

  /** The number of zero (free) slots in s. */
  function CountZeros(s: seq<nat>): (n: nat)
    ensures n <= |s|
  {
    if |s| == 0 then 0 else (if s[0] == 0 then 1 else 0) + CountZeros(s[1..])
  }

  /** Skipping a prefix of used slots does not change the count. */
  lemma {:induction false} CountZerosSkip(s: seq<nat>, k: nat)
    requires k <= |s| && forall j :: 0 <= j < k ==> s[j] != 0
    ensures CountZeros(s) == CountZeros(s[k..])
  {
    if k > 0 {
      assert s[1..][k - 1..] == s[k..];
      CountZerosSkip(s[1..], k - 1);
    }
  }

  /** Writing v into slot i changes the count by what was and what is there. */
  lemma {:induction false} CountZerosUpdate(s: seq<nat>, i: nat, v: nat)
    requires i < |s|
    ensures CountZeros(s[i := v]) == CountZeros(s) - (if s[i] == 0 then 1 else 0) + (if v == 0 then 1 else 0)
  {
    if i > 0 {
      assert s[i := v][1..] == s[1..][i - 1 := v];
      CountZerosUpdate(s[1..], i - 1, v);
    } else {
      assert s[i := v][1..] == s[1..];
    }
  }

  /** A run of zero slots is all free. */
  lemma {:induction false} CountZerosAllZero(s: seq<nat>)
    requires forall k :: 0 <= k < |s| ==> s[k] == 0
    ensures CountZeros(s) == |s|
  {
    if |s| > 0 {
      CountZerosAllZero(s[1..]);
    }
  }

  /** A run with no free slot holds no zero. */
  lemma {:induction false} CountZerosNone(s: seq<nat>)
    requires CountZeros(s) == 0
    ensures forall k :: 0 <= k < |s| ==> s[k] != 0
  {
    if |s| > 0 {
      CountZerosNone(s[1..]);
      assert forall k :: 1 <= k < |s| ==> s[k] == s[1..][k - 1];
    }
  }

  // ---------------------------------------------------------------------
  // Page layout and the page invariant.

  /** The first slot of page i; page 0 gives its first slot to the header. */
  function PageStart(i: nat, slots: nat): nat
  {
    if i == 0 then 1 else i * slots
  }

  /** The slot after the last slot of page i. */
  function PageEnd(i: nat, slots: nat): nat
  {
    i * slots + slots
  }

  /** Page i as open() sets it up: all slots free, in the pool. */
  function FreshPage(i: nat, slots: nat): (p: Page)
    requires slots >= 2
    ensures p.size == p.free == p.end - p.start > 0 && p.ptr == p.start
  {
    var start := PageStart(i, slots);
    Page(PageEnd(i, slots) - start, PageEnd(i, slots) - start, start, PageEnd(i, slots), start, Pool, 0)
  }

  /**
   * Page i lies where open() put it, `free` counts its zero slots, and all
   * its slots before `ptr` are in use.
   */
  predicate PageOk(p: Page, i: nat, slots: nat, d: seq<nat>)
  {
    p.start == PageStart(i, slots) && p.end == PageEnd(i, slots) && p.size == p.end - p.start
    && p.start <= p.ptr <= p.end <= |d|
    && p.free == CountZeros(d[p.start..p.end])
    && (forall k :: p.start <= k < p.ptr ==> d[k] != 0)
  }

  predicate PagesOk(ps: seq<Page>, slots: nat, d: seq<nat>)
  {
    forall i :: 0 <= i < |ps| ==> PageOk(ps[i], i, slots, d)
  }

  /** Page i lies inside a file of n pages, and page i + 1 follows it. */
  lemma PageBounds(i: nat, n: nat, slots: nat)
    requires i < n && slots >= 2
    ensures PageStart(i, slots) < PageEnd(i, slots) <= n * slots
    ensures PageEnd(i, slots) == PageStart(i + 1, slots)
  {
    assert PageEnd(i, slots) == (i + 1) * slots;
    assert (i + 1) * slots <= n * slots;
  }

  /** The geometry of open(): pages of `pageSize` bytes hold pageSize / 8 slots, page 0 one less. */
  lemma PageGeometry(pageSize: nat)
    requires pageSize % XID_SIZE == 0 && pageSize >= 2 * XID_SIZE
    ensures pageSize == XID_SIZE * (pageSize / XID_SIZE)
    ensures (pageSize - HEADER_SIZE) / XID_SIZE == pageSize / XID_SIZE - 1
  {
  }

  /** Distinct pages never share a slot. */
  lemma PagesDisjoint(i: nat, j: nat, slots: nat, q: nat)
    requires i != j && slots > 0 && PageStart(i, slots) <= q < PageEnd(i, slots)
    ensures q < PageStart(j, slots) || PageEnd(j, slots) <= q
  {
    if i < j {
      assert PageEnd(i, slots) == (i + 1) * slots <= j * slots;
    } else {
      assert PageEnd(j, slots) == (j + 1) * slots <= i * slots;
    }
  }

  /** A page whose slot q is the only change keeps its invariant if q is not its own. */
  lemma PageOkOutside(p: Page, j: nat, slots: nat, d: seq<nat>, q: nat, v: nat)
    requires PageOk(p, j, slots, d) && q < |d| && (q < p.start || p.end <= q)
    ensures PageOk(p, j, slots, d[q := v])
  {
    assert d[q := v][p.start..p.end] == d[p.start..p.end];
  }

  /** Changing slot q of page i and page i's control structure keeps every other page intact. */
  lemma PagesOkUpdate(ps: seq<Page>, slots: nat, d: seq<nat>, i: nat, q: nat, v: nat, p: Page)
    requires PagesOk(ps, slots, d) && i < |ps| && slots > 0 && q < |d|
    requires PageStart(i, slots) <= q < PageEnd(i, slots)
    requires PageOk(p, i, slots, d[q := v])
    ensures PagesOk(ps[i := p], slots, d[q := v])
  {
    forall j | 0 <= j < |ps| && j != i
      ensures PageOk(ps[j], j, slots, d[q := v])
    {
      PagesDisjoint(i, j, slots, q);
      PageOkOutside(ps[j], j, slots, d, q, v);
    }
  }

  /** A full page leaves no zero slot for the search: `while (*p->ptr) p->ptr++` runs off its end. */
  lemma FullPageHasNoFreeSlot(p: Page, i: nat, slots: nat, d: seq<nat>)
    requires PageOk(p, i, slots, d) && p.free == 0
    ensures forall k :: p.start <= k < p.end ==> d[k] != 0
  {
    CountZerosNone(d[p.start..p.end]);
    assert forall k :: p.start <= k < p.end ==> d[k] == d[p.start..p.end][k - p.start];
  }

  /** The pages of a fresh, zero-filled file satisfy the page invariant. */
  lemma FreshPagesOk(ps: seq<Page>, slots: nat, d: seq<nat>)
    requires slots >= 2 && |d| == |ps| * slots
    requires forall i :: 0 <= i < |ps| ==> ps[i] == FreshPage(i, slots)
    requires forall k :: 0 <= k < |d| ==> d[k] == 0
    ensures PagesOk(ps, slots, d)
  {
    forall i | 0 <= i < |ps|
      ensures PageOk(ps[i], i, slots, d)
    {
      PageBounds(i, |ps|, slots);
      CountZerosAllZero(d[PageStart(i, slots)..PageEnd(i, slots)]);
    }
  }

  // ---------------------------------------------------------------------
  // Choosing the next active page (get_active_from_pool).

  /** A page that can become active: nobody waits on it and it has a free slot. */
  predicate Takeable(p: Page)
  {
    p.waiters == 0 && p.free > 0
  }

  /**
   * r is the scan's answer over pp[lo..hi]: the takeable page with the most
   * free slots, the first of them on a tie; None when no page is takeable.
   */
  predicate IsMostFree(pp: seq<Page>, lo: nat, hi: nat, r: Option<nat>)
    requires hi <= |pp|
  {
    match r
    case None => forall j :: lo <= j < hi ==> !Takeable(pp[j])
    case Some(i) =>
      lo <= i < hi && Takeable(pp[i])
      && (forall j :: lo <= j < hi && Takeable(pp[j]) ==> pp[j].free <= pp[i].free)
      && (forall j :: lo <= j < i && Takeable(pp[j]) ==> pp[j].free < pp[i].free)
  }

  /**
   * The second strategy of get_active_from_pool: the pool after its first
   * page is scanned for the waiter-free page with the most free slots.
   */
  method ScanPool(pp: seq<Page>) returns (r: Option<nat>)
    requires |pp| > 0
    ensures IsMostFree(pp, 1, |pp|, r)
  {
    var bestFree := 0;
    r := None;
    var k := 1;
    while k < |pp|
      invariant 1 <= k <= |pp|
      invariant r.None? ==> bestFree == 0
      invariant r.Some? ==> r.value < k && bestFree == pp[r.value].free
      invariant IsMostFree(pp, 1, k, r)
    {
      if pp[k].waiters == 0 && pp[k].free > bestFree {
        bestFree := pp[k].free;
        r := Some(k);
      }
      k := k + 1;
    }
  }

  /**
   * get_active_from_pool, as corrected: the first pool page if nobody waits
   * on it and it has a free slot, otherwise the result of the scan.  None
   * means the caller would wait in overflow() for an unlog.
   */
  method ChooseActive(pp: seq<Page>) returns (r: Option<nat>)
    requires |pp| > 0
    ensures r == Choice(pp)
    ensures Takeable(pp[0]) ==> r == Some(0)
    ensures !Takeable(pp[0]) ==> IsMostFree(pp, 1, |pp|, r)
    ensures r.Some? ==> r.value < |pp| && Takeable(pp[r.value])
    ensures r.None? <==> forall j :: 0 <= j < |pp| ==> !Takeable(pp[j])
  {
    if Takeable(pp[0]) {
      return Some(0);
    }
    r := ScanPool(pp);
    MostFreeIs(pp, 1);
    IsMostFreeUnique(pp, 1, r, MostFree(pp, 1));
  }

  /**
   * The reference answer over pp[lo..]: the takeable page with the most
   * free slots, the first of them on a tie; None when none is takeable.
   */
  function MostFree(pp: seq<Page>, lo: nat): (r: Option<nat>)
    ensures r.Some? ==> lo <= r.value < |pp| && Takeable(pp[r.value])
    decreases |pp| - lo
  {
    if lo >= |pp| then None
    else
      var rest := MostFree(pp, lo + 1);
      if Takeable(pp[lo]) && (rest.None? || pp[rest.value].free <= pp[lo].free) then Some(lo) else rest
  }

  /** The reference answer is the scan's answer. */
  lemma {:induction false} MostFreeIs(pp: seq<Page>, lo: nat)
    requires lo <= |pp|
    ensures IsMostFree(pp, lo, |pp|, MostFree(pp, lo))
    decreases |pp| - lo
  {
    if lo < |pp| {
      MostFreeIs(pp, lo + 1);
    }
  }

  /** Only one answer satisfies IsMostFree. */
  lemma IsMostFreeUnique(pp: seq<Page>, lo: nat, r: Option<nat>, r': Option<nat>)
    requires lo <= |pp| && IsMostFree(pp, lo, |pp|, r) && IsMostFree(pp, lo, |pp|, r')
    ensures r == r'
  {
    if r.Some? && r'.Some? {
      assert pp[r.value].free <= pp[r'.value].free && pp[r'.value].free <= pp[r.value].free;
    }
  }

  /**
   * The corrected get_active_from_pool's choice over the pool pages pp: the
   * first page when it is takeable, otherwise the best of the rest.
   */
  function Choice(pp: seq<Page>): (r: Option<nat>)
    requires |pp| > 0
    ensures r.Some? ==> r.value < |pp| && Takeable(pp[r.value])
  {
    if Takeable(pp[0]) then Some(0) else MostFree(pp, 1)
  }

  /**
   * get_active_from_pool as written: the first pool page is taken whenever
   * nobody waits on it, even when it has no free slot.
   */
  method ChooseActiveAsWritten(pp: seq<Page>) returns (r: Option<nat>)
    requires |pp| > 0
    ensures pp[0].waiters == 0 ==> r == Some(0)
    ensures pp[0].waiters != 0 ==> IsMostFree(pp, 1, |pp|, r)
  {
    if pp[0].waiters == 0 {
      return Some(0);
    }
    r := ScanPool(pp);
  }

  /**
   * The page the source takes for a full first pool page: it passes the
   * written test, yet it holds no free slot for log_xid, while the corrected
   * choice goes on to a page that has one.
   */
  lemma AsWrittenTakesFullPage(p: Page, i: nat, slots: nat, d: seq<nat>)
    requires PageOk(p, i, slots, d) && p.waiters == 0 && p.free == 0
    ensures !Takeable(p)
    ensures forall k :: p.ptr <= k < p.end ==> d[k] != 0
  {
    FullPageHasNoFreeSlot(p, i, slots, d);
  }

  // ---------------------------------------------------------------------
  // The pool queue.

  /**
   * Every page is either active or in the pool, exactly once (no page is in
   * the syncing slot between calls).
   */
  predicate QueueOk(pool: seq<nat>, active: Option<nat>, n: nat)
  {
    (forall k :: 0 <= k < |pool| ==> pool[k] < n)
    && (forall a, b :: 0 <= a < b < |pool| ==> pool[a] != pool[b])
    && (active.Some? ==> active.value < n && active.value !in pool)
    && |pool| + (if active.Some? then 1 else 0) == n
  }

  /** Unlinking pool entry c and making it active keeps the queue sound. */
  lemma QueueTake(pool: seq<nat>, n: nat, c: nat)
    requires QueueOk(pool, None, n) && c < |pool|
    ensures QueueOk(pool[..c] + pool[c + 1..], Some(pool[c]), n)
  {
    var rest := pool[..c] + pool[c + 1..];
    assert forall k :: 0 <= k < |rest| ==> rest[k] == pool[if k < c then k else k + 1];
  }

  /** Putting the synced page at the tail of the pool keeps the queue sound. */
  lemma QueueReturn(pool: seq<nat>, n: nat, i: nat)
    requires QueueOk(pool, Some(i), n)
    ensures QueueOk(pool + [i], None, n)
  {
  }

  /** The pages the pool queue holds, head first. */
  function PoolPages(ps: seq<Page>, pool: seq<nat>): (pp: seq<Page>)
    requires forall k :: 0 <= k < |pool| ==> pool[k] < |ps|
    ensures |pp| == |pool|
  {
    if |pool| == 0 then [] else [ps[pool[0]]] + PoolPages(ps, pool[1..])
  }

  /** Entry k of the pool pages is the page that pool entry k names. */
  lemma {:induction false} PoolPagesAt(ps: seq<Page>, pool: seq<nat>)
    requires forall k :: 0 <= k < |pool| ==> pool[k] < |ps|
    ensures forall k :: 0 <= k < |pool| ==> PoolPages(ps, pool)[k] == ps[pool[k]]
  {
    if |pool| > 0 {
      PoolPagesAt(ps, pool[1..]);
      assert forall k :: 1 <= k < |pool| ==> pool[1..][k - 1] == pool[k];
    }
  }

  // ---------------------------------------------------------------------
  // Recovery contents.

  /** The xids held by the non-zero slots of s. */
  function Xids(s: seq<nat>): set<nat>
  {
    if |s| == 0 then {} else Xids(s[..|s| - 1]) + (if s[|s| - 1] != 0 then {s[|s| - 1]} else {})
  }

  /** x is collected exactly when some slot holds it and it is not zero. */
  lemma {:induction false} XidsMembers(s: seq<nat>, x: nat)
    ensures x in Xids(s) <==> x != 0 && exists k :: 0 <= k < |s| && s[k] == x
  {
    if |s| > 0 {
      var t := s[..|s| - 1];
      XidsMembers(t, x);
      assert forall k :: 0 <= k < |t| ==> t[k] == s[k];
      if x != 0 && s[|s| - 1] != x && (exists k :: 0 <= k < |s| && s[k] == x) {
        var k :| 0 <= k < |s| && s[k] == x;
        assert t[k] == x;
      }
    }
  }

  /** Collecting two runs of slots one after the other. */
  lemma {:induction false} XidsConcat(a: seq<nat>, b: seq<nat>)
    ensures Xids(a + b) == Xids(a) + Xids(b)
  {
    if |b| > 0 {
      var b' := b[..|b| - 1];
      assert (a + b)[..|a + b| - 1] == a + b';
      XidsConcat(a, b');
    } else {
      assert a + b == a;
    }
  }

  /** Collecting slots lo..hi of d in two steps at m. */
  lemma XidsSplit(d: seq<nat>, lo: nat, m: nat, hi: nat)
    requires lo <= m <= hi <= |d|
    ensures Xids(d[lo..hi]) == Xids(d[lo..m]) + Xids(d[m..hi])
  {
    assert d[lo..hi] == d[lo..m] + d[m..hi];
    XidsConcat(d[lo..m], d[m..hi]);
  }

  /** What log_xid did. */
  datatype LogOutcome =
    | Blocked           // no page with a free slot: the caller would wait for an unlog
    | Logged(cookie: nat)  // the xid was stored; the cookie is 0 when the page sync failed

  /** The page for page i in the loop of open(), before page 0 is shortened. */
  function LoopPage(i: nat, slots: nat): (p: Page)
    requires slots >= 2
    ensures i > 0 ==> p == FreshPage(i, slots)
    ensures p.end == PageEnd(i, slots)
  {
    Page(slots, slots, i * slots, PageEnd(i, slots), i * slots, Pool, 0)
  }

  /**
   * The page loop of open(): every page spans pageSize / 8 slots, then page
   * 0 is cut to (pageSize - HEADER_SIZE) / 8 slots that end where the page
   * ends.
   */
  method LayPages(pageSize: nat, npages: nat) returns (ps: array<Page>)
    requires pageSize % XID_SIZE == 0 && pageSize >= 2 * XID_SIZE && npages >= 3
    ensures fresh(ps) && ps.Length == npages
    ensures forall i :: 0 <= i < npages ==> ps[i] == FreshPage(i, pageSize / XID_SIZE)
  {
    var s := pageSize / XID_SIZE;
    ps := new Page[npages];
    var i := 0;
    while i < npages
      invariant 0 <= i <= npages
      invariant forall j :: 0 <= j < i ==> ps[j] == LoopPage(j, s)
    {
      ps[i] := LoopPage(i, s);
      i := i + 1;
    }
    PageGeometry(pageSize);
    var size0 := (pageSize - HEADER_SIZE) / XID_SIZE;
    ps[0] := ps[0].(size := size0, free := size0, start := ps[0].end - size0, ptr := ps[0].end - size0);
  }

  /** The mapping of the file: an array holding its slots. */
  method MapFile(file: seq<nat>) returns (d: array<nat>)
    ensures fresh(d) && d[..] == file
  {
    d := new nat[|file|](k requires 0 <= k < |file| => file[k]);
  }

  /** The tc log: the mapped file, the page control structures and the pool. */
  class Log {
    const pageSize: nat       // tc_log_page_size, in bytes
    const slots: nat          // my_xid slots per page
    var header: seq<byte>     // the first HEADER_SIZE bytes of the file
    const data: array<nat>    // the file, slot by slot; slot 0 holds the header
    const pages: array<Page>
    var active: Option<nat>   // the page new xids go to
    var pool: seq<nat>        // the pool, head first

    /** The geometry open() sets up. */
    predicate Shape()
      reads this
    {
      slots >= 2 && pageSize == XID_SIZE * slots && pageSize > 0 && pages.Length >= 3
      && data.Length == pages.Length * slots && |header| == HEADER_SIZE
    }

    /** The pages as open() lays them out, before the log is started. */
    predicate LaidOut()
      reads this, pages
    {
      Shape() && forall i :: 0 <= i < pages.Length ==> pages[i] == FreshPage(i, slots)
    }

    /** The invariant of a started log. */
    predicate Valid()
      reads this, pages, data
    {
      Shape() && PagesOk(pages[..], slots, data[..]) && QueueOk(pool, active, pages.Length)
    }

    /**
     * The layout part of open(): the file of `npages` pages (its slots and
     * its header bytes as found on disk, zero for a new file) and the page
     * control structures.  Page 0 is (pageSize - HEADER_SIZE) / XID_SIZE
     * slots long and ends where the page ends.
     */
    constructor (pageSize: nat, npages: nat, file: seq<nat>, fileHeader: seq<byte>)
      requires pageSize % XID_SIZE == 0 && pageSize >= 2 * XID_SIZE && npages >= 3
      requires |file| == npages * (pageSize / XID_SIZE) && |fileHeader| == HEADER_SIZE
      ensures LaidOut() && fresh(data) && fresh(pages)
      ensures this.pageSize == pageSize && pages.Length == npages
      ensures data[..] == file && header == fileHeader && active == None && pool == []
    {
      PageGeometry(pageSize);
      var d := MapFile(file);
      var ps := LayPages(pageSize, npages);
      this.pageSize := pageSize;
      slots := pageSize / XID_SIZE;
      header := fileHeader;
      data := d;
      pages := ps;
      active := None;
      pool := [];
    }

    /** The xids in slots lo..hi of the file, collected one slot at a time. */
    method CollectSlots(lo: nat, hi: nat, acc: set<nat>) returns (acc': set<nat>)
      requires lo <= hi <= data.Length
      ensures acc' == acc + Xids(data[lo..hi])
    {
      acc' := acc;
      var x := lo;
      while x < hi
        invariant lo <= x <= hi
        invariant acc' == acc + Xids(data[lo..x])
      {
        assert data[lo..x + 1][..x - lo] == data[lo..x];
        if data[x] != 0 {
          acc' := acc' + {data[x]};
        }
        x := x + 1;
      }
    }

    /** The xids of every page of the file, page after page. */
    method CollectPages() returns (xids: set<nat>)
      requires LaidOut()
      ensures xids == Xids(data[1..])
    {
      xids := {};
      var i := 0;
      while i < pages.Length
        invariant 0 <= i <= pages.Length
        invariant xids == Xids(data[1..PageStart(i, slots)])
      {
        PageBounds(i, pages.Length, slots);
        xids := CollectSlots(pages[i].start, pages[i].end, xids);
        XidsSplit(data[..], 1, PageStart(i, slots), PageEnd(i, slots));
        i := i + 1;
      }
      PageCount(pages.Length, slots);
      assert data[1..PageStart(i, slots)] == data[1..];
    }

    /** bzero of the whole file. */
    method ZeroFile()
      requires Shape()
      modifies this, data
      ensures Shape() && header == [0, 0, 0, 0, 0] && forall k :: 0 <= k < data.Length ==> data[k] == 0
      ensures active == old(active) && pool == old(pool)
    {
      forall k | 0 <= k < data.Length {
        data[k] := 0;
      }
      header := [0, 0, 0, 0, 0];
    }

    /**
     * recover: a file without the magic, or recorded with another number
     * of two-phase-commit engines than `engines`, cannot be recovered.
     * Otherwise every xid found in a page slot is handed to the engines
     * (engineFails is their verdict) and, on success, the file is zeroed.
     */
    method Recover(engines: byte, engineFails: bool) returns (r: Option<set<nat>>)
      requires LaidOut()
      modifies this, data
      ensures LaidOut() && active == old(active) && pool == old(pool)
      ensures r.Some? <==> old(header[..4]) == MAGIC && old(header[4]) == engines && !engineFails
      ensures r.Some? ==> r.value == Xids(old(data[1..]))
                          && header == [0, 0, 0, 0, 0] && forall k :: 0 <= k < data.Length ==> data[k] == 0
      ensures r.None? ==> header == old(header) && data[..] == old(data[..])
    {
      if header[..4] != MAGIC || header[4] != engines {
        return None;
      }
      var xids := CollectPages();
      if engineFails {
        return None;
      }
      ZeroFile();
      r := Some(xids);
    }

    /**
     * The end of open(): the magic and the engine count are written, page 0
     * becomes active and all other pages make up the pool.
     */
    method Start(engines: byte)
      requires LaidOut() && forall k :: 0 <= k < data.Length ==> data[k] == 0
      modifies this
      ensures Valid() && header == MAGIC + [engines]
      ensures active == Some(0) && |pool| == pages.Length - 1
      ensures forall k :: 0 <= k < |pool| ==> pool[k] == k + 1
    {
      FreshPagesOk(pages[..], slots, data[..]);
      header := MAGIC + [engines];
      active := Some(0);
      pool := seq(pages.Length - 1, k => k + 1);
    }

    /**
     * The start of log_xid when there is no active page: the chosen pool
     * page is unlinked and made active.  False when every pool page is
     * full or waited on.
     */
    method TakeActive() returns (ok: bool, ghost c: nat)
      requires Valid() && active.None?
      modifies this
      ensures Valid() && header == old(header) && |old(pool)| == pages.Length
      ensures !ok ==> active == None && pool == old(pool) && Choice(PoolPages(pages[..], pool)) == None
      ensures !ok ==> forall k :: 0 <= k < |pool| ==> !Takeable(pages[pool[k]])
      ensures ok ==> c < |old(pool)| && Choice(PoolPages(pages[..], old(pool))) == Some(c)
                     && active == Some(old(pool)[c]) && Takeable(pages[old(pool)[c]])
                     && pool == old(pool)[..c] + old(pool)[c + 1..]
    {
      assert |pool| == pages.Length;
      var pp := PoolPages(pages[..], pool);
      PoolPagesAt(pages[..], pool);
      var r := ChooseActive(pp);
      c := 0;
      if r.None? {
        return false, c;
      }
      var k := r.value;
      c := k;
      QueueTake(pool, pages.Length, k);
      active := Some(pool[k]);
      pool := pool[..k] + pool[k + 1..];
      ok := true;
    }

    /** The slot search of log_xid: the first zero slot of page p at or after its ptr. */
    method FindSlot(p: Page, ghost i: nat) returns (q: nat)
      requires PageOk(p, i, slots, data[..]) && p.free > 0
      ensures p.ptr <= q < p.end && data[q] == 0
      ensures forall k :: p.ptr <= k < q ==> data[k] != 0
    {
      CountZerosSkip(data[p.start..p.end], p.ptr - p.start);
      assert data[p.start..p.end][p.ptr - p.start..] == data[p.ptr..p.end];
      q := p.ptr;
      while data[q] != 0
        invariant p.ptr <= q < p.end
        invariant CountZeros(data[q..p.end]) == p.free
        invariant forall k :: p.ptr <= k < q ==> data[k] != 0
        decreases p.end - q
      {
        assert data[q..p.end][1..] == data[q + 1..p.end];
        q := q + 1;
      }
    }

    /**
     * `*p->ptr++= xid; p->free--; p->state= DIRTY;` at slot q, the slot
     * FindSlot found on page i.
     */
    method Store(i: nat, q: nat, xid: nat)
      requires Valid() && i < pages.Length && xid != 0
      requires pages[i].ptr <= q < pages[i].end && data[q] == 0
      requires forall k :: pages[i].ptr <= k < q ==> data[k] != 0
      modifies data, pages
      ensures Valid() && old(pages[i]).free > 0
      ensures data[..] == old(data[..])[q := xid]
      ensures pages[..] == old(pages[..])[i := StoredPage(old(pages[i]), q)]
    {
      StoreOk(pages[..], slots, data[..], i, q, xid);
      var p' := StoredPage(pages[i], q);
      data[q] := xid;
      pages[i] := p';
    }

    /**
     * The sync of log_xid's page, by the session itself since nobody else is
     * syncing: the page leaves the active slot and goes to the tail of the
     * pool, in state ERROR when the msync failed.
     */
    method SyncActive(i: nat, syncFails: bool)
      requires Valid() && active == Some(i)
      modifies this, pages
      ensures Valid() && header == old(header) && active == None && pool == old(pool) + [i]
      ensures pages[..] == old(pages[..])[i := old(pages[i]).(state := if syncFails then Error else Pool)]
    {
      QueueReturn(pool, pages.Length, i);
      var p := pages[i];
      assert PageOk(p, i, slots, data[..]);
      pages[i] := p.(state := if syncFails then Error else Pool);
      active := None;
      pool := pool + [i];
    }

    /** The part of log_xid once a page with a free slot is active. */
    method LogToActive(xid: nat, syncFails: bool) returns (q: nat)
      requires Valid() && 0 < xid && active.Some? && pages[active.value].free > 0
      modifies this, data, pages
      ensures Valid() && header == old(header) && active == None
      ensures LoggedAt(old(data[..]), data[..], old(pages[..]), pages[..], old(active).value, q, xid, syncFails)
      ensures pool == old(pool) + [old(active).value]
      ensures q > 0
    {
      var i := active.value;
      assert PageOk(pages[i], i, slots, data[..]);
      q := FindSlot(pages[i], i);
      Store(i, q, xid);
      SyncActive(i, syncFails);
    }

    /**
     * log_xid with no active page: a page is taken from the pool, as the
     * corrected get_active_from_pool chooses it, and the xid is logged there;
     * Blocked (the wait in overflow()) when no pool page can be taken.
     */
    method LogFromPool(xid: nat, syncFails: bool) returns (r: LogOutcome, ghost page: nat, ghost slot: nat)
      requires Valid() && active.None? && 0 < xid < U64
      modifies this, data, pages
      ensures Valid() && header == old(header) && |old(pool)| == pages.Length
      ensures r.Blocked? <==> Choice(PoolPages(old(pages[..]), old(pool))) == None
      ensures r.Blocked? ==> data[..] == old(data[..]) && pages[..] == old(pages[..]) && pool == old(pool)
                             && active == None
      ensures r.Logged? ==>
                LoggedAt(old(data[..]), data[..], old(pages[..]), pages[..], page, slot, xid, syncFails) && active == None
                && r.cookie == (if syncFails then 0 else XID_SIZE * slot) && (!syncFails ==> r.cookie > 0)
      ensures r.Logged? ==>
                var c := Choice(PoolPages(old(pages[..]), old(pool))).value;
                page == old(pool)[c] && pool == old(pool)[..c] + old(pool)[c + 1..] + [page]
    {
      ghost var d0, ps0, pool0 := data[..], pages[..], pool;
      page, slot := 0, 0;
      var ok, c := TakeActive();
      if !ok {
        return Blocked, page, slot;
      }
      var i := active.value;
      assert PageOk(pages[i], i, slots, data[..]);
      assert d0 == data[..] && ps0 == pages[..];
      ghost var pool1 := pool;
      var q := LogToActive(xid, syncFails);
      page, slot := i, q;
      r := Logged(if syncFails then 0 else XID_SIZE * q);
      assert pool == pool1 + [page] && pool1 == pool0[..c] + pool0[c + 1..];
    }

    /**
     * log_xid: the xid goes into the first zero slot at or after ptr on the
     * active page, or on a page taken from the pool when there is no active
     * page; the cookie is the byte offset of that slot, 0 when the sync of
     * the page failed.  `page` and `slot` name where the xid went.
     */
    method LogXid(xid: nat, syncFails: bool) returns (r: LogOutcome, ghost page: nat, ghost slot: nat)
      requires Valid() && 0 < xid < U64
      modifies this, data, pages
      ensures Valid() && header == old(header)
      ensures r.Blocked? <==> if old(active).Some? then old(pages[active.value]).free == 0
                              else Choice(PoolPages(old(pages[..]), old(pool))) == None
      ensures r.Blocked? ==> data[..] == old(data[..]) && pages[..] == old(pages[..]) && pool == old(pool)
                             && active == old(active)
      ensures r.Logged? ==>
                LoggedAt(old(data[..]), data[..], old(pages[..]), pages[..], page, slot, xid, syncFails) && active == None
                && r.cookie == (if syncFails then 0 else XID_SIZE * slot) && (!syncFails ==> r.cookie > 0)
      ensures r.Logged? && old(active).Some? ==> page == old(active).value && pool == old(pool) + [page]
      ensures r.Logged? && old(active).None? ==>
                var c := Choice(PoolPages(old(pages[..]), old(pool))).value;
                page == old(pool)[c] && pool == old(pool)[..c] + old(pool)[c + 1..] + [page]
    {
      if active.None? {
        r, page, slot := LogFromPool(xid, syncFails);
        return;
      }
      page, slot := 0, 0;
      var i := active.value;
      if pages[i].free == 0 {
        return Blocked, page, slot;
      }
      assert PageOk(pages[i], i, slots, data[..]);
      var q := LogToActive(xid, syncFails);
      page, slot := i, q;
      r := Logged(if syncFails then 0 else XID_SIZE * q);
    }

    /**
     * unlog: the slot the cookie points at is cleared on the page
     * cookie / pageSize; that page gains a free slot (never more than its
     * size) and its search position moves back to the freed slot if that
     * lies before it.
     */
    method Unlog(cookie: nat, xid: nat)
      requires Valid() && 0 < cookie && cookie % XID_SIZE == 0 && cookie / XID_SIZE < data.Length
      requires xid != 0 && data[cookie / XID_SIZE] == xid
      modifies pages, data
      ensures Valid() && data[..] == old(data[..])[cookie / XID_SIZE := 0]
      ensures Unlogged(old(pages[..]), pages[..], PageOf(cookie, pageSize), cookie / XID_SIZE)
    {
      var q := cookie / XID_SIZE;
      var i := PageOf(cookie, pageSize);
      CookiePage(cookie, slots, pages.Length, q, i);
      UnlogOk(pages[..], slots, data[..], i, q);
      var p' := UnloggedPage(pages[i], q);
      data[q] := 0;
      pages[i] := p';
    }
  }

  /** `pages + (cookie / tc_log_page_size)`: the page a cookie lies in. */
  function PageOf(cookie: nat, pageSize: nat): nat
    requires pageSize > 0
  {
    cookie / pageSize
  }

  /** Page p after log_xid stored an xid in its slot q. */
  function StoredPage(p: Page, q: nat): (p': Page)
    requires p.free > 0
    ensures p'.free == p.free - 1 && p'.ptr == q + 1 && p'.state == Dirty
    ensures p'.start == p.start && p'.end == p.end && p'.size == p.size && p'.waiters == p.waiters
  {
    p.(ptr := q + 1, free := p.free - 1, state := Dirty)
  }

  /**
   * Page p after log_xid stored an xid in its slot q and synced it: one slot
   * fewer free, the search position just after q, and the page back in the
   * pool, in state ERROR when the msync failed.
   */
  function LoggedPage(p: Page, q: nat, syncFails: bool): (p': Page)
    requires p.free > 0
    ensures p'.free == p.free - 1 && p'.ptr == q + 1 && p'.state == (if syncFails then Error else Pool)
    ensures p'.start == p.start && p'.end == p.end && p'.size == p.size && p'.waiters == p.waiters
  {
    StoredPage(p, q).(state := if syncFails then Error else Pool)
  }

  /**
   * d, ps are the slots and pages d0, ps0 after log_xid put xid in slot q of
   * page i: q is the first zero slot at or after the page's ptr, only that
   * slot and that page changed, and the page is as LoggedPage says.
   */
  predicate LoggedAt(d0: seq<nat>, d: seq<nat>, ps0: seq<Page>, ps: seq<Page>, i: nat, q: nat, xid: nat, syncFails: bool)
  {
    i < |ps0| && ps0[i].ptr <= q < ps0[i].end && q < |d0| && d0[q] == 0
    && (forall k :: ps0[i].ptr <= k < q ==> d0[k] != 0)
    && d == d0[q := xid] && ps0[i].free > 0 && ps == ps0[i := LoggedPage(ps0[i], q, syncFails)]
  }

  /** Page p after unlog cleared its slot q. */
  function UnloggedPage(p: Page, q: nat): (p': Page)
    ensures p'.free == p.free + 1 && p'.ptr == (if q < p.ptr then q else p.ptr)
    ensures p'.start == p.start && p'.end == p.end && p'.size == p.size
    ensures p'.state == p.state && p'.waiters == p.waiters
  {
    p.(free := p.free + 1, ptr := if q < p.ptr then q else p.ptr)
  }

  /**
   * ps' is ps after unlog cleared slot q of page i: only page i changed, and
   * its free count stays within its size.
   */
  predicate Unlogged(ps: seq<Page>, ps': seq<Page>, i: nat, q: nat)
  {
    i < |ps| && ps' == ps[i := UnloggedPage(ps[i], q)] && ps'[i].free <= ps'[i].size
  }

  /** Storing a nonzero xid in the first zero slot after ptr keeps every page sound. */
  lemma StoreOk(ps: seq<Page>, slots: nat, d: seq<nat>, i: nat, q: nat, xid: nat)
    requires slots > 0 && PagesOk(ps, slots, d) && i < |ps| && xid != 0
    requires ps[i].ptr <= q < ps[i].end && d[q] == 0
    requires forall k :: ps[i].ptr <= k < q ==> d[k] != 0
    ensures ps[i].free > 0
    ensures PagesOk(ps[i := StoredPage(ps[i], q)], slots, d[q := xid])
  {
    var p := ps[i];
    assert PageOk(p, i, slots, d);
    assert d[q := xid][p.start..p.end] == d[p.start..p.end][q - p.start := xid];
    CountZerosUpdate(d[p.start..p.end], q - p.start, xid);
    var p' := StoredPage(p, q);
    assert PageOk(p', i, slots, d[q := xid]);
    PagesOkUpdate(ps, slots, d, i, q, xid, p');
  }

  /** Clearing a used slot of page i keeps every page sound, and page i's free count within its size. */
  lemma UnlogOk(ps: seq<Page>, slots: nat, d: seq<nat>, i: nat, q: nat)
    requires slots > 0 && PagesOk(ps, slots, d) && i < |ps| && q < |d| && d[q] != 0
    requires PageStart(i, slots) <= q < PageEnd(i, slots)
    ensures PagesOk(ps[i := UnloggedPage(ps[i], q)], slots, d[q := 0])
    ensures UnloggedPage(ps[i], q).free <= ps[i].size
  {
    var p := ps[i];
    assert PageOk(p, i, slots, d);
    assert d[q := 0][p.start..p.end] == d[p.start..p.end][q - p.start := 0];
    CountZerosUpdate(d[p.start..p.end], q - p.start, 0);
    var p' := UnloggedPage(p, q);
    assert PageOk(p', i, slots, d[q := 0]);
    PagesOkUpdate(ps, slots, d, i, q, 0, p');
  }

  /**
   * The page of a cookie (its byte offset / the page size) is the page whose
   * slots hold slot cookie / 8.
   */
  lemma CookiePage(cookie: nat, slots: nat, n: nat, q: nat, i: nat)
    requires slots > 0 && cookie % XID_SIZE == 0 && cookie > 0
    requires q == cookie / XID_SIZE && i == cookie / (XID_SIZE * slots) && q < n * slots
    ensures i < n && PageStart(i, slots) <= q < PageEnd(i, slots)
  {
    var r := cookie % (XID_SIZE * slots);
    assert cookie == XID_SIZE * q;
    assert cookie == i * (XID_SIZE * slots) + r && r < XID_SIZE * slots;
    assert i * (XID_SIZE * slots) == XID_SIZE * (i * slots);
    assert i * slots <= q < i * slots + slots;
  }

  /** The pages of a file of n pages end where the file ends. */
  lemma PageCount(n: nat, slots: nat)
    requires n > 0
    ensures PageStart(n, slots) == n * slots
  {
  }
}
