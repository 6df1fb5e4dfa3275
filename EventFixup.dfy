/**
 * The end-position fixup that MYSQL_BIN_LOG::write_cache applies while it
 * copies a transaction cache into the binary log.
 *
 * A transaction cache is a byte stream of binlog events.  Every event starts
 * with a LOG_EVENT_HEADER_LEN-byte header; the 4-byte little-endian field at
 * EVENT_LEN_OFFSET is the length of the whole event (so it chains to the next
 * header) and the 4-byte little-endian field at LOG_POS_OFFSET is the event's
 * end position, written relative to the start of the cache.  write_cache adds
 * the offset `group` of the cache in the log file to every end position,
 * modulo 2^32.  The cache is read in chunks, so a header may be split over a
 * chunk boundary.
 *
 * FixAll is the specification of the whole rewrite: the headers are fixed one
 * after the other, in place (FixAt).  WriteCache is the chunk-by-chunk loop
 * of the source with its `header`, `carry` and `hdr_offs` variables, proved
 * to emit FixAll of the concatenated chunks.
 */
module EventFixup {
  import opened Common

  // Binlog format version 4 header layout.
  const LOG_EVENT_HEADER_LEN: nat := 19
  const EVENT_LEN_OFFSET: nat := 9
  const LOG_POS_OFFSET: nat := 13

  /** uint4korr: the little-endian 32-bit value stored in s[i..i+4]. */
  function Uint4(s: seq<byte>, i: nat): (v: nat)
    requires i + 4 <= |s|
    ensures v < U32
  {
    s[i] as int + 256 * s[i + 1] as int + 65536 * s[i + 2] as int + 16777216 * s[i + 3] as int
  }

  /** int4store: the four little-endian bytes of v, truncated to 32 bits. */
  function Store4(v: int): (r: seq<byte>)
    ensures |r| == 4
  {
    var w := v % U32;
    var q1 := w / 256;
    var q2 := q1 / 256;
    [w % 256, q1 % 256, q2 % 256, q2 / 256]
  }

  /** Reading back what int4store wrote gives the value modulo 2^32. */
  lemma Uint4OfStore4(v: int)
    ensures Uint4(Store4(v), 0) == v % U32
  {
    var w := v % U32;
    var q1 := w / 256;
    var q2 := q1 / 256;
    assert w == w % 256 + 256 * q1;
    assert q1 == q1 % 256 + 256 * q2;
    assert q2 == q2 % 256 + 256 * (q2 / 256);
  }

  /** uint4korr reads only the four bytes it is given. */
  lemma Uint4Same(a: seq<byte>, i: nat, b: seq<byte>, j: nat)
    requires i + 4 <= |a| && j + 4 <= |b|
    requires a[i..i + 4] == b[j..j + 4]
    ensures Uint4(a, i) == Uint4(b, j)
  {
    assert a[i] == a[i..i + 4][0] == b[j];
    assert a[i + 1] == a[i..i + 4][1] == b[j + 1];
    assert a[i + 2] == a[i..i + 4][2] == b[j + 2];
    assert a[i + 3] == a[i..i + 4][3] == b[j + 3];
  }

  /** uint4korr at i when a and b agree from q on. */
  lemma Uint4Suffix(a: seq<byte>, b: seq<byte>, q: nat, i: nat)
    requires |a| == |b| && q <= i && i + 4 <= |a| && a[q..] == b[q..]
    ensures Uint4(a, i) == Uint4(b, i)
  {
    assert a[i..i + 4] == a[q..][i - q..i - q + 4];
    assert b[i..i + 4] == b[q..][i - q..i - q + 4];
    Uint4Same(a, i, b, i);
  }

  /** uint4korr at i when a and b agree below q. */
  lemma Uint4Prefix(a: seq<byte>, b: seq<byte>, q: nat, i: nat)
    requires q <= |a| && q <= |b| && i + 4 <= q && a[..q] == b[..q]
    ensures Uint4(a, i) == Uint4(b, i)
  {
    assert a[i..i + 4] == a[..q][i..i + 4];
    assert b[i..i + 4] == b[..q][i..i + 4];
    Uint4Same(a, i, b, i);
  }

  /** Agreement from q on implies agreement from any later r on. */
  lemma SuffixFrom(a: seq<byte>, b: seq<byte>, q: nat, r: nat)
    requires q <= r <= |a| && |a| == |b| && a[q..] == b[q..]
    ensures a[r..] == b[r..]
  {
    assert a[r..] == a[q..][r - q..];
    assert b[r..] == b[q..][r - q..];
  }

  /** Equal prefixes of length q have equal shorter prefixes. */
  lemma PrefixFrom(a: seq<byte>, b: seq<byte>, q: nat, r: nat)
    requires r <= q <= |a| && q <= |b| && a[..q] == b[..q]
    ensures a[..r] == b[..r]
  {
    assert a[..r] == a[..q][..r];
    assert b[..r] == b[..q][..r];
  }

  /** The length field of the event whose header starts at h. */
  function EventLen(s: seq<byte>, h: nat): nat
    requires h + LOG_EVENT_HEADER_LEN <= |s|
  {
    Uint4(s, h + EVENT_LEN_OFFSET)
  }

  /** A whole event starts at h: its header fits and its length is plausible. */
  predicate EventAt(s: seq<byte>, h: nat)
  {
    h + LOG_EVENT_HEADER_LEN <= |s| &&
    EventLen(s, h) >= LOG_EVENT_HEADER_LEN &&
    h + EventLen(s, h) <= |s|
  }

  /**
   * The events chained from offset h tile s[h..] exactly: every event is at
   * least a header long and the last one ends at the end of s (the assertion
   * `carry == 0` at the end of write_cache relies on this).
   */
  predicate ChainedFrom(s: seq<byte>, h: nat)
    decreases |s| - h
  {
    h == |s| || (EventAt(s, h) && ChainedFrom(s, h + EventLen(s, h)))
  }

  predicate WellChained(s: seq<byte>)
  {
    ChainedFrom(s, 0)
  }

  /** p is the offset of one of the event headers chained from h. */
  ghost predicate IsHeader(s: seq<byte>, h: nat, p: nat)
    decreases |s| - h
  {
    EventAt(s, h) && (p == h || IsHeader(s, h + EventLen(s, h), p))
  }

  /** i lies in the end_log_pos field of one of the headers chained from h. */
  ghost predicate InPosField(s: seq<byte>, h: nat, i: nat)
    decreases |s| - h
  {
    EventAt(s, h) &&
    (h + LOG_POS_OFFSET <= i < h + LOG_POS_OFFSET + 4 || InPosField(s, h + EventLen(s, h), i))
  }

  /** The event starting at h only depends on the bytes from h on. */
  lemma EventLenSuffix(a: seq<byte>, b: seq<byte>, h: nat)
    requires |a| == |b| && h + LOG_EVENT_HEADER_LEN <= |a| && a[h..] == b[h..]
    ensures EventLen(a, h) == EventLen(b, h)
    ensures EventAt(a, h) <==> EventAt(b, h)
  {
    Uint4Suffix(a, b, h, h + EVENT_LEN_OFFSET);
  }

  /** Whether the chain continues from h depends only on the bytes from h on. */
  lemma {:induction false} ChainedSuffix(a: seq<byte>, b: seq<byte>, h: nat)
    requires |a| == |b| && h <= |a| && a[h..] == b[h..]
    requires ChainedFrom(a, h)
    ensures ChainedFrom(b, h)
    decreases |a| - h
  {
    if h < |a| {
      EventLenSuffix(a, b, h);
      var len := EventLen(a, h);
      SuffixFrom(a, b, h, h + len);
      ChainedSuffix(a, b, h + len);
    }
  }

  /** The headers chained from h depend only on the bytes from h on. */
  lemma {:induction false} HeaderSuffix(a: seq<byte>, b: seq<byte>, h: nat, p: nat)
    requires |a| == |b| && h <= |a| && a[h..] == b[h..]
    requires IsHeader(a, h, p)
    ensures IsHeader(b, h, p)
    decreases |a| - h
  {
    EventLenSuffix(a, b, h);
    if p != h {
      var len := EventLen(a, h);
      SuffixFrom(a, b, h, h + len);
      HeaderSuffix(a, b, h + len, p);
    }
  }

  /** So do their end_log_pos fields. */
  lemma {:induction false} PosFieldSuffix(a: seq<byte>, b: seq<byte>, h: nat, i: nat)
    requires |a| == |b| && h <= |a| && a[h..] == b[h..]
    requires InPosField(a, h, i)
    ensures InPosField(b, h, i)
    decreases |a| - h
  {
    EventLenSuffix(a, b, h);
    var len := EventLen(a, h);
    if !(h + LOG_POS_OFFSET <= i < h + LOG_POS_OFFSET + 4) {
      SuffixFrom(a, b, h, h + len);
      PosFieldSuffix(a, b, h + len, i);
    }
  }

  /** Chained headers lie inside the stream, at or after the start of the chain. */
  lemma {:induction false} IsHeaderBounds(s: seq<byte>, h: nat, p: nat)
    requires IsHeader(s, h, p)
    ensures h <= p && EventAt(s, p)
    decreases |s| - h
  {
    if p != h {
      IsHeaderBounds(s, h + EventLen(s, h), p);
    }
  }

  /** s with the end_log_pos of the header at p increased by group. */
  function FixAt(s: seq<byte>, p: nat, group: int): (r: seq<byte>)
    requires p + LOG_EVENT_HEADER_LEN <= |s|
    ensures |r| == |s|
  {
    var b := Store4(Uint4(s, p + LOG_POS_OFFSET) + group);
    s[p + LOG_POS_OFFSET := b[0]][p + LOG_POS_OFFSET + 1 := b[1]][p + LOG_POS_OFFSET + 2 := b[2]][p + LOG_POS_OFFSET + 3 := b[3]]
  }

  /** FixAt changes the four end_log_pos bytes and nothing else. */
  lemma FixAtParts(s: seq<byte>, p: nat, group: int)
    requires p + LOG_EVENT_HEADER_LEN <= |s|
    ensures FixAt(s, p, group)[..p + LOG_POS_OFFSET] == s[..p + LOG_POS_OFFSET]
    ensures FixAt(s, p, group)[p + LOG_POS_OFFSET + 4..] == s[p + LOG_POS_OFFSET + 4..]
    ensures FixAt(s, p, group)[p + LOG_POS_OFFSET..p + LOG_POS_OFFSET + 4] == Store4(Uint4(s, p + LOG_POS_OFFSET) + group)
  {
  }

  /** FixAt stores the shifted end_log_pos, truncated to 32 bits. */
  lemma FixAtPosValue(s: seq<byte>, p: nat, group: int)
    requires p + LOG_EVENT_HEADER_LEN <= |s|
    ensures Uint4(FixAt(s, p, group), p + LOG_POS_OFFSET) == (Uint4(s, p + LOG_POS_OFFSET) + group) % U32
  {
    var v := Uint4(s, p + LOG_POS_OFFSET) + group;
    Uint4OfStore4(v);
  }

  /** FixAt leaves the event length in place. */
  lemma FixAtKeepsLen(s: seq<byte>, p: nat, group: int)
    requires p + LOG_EVENT_HEADER_LEN <= |s|
    ensures EventLen(FixAt(s, p, group), p) == EventLen(s, p)
  {
  }

  /** A byte outside the end_log_pos field is left as it was by FixAt. */
  lemma FixAtByte(s: seq<byte>, p: nat, group: int, i: nat)
    requires p + LOG_EVENT_HEADER_LEN <= |s| && i < |s|
    requires !(p + LOG_POS_OFFSET <= i < p + LOG_POS_OFFSET + 4)
    ensures FixAt(s, p, group)[i] == s[i]
  {
  }

  /** Fixing the header at h keeps the chain from the next event on. */
  lemma FixAtKeepsChain(s: seq<byte>, h: nat, group: int)
    requires ChainedFrom(s, h) && h < |s|
    ensures ChainedFrom(FixAt(s, h, group), h + EventLen(s, h))
  {
    FixAtSuffix(s, h, group);
    ChainedSuffix(s, FixAt(s, h, group), h + EventLen(s, h));
  }

  /** FixAt at h leaves everything from the next event on as it was. */
  lemma FixAtSuffix(s: seq<byte>, h: nat, group: int)
    requires EventAt(s, h)
    ensures FixAt(s, h, group)[h + EventLen(s, h)..] == s[h + EventLen(s, h)..]
  {
    FixAtParts(s, h, group);
    SuffixFrom(FixAt(s, h, group), s, h + LOG_POS_OFFSET + 4, h + EventLen(s, h));
  }

  /** The later headers, and their end_log_pos values, survive a FixAt at h. */
  lemma LaterHeaderKept(s: seq<byte>, h: nat, group: int, p: nat)
    requires EventAt(s, h) && IsHeader(s, h + EventLen(s, h), p)
    ensures h + EventLen(s, h) <= p && p + LOG_EVENT_HEADER_LEN <= |s|
    ensures IsHeader(FixAt(s, h, group), h + EventLen(s, h), p)
    ensures Uint4(FixAt(s, h, group), p + LOG_POS_OFFSET) == Uint4(s, p + LOG_POS_OFFSET)
  {
    var len := EventLen(s, h);
    FixAtSuffix(s, h, group);
    IsHeaderBounds(s, h + len, p);
    HeaderSuffix(s, FixAt(s, h, group), h + len, p);
    Uint4Suffix(FixAt(s, h, group), s, h + len, p + LOG_POS_OFFSET);
  }

  /** The later end_log_pos fields are the same after a FixAt at h. */
  lemma LaterPosFieldsKept(s: seq<byte>, h: nat, group: int, i: nat)
    requires EventAt(s, h)
    ensures InPosField(FixAt(s, h, group), h + EventLen(s, h), i) ==> InPosField(s, h + EventLen(s, h), i)
  {
    var len := EventLen(s, h);
    FixAtSuffix(s, h, group);
    if InPosField(FixAt(s, h, group), h + len, i) {
      PosFieldSuffix(FixAt(s, h, group), s, h + len, i);
    }
  }

  /** The events chained from h, each with its end_log_pos increased by group. */
  function FixFrom(s: seq<byte>, h: nat, group: int): seq<byte>
    requires ChainedFrom(s, h)
    decreases |s| - h
  {
    if h == |s| then s
    else
      FixAtKeepsChain(s, h, group);
      FixFrom(FixAt(s, h, group), h + EventLen(s, h), group)
  }

  /** One step of FixFrom: fix the header at h, then go on from the next one. */
  lemma FixFromStep(s: seq<byte>, h: nat, group: int)
    requires ChainedFrom(s, h) && h < |s|
    ensures ChainedFrom(FixAt(s, h, group), h + EventLen(s, h))
    ensures FixFrom(s, h, group) == FixFrom(FixAt(s, h, group), h + EventLen(s, h), group)
  {
    FixAtKeepsChain(s, h, group);
  }

  /** The whole cache with every end_log_pos increased by group. */
  function FixAll(s: seq<byte>, group: int): seq<byte>
    requires WellChained(s)
  {
    FixFrom(s, 0, group)
  }

  // ---------------------------------------------------------------------
  // Properties of the specification.

  /** The rewrite never changes the length of the stream, nor the bytes before h. */
  lemma {:induction false} FixFromPrefix(s: seq<byte>, h: nat, group: int)
    requires ChainedFrom(s, h)
    ensures |FixFrom(s, h, group)| == |s|
    ensures FixFrom(s, h, group)[..h] == s[..h]
    decreases |s| - h
  {
    if h < |s| {
      var t := FixAt(s, h, group);
      FixFromStep(s, h, group);
      FixFromPrefix(t, h + EventLen(s, h), group);
      PrefixFrom(FixFrom(t, h + EventLen(s, h), group), t, h + EventLen(s, h), h);
      FixAtOutside(s, h, group, h, h + LOG_EVENT_HEADER_LEN);
    }
  }

  /** Every byte outside the end_log_pos fields is copied unchanged. */
  lemma {:induction false} FixFromKeeps(s: seq<byte>, h: nat, group: int, i: nat)
    requires ChainedFrom(s, h)
    requires i < |s| && !InPosField(s, h, i)
    ensures |FixFrom(s, h, group)| == |s|
    ensures FixFrom(s, h, group)[i] == s[i]
    decreases |s| - h
  {
    FixFromPrefix(s, h, group);
    if h < |s| {
      var len := EventLen(s, h);
      FixFromStep(s, h, group);
      LaterPosFieldsKept(s, h, group, i);
      FixFromKeeps(FixAt(s, h, group), h + len, group, i);
      FixAtByte(s, h, group, i);
    }
  }

  /** The end_log_pos of the first header becomes the original plus group. */
  lemma FixFromFirstPosField(s: seq<byte>, h: nat, group: int)
    requires ChainedFrom(s, h) && h < |s|
    ensures |FixFrom(s, h, group)| == |s| && h + LOG_EVENT_HEADER_LEN <= |s|
    ensures Uint4(FixFrom(s, h, group), h + LOG_POS_OFFSET) == (Uint4(s, h + LOG_POS_OFFSET) + group) % U32
  {
    var len := EventLen(s, h);
    var s' := FixAt(s, h, group);
    FixFromStep(s, h, group);
    FixFromPrefix(s', h + len, group);
    Uint4Prefix(FixFrom(s', h + len, group), s', h + len, h + LOG_POS_OFFSET);
    FixAtPosValue(s, h, group);
  }

  /** The end_log_pos at p after the whole rewrite from h, as after the rewrite from the next event. */
  lemma PosFieldStep(s: seq<byte>, h: nat, group: int, p: nat)
    requires ChainedFrom(s, h) && h < |s| && h + EventLen(s, h) <= p && p + LOG_EVENT_HEADER_LEN <= |s|
    requires ChainedFrom(FixAt(s, h, group), h + EventLen(s, h))
    requires |FixFrom(FixAt(s, h, group), h + EventLen(s, h), group)| == |s|
    requires Uint4(FixFrom(FixAt(s, h, group), h + EventLen(s, h), group), p + LOG_POS_OFFSET)
             == (Uint4(FixAt(s, h, group), p + LOG_POS_OFFSET) + group) % U32
    requires Uint4(FixAt(s, h, group), p + LOG_POS_OFFSET) == Uint4(s, p + LOG_POS_OFFSET)
    ensures |FixFrom(s, h, group)| == |s|
    ensures Uint4(FixFrom(s, h, group), p + LOG_POS_OFFSET) == (Uint4(s, p + LOG_POS_OFFSET) + group) % U32
  {
    FixFromStep(s, h, group);
  }

  /**
   * The end_log_pos of every chained header becomes the original value plus
   * group, modulo 2^32.
   */
  lemma {:induction false} FixFromPosField(s: seq<byte>, h: nat, group: int, p: nat)
    requires ChainedFrom(s, h) && IsHeader(s, h, p)
    ensures |FixFrom(s, h, group)| == |s|
    ensures h <= p && p + LOG_EVENT_HEADER_LEN <= |s|
    ensures Uint4(FixFrom(s, h, group), p + LOG_POS_OFFSET) == (Uint4(s, p + LOG_POS_OFFSET) + group) % U32
    decreases |s| - h
  {
    IsHeaderBounds(s, h, p);
    if p == h {
      FixFromFirstPosField(s, h, group);
    } else {
      var len := EventLen(s, h);
      LaterHeaderKept(s, h, group, p);
      FixAtKeepsChain(s, h, group);
      FixFromPosField(FixAt(s, h, group), h + len, group, p);
      PosFieldStep(s, h, group, p);
    }
  }

  /**
   * t keeps the length field of the event at h when it agrees with s' up to
   * the end of that event and s' agrees with s up to its end_log_pos.
   */
  lemma LenFieldKept(s: seq<byte>, s': seq<byte>, t: seq<byte>, h: nat)
    requires EventAt(s, h) && |s'| == |s| && |t| == |s|
    requires s'[..h + LOG_POS_OFFSET] == s[..h + LOG_POS_OFFSET]
    requires t[..h + EventLen(s, h)] == s'[..h + EventLen(s, h)]
    ensures EventAt(t, h) && EventLen(t, h) == EventLen(s, h)
  {
    Uint4Prefix(s', s, h + LOG_POS_OFFSET, h + EVENT_LEN_OFFSET);
    Uint4Prefix(t, s', h + EventLen(s, h), h + EVENT_LEN_OFFSET);
  }

  /** An event at h followed by a chain is a chain. */
  lemma ChainBack(t: seq<byte>, h: nat, len: nat)
    requires EventAt(t, h) && EventLen(t, h) == len && ChainedFrom(t, h + len)
    ensures ChainedFrom(t, h)
  {
  }

  /** The rewrite keeps every event length, so the chain survives it. */
  lemma {:induction false} FixFromKeepsChain(s: seq<byte>, h: nat, group: int)
    requires ChainedFrom(s, h)
    ensures ChainedFrom(FixFrom(s, h, group), h)
    decreases |s| - h
  {
    if h < |s| {
      var len := EventLen(s, h);
      var s' := FixAt(s, h, group);
      FixFromStep(s, h, group);
      var t := FixFrom(s', h + len, group);
      FixFromKeepsChain(s', h + len, group);
      FixFromPrefix(s', h + len, group);
      FixAtParts(s, h, group);
      LenFieldKept(s, s', t, h);
      ChainBack(t, h, len);
    }
  }

  /** FixAll of a well-chained cache is itself well chained. */
  lemma FixAllWellChained(s: seq<byte>, group: int)
    requires WellChained(s)
    ensures WellChained(FixAll(s, group))
  {
    FixFromKeepsChain(s, 0, group);
  }

  // ---------------------------------------------------------------------
  // The imperative loop of write_cache.

  /** The concatenation of the chunks, in order. */
  function Concat(chunks: seq<seq<byte>>): seq<byte>
  {
    if chunks == [] then [] else Concat(chunks[..|chunks| - 1]) + chunks[|chunks| - 1]
  }

  /** Chunk k sits right after the first k chunks in the concatenation. */
  lemma {:induction false} ConcatPrefix(chunks: seq<seq<byte>>, k: nat)
    requires k < |chunks|
    ensures |Concat(chunks[..k])| + |chunks[k]| <= |Concat(chunks)|
    ensures Concat(chunks[..k + 1]) == Concat(chunks[..k]) + chunks[k]
    ensures Concat(chunks)[|Concat(chunks[..k])|..|Concat(chunks[..k])| + |chunks[k]|] == chunks[k]
    ensures k == |chunks| - 1 ==> |Concat(chunks[..k])| + |chunks[k]| == |Concat(chunks)|
    decreases |chunks|
  {
    assert chunks[..k + 1][..k] == chunks[..k];
    if k == |chunks| - 1 {
      assert chunks[..k + 1] == chunks;
    } else {
      var init := chunks[..|chunks| - 1];
      assert init[..k] == chunks[..k] && init[..k + 1] == chunks[..k + 1] && init[k] == chunks[k];
      ConcatPrefix(init, k);
      assert Concat(chunks) == Concat(init) + chunks[|chunks| - 1];
    }
  }

  /** memcpy(dst + d, src + s, count) between two distinct buffers. */
  method CopyBytes(dst: array<byte>, d: nat, src: array<byte>, s: nat, count: nat)
    requires dst != src
    requires d + count <= dst.Length && s + count <= src.Length
    modifies dst
    ensures dst[..] == old(dst[..d]) + src[s..s + count] + old(dst[d + count..])
  {
    var i := 0;
    while i < count
      invariant 0 <= i <= count
      invariant forall j :: 0 <= j < dst.Length ==> dst[j] == if d <= j < d + i then src[s + j - d] else old(dst[j])
    {
      dst[d + i] := src[s + i];
      i := i + 1;
    }
    assert dst[..] == old(dst[..d]) + src[s..s + count] + old(dst[d + count..]);
  }

  /**
   * `val= uint4korr(p + LOG_POS_OFFSET) + group; int4store(p + LOG_POS_OFFSET, val)`
   * on the header at offset p of a.
   */
  method FixEndLogPos(a: array<byte>, p: nat, group: int)
    requires p + LOG_EVENT_HEADER_LEN <= a.Length
    modifies a
    ensures a[..] == FixAt(old(a[..]), p, group)
  {
    var r := Store4(Uint4(a[..], p + LOG_POS_OFFSET) + group);
    a[p + LOG_POS_OFFSET] := r[0];
    a[p + LOG_POS_OFFSET + 1] := r[1];
    a[p + LOG_POS_OFFSET + 2] := r[2];
    a[p + LOG_POS_OFFSET + 3] := r[3];
    assert a[..] == old(a[..p + LOG_POS_OFFSET]) + r + old(a[p + LOG_POS_OFFSET + 4..]);
  }

  /** uint4korr on a window of cur reads the same bytes of cur. */
  lemma Uint4Window(cur: seq<byte>, n: nat, w: seq<byte>, i: nat)
    requires n + |w| <= |cur| && w == cur[n..n + |w|] && i + 4 <= |w|
    ensures Uint4(w, i) == Uint4(cur, n + i)
  {
    assert w[i] == cur[n + i] && w[i + 1] == cur[n + i + 1];
    assert w[i + 2] == cur[n + i + 2] && w[i + 3] == cur[n + i + 3];
  }

  /** Fixing a header read into a window fixes the same header of the stream. */
  lemma WindowFixAt(cur: seq<byte>, n: nat, w: seq<byte>, o: nat, group: int)
    requires n + |w| <= |cur| && w == cur[n..n + |w|] && o + LOG_EVENT_HEADER_LEN <= |w|
    ensures EventLen(w, o) == EventLen(cur, n + o)
    ensures FixAt(cur, n + o, group)[n..n + |w|] == FixAt(w, o, group)
  {
    Uint4Window(cur, n, w, o + EVENT_LEN_OFFSET);
    Uint4Window(cur, n, w, o + LOG_POS_OFFSET);
    var a := FixAt(cur, n + o, group);
    var b := FixAt(w, o, group);
    assert forall j :: 0 <= j < |w| ==> a[n + j] == b[j];
    assert a[n..n + |w|] == b;
  }

  /** The stream state of the copy loop: fixing the headers from pos on gives fixed. */
  ghost predicate Fixing(cur: seq<byte>, pos: nat, group: int, fixed: seq<byte>)
  {
    ChainedFrom(cur, pos) && FixFrom(cur, pos, group) == fixed
  }

  /** Fixing the header at pos and moving past its event keeps the loop state. */
  lemma FixingStep(cur: seq<byte>, pos: nat, group: int, fixed: seq<byte>)
    requires Fixing(cur, pos, group, fixed) && pos < |cur|
    ensures EventAt(cur, pos)
    ensures Fixing(FixAt(cur, pos, group), pos + EventLen(cur, pos), group, fixed)
  {
    FixFromStep(cur, pos, group);
  }

  /** The first half kept in `header` and the start of the next chunk form the whole header. */
  lemma Reassembled(cur: seq<byte>, pos: nat, n: nat, first: seq<byte>, chunk: seq<byte>)
    requires pos <= n <= pos + LOG_EVENT_HEADER_LEN && n + |chunk| <= |cur|
    requires pos + LOG_EVENT_HEADER_LEN <= n + |chunk|
    requires first == cur[pos..n] && chunk == cur[n..n + |chunk|]
    ensures first + chunk[..pos + LOG_EVENT_HEADER_LEN - n] == cur[pos..pos + LOG_EVENT_HEADER_LEN]
  {
    assert chunk[..pos + LOG_EVENT_HEADER_LEN - n] == cur[n..pos + LOG_EVENT_HEADER_LEN];
    assert cur[pos..pos + LOG_EVENT_HEADER_LEN] == cur[pos..n] + cur[n..pos + LOG_EVENT_HEADER_LEN];
  }

  /** Copying the fixed second half back makes the chunk a window of the fixed stream. */
  lemma PutBack(cur: seq<byte>, cur': seq<byte>, pos: nat, n: nat, carry: nat, fixedHeader: seq<byte>, chunk: seq<byte>)
    requires pos + carry == n && carry <= LOG_EVENT_HEADER_LEN && n + |chunk| <= |cur| == |cur'|
    requires pos + LOG_EVENT_HEADER_LEN <= n + |chunk|
    requires fixedHeader == cur'[pos..pos + LOG_EVENT_HEADER_LEN]
    requires cur'[pos + LOG_POS_OFFSET + 4..] == cur[pos + LOG_POS_OFFSET + 4..]
    requires chunk == cur[n..n + |chunk|]
    ensures fixedHeader[carry..] + chunk[LOG_EVENT_HEADER_LEN - carry..] == cur'[n..n + |chunk|]
  {
    assert chunk[pos + LOG_EVENT_HEADER_LEN - n..] == cur'[pos + LOG_EVENT_HEADER_LEN..n + |chunk|] by {
      assert cur'[pos + LOG_EVENT_HEADER_LEN..n + |chunk|] == cur'[pos + LOG_POS_OFFSET + 4..][2..n + |chunk| - pos - LOG_POS_OFFSET - 4];
      assert cur[pos + LOG_EVENT_HEADER_LEN..n + |chunk|] == cur[pos + LOG_POS_OFFSET + 4..][2..n + |chunk| - pos - LOG_POS_OFFSET - 4];
    }
    assert fixedHeader[carry..] == cur'[n..pos + LOG_EVENT_HEADER_LEN];
  }

  /** What the fixed, reassembled header is, in terms of the stream. */
  lemma SplitHeaderFixed(cur: seq<byte>, pos: nat, n: nat, carry: nat, first: seq<byte>,
                         chunk: seq<byte>, group: int, fixedHeader: seq<byte>)
    requires 0 < carry < LOG_EVENT_HEADER_LEN && pos + carry == n
    requires EventAt(cur, pos) && n + |chunk| <= |cur| && LOG_EVENT_HEADER_LEN - carry <= |chunk|
    requires first == cur[pos..n] && chunk == cur[n..n + |chunk|]
    requires fixedHeader == FixAt(first + chunk[..LOG_EVENT_HEADER_LEN - carry], 0, group)
    ensures Uint4(fixedHeader, EVENT_LEN_OFFSET) == EventLen(cur, pos)
    ensures fixedHeader[..carry] == FixAt(cur, pos, group)[pos..n]
    ensures fixedHeader[carry..] + chunk[LOG_EVENT_HEADER_LEN - carry..] == FixAt(cur, pos, group)[n..n + |chunk|]
  {
    var w := cur[pos..pos + LOG_EVENT_HEADER_LEN];
    Reassembled(cur, pos, n, first, chunk);
    WindowFixAt(cur, pos, w, 0, group);
    FixAtKeepsLen(w, 0, group);
    var cur' := FixAt(cur, pos, group);
    assert fixedHeader == cur'[pos..pos + LOG_EVENT_HEADER_LEN];
    assert fixedHeader[..carry] == cur'[pos..n];
    FixAtParts(cur, pos, group);
    PutBack(cur, cur', pos, n, carry, fixedHeader, chunk);
  }

  /** Completes the split header from the start of the chunk and fixes its end_log_pos. */
  method CompleteHeader(header: array<byte>, buf: array<byte>, carry: nat, group: int)
    requires header.Length == LOG_EVENT_HEADER_LEN && header != buf
    requires 0 < carry < LOG_EVENT_HEADER_LEN <= buf.Length + carry
    modifies header
    ensures header[..] == FixAt(old(header[..carry]) + buf[..LOG_EVENT_HEADER_LEN - carry], 0, group)
  {
    CopyBytes(header, carry, buf, 0, LOG_EVENT_HEADER_LEN - carry);
    assert header[..] == old(header[..carry]) + buf[..LOG_EVENT_HEADER_LEN - carry];
    FixEndLogPos(header, 0, group);
  }

  /** Puts the second half of the fixed header back over the start of the chunk. */
  method RestoreTail(buf: array<byte>, header: array<byte>, carry: nat)
    requires header.Length == LOG_EVENT_HEADER_LEN && header != buf
    requires 0 < carry < LOG_EVENT_HEADER_LEN <= buf.Length + carry
    modifies buf
    ensures buf[..] == header[carry..] + old(buf[LOG_EVENT_HEADER_LEN - carry..])
  {
    CopyBytes(buf, 0, header, carry, LOG_EVENT_HEADER_LEN - carry);
    assert header[carry..carry + (LOG_EVENT_HEADER_LEN - carry)] == header[carry..];
    assert old(buf[..0]) == [];
  }

  /**
   * The `carry > 0` branch of write_cache: completes the header split over
   * the chunk boundary with the first bytes of the new chunk, fixes its
   * end_log_pos, writes its first half and puts the fixed second half back
   * into the chunk.  cur is the stream with the headers before pos fixed;
   * the header at pos is the split one.
   */
  method ReassembleHeader(header: array<byte>, buf: array<byte>, carry: nat, group: int,
                          out: seq<byte>, ghost cur: seq<byte>, ghost pos: nat, ghost n: nat)
    returns (out': seq<byte>, hdrOffs: nat, ghost cur': seq<byte>)
    requires header.Length == LOG_EVENT_HEADER_LEN && header != buf
    requires 0 < carry < LOG_EVENT_HEADER_LEN && pos + carry == n
    requires EventAt(cur, pos) && n + buf.Length <= |cur|
    requires LOG_EVENT_HEADER_LEN - carry <= buf.Length
    requires header[..carry] == cur[pos..n] && buf[..] == cur[n..n + buf.Length]
    modifies header, buf
    ensures cur' == FixAt(cur, pos, group)
    ensures hdrOffs == pos + EventLen(cur, pos) - n
    ensures out' == out + cur'[pos..n] && buf[..] == cur'[n..n + buf.Length]
  {
    ghost var chunk := buf[..];
    ghost var first := header[..carry];
    CompleteHeader(header, buf, carry, group);
    ghost var fixedHeader := header[..];
    cur' := FixAt(cur, pos, group);
    SplitHeaderFixed(cur, pos, n, carry, first, chunk, group, fixedHeader);
    out' := out + header[..carry];
    RestoreTail(buf, header, carry);
    hdrOffs := Uint4(header[..], EVENT_LEN_OFFSET) - carry;
  }

  /** FixAt changes nothing outside any window that holds the whole header. */
  lemma FixAtOutside(s: seq<byte>, p: nat, group: int, lo: nat, hi: nat)
    requires lo <= p && p + LOG_EVENT_HEADER_LEN <= hi <= |s|
    ensures FixAt(s, p, group)[..lo] == s[..lo] && FixAt(s, p, group)[hi..] == s[hi..]
  {
    var r := FixAt(s, p, group);
    FixAtParts(s, p, group);
    assert r[..lo] == r[..p + LOG_POS_OFFSET][..lo];
    assert s[..lo] == s[..p + LOG_POS_OFFSET][..lo];
    SuffixFrom(r, s, p + LOG_POS_OFFSET + 4, hi);
  }

  /** A slice of a window is the matching slice of the stream. */
  lemma WindowSlice(cur: seq<byte>, n: nat, w: seq<byte>, a: nat, b: nat, lo: nat, hi: nat)
    requires n + |w| <= |cur| && w == cur[n..n + |w|] && a <= b <= |w| && lo == n + a && hi == n + b
    ensures w[a..b] == cur[lo..hi]
  {
    assert forall i :: 0 <= i < b - a ==> w[a..b][i] == w[a + i] == cur[n + a + i];
  }

  /** memcpy(header, p + o, carry): saves the first part of a cut header. */
  method SaveHead(header: array<byte>, buf: array<byte>, o: nat, carry: nat)
    requires header != buf && carry <= header.Length && o + carry <= buf.Length
    modifies header
    ensures header[..carry] == buf[o..o + carry]
  {
    CopyBytes(header, 0, buf, o, carry);
    assert header[..carry] == (header[..])[..carry];
  }

  /**
   * One header wholly inside the chunk w = cur[n..n+|w|], at offset o:
   * fixing it in the chunk fixes it in the stream and nothing outside the chunk.
   */
  lemma ScanStep(cur0: seq<byte>, cur: seq<byte>, n: nat, w: seq<byte>, o: nat, pos: nat, group: int)
    requires |cur| == |cur0| && n + |w| <= |cur| && w == cur[n..n + |w|] && o + LOG_EVENT_HEADER_LEN <= |w|
    requires cur[..n] == cur0[..n] && cur[n + |w|..] == cur0[n + |w|..] && pos == n + o
    ensures |FixAt(cur, pos, group)| == |cur0|
    ensures FixAt(cur, pos, group)[..n] == cur0[..n]
    ensures FixAt(cur, pos, group)[n + |w|..] == cur0[n + |w|..]
    ensures FixAt(w, o, group) == FixAt(cur, pos, group)[n..n + |w|]
    ensures Uint4(FixAt(w, o, group), o + EVENT_LEN_OFFSET) == EventLen(cur, pos)
  {
    WindowFixAt(cur, n, w, o, group);
    FixAtKeepsLen(w, o, group);
    FixAtOutside(cur, pos, group, n, n + |w|);
  }

  /**
   * The branch of the scan for a header wholly inside the chunk, at offset o:
   * fixes its end_log_pos in place and returns the offset of the next header.
   */
  method FixWholeHeader(buf: array<byte>, o: nat, group: int, ghost cur0: seq<byte>,
                        ghost cur: seq<byte>, ghost n: nat, ghost pos: nat)
    returns (o': nat, ghost cur': seq<byte>)
    requires |cur| == |cur0| && n + buf.Length <= |cur| && buf[..] == cur[n..n + buf.Length]
    requires o + LOG_EVENT_HEADER_LEN <= buf.Length && pos == n + o
    requires cur[..n] == cur0[..n] && cur[n + buf.Length..] == cur0[n + buf.Length..]
    modifies buf
    ensures cur' == FixAt(cur, pos, group) && n + o' == pos + EventLen(cur, pos)
    ensures |cur'| == |cur0| && cur'[..n] == cur0[..n] && cur'[n + buf.Length..] == cur0[n + buf.Length..]
    ensures buf[..] == cur'[n..n + buf.Length]
  {
    ghost var w := buf[..];
    FixEndLogPos(buf, o, group);
    ScanStep(cur0, cur, n, w, o, pos, group);
    cur' := FixAt(cur, pos, group);
    o' := o + Uint4(buf[..], o + EVENT_LEN_OFFSET);
  }

  /**
   * One round of the scan loop of write_cache, for the header at offset o of
   * the chunk in buf: either the header is cut by the end of the chunk and
   * its first `carry` bytes are saved in `header`, or its end_log_pos is
   * fixed in place and o' is the offset of the next header.
   */
  method ScanHeader(buf: array<byte>, header: array<byte>, o: nat, group: int, ghost cur0: seq<byte>,
                    ghost cur: seq<byte>, ghost n: nat, ghost pos: nat, ghost fixed: seq<byte>)
    returns (length: nat, carry: nat, o': nat, ghost cur': seq<byte>, ghost pos': nat)
    requires header.Length == LOG_EVENT_HEADER_LEN && header != buf
    requires |cur| == |cur0| && n + buf.Length <= |cur| && buf[..] == cur[n..n + buf.Length]
    requires cur[..n] == cur0[..n] && cur[n + buf.Length..] == cur0[n + buf.Length..]
    requires o < buf.Length && pos == n + o && Fixing(cur, pos, group, fixed)
    modifies buf, header
    ensures |cur'| == |cur0| && cur'[..n] == cur0[..n] && cur'[n + buf.Length..] == cur0[n + buf.Length..]
    ensures buf[..] == cur'[n..n + buf.Length]
    ensures pos' == n + o' && Fixing(cur', pos', group, fixed)
    ensures carry == 0 ==> length == buf.Length && length - o' < buf.Length - o
    ensures carry > 0 ==> carry < LOG_EVENT_HEADER_LEN && length == o' && length + carry == buf.Length
    ensures carry > 0 ==> header[..carry] == cur'[pos'..n + buf.Length]
  {
    length := buf.Length;
    if o + LOG_EVENT_HEADER_LEN > length {
      carry := length - o;
      SaveHead(header, buf, o, carry);
      WindowSlice(cur, n, buf[..], o, o + carry, pos, n + buf.Length);
      length, o', cur', pos' := o, o, cur, pos;
    } else {
      carry := 0;
      FixingStep(cur, pos, group, fixed);
      o', cur' := FixWholeHeader(buf, o, group, cur0, cur, n, pos);
      pos' := pos + EventLen(cur, pos);
    }
  }

  /**
   * The `length > 0` part of write_cache for the chunk in buf, which starts at
   * offset n of the stream: fixes the end_log_pos of every header wholly in
   * the chunk; a header cut by the end of the chunk has its first `carry`
   * bytes saved in `header` and is held back from the part to write,
   * buf[..length].  hdrOffs is the offset of the next header from the start
   * of the chunk.
   */
  method ScanChunk(buf: array<byte>, header: array<byte>, hdrOffs: nat, group: int,
                   ghost cur: seq<byte>, ghost n: nat, ghost pos0: nat, ghost fixed: seq<byte>)
    returns (length: nat, carry: nat, hdrOffs': nat, ghost cur': seq<byte>, ghost pos: nat)
    requires header.Length == LOG_EVENT_HEADER_LEN && header != buf
    requires n + buf.Length <= |cur| && buf[..] == cur[n..n + buf.Length]
    requires pos0 == n + hdrOffs && Fixing(cur, pos0, group, fixed)
    modifies buf, header
    ensures |cur'| == |cur| && cur'[..n] == cur[..n] && cur'[n + buf.Length..] == cur[n + buf.Length..]
    ensures buf[..] == cur'[n..n + buf.Length] && Fixing(cur', pos, group, fixed)
    ensures carry == 0 ==> length == buf.Length && pos == n + length + hdrOffs'
    ensures carry > 0 ==> carry < LOG_EVENT_HEADER_LEN && length + carry == buf.Length && hdrOffs' == 0
    ensures carry > 0 ==> pos == n + length && header[..carry] == cur'[pos..n + buf.Length]
  {
    length := buf.Length;
    carry := 0;
    hdrOffs' := hdrOffs;
    cur' := cur;
    pos := pos0;
    if length > 0 {
      while hdrOffs' < length
        invariant |cur'| == |cur| && cur'[..n] == cur[..n] && cur'[n + buf.Length..] == cur[n + buf.Length..]
        invariant buf[..] == cur'[n..n + buf.Length]
        invariant pos == n + hdrOffs' && Fixing(cur', pos, group, fixed)
        invariant carry == 0 ==> length == buf.Length
        invariant carry > 0 ==> carry < LOG_EVENT_HEADER_LEN && length == hdrOffs' && length + carry == buf.Length
        invariant carry > 0 ==> header[..carry] == cur'[pos..n + buf.Length]
        decreases length - hdrOffs'
      {
        length, carry, hdrOffs', cur', pos := ScanHeader(buf, header, hdrOffs', group, cur, cur', n, pos, fixed);
      }
      hdrOffs' := hdrOffs' - length;
    }
  }

  /** The part of the stream not yet read is unchanged, window by window. */
  lemma PristineWindow(cur: seq<byte>, all: seq<byte>, n: nat, len: nat)
    requires n + len <= |cur| == |all| && cur[n..] == all[n..]
    ensures cur[n..n + len] == all[n..n + len] && cur[n + len..] == all[n + len..]
  {
    assert cur[n..n + len] == cur[n..][..len];
    assert all[n..n + len] == all[n..][..len];
    SuffixFrom(cur, all, n, n + len);
  }

  /** Chunk k of the cache is still unfixed in the stream state, right where the first k chunks end. */
  lemma ChunkWindow(chunks: seq<seq<byte>>, k: nat, all: seq<byte>, cur: seq<byte>, n: nat)
    requires k < |chunks| && all == Concat(chunks) && n == |Concat(chunks[..k])|
    requires n <= |cur| == |all| && cur[n..] == all[n..]
    ensures n + |chunks[k]| <= |cur| && cur[n..n + |chunks[k]|] == chunks[k]
    ensures cur[n + |chunks[k]|..] == all[n + |chunks[k]|..]
    ensures |Concat(chunks[..k + 1])| == n + |chunks[k]|
    ensures k == |chunks| - 1 ==> n + |chunks[k]| == |all|
  {
    ConcatPrefix(chunks, k);
    PristineWindow(cur, all, n, |chunks[k]|);
  }

  /** The stream state once the split header at pos is completed and fixed. */
  lemma ResumedState(cur: seq<byte>, all: seq<byte>, pos: nat, n: nat, len: nat, group: int, out: seq<byte>)
    requires pos < n && pos + LOG_EVENT_HEADER_LEN <= n + len <= |cur| == |all|
    requires cur[n + len..] == all[n + len..] && out == cur[..pos]
    ensures |FixAt(cur, pos, group)| == |all|
    ensures out + FixAt(cur, pos, group)[pos..n] == FixAt(cur, pos, group)[..n]
    ensures FixAt(cur, pos, group)[n + len..] == all[n + len..]
  {
    var r := FixAt(cur, pos, group);
    FixAtOutside(cur, pos, group, pos, n + len);
    assert r[..n] == r[..pos] + r[pos..n];
  }

  /** What write_cache has written once the chunk at n is done, up to length. */
  lemma WrittenState(cur: seq<byte>, cur': seq<byte>, n: nat, len: nat, length: nat, out: seq<byte>,
                     chunk: seq<byte>, hi: nat)
    requires n + len <= |cur'| == |cur| && length <= len && hi == n + length
    requires out == cur[..n] && cur'[..n] == cur[..n] && chunk == cur'[n..n + len]
    ensures out + chunk[..length] == cur'[..hi]
  {
    assert chunk[..length] == cur'[n..n + length];
    assert cur'[..n + length] == cur'[..n] + cur'[n..n + length];
  }

  /**
   * The `carry > 0` branch of write_cache in terms of the stream state: the
   * chunk in buf spans cur[n..m] and the header at pos was split by its start.
   */
  method ResumeSplit(buf: array<byte>, header: array<byte>, carry: nat, group: int, out: seq<byte>,
                     ghost all: seq<byte>, ghost cur: seq<byte>, ghost pos: nat, ghost n: nat, ghost m: nat,
                     ghost fixed: seq<byte>)
    returns (out': seq<byte>, hdrOffs: nat, ghost cur': seq<byte>, ghost pos': nat)
    requires header.Length == LOG_EVENT_HEADER_LEN && header != buf
    requires m == n + buf.Length && m <= |cur| == |all| && buf[..] == cur[n..m] && cur[m..] == all[m..]
    requires 0 < carry < LOG_EVENT_HEADER_LEN && pos + carry == n && pos + LOG_EVENT_HEADER_LEN <= m
    requires header[..carry] == cur[pos..n] && out == cur[..pos] && Fixing(cur, pos, group, fixed)
    modifies buf, header
    ensures |cur'| == |all| && cur'[m..] == all[m..] && buf[..] == cur'[n..m]
    ensures pos' == n + hdrOffs && Fixing(cur', pos', group, fixed) && out' == cur'[..n]
  {
    FixingStep(cur, pos, group, fixed);
    ResumedState(cur, all, pos, n, buf.Length, group, out);
    out', hdrOffs, cur' := ReassembleHeader(header, buf, carry, group, out, cur, pos, n);
    pos' := pos + EventLen(cur, pos);
  }

  /**
   * The body of the do-while loop of write_cache for the chunk in buf, which
   * spans cur[n..m]: completes a header left split by the previous chunk
   * (carry > 0), scans the chunk and writes what is ready.
   */
  method WriteChunk(buf: array<byte>, header: array<byte>, carry: nat, hdrOffs: nat, group: int,
                    out: seq<byte>, ghost all: seq<byte>, ghost cur: seq<byte>, ghost pos: nat,
                    ghost n: nat, ghost m: nat, ghost fixed: seq<byte>)
    returns (carry': nat, hdrOffs': nat, out': seq<byte>, ghost cur': seq<byte>, ghost pos': nat)
    requires header.Length == LOG_EVENT_HEADER_LEN && header != buf
    requires m == n + buf.Length && m <= |cur| == |all| && buf[..] == cur[n..m]
    requires cur[m..] == all[m..] && Fixing(cur, pos, group, fixed)
    requires carry == 0 ==> pos == n + hdrOffs && out == cur[..n]
    requires carry > 0 ==> carry < LOG_EVENT_HEADER_LEN && pos + carry == n && pos + LOG_EVENT_HEADER_LEN <= m
    requires carry > 0 ==> header[..carry] == cur[pos..n] && out == cur[..pos]
    modifies buf, header
    ensures |cur'| == |all| && cur'[m..] == all[m..] && Fixing(cur', pos', group, fixed)
    ensures carry' == 0 ==> pos' == m + hdrOffs' && out' == cur'[..m]
    ensures carry' > 0 ==> carry' < LOG_EVENT_HEADER_LEN && pos' + carry' == m
    ensures carry' > 0 ==> header[..carry'] == cur'[pos'..m] && out' == cur'[..pos']
  {
    var offs, written := hdrOffs, out;
    ghost var resumed, start := cur, pos;
    if carry > 0 {
      written, offs, resumed, start := ResumeSplit(buf, header, carry, group, out, all, cur, pos, n, m, fixed);
    }
    var length;
    length, carry', hdrOffs', cur', pos' := ScanChunk(buf, header, offs, group, resumed, n, start, fixed);
    if carry' == 0 {
      WrittenState(resumed, cur', n, buf.Length, length, written, buf[..], m);
    } else {
      WrittenState(resumed, cur', n, buf.Length, length, written, buf[..], pos');
    }
    out' := written + buf[..length];
  }

  /** my_b_fill: the next chunk of the cache in a freshly filled read buffer. */
  method LoadChunk(chunk: seq<byte>) returns (buf: array<byte>)
    ensures fresh(buf) && buf.Length == |chunk| && buf[..] == chunk
  {
    buf := new byte[|chunk|](i requires 0 <= i < |chunk| => chunk[i]);
  }

  /**
   * One round of the do-while loop of write_cache: reads chunk k of the
   * cache into a buffer and hands it to the chunk writer.
   */
  method CacheRound(chunks: seq<seq<byte>>, k: nat, header: array<byte>, carry: nat, hdrOffs: nat, group: int,
                    out: seq<byte>, ghost all: seq<byte>, ghost cur: seq<byte>, ghost pos: nat,
                    ghost n: nat, ghost fixed: seq<byte>)
    returns (carry': nat, hdrOffs': nat, out': seq<byte>, ghost cur': seq<byte>, ghost pos': nat, ghost n': nat)
    requires k < |chunks| && all == Concat(chunks) && WellChained(all)
    requires forall j :: 0 < j < |chunks| - 1 ==> |chunks[j]| >= LOG_EVENT_HEADER_LEN
    requires header.Length == LOG_EVENT_HEADER_LEN && n == |Concat(chunks[..k])|
    requires n <= |cur| == |all| && cur[n..] == all[n..] && Fixing(cur, pos, group, fixed)
    requires carry == 0 ==> pos == n + hdrOffs && out == cur[..n]
    requires carry > 0 ==> 0 < k && carry < LOG_EVENT_HEADER_LEN && pos + carry == n
    requires carry > 0 ==> header[..carry] == cur[pos..n] && out == cur[..pos]
    modifies header
    ensures n' == |Concat(chunks[..k + 1])|
    ensures n' <= |cur'| == |all| && cur'[n'..] == all[n'..] && Fixing(cur', pos', group, fixed)
    ensures carry' == 0 ==> pos' == n' + hdrOffs' && out' == cur'[..n']
    ensures carry' > 0 ==> carry' < LOG_EVENT_HEADER_LEN && pos' + carry' == n'
    ensures carry' > 0 ==> header[..carry'] == cur'[pos'..n'] && out' == cur'[..pos']
    ensures k == |chunks| - 1 ==> n' == |all|
  {
    var buf := LoadChunk(chunks[k]);
    n' := n + buf.Length;
    ChunkWindow(chunks, k, all, cur, n);
    if carry > 0 {
      FixingStep(cur, pos, group, fixed);
      assert pos + LOG_EVENT_HEADER_LEN <= n' by {
        assert k == |chunks| - 1 || buf.Length >= LOG_EVENT_HEADER_LEN;
      }
    }
    carry', hdrOffs', out', cur', pos' := WriteChunk(buf, header, carry, hdrOffs, group, out, all, cur, pos, n, n', fixed);
  }

  /**
   * MYSQL_BIN_LOG::write_cache: copies the transaction cache, read as the
   * given chunks, to the log file at offset filePos, adding filePos (as a
   * 32-bit unsigned group offset) to the end_log_pos of every event; no
   * split header is left over at the end of the cache.
   */
  method WriteCache(chunks: seq<seq<byte>>, filePos: nat) returns (out: seq<byte>, carry: nat)
    requires WellChained(Concat(chunks))
    requires forall k :: 0 < k < |chunks| - 1 ==> |chunks[k]| >= LOG_EVENT_HEADER_LEN
    ensures out == FixAll(Concat(chunks), filePos % U32)
    ensures carry == 0
  {
    var group := filePos % U32;
    ghost var all := Concat(chunks);
    ghost var fixed := FixAll(all, group);
    var header := new byte[LOG_EVENT_HEADER_LEN];
    var hdrOffs: nat := 0;
    carry := 0;
    out := [];
    ghost var cur: seq<byte>, pos: nat, n: nat := all, 0, 0;
    var k := 0;
    while k < |chunks|
      invariant k <= |chunks| && n == |Concat(chunks[..k])| && (k == |chunks| && k > 0 ==> n == |all|)
      invariant n <= |cur| == |all| && cur[n..] == all[n..] && Fixing(cur, pos, group, fixed)
      invariant carry == 0 ==> pos == n + hdrOffs && out == cur[..n]
      invariant carry > 0 ==> 0 < k && carry < LOG_EVENT_HEADER_LEN && pos + carry == n
      invariant carry > 0 ==> header[..carry] == cur[pos..n] && out == cur[..pos]
    {
      carry, hdrOffs, out, cur, pos, n := CacheRound(chunks, k, header, carry, hdrOffs, group, out, all, cur, pos, n, fixed);
      k := k + 1;
    }
    if carry > 0 {
      FixingStep(cur, pos, group, fixed);
      assert false;
    }
    FixingDone(cur, pos, group, fixed);
  }

  /** Once the stream state has reached the end, the stream is the fixed one. */
  lemma FixingDone(cur: seq<byte>, pos: nat, group: int, fixed: seq<byte>)
    requires Fixing(cur, pos, group, fixed) && |cur| <= pos
    ensures pos == |cur| && cur[..pos] == fixed
  {
  }
}
