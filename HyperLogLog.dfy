/**
 * The HyperLogLog register table of mysys: for each of the 1024 registers
 * selected by the low ten bits of a 32-bit hash, and for each rank (the
 * position of the lowest set bit of the remaining hash bits), the last time
 * a hash of that rank was seen.  A query finds, per register, the largest
 * rank seen since a given time.
 *
 * Words are unsigned 32-bit values held as integers: `x >> k` is x / 2^k,
 * `x & ((1 << k) - 1)` is x % 2^k, and `hash & (data_size - 1)` is
 * hash % data_size since data_size is a power of two.  The estimate that a
 * query computes from the ranks is floating-point arithmetic and is not part
 * of this model; time_t is an unbounded int.
 */
module HyperLogLog {
  import opened Common

  type u32 = x: int | 0 <= x < U32

  /** The halving steps of the lowest-set-bit search. */
  const BIT_PARTS: seq<nat> := [16, 8, 4, 2, 1]

  const DEFAULT_DATA_SIZE_LOG2: nat := 10
  const DATA_SIZE: nat := 1024          // 1 << DEFAULT_DATA_SIZE_LOG2, the number of registers
  const MAX_BIT_POSITION: nat := 23     // 32 - DEFAULT_DATA_SIZE_LOG2 + 1, the cells of a register

  /** 2 to the k: the weight of bit k. */
  function Pow2(k: nat): (p: nat)
    ensures p >= 1
  {
    if k == 0 then 1 else 2 * Pow2(k - 1)
  }

  /** Bit a + b weighs 2^a times 2^b. */
  lemma {:induction false} Pow2Add(a: nat, b: nat)
    ensures Pow2(a + b) == Pow2(a) * Pow2(b)
    decreases a
  {
    if a > 0 {
      Pow2Add(a - 1, b);
      assert Pow2(a + b) == 2 * Pow2(a - 1 + b);
    }
  }

  /** A 32-bit word is below 2^32. */
  lemma Pow2Of32()
    ensures Pow2(32) == U32
  {
    var p8 := Pow2(8);
    assert p8 == 256;
    Pow2Add(8, 8);
    var p16 := Pow2(16);
    assert p16 == 65536;
    Pow2Add(16, 16);
  }

  /** Shifting an even word one bit further is shifting its half. */
  lemma HalfDiv(n: nat, k: nat)
    requires n % 2 == 0
    ensures n % Pow2(k + 1) == 2 * ((n / 2) % Pow2(k))
    ensures n / Pow2(k + 1) == (n / 2) / Pow2(k)
  {
    var m := n / 2;
    var p := Pow2(k);
    var q := m / p;
    var r := m % p;
    assert n == (2 * p) * q + 2 * r;
    DivModUnique(n, 2 * p, q, 2 * r);
  }

  /** A word whose low k + 1 bits are clear is even. */
  lemma EvenOfClear(n: nat, k: nat)
    requires n % Pow2(k + 1) == 0
    ensures n % 2 == 0
  {
    var q := n / Pow2(k + 1);
    assert n == 2 * (Pow2(k) * q);
    DivModUnique(n, 2, Pow2(k) * q, 0);
  }

  /** Halving twice-p words is a shift by one and then by p. */
  lemma DivHalf(n: nat, p: nat)
    requires p >= 1
    ensures n / (2 * p) == (n / 2) / p
  {
    var q := (n / 2) / p;
    var r := (n / 2) % p;
    assert n == (2 * p) * q + (2 * r + n % 2);
    DivModUnique(n, 2 * p, q, 2 * r + n % 2);
  }

  /** A quotient of a natural number lies between 0 and the number itself. */
  lemma DivBounds(x: nat, p: nat)
    requires p >= 1
    ensures 0 <= x / p <= x
  {
    var q := x / p;
    if q < 0 {
      MulAtLeast(p, -q);
    } else if q > 0 {
      MulAtLeast(q, p);
    }
  }

  /** x >> k for a word x: a natural number. */
  function Shr(x: nat, k: nat): (r: nat)
    ensures r <= x
  {
    DivBounds(x, Pow2(k));
    x / Pow2(k)
  }

  /** A word below 2^m, shifted right by a, is below 2^(m - a). */
  lemma {:induction false} ShiftedBelow(n: nat, a: nat, m: nat)
    requires a <= m && n < Pow2(m)
    ensures Shr(n, a) < Pow2(m - a)
    decreases a
  {
    if a > 0 {
      ShiftedBelow(n / 2, a - 1, m - 1);
      DivHalf(n, Pow2(a - 1));
    }
  }

  // ---------------------------------------------------------------------
  // The lowest set bit.

  /** Bit p of n is set and every bit below it is clear. */
  predicate LowestSetBit(n: nat, p: nat)
  {
    n % Pow2(p) == 0 && Shr(n, p) % 2 == 1
  }

  /** The reference definition: the position of the lowest set bit, by a bit-by-bit scan. */
  function LowBit(n: nat): nat
    requires n > 0
  {
    if n % 2 == 1 then 0 else 1 + LowBit(n / 2)
  }

  /** Shifting out k clear bits lowers the lowest set bit by k. */
  lemma {:induction false} LowBitShift(n: nat, k: nat)
    requires n > 0 && n % Pow2(k) == 0
    ensures Shr(n, k) > 0 && LowBit(n) == k + LowBit(Shr(n, k))
    decreases k
  {
    if k > 0 {
      EvenOfClear(n, k - 1);
      HalfDiv(n, k - 1);
      LowBitShift(n / 2, k - 1);
    }
  }

  /** Every bit below the lowest set bit is clear. */
  lemma {:induction false} LowBitClears(n: nat, k: nat)
    requires n > 0 && k <= LowBit(n)
    ensures n % Pow2(k) == 0
    decreases k
  {
    if k > 0 {
      LowBitClears(n / 2, k - 1);
      HalfDiv(n, k - 1);
    }
  }

  /** The scan finds the lowest set bit, and it is the only one. */
  lemma LowBitIsLowest(n: nat, p: nat)
    requires n > 0
    ensures LowestSetBit(n, p) <==> p == LowBit(n)
  {
    if p == LowBit(n) {
      LowBitClears(n, p);
      LowBitShift(n, p);
    }
    if LowestSetBit(n, p) {
      LowBitShift(n, p);
    }
  }

  /** A word below 2^m has its lowest set bit below m. */
  lemma {:induction false} LowBitBelow(n: nat, m: nat)
    requires 0 < n < Pow2(m)
    ensures LowBit(n) < m
  {
    if n % 2 == 0 {
      LowBitBelow(n / 2, m - 1);
    }
  }

  /** find_first_set_bit_after_index, by definition: 32 - startBit when no bit is left. */
  function FirstSetBit(hash: u32, startBit: nat): (p: nat)
    requires startBit < 32
  {
    var num := Shr(hash, startBit);
    if num == 0 then 32 - startBit else LowBit(num)
  }

  /**
   * What find_first_set_bit_after_index promises: with no bit left it is
   * 32 - startBit, otherwise the position of the lowest set bit of what is
   * left, which is at most 31 - startBit.
   */
  lemma FirstSetBitLowest(hash: u32, startBit: nat)
    requires startBit < 32
    ensures var num := Shr(hash, startBit);
            (num == 0 ==> FirstSetBit(hash, startBit) == 32 - startBit)
            && (num != 0 ==> LowestSetBit(num, FirstSetBit(hash, startBit))
                             && FirstSetBit(hash, startBit) <= 31 - startBit)
  {
    var num := Shr(hash, startBit);
    if num != 0 {
      LowBitIsLowest(num, LowBit(num));
      Pow2Of32();
      ShiftedBelow(hash, startBit, 32);
      LowBitBelow(num, 32 - startBit);
    }
  }

  // ---------------------------------------------------------------------
  // The halving search.

  /**
   * The invariant of the search with a window of width w, for a word whose
   * lowest set bit is at t: the search has shifted out pos clear bits, and
   * the lowest set bit of what is left lies below w.
   */
  predicate Searching(num: nat, pos: nat, t: nat, w: nat)
  {
    num > 0 && LowBit(num) < w && pos + LowBit(num) == t
  }

  /**
   * One halving step keeps the invariant on a window half as wide: when the
   * low `part` bits of num are clear, the lowest set bit lies above them and
   * the step shifts them out; otherwise it lies among them.
   */
  lemma Halve(num: nat, pos: nat, t: nat, part: nat)
    requires Searching(num, pos, t, 2 * part)
    ensures num % Pow2(part) == 0 ==> Searching(Shr(num, part), pos + part, t, part)
    ensures num % Pow2(part) != 0 ==> Searching(num, pos, t, part)
  {
    if num % Pow2(part) == 0 {
      LowBitShift(num, part);
    } else if part <= LowBit(num) {
      LowBitClears(num, part);
    }
  }

  /** The width of the window still known to hold the lowest set bit, before step i. */
  function Window(i: nat): (w: nat)
    requires i <= 5
    ensures i < 5 ==> w == 2 * BIT_PARTS[i]
    ensures 0 < i ==> w == BIT_PARTS[i - 1]
  {
    if i == 0 then 32 else BIT_PARTS[i - 1]
  }

  /**
   * find_first_set_bit_after_index: 32 - startBit when no bit of hash is
   * left after shifting out startBit bits; otherwise the position of the
   * lowest set bit of what is left, found in five halving steps.
   */
  method FindFirstSetBitAfterIndex(hash: u32, startBit: nat) returns (pos: nat)
    requires startBit < 32
    ensures pos == FirstSetBit(hash, startBit)
  {
    var num: nat := Shr(hash, startBit);
    if num == 0 {
      return 32 - startBit;
    }
    ghost var t := LowBit(num);
    FirstSetBitLowest(hash, startBit);
    pos := 0;
    var i := 0;
    while i < 5
      invariant i <= 5 && Searching(num, pos, t, Window(i))
    {
      var part := BIT_PARTS[i];
      Halve(num, pos, t, part);
      if num % Pow2(part) == 0 {
        num := Shr(num, part);
        pos := pos + part;
      }
      i := i + 1;
    }
  }

  /** The rank of a hash is below max_bit_position, so the cell is in its register's row. */
  lemma FirstSetBitBound(hash: u32)
    ensures FirstSetBit(hash, DEFAULT_DATA_SIZE_LOG2) <= MAX_BIT_POSITION - 1
  {
    FirstSetBitLowest(hash, DEFAULT_DATA_SIZE_LOG2);
  }

  /** The cell hyperloglog_insert writes for hash. */
  function Cell(hash: u32): (k: nat)
    ensures k < DATA_SIZE * MAX_BIT_POSITION
  {
    FirstSetBitBound(hash);
    (hash % DATA_SIZE) * MAX_BIT_POSITION + FirstSetBit(hash, DEFAULT_DATA_SIZE_LOG2)
  }

  /** Register i's cells, rank 1 first. */
  function Row(cells: seq<int>, i: nat): (row: seq<int>)
    requires |cells| == DATA_SIZE * MAX_BIT_POSITION && i < DATA_SIZE
    ensures |row| == MAX_BIT_POSITION
    ensures forall k :: 0 <= k < MAX_BIT_POSITION ==> row[k] == cells[i * MAX_BIT_POSITION + k]
  {
    cells[i * MAX_BIT_POSITION..i * MAX_BIT_POSITION + MAX_BIT_POSITION]
  }

  /**
   * Whether m is register i's max_valid_index for since: the largest rank m
   * in 1..23 whose cell time is after since, or 32 when there is none.
   */
  predicate IsRank(cells: seq<int>, i: nat, since: int, m: nat)
    requires |cells| == DATA_SIZE * MAX_BIT_POSITION && i < DATA_SIZE
  {
    var row := Row(cells, i);
    if m == 32 then forall k :: 0 <= k < MAX_BIT_POSITION ==> row[k] <= since
    else 1 <= m <= MAX_BIT_POSITION && row[m - 1] > since
         && forall k :: m <= k < MAX_BIT_POSITION ==> row[k] <= since
  }

  /** A register has one rank. */
  lemma RankUnique(cells: seq<int>, i: nat, since: int, m1: nat, m2: nat)
    requires |cells| == DATA_SIZE * MAX_BIT_POSITION && i < DATA_SIZE
    requires IsRank(cells, i, since, m1) && IsRank(cells, i, since, m2)
    ensures m1 == m2
  {
    var row := Row(cells, i);
    if m1 != 32 {
      assert row[m1 - 1] > since;
    }
    if m2 != 32 {
      assert row[m2 - 1] > since;
    }
  }

  /** A hash inserted after since raises its register's rank to at least its own rank + 1. */
  lemma InsertSeen(cells: seq<int>, hash: u32, t: int, since: int, m: nat)
    requires |cells| == DATA_SIZE * MAX_BIT_POSITION && t > since
    requires IsRank(cells[Cell(hash) := t], hash % DATA_SIZE, since, m)
    ensures m != 32 && m >= FirstSetBit(hash, DEFAULT_DATA_SIZE_LOG2) + 1
  {
    var i := hash % DATA_SIZE;
    var k := FirstSetBit(hash, DEFAULT_DATA_SIZE_LOG2);
    FirstSetBitBound(hash);
    assert i * MAX_BIT_POSITION + k == Cell(hash);
    assert Row(cells[Cell(hash) := t], i)[k] == t;
  }

  /** Inserting into one register leaves the rank of every other register as it was. */
  lemma InsertOtherRank(cells: seq<int>, hash: u32, t: int, i: nat, since: int, m: nat)
    requires |cells| == DATA_SIZE * MAX_BIT_POSITION && i < DATA_SIZE && i != hash % DATA_SIZE
    ensures IsRank(cells[Cell(hash) := t], i, since, m) <==> IsRank(cells, i, since, m)
  {
    var k := FirstSetBit(hash, DEFAULT_DATA_SIZE_LOG2);
    FirstSetBitBound(hash);
    assert Row(cells[Cell(hash) := t], i) == Row(cells, i);
  }

  /** After a reset no register has a rank for any time from 0 on. */
  lemma ResetRanks(len: nat, i: nat, since: int)
    requires len == DATA_SIZE * MAX_BIT_POSITION && i < DATA_SIZE && since >= 0
    ensures IsRank(seq(len, _ => 0), i, since, 32)
  {
  }

  /** How many registers have no rank. */
  function Count32(ranks: seq<nat>): (n: nat)
    ensures n <= |ranks|
  {
    if |ranks| == 0 then 0 else Count32(ranks[..|ranks| - 1]) + (if ranks[|ranks| - 1] == 32 then 1 else 0)
  }

  lemma Count32Append(ranks: seq<nat>, m: nat)
    ensures Count32(ranks + [m]) == Count32(ranks) + (if m == 32 then 1 else 0)
  {
    assert (ranks + [m])[..|ranks|] == ranks;
  }

  /** The register table. */
  class Table {
    const dataSizeLog2: nat
    const dataSize: nat
    const maxBitPosition: nat
    const data: array<int>   // data_size rows of max_bit_position cells

    ghost predicate Valid()
      reads this
    {
      dataSizeLog2 == 10 && dataSize == 1024 && maxBitPosition == 23
      && data.Length == DATA_SIZE * MAX_BIT_POSITION
    }

    /** hyperloglog_init: 1 << 10 registers of 32 - 10 + 1 cells, all zero. */
    constructor ()
      ensures Valid() && fresh(data)
      ensures forall k :: 0 <= k < data.Length ==> data[k] == 0
    {
      dataSizeLog2 := DEFAULT_DATA_SIZE_LOG2;
      dataSize := Pow2(DEFAULT_DATA_SIZE_LOG2);
      maxBitPosition := 32 - DEFAULT_DATA_SIZE_LOG2 + 1;
      data := new int[DATA_SIZE * MAX_BIT_POSITION];
      new;
      Reset();
    }

    /** hyperloglog_reset: every cell is zero, whatever it held, so a second reset changes nothing. */
    method Reset()
      requires Valid()
      modifies data
      ensures data[..] == seq(data.Length, _ => 0)
      ensures forall k :: 0 <= k < data.Length ==> data[k] == 0
    {
      forall k | 0 <= k < data.Length {
        data[k] := 0;
      }
      assert data[..] == seq(data.Length, _ => 0);
    }

    /** hyperloglog_insert: current_time goes to exactly one cell, and the others keep theirs. */
    method Insert(hash: u32, currentTime: int)
      requires Valid()
      modifies data
      ensures data[..] == old(data[..])[Cell(hash) := currentTime]
    {
      var index := hash % dataSize;
      var firstSetBit := FindFirstSetBitAfterIndex(hash, dataSizeLog2);
      FirstSetBitBound(hash);
      data[index * maxBitPosition + firstSetBit] := currentTime;
    }

    /** The register scan of hyperloglog_query for register i. */
    method MaxValidIndex(i: nat, since: int) returns (m: nat)
      requires Valid() && i < DATA_SIZE
      ensures IsRank(data[..], i, since, m)
    {
      ghost var row := Row(data[..], i);
      var base := i * maxBitPosition;
      m := 32;
      var j: nat := maxBitPosition;
      while j >= 1
        invariant j <= MAX_BIT_POSITION && base == i * MAX_BIT_POSITION
        invariant |row| == MAX_BIT_POSITION && forall k :: j <= k < MAX_BIT_POSITION ==> row[k] <= since
      {
        assert data[base + j - 1] == row[j - 1];
        if data[base + j - 1] > since {
          m := j;
          return;
        }
        j := j - 1;
      }
    }

    /**
     * The integer part of hyperloglog_query: max_valid_index of every
     * register in order, and count_zero_elements, the number of registers
     * with no rank.
     */
    method Ranks(since: int) returns (ranks: seq<nat>, zeros: nat)
      requires Valid()
      ensures |ranks| == DATA_SIZE
      ensures forall i :: 0 <= i < DATA_SIZE ==> IsRank(data[..], i, since, ranks[i])
      ensures zeros == Count32(ranks)
    {
      ranks := [];
      zeros := 0;
      var i := 0;
      while i < dataSize
        invariant i <= DATA_SIZE && |ranks| == i && zeros == Count32(ranks)
        invariant forall q :: 0 <= q < i ==> IsRank(data[..], q, since, ranks[q])
      {
        var m := MaxValidIndex(i, since);
        if m == 32 {
          zeros := zeros + 1;
        }
        Count32Append(ranks, m);
        ranks := ranks + [m];
        i := i + 1;
      }
    }
  }
}
