/** Types and constants shared by the binlog models. */
module Common {

  /** An unsigned 8-bit value, as `uchar` in the server. */
  type byte = b: int | 0 <= b < 256

  /** 2^32: the modulus of the server's 32-bit `uint` / `uint32` arithmetic. */
  const U32: int := 0x1_0000_0000

  /** 2^64: the modulus of `ulonglong` / `my_off_t` arithmetic. */
  const U64: int := 0x1_0000_0000_0000_0000

  datatype Option<T> = None | Some(value: T)

  /** d >= 1 copies of b > 0 add up to at least b. */
  lemma MulAtLeast(b: int, d: int)
    requires b > 0 && d >= 1
    ensures b * d >= b
  {
  }

  /** Quotient and remainder are determined by a == b * q + r with 0 <= r < b. */
  lemma DivModUnique(a: int, b: int, q: int, r: int)
    requires b > 0 && a == b * q + r && 0 <= r < b
    ensures a / b == q && a % b == r
  {
    var q0, r0 := a / b, a % b;
    assert b * (q - q0) == r0 - r;
    if q > q0 {
      MulAtLeast(b, q - q0);
    } else if q < q0 {
      MulAtLeast(b, q0 - q);
    }
  }
}

