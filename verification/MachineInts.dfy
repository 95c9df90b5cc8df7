/** Fixed-width unsigned arithmetic over mathematical integers. */
module MachineInts {
  const TWO16: int := 0x1_0000
  const TWO31: int := 0x8000_0000
  const TWO32: int := 0x1_0000_0000
  const TWO63: int := 0x8000_0000_0000_0000
  const TWO64: int := 0x1_0000_0000_0000_0000

  newtype byte = x: int | 0 <= x < 256

  type u16 = x: int | 0 <= x < 0x1_0000
  type u32 = x: int | 0 <= x < 0x1_0000_0000
  type u64 = x: int | 0 <= x < 0x1_0000_0000_0000_0000

  /** `uint64_t` addition. */
  function Add64(a: u64, b: u64): u64 {
    if a + b < TWO64 then a + b else a + b - TWO64
  }

  /** `uint64_t` subtraction: wraps around below zero. */
  function Sub64(a: u64, b: u64): u64 {
    if b <= a then a - b else a - b + TWO64
  }

  /** `static_cast<int64_t>` of a `uint64_t`. */
  function Signed64(a: u64): int {
    if a < TWO63 then a else a - TWO64
  }

  /** `static_cast<uint64_t>` of an `int64_t`. */
  function Unsigned64(a: int): u64
    requires -TWO63 <= a < TWO63
  {
    if 0 <= a then a else a + TWO64
  }

  /** Sums and differences of unsigned numbers read as signed ones, when the results are in range. */
  lemma SignedSum(a: u64, n: u64)
    requires Signed64(a) + n < TWO63
    ensures Signed64(Add64(a, n)) == Signed64(a) + n
  {
  }

  lemma SignedGap(b: u64, a: u64)
    requires Signed64(a) <= b < TWO63
    ensures Sub64(b, a) == b - Signed64(a)
  {
  }

  function Min(a: int, b: int): int {
    if a <= b then a else b
  }

  function Max(a: int, b: int): int {
    if a <= b then b else a
  }
}
