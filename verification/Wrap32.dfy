/**
 * 32-bit sequence numbers (section 3.4 of RFC 9293): absolute 64-bit numbers are sent modulo 2^32
 * relative to a zero point, and recovered as the candidate nearest to a checkpoint.
 */
module Wrap32 {
  import opened MachineInts

  function Wrap(n: u64, zeroPoint: u32): u32 {
    (n % TWO32 + zeroPoint) % TWO32
  }

  /** The offset of a raw value above the zero point: the smallest absolute number that wraps to it. */
  function Offset(raw: u32, zeroPoint: u32): u32 {
    if zeroPoint <= raw then raw - zeroPoint else raw + TWO32 - zeroPoint
  }

  function Unwrap(raw: u32, zeroPoint: u32, checkpoint: u64): u64 {
    var left := if zeroPoint <= raw then raw - zeroPoint
                else (raw + 0xFFFF_FFFF + 1 - zeroPoint) % TWO32;
    var right := left + 0xFFFF_FFFF + 1;
    var low0 := checkpoint % TWO32;
    var lwindow0 := if low0 > TWO31 then low0 - TWO31 else 0;
    var rwindow0 := low0 + TWO31;
    var shifted := rwindow0 <= left;
    var low := if shifted then low0 + 0xFFFF_FFFF + 1 else low0;
    var lwindow := if shifted then low - TWO31 else lwindow0;
    var rwindow := if shifted then low + TWO31 else rwindow0;
    var base := if checkpoint > low then checkpoint - low else 0;
    if lwindow <= left < rwindow then Add64(left, base) else Add64(right, base)
  }

  function Distance(a: int, b: int): nat {
    if a <= b then b - a else a - b
  }

  /** What a search over every candidate returns: nothing nearer, and the lower one on a tie. */
  ghost predicate Nearest(r: u64, raw: u32, zeroPoint: u32, checkpoint: u64) {
    && Wrap(r, zeroPoint) == raw
    && forall n: u64 :: Wrap(n, zeroPoint) == raw ==>
        Distance(r, checkpoint) < Distance(n, checkpoint)
        || (Distance(r, checkpoint) == Distance(n, checkpoint) && r <= n)
  }

  /** The last cycle: the nearest candidate would need 65 bits. */
  predicate PastLastCycle(raw: u32, zeroPoint: u32, checkpoint: u64) {
    TWO64 - TWO32 <= checkpoint && Offset(raw, zeroPoint) + TWO31 < checkpoint % TWO32
  }

  lemma WrapsToOffset(n: u64, raw: u32, zeroPoint: u32)
    ensures Wrap(n, zeroPoint) == raw <==> n % TWO32 == Offset(raw, zeroPoint)
  {
  }

  lemma SameCycleGap(a: int, b: int)
    requires a % TWO32 == b % TWO32 && a != b
    ensures Distance(a, b) >= TWO32
  {
  }

  lemma UnwrapValue(raw: u32, zeroPoint: u32, checkpoint: u64) returns (k: int)
    ensures Unwrap(raw, zeroPoint, checkpoint) == Offset(raw, zeroPoint) + k * TWO32
    ensures PastLastCycle(raw, zeroPoint, checkpoint) ==> k == 0
    ensures PastLastCycle(raw, zeroPoint, checkpoint) ||
      Unwrap(raw, zeroPoint, checkpoint) - checkpoint < TWO31 || k == 0
    ensures PastLastCycle(raw, zeroPoint, checkpoint) || checkpoint - Unwrap(raw, zeroPoint, checkpoint) <= TWO31
  {
    var q := checkpoint / TWO32;
    var low := checkpoint % TWO32;
    var left := Offset(raw, zeroPoint);
    assert checkpoint == q * TWO32 + low;
    if low + TWO31 <= left {
      k := if q == 0 then 0 else q - 1;
    } else if low <= left + TWO31 {
      k := q;
    } else {
      k := if q == 0xFFFF_FFFF then 0 else q + 1;
    }
  }

  /**
   * The constant-time computation is the search for the nearest candidate, exactly for the checkpoints
   * and raw values whose nearest candidate fits in 64 bits.
   */
  lemma UnwrapIsNearest(raw: u32, zeroPoint: u32, checkpoint: u64)
    ensures Nearest(Unwrap(raw, zeroPoint, checkpoint), raw, zeroPoint, checkpoint) <==>
      !PastLastCycle(raw, zeroPoint, checkpoint)
  {
    hide Unwrap, Wrap;
    var r := Unwrap(raw, zeroPoint, checkpoint);
    var k := UnwrapValue(raw, zeroPoint, checkpoint);
    WrapsToOffset(r, raw, zeroPoint);
    if PastLastCycle(raw, zeroPoint, checkpoint) {
      var n := Offset(raw, zeroPoint) + 0xFFFF_FFFF * TWO32;
      WrapsToOffset(n, raw, zeroPoint);
      assert Distance(n, checkpoint) < Distance(r, checkpoint);
    } else {
      forall n: u64 | Wrap(n, zeroPoint) == raw
        ensures Distance(r, checkpoint) < Distance(n, checkpoint)
             || (Distance(r, checkpoint) == Distance(n, checkpoint) && r <= n)
      {
        WrapsToOffset(n, raw, zeroPoint);
        if n != r {
          SameCycleGap(n, r);
        }
      }
    }
  }

  /** Wrapping and unwrapping give the number back exactly when no other candidate is nearer. */
  lemma WrapUnwrap(n: u64, zeroPoint: u32, checkpoint: u64)
    requires checkpoint < TWO64 - TWO32
    ensures Unwrap(Wrap(n, zeroPoint), zeroPoint, checkpoint) == n
      <==> checkpoint - n <= TWO31 && (n - checkpoint < TWO31 || n < TWO32)
  {
    hide Unwrap, Wrap;
    var raw := Wrap(n, zeroPoint);
    var r := Unwrap(raw, zeroPoint, checkpoint);
    var k := UnwrapValue(raw, zeroPoint, checkpoint);
    WrapsToOffset(n, raw, zeroPoint);
    WrapsToOffset(r, raw, zeroPoint);
    if n != r {
      SameCycleGap(n, r);
    }
  }
}
