/** Power-of-two alignment and lowest-set-bit search from framework.h,
    modelled at 32-bit width: `RoundUp`/`RoundDown` build their mask from a
    `uint32_t`, so bv32 is the width at which the C++ expressions are exact. */
module Framework {

  /** `r` is a non-zero power of two. */
  predicate IsPow2(r: bv32) {
    r != 0 && r & (r - 1) == 0
  }

  /** `x` is a multiple of the power of two `r`: its bits below `r`'s one bit are clear. */
  predicate Aligned(x: bv32, r: bv32) {
    x & (r - 1) == 0
  }

  /** `v + r - 1` does not wrap around at 32 bits. */
  predicate NoCarry(v: bv32, r: bv32) {
    r != 0 && v as int + r as int - 1 < 0x1_0000_0000
  }

  /** `(in_rValue + in_round - 1) & ~(in_round - 1)`, with wrap-around at 32 bits. */
  function RoundUp(v: bv32, r: bv32): (u: bv32)
    ensures Aligned(u, r)
    ensures u == RoundDown(v + r - 1, r)
  {
    (v + r - 1) & !(r - 1)
  }

  /** `in_rValue & ~(in_round - 1)`. */
  function RoundDown(v: bv32, r: bv32): (d: bv32)
    ensures Aligned(d, r)
    ensures d <= v
  {
    v & !(r - 1)
  }

  /** Rounding down to a power of two gives the largest multiple of `r` not above `v`. */
  lemma RoundDownBounds(v: bv32, r: bv32)
    requires IsPow2(r)
    ensures Aligned(RoundDown(v, r), r)
    ensures RoundDown(v, r) <= v && v - RoundDown(v, r) < r
  {
  }

  /** Rounding up gives the smallest multiple of `r` not below `v`, as long as
      `v + r - 1` does not wrap around. */
  lemma RoundUpBounds(v: bv32, r: bv32)
    requires IsPow2(r) && NoCarry(v, r)
    ensures Aligned(RoundUp(v, r), r)
    ensures v <= RoundUp(v, r) && RoundUp(v, r) - v < r
  {
    assert v <= v + (r - 1);
  }

  /** A value already aligned to `r` is left alone by both roundings. */
  lemma RoundingFixesAligned(v: bv32, r: bv32)
    requires IsPow2(r) && Aligned(v, r)
    ensures RoundUp(v, r) == v && RoundDown(v, r) == v
  {
  }

  /** Both roundings are idempotent (rounding up even when `v + r - 1` wraps),
      and rounding up is rounding down of `v + r - 1`. */
  lemma RoundingIdempotent(v: bv32, r: bv32)
    requires IsPow2(r)
    ensures RoundDown(RoundDown(v, r), r) == RoundDown(v, r)
    ensures RoundUp(RoundUp(v, r), r) == RoundUp(v, r)
    ensures RoundUp(v, r) == RoundDown(v + r - 1, r)
  {
  }

  /** Bit `i` of `v` is set. */
  predicate BitSet(v: bv32, i: nat)
    requires i < 32
  {
    v & (1 << i) != 0
  }

  /** The loop of `FirstBitLow<uint32_t>`: the index of the lowest set bit,
      or 0 when no bit is set. */
  method FirstBitLow(value: bv32) returns (i: nat)
    ensures i < 32
    ensures value != 0 ==> BitSet(value, i) && forall j :: 0 <= j < i ==> !BitSet(value, j)
    ensures value == 0 ==> i == 0
  {
    var k := 0;
    while k < 32
      invariant 0 <= k <= 32
      invariant forall j :: 0 <= j < k ==> !BitSet(value, j)
    {
      if value & (1 << k) != 0 {
        return k;
      }
      k := k + 1;
    }
    AllClearIsZero(value);
    return 0;
  }

  /** A value none of whose 32 bits is set is zero. */
  lemma AllClearIsZero(v: bv32)
    requires forall j :: 0 <= j < 32 ==> !BitSet(v, j)
    ensures v == 0
  {
    var j := 0;
    while j < 32
      invariant 0 <= j <= 32
      invariant v & ((1 << j) - 1) == 0
    {
      assert !BitSet(v, j);
      j := j + 1;
    }
  }
}
