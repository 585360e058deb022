/** The integer helpers of Source/Math/MathHelpers.h. The C++ templates are
    instantiated at mathematical integers here; `IsPowerOfTwo` works on
    64-bit unsigned values and is modelled on `bv64`. */
module MathHelpers {

  /** `MySwap`: the two references come back exchanged. */
  function Swap<T>(v1: T, v2: T): (r: (T, T))
    ensures r.0 == v2 && r.1 == v1
  {
    (v2, v1)
  }

  /** `MyClamp_Return`: raise to `min`, then lower to `max`, on a copy. */
  function ClampReturn(value: int, min: int, max: int): (r: int)
    ensures min <= max ==> min <= r <= max
    ensures min <= value <= max ==> r == value
    ensures min > max ==> r == max
    ensures r == value || r == min || r == max
  {
    var raised := if value < min then min else value;
    if raised > max then max else raised
  }

  /** `MyClamp`: the in-place clamp. The reference parameter is the
      out-parameter `clamped`; it ends where `MyClamp_Return` would. */
  method Clamp(value: int, min: int, max: int) returns (clamped: int)
    ensures clamped == ClampReturn(value, min, max)
    ensures min <= max ==> min <= clamped <= max
    ensures min > max ==> clamped == max
  {
    clamped := value;
    if clamped < min {
      clamped := min;
    }
    if clamped > max {
      clamped := max;
    }
  }

  /** `IncreaseIfBigger`: the stored value becomes the larger of the two. */
  function IncreaseIfBigger(value: int, newValue: int): (r: int)
    ensures r >= value && r >= newValue
    ensures r == value || r == newValue
  {
    if newValue > value then newValue else value
  }

  /** `DecreaseIfLower`: the stored value becomes the smaller of the two,
      except that a stored zero counts as "no value yet" when
      `treatZeroAsInfinite` is set. */
  function DecreaseIfLower(value: int, newValue: int, treatZeroAsInfinite: bool): (r: int)
    ensures treatZeroAsInfinite && value == 0 ==> r == newValue
    ensures !(treatZeroAsInfinite && value == 0) ==> r <= value && r <= newValue && (r == value || r == newValue)
  {
    var start := if treatZeroAsInfinite && value == 0 then newValue else value;
    if newValue < start then newValue else start
  }

  /** `IsPowerOfTwo`: positive, and clearing the lowest set bit leaves nothing. */
  predicate IsPowerOfTwo(x: bv64): (r: bool)
    ensures r ==> x == 1 || x & 1 == 0
    ensures x == 0 ==> !r
  {
    x > 0 && x & (x - 1) == 0
  }

  /** Bit `k` alone. Bit positions are 7-bit words, so shifting never
      leaves bit-vector arithmetic. */
  function Bit(k: bv7): bv64
    requires k < 64
  {
    (1 as bv64) << k
  }

  /** The position of the single set bit of a power of two, found by
      testing six fixed masks, one per bit of the position. */
  function SingleBitPosition(x: bv64): (r: bv7)
    ensures r < 64
    ensures IsPowerOfTwo(x) ==> x == Bit(r)
  {
    (if x & 0xFFFF_FFFF_0000_0000 != 0 then 32 else 0)
    | (if x & 0xFFFF_0000_FFFF_0000 != 0 then 16 else 0)
    | (if x & 0xFF00_FF00_FF00_FF00 != 0 then 8 else 0)
    | (if x & 0xF0F0_F0F0_F0F0_F0F0 != 0 then 4 else 0)
    | (if x & 0xCCCC_CCCC_CCCC_CCCC != 0 then 2 else 0)
    | (if x & 0xAAAA_AAAA_AAAA_AAAA != 0 then 1 else 0)
  }

  lemma BitIsPowerOfTwo(k: bv7)
    requires k < 64
    ensures IsPowerOfTwo(Bit(k))
  {
  }

  /** `IsPowerOfTwo(x)` holds if and only if `x` is `2^k` for some `k < 64`. */
  lemma IsPowerOfTwoIff(x: bv64)
    ensures IsPowerOfTwo(x) <==> exists k: bv7 :: k < 64 && x == Bit(k)
  {
    if IsPowerOfTwo(x) {
      var k := SingleBitPosition(x);
    }
    forall k: bv7 | k < 64 && x == Bit(k)
      ensures IsPowerOfTwo(x)
    {
      BitIsPowerOfTwo(k);
    }
  }
}
