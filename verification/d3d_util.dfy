/**
  `d3dUtil::CalcConstantBufferByteSize` (Common/d3dUtil.h): a constant buffer
  must occupy a whole number of minimum hardware allocations (usually 256
  bytes), so a requested byte size is rounded up with the mask trick
  `(byteSize + alignment - 1) & ~(alignment - 1)` evaluated on 32-bit `UINT`s.
*/
module D3dUtil {
  import opened UintArith

  /** The default minimum hardware allocation size. */
  const DefaultAlignment: Uint := 256

  /** The rounding exactly as the source writes it, including 32-bit wrap-around. */
  function CalcConstantBufferByteSize(byteSize: Uint, alignment: Uint := DefaultAlignment): (r: Uint) {
    And(Wrap(byteSize + alignment - 1), BitNot(Wrap(alignment - 1)))
  }

  /** `alignment` is 2^k for the given `k`, and fits a `UINT`. */
  predicate IsAlignment(alignment: Uint, k: nat) {
    k < 32 && alignment == Pow2(k)
  }

  /** The least multiple of `alignment` that is at least `byteSize`, over unbounded integers. */
  function RoundUp(byteSize: nat, alignment: nat): (r: nat)
    requires alignment > 0
  {
    alignment * ((byteSize + alignment - 1) / alignment)
  }

  /** The sum the source computes before masking, i.e. `byteSize + alignment - 1` with wrap-around. */
  function Padded(byteSize: Uint, alignment: Uint): (r: Uint) {
    Wrap(byteSize + alignment - 1)
  }

  /** The 32-bit mask that keeps bits `k` and above. */
  function HighBits(k: nat): (r: Uint)
    requires k < 32
  {
    Pow2Of32();
    HighMask(k, 32)
  }

  /** For a power-of-two alignment `~(alignment - 1)` keeps exactly the bits from bit `k` upwards. */
  lemma ComplementMask(alignment: Uint, k: nat)
    requires IsAlignment(alignment, k)
    ensures BitNot(Wrap(alignment - 1)) == HighBits(k)
  {
    Pow2Of32();
  }

  /** Masking a `UINT` with the high bits from bit `k` rounds it down to a multiple of 2^k. */
  lemma AndHighBits(s: Uint, k: nat)
    requires k < 32
    ensures And(s, HighBits(k)) == s - s % Pow2(k)
  {
    Pow2Of32();
    ClearLowBits(s, k, 32);
  }

  lemma UnfoldCalc(byteSize: Uint, alignment: Uint, mask: Uint)
    requires BitNot(Wrap(alignment - 1)) == mask
    ensures CalcConstantBufferByteSize(byteSize, alignment) == And(Padded(byteSize, alignment), mask)
  {
  }

  /** For a power-of-two alignment the mask rounds the padded sum down to a multiple of it. */
  lemma RoundsPaddedDown(byteSize: Uint, alignment: Uint, k: nat)
    requires IsAlignment(alignment, k)
    ensures CalcConstantBufferByteSize(byteSize, alignment)
         == Padded(byteSize, alignment) - Padded(byteSize, alignment) % alignment
  {
    var s, mask := Padded(byteSize, alignment), HighBits(k);
    ComplementMask(alignment, k);
    UnfoldCalc(byteSize, alignment, mask);
    AndHighBits(s, k);
  }

  /** A power-of-two alignment divides 2^32. */
  lemma AlignmentDividesModulus(alignment: Uint, k: nat)
    requires IsAlignment(alignment, k)
    ensures UintModulus % alignment == 0
  {
    Pow2Of32();
    Pow2Add(k, 32 - k);
    ModUnique(UintModulus, alignment, Pow2(32 - k), 0);
  }

  /** For a power-of-two alignment the result is always a multiple of it, overflow or not. */
  lemma CalcIsMultiple(byteSize: Uint, alignment: Uint, k: nat)
    requires IsAlignment(alignment, k)
    ensures CalcConstantBufferByteSize(byteSize, alignment) % alignment == 0
  {
    RoundsPaddedDown(byteSize, alignment, k);
    RoundedDownIsMultiple(Padded(byteSize, alignment), alignment, CalcConstantBufferByteSize(byteSize, alignment));
  }

  /**
    Without overflow the result lies in `[byteSize, byteSize + alignment)`
    and agrees with the integer round-up.
  */
  lemma CalcBounds(byteSize: Uint, alignment: Uint, k: nat)
    requires IsAlignment(alignment, k)
    requires byteSize + alignment - 1 < UintModulus
    ensures byteSize <= CalcConstantBufferByteSize(byteSize, alignment) < byteSize + alignment
    ensures CalcConstantBufferByteSize(byteSize, alignment) == RoundUp(byteSize, alignment)
  {
    RoundsPaddedDown(byteSize, alignment, k);
    RoundedPaddedIsRoundUp(byteSize, alignment, CalcConstantBufferByteSize(byteSize, alignment));
  }

  /** Without overflow, `r`, the padded sum rounded down to a multiple of the alignment, is the integer round-up. */
  lemma RoundedPaddedIsRoundUp(byteSize: Uint, alignment: Uint, r: int)
    requires alignment > 0 && byteSize + alignment - 1 < UintModulus
    requires r == Padded(byteSize, alignment) - Padded(byteSize, alignment) % alignment
    ensures byteSize <= r < byteSize + alignment && r == RoundUp(byteSize, alignment)
  {
    var s := Padded(byteSize, alignment);
    assert s == byteSize + alignment - 1;
    PaddedRoundedDown(byteSize, alignment, s, r);
  }

  /** Without overflow no multiple of the alignment that is at least `byteSize` is smaller than the result. */
  lemma CalcIsLeast(byteSize: Uint, alignment: Uint, k: nat, m: nat)
    requires IsAlignment(alignment, k)
    requires byteSize + alignment - 1 < UintModulus
    requires m % alignment == 0 && byteSize <= m
    ensures CalcConstantBufferByteSize(byteSize, alignment) <= m
  {
    CalcBounds(byteSize, alignment, k);
    CalcIsMultiple(byteSize, alignment, k);
    var r := CalcConstantBufferByteSize(byteSize, alignment);
    if m < r {
      MultiplesApart(m, r, alignment);
    }
  }

  /** An already aligned size is returned unchanged. */
  lemma CalcKeepsAligned(byteSize: Uint, alignment: Uint, k: nat)
    requires IsAlignment(alignment, k)
    requires byteSize % alignment == 0
    ensures CalcConstantBufferByteSize(byteSize, alignment) == byteSize
  {
    AlignmentDividesModulus(alignment, k);
    MultiplesApart(byteSize, UintModulus, alignment);
    CalcBounds(byteSize, alignment, k);
    CalcIsLeast(byteSize, alignment, k, byteSize);
  }

  /** Rounding twice is rounding once. */
  lemma CalcIdempotent(byteSize: Uint, alignment: Uint, k: nat)
    requires IsAlignment(alignment, k)
    ensures CalcConstantBufferByteSize(CalcConstantBufferByteSize(byteSize, alignment), alignment)
         == CalcConstantBufferByteSize(byteSize, alignment)
  {
    CalcIsMultiple(byteSize, alignment, k);
    CalcKeepsAligned(CalcConstantBufferByteSize(byteSize, alignment), alignment, k);
  }

  /** When `byteSize + alignment - 1` overflows 32 bits the sum wraps and the result is 0. */
  lemma CalcWrapsToZero(byteSize: Uint, alignment: Uint, k: nat)
    requires IsAlignment(alignment, k)
    requires byteSize + alignment - 1 >= UintModulus
    ensures CalcConstantBufferByteSize(byteSize, alignment) == 0
  {
    var s := Padded(byteSize, alignment);
    WrapsBelow(byteSize, alignment, s);
    RoundsPaddedDown(byteSize, alignment, k);
    SmallRoundsToZero(s, alignment, CalcConstantBufferByteSize(byteSize, alignment));
  }

  /** An alignment of 0 makes the mask `~0xFFFFFFFF`, so every size rounds to 0. */
  lemma CalcZeroAlignment(byteSize: Uint)
    ensures CalcConstantBufferByteSize(byteSize, 0) == 0
  {
    UnfoldCalc(byteSize, 0, 0);
    AndZero(Padded(byteSize, 0), 32);
  }

  /** The worked example: with the default alignment, 300 bytes round to 512. */
  lemma CalcExample300()
    ensures CalcConstantBufferByteSize(300) == 512
  {
    assert IsAlignment(DefaultAlignment, 8);
    RoundsPaddedDown(300, DefaultAlignment, 8);
    assert Padded(300, DefaultAlignment) == 555 && 555 % 256 == 43;
  }

  /** For an alignment that is not a power of two the mask trick does not give a multiple. */
  lemma CalcNeedsPowerOfTwo()
    ensures CalcConstantBufferByteSize(1, 3) == 1
    ensures CalcConstantBufferByteSize(1, 3) % 3 != 0
  {
    UnfoldCalc(1, 3, 0xFFFF_FFFD);
    assert Padded(1, 3) == 3;
    assert 0xFFFF_FFFD % 2 == 1 && (0xFFFF_FFFD / 2) % 2 == 0;
    ThreeAndNotTwo(3, 0xFFFF_FFFD, 32);
  }

  /**
    `3 & mask == 1` for any mask whose bit 0 is set and bit 1 is clear, as in
    `~2`: bit 0 survives, bit 1 is cleared and 3 has no higher bits.
  */
  lemma ThreeAndNotTwo(x: nat, mask: nat, width: nat)
    requires x == 3 && mask % 2 == 1 && (mask / 2) % 2 == 0 && width >= 2
    ensures BitAnd(x, mask, width) == 1
  {
    var low := mask / 2;
    ZeroAnd(low / 2, width - 2);
    assert BitAnd(1, low, width - 1) == 2 * BitAnd(0, low / 2, width - 2);
    assert BitAnd(x, mask, width) == 2 * BitAnd(1, low, width - 1) + 1;
  }
}
