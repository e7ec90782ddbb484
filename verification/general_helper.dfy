// The size helpers of the ambient-occlusion raytracing sample: word counts,
// power-of-two and arbitrary alignment, thread-group counts and constant
// buffer sizes, all in 32-bit UINT arithmetic.

module GeneralHelper {
  import opened Common

  /** D3D12_CONSTANT_BUFFER_DATA_PLACEMENT_ALIGNMENT. */
  const CONSTANT_BUFFER_ALIGNMENT: nat := 256

  /** RoundUp32: the number of 32-bit words that hold `size` bytes,
      computed as (size - 1) / 4 + 1. */
  function RoundUp32(size: u32): u32
  {
    Wrap32(Wrap32(size - 1) / 4 + 1)
  }

  /** For a non-zero size the result is the ceiling of size / 4 words; for
      size 0 the subtraction wraps and the result is 2^30. */
  lemma RoundUp32Words(size: u32)
    ensures size > 0 ==> 4 * (RoundUp32(size) - 1) < size <= 4 * RoundUp32(size)
    ensures size == 0 ==> RoundUp32(size) == 0x4000_0000
  {
    if size > 0 {
      Wrap32Small(size - 1);
      var q := (size - 1) / 4;
      assert size - 1 == 4 * q + (size - 1) % 4;
      Wrap32Small(q + 1);
    } else {
      Wrap32Shift(-1, 1);
      Wrap32Small(TWO_32 - 1);
      Wrap32Small(0x4000_0000);
    }
  }

  /** Align: `size` rounded up to a multiple of a power-of-two alignment. */
  function Align(size: u32, alignment: u32): u32
    requires IsPow2(alignment)
  {
    AlignUp32(size, alignment)
  }

  /** Unless the sum wraps, Align gives the least multiple of the alignment
      that is not below the size. */
  lemma AlignIsLeastMultiple(size: u32, alignment: u32)
    requires IsPow2(alignment) && size + alignment - 1 < TWO_32
    ensures Align(size, alignment) % alignment == 0
    ensures size <= Align(size, alignment) < size + alignment
  {
    AlignUp32Bounds(size, alignment);
  }

  /** AlignArbitrary: size - 1 - (size - 1) % alignment + alignment, for any
      non-zero alignment. */
  function AlignArbitrary(size: u32, alignment: u32): u32
    requires alignment > 0
  {
    var m := Wrap32(size - 1);
    Wrap32(m - m % alignment + alignment)
  }

  /** For a non-zero size, and unless the result wraps, AlignArbitrary gives
      the least multiple of the alignment not below the size. */
  lemma AlignArbitraryIsLeastMultiple(size: u32, alignment: u32)
    requires alignment > 0 && size > 0 && size - 1 + alignment < TWO_32
    ensures AlignArbitrary(size, alignment) % alignment == 0
    ensures size <= AlignArbitrary(size, alignment) < size + alignment
  {
    Wrap32Small(size - 1);
    var m := size - 1;
    var q, r := m / alignment, m % alignment;
    assert m == alignment * q + r;
    MulSucc(q, alignment);
    Wrap32Small(alignment * (q + 1));
    DivModUnique(alignment * (q + 1), alignment, q + 1, 0);
  }

  /** A size of 0 wraps: `size - 1` is 2^32 - 1, so the result is how far
      2^32 lies below the next multiple of the alignment, reduced modulo
      2^32. It is 0 exactly when the alignment divides 2^32, and otherwise
      a non-zero value that is not a multiple of the alignment. */
  lemma AlignArbitraryOfZero(a: u32)
    requires a > 0
    ensures AlignArbitrary(0, a) == (a - TWO_32 % a) % a
    ensures AlignArbitrary(0, a) == 0 <==> TWO_32 % a == 0
    ensures AlignArbitrary(0, a) != 0 ==> AlignArbitrary(0, a) % a != 0
  {
    var r := TWO_32 % a;
    if r == 0 {
      ZeroSizeDividing(a);
      DivModUnique(a - r, a, 1, 0);
    } else {
      ZeroSizeNotDividing(a);
      DivModUnique(a - r, a, 0, a - r);
    }
  }

  /** The last index of a 32-bit range, as `0 - 1` reads in a UINT. */
  lemma ZeroMinusOne()
    ensures Wrap32(0 - 1) == TWO_32 - 1
  {
    Wrap32Shift(-1, 1);
    Wrap32Small(TWO_32 - 1);
  }

  lemma ZeroSizeDividing(a: u32)
    requires a > 0 && TWO_32 % a == 0
    ensures AlignArbitrary(0, a) == 0
  {
    var m := TWO_32 - 1;
    ZeroMinusOne();
    var q := TWO_32 / a;
    assert TWO_32 == a * q;
    assert m == a * (q - 1) + (a - 1);
    DivModUnique(m, a, q - 1, a - 1);
    assert m - m % a + a == TWO_32;
    Wrap32Shift(0, 1);
    Wrap32Small(0);
  }

  lemma ZeroSizeNotDividing(a: u32)
    requires a > 0 && TWO_32 % a != 0
    ensures AlignArbitrary(0, a) == a - TWO_32 % a
  {
    var m := TWO_32 - 1;
    ZeroMinusOne();
    var q, r := TWO_32 / a, TWO_32 % a;
    assert TWO_32 == a * q + r;
    DivModUnique(m, a, q, r - 1);
    assert m - m % a + a == a - r + TWO_32;
    Wrap32Shift(a - r, 1);
    Wrap32Small(a - r);
  }

  /** Two instances: alignment 3 gives 2, alignment 4 gives 0. */
  lemma AlignArbitraryOfZeroExamples()
    ensures AlignArbitrary(0, 3) == 2
    ensures AlignArbitrary(0, 4) == 0
  {
    AlignArbitraryOfZero(3);
    AlignArbitraryOfZero(4);
  }

  /** GetNumGrps: the number of thread groups of `numThreads` threads that
      cover `size` items. */
  function GetNumGrps(size: u32, numThreads: u32): u32
    requires numThreads > 0
  {
    Wrap32(size + numThreads - 1) / numThreads
  }

  /** Unless the sum wraps, the groups cover every item and the last group
      holds at least one. */
  lemma GetNumGrpsCovers(size: u32, numThreads: u32)
    requires numThreads > 0 && size + numThreads - 1 < TWO_32
    ensures GetNumGrps(size, numThreads) * numThreads >= size
    ensures GetNumGrps(size, numThreads) == 0 || (GetNumGrps(size, numThreads) - 1) * numThreads < size
  {
    Wrap32Small(size + numThreads - 1);
    var s := size + numThreads - 1;
    var q, r := s / numThreads, s % numThreads;
    assert s == numThreads * q + r;
    assert q * numThreads == s - r;
  }

  /** CalculateConstantBufferByteSize: the size aligned to 256 bytes. */
  function CalculateConstantBufferByteSize(size: u32): u32
  {
    Align(size, CONSTANT_BUFFER_ALIGNMENT)
  }

  /** A constant buffer size is the least multiple of 256 that holds the
      data, unless the sum wraps. */
  lemma ConstantBufferSizeAligned(size: u32)
    requires size + CONSTANT_BUFFER_ALIGNMENT - 1 < TWO_32
    ensures CalculateConstantBufferByteSize(size) % 256 == 0
    ensures size <= CalculateConstantBufferByteSize(size) < size + 256
  {
    AlignIsLeastMultiple(size, CONSTANT_BUFFER_ALIGNMENT);
  }
}
