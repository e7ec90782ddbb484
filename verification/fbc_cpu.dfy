// The CPU path of the FastBlockCompress sample around the block encoders:
// the pitch of a block-compressed mip level, the layout Prepare gives the
// compressed mip chain in one allocation, the walk of CompressBC1/BC3/BC5U
// over the 4x4 blocks of an image, and Compress's argument checks and mip
// loop. Memory is a sequence of bytes (the source) or an array (the
// destination) indexed by address.

module FbcCpu {
  import opened Common
  import opened Radix
  import opened Dx
  import opened FbcBlock

  // ---------------------------------------------------------------------
  // ComputePitch
  // ---------------------------------------------------------------------

  datatype Pitch = Pitch(rowPitch: u32, slicePitch: nat)

  /** Bytes per block: 8 for the BC1 and BC4 formats, 16 for the others. */
  function BytesPerBlock(fmt: nat): nat
  {
    if fmt == BC1_TYPELESS || fmt == BC1_UNORM || fmt == BC1_UNORM_SRGB
       || fmt == BC4_TYPELESS || fmt == BC4_UNORM || fmt == BC4_SNORM then 8
    else 16
  }

  /** max(1, (n + 3) / 4), the sum taken in 32 bits. */
  function BlocksAcross(n: u32): nat
  {
    Max(1, Wrap32(n + 3) / 4)
  }

  /** The row pitch (bytes per row of blocks, a uint32) and slice pitch of a
      square level `texSize` texels wide. */
  function ComputePitch(texSize: u32, fmt: nat): Pitch
  {
    var nb := BlocksAcross(texSize);
    var rowPitch := Wrap32(nb * BytesPerBlock(fmt));
    Pitch(rowPitch, rowPitch * nb)
  }

  /** Away from 32-bit overflow a level is covered by the fewest 4x4 blocks
      that cover it (at least one), and the pitches count their bytes. */
  lemma PitchBlocks(texSize: u32, fmt: nat)
    requires texSize <= 0x1000_0000
    ensures var nb, p := BlocksAcross(texSize), ComputePitch(texSize, fmt);
      nb >= 1 && 4 * nb >= texSize && (texSize > 0 ==> 4 * (nb - 1) < texSize)
      && p.rowPitch == nb * BytesPerBlock(fmt) && p.slicePitch == p.rowPitch * nb
  {
    var nb := BlocksAcross(texSize);
    assert Wrap32(texSize + 3) == texSize + 3;
    assert nb <= 0x0400_0001;
    assert nb * BytesPerBlock(fmt) <= 0x0400_0001 * 16;
  }

  // ---------------------------------------------------------------------
  // Prepare
  // ---------------------------------------------------------------------

  /** D3D12_SUBRESOURCE_DATA: where a level's data starts, and its pitches. */
  datatype Subresource = Subresource(data: nat, rowPitch: nat, slicePitch: nat)

  /** max(texSize >> level, 1u): the width of mip `level` in texels. */
  function LevelSize(texSize: u32, level: nat): (r: u32)
    ensures r >= 1
  {
    Max(texSize / Pow(2, level), 1)
  }

  function LevelPitch(texSize: u32, fmt: nat, level: nat): Pitch
  {
    ComputePitch(LevelSize(texSize, level), fmt)
  }

  /** The bytes the first `n` levels take, unwrapped. */
  function Offset(texSize: u32, fmt: nat, n: nat): nat
  {
    if n == 0 then 0 else Offset(texSize, fmt, n - 1) + LevelPitch(texSize, fmt, n - 1).slicePitch
  }

  /** totalSize after `n` passes of Prepare's first loop, a size_t. */
  function TotalSize(texSize: u32, fmt: nat, n: nat): u64
  {
    if n == 0 then 0 else Wrap64(TotalSize(texSize, fmt, n - 1) + LevelPitch(texSize, fmt, n - 1).slicePitch)
  }

  /** The subresources of the first `n` levels laid out from `base`. */
  function Layout(base: nat, texSize: u32, fmt: nat, n: nat): (r: seq<Subresource>)
    ensures |r| == n
  {
    if n == 0 then []
    else
      var p := LevelPitch(texSize, fmt, n - 1);
      Layout(base, texSize, fmt, n - 1) + [Subresource(base + Offset(texSize, fmt, n - 1), p.rowPitch, p.slicePitch)]
  }

  /** The formats the CPU compressor encodes. */
  predicate IsBlockFormat(fmt: nat)
  {
    fmt == BC1_UNORM || fmt == BC3_UNORM || fmt == BC5_UNORM
  }

  /** The size and mip-count checks shared by Prepare and Compress. */
  predicate SizeArgsValid(texSize: u32, mipLevels: u32)
  {
    texSize >= 4 && mipLevels != 0 && mipLevels <= REQ_MIP_LEVELS && texSize % 4 == 0
  }

  /** The HRESULT of Prepare, given whether the allocation succeeds. */
  function PrepareResult(texSize: u32, fmt: nat, mipLevels: u32, allocOk: bool): nat
  {
    if !SizeArgsValid(texSize, mipLevels) || !IsBlockFormat(fmt) then E_INVALIDARG
    else if !allocOk then E_OUTOFMEMORY
    else S_OK
  }

  /** CompressorCPU::Prepare. `memory` is what _aligned_malloc returns for
      the total size (None for a null pointer); `result` is the owning
      pointer the caller passes in, reset only on success. */
  method Prepare(texSize: u32, fmt: nat, mipLevels: u32, memory: Option<nat>, result: Option<nat>)
    returns (hr: nat, resultOut: Option<nat>, subresources: seq<Subresource>, ghost totalSize: u64)
    ensures hr == PrepareResult(texSize, fmt, mipLevels, memory.Some?)
    ensures hr == S_OK ==> resultOut == memory && subresources == Layout(memory.value, texSize, fmt, mipLevels)
                           && totalSize == TotalSize(texSize, fmt, mipLevels)
    ensures hr != S_OK ==> resultOut == result && subresources == []
  {
    subresources := [];
    resultOut := result;
    totalSize := 0;
    if texSize < 4 || mipLevels == 0 || mipLevels > REQ_MIP_LEVELS {
      return E_INVALIDARG, resultOut, subresources, totalSize;
    }
    if texSize % 4 != 0 {
      return E_INVALIDARG, resultOut, subresources, totalSize;
    }
    if fmt != BC1_UNORM && fmt != BC3_UNORM && fmt != BC5_UNORM {
      return E_INVALIDARG, resultOut, subresources, totalSize;
    }

    var total := SumSlicePitches(texSize, fmt, mipLevels);
    totalSize := total;

    if memory.None? {
      return E_OUTOFMEMORY, resultOut, subresources, totalSize;
    }
    resultOut := memory;
    subresources := LayOutLevels(memory.value, texSize, fmt, mipLevels);
    hr := S_OK;
  }

  /** Prepare's first loop: the size_t sum of the levels' slice pitches. */
  method SumSlicePitches(texSize: u32, fmt: nat, mipLevels: nat) returns (total: u64)
    ensures total == TotalSize(texSize, fmt, mipLevels)
  {
    total := 0;
    for level := 0 to mipLevels
      invariant total == TotalSize(texSize, fmt, level)
    {
      var mipSize := Max(texSize / Pow(2, level), 1);
      var p := ComputePitch(mipSize, fmt);
      total := Wrap64(total + p.slicePitch);
    }
  }

  /** Prepare's second loop: one subresource per level, each starting where
      the previous slice ends. */
  method LayOutLevels(mem: nat, texSize: u32, fmt: nat, mipLevels: nat) returns (subresources: seq<Subresource>)
    ensures subresources == Layout(mem, texSize, fmt, mipLevels)
  {
    subresources := [];
    var ptr := mem;
    for level := 0 to mipLevels
      invariant subresources == Layout(mem, texSize, fmt, level)
      invariant ptr == mem + Offset(texSize, fmt, level)
    {
      var mipSize := Max(texSize / Pow(2, level), 1);
      var p := ComputePitch(mipSize, fmt);
      subresources := subresources + [Subresource(ptr, p.rowPitch, p.slicePitch)];
      ptr := ptr + p.slicePitch;
    }
  }

  /** Prepare's subresources tile the allocation: one per level, the first
      at its start, each next one where the previous slice ends, and the last
      ending `Offset` bytes in, which is the allocation size unless the
      size_t sum wrapped. */
  lemma LayoutContiguous(base: nat, texSize: u32, fmt: nat, n: nat)
    ensures var l := Layout(base, texSize, fmt, n);
      (n > 0 ==> l[0].data == base && l[n - 1].data + l[n - 1].slicePitch == base + Offset(texSize, fmt, n))
      && (forall k :: 0 <= k < n - 1 ==> l[k + 1].data == l[k].data + l[k].slicePitch)
      && (forall k :: 0 <= k < n ==> l[k].rowPitch == LevelPitch(texSize, fmt, k).rowPitch
                                     && l[k].slicePitch == LevelPitch(texSize, fmt, k).slicePitch)
      && TotalSize(texSize, fmt, n) == Offset(texSize, fmt, n) % TWO_64
  {
    var l := Layout(base, texSize, fmt, n);
    forall k | 0 <= k < n
      ensures l[k] == Subresource(base + Offset(texSize, fmt, k), LevelPitch(texSize, fmt, k).rowPitch,
                                  LevelPitch(texSize, fmt, k).slicePitch)
    {
      LayoutAt(base, texSize, fmt, n, k);
    }
    TotalIsOffset(texSize, fmt, n);
  }

  /** Entry `k` of the layout, whatever the number of levels after it. */
  lemma {:induction false} LayoutAt(base: nat, texSize: u32, fmt: nat, n: nat, k: nat)
    requires k < n
    ensures Layout(base, texSize, fmt, n)[k] ==
      Subresource(base + Offset(texSize, fmt, k), LevelPitch(texSize, fmt, k).rowPitch,
                  LevelPitch(texSize, fmt, k).slicePitch)
  {
    if k < n - 1 {
      LayoutAt(base, texSize, fmt, n - 1, k);
    }
  }

  lemma {:induction false} TotalIsOffset(texSize: u32, fmt: nat, n: nat)
    ensures TotalSize(texSize, fmt, n) == Offset(texSize, fmt, n) % TWO_64
  {
    if n > 0 {
      TotalIsOffset(texSize, fmt, n - 1);
      ModAdd(Offset(texSize, fmt, n - 1), LevelPitch(texSize, fmt, n - 1).slicePitch);
    }
  }

  lemma ModAdd(o: nat, s: nat)
    ensures (o % TWO_64 + s) % TWO_64 == (o + s) % TWO_64
  {
    var q := o / TWO_64;
    assert o == o % TWO_64 + TWO_64 * q;
  }

  // ---------------------------------------------------------------------
  // ExtractBlock and the block walk of CompressBC1, CompressBC3, CompressBC5U
  // ---------------------------------------------------------------------

  /** ExtractBlock: four runs of 16 bytes (four RGBA pixels), `pitch` bytes
      apart, starting at address `at`. */
  function ExtractBlock(mem: seq<byte>, at: nat, pitch: nat): (px: Pixels)
    requires at + 3 * pitch + 16 <= |mem|
  {
    mem[at..at + 16] + mem[at + pitch..at + pitch + 16] + mem[at + 2 * pitch..at + 2 * pitch + 16]
      + mem[at + 3 * pitch..at + 3 * pitch + 16]
  }

  /** Byte `k` of the block is byte `k % 16` of pixel row `k / 16`. */
  lemma ExtractBlockPixels(mem: seq<byte>, at: nat, pitch: nat)
    requires at + 3 * pitch + 16 <= |mem|
    ensures forall k :: 0 <= k < 64 ==> ExtractBlock(mem, at, pitch)[k] == mem[at + (k / 16) * pitch + k % 16]
  {
    var px := ExtractBlock(mem, at, pitch);
    forall k | 0 <= k < 64
      ensures px[k] == mem[at + (k / 16) * pitch + k % 16]
    {
      var r := k / 16;
      if r == 0 {
      } else if r == 1 {
      } else if r == 2 {
      } else {
      }
    }
  }

  /** Every block the encoder is given encodes to `bpb` bytes. */
  ghost predicate FixedSize(enc: Pixels -> seq<byte>, bpb: nat)
  {
    forall px :: |enc(px)| == bpb
  }

  /** The block encoder a compressed format selects (BC1, BC3 or BC5U). */
  function Encoder(fmt: nat): (enc: Pixels -> seq<byte>)
    requires IsBlockFormat(fmt)
    ensures FixedSize(enc, BytesPerBlock(fmt))
  {
    if fmt == BC1_UNORM then BC1Block
    else if fmt == BC3_UNORM then BC3Block
    else BC5Block
  }

  /** The 4x4 blocks of a row, `n` of them from address `at`, can be read. */
  predicate RowReadable(mem: seq<byte>, at: nat, pitch: nat, n: nat)
  {
    n == 0 || at + 3 * pitch + 16 * n <= |mem|
  }

  /** Every block of `rows` rows of `cols` blocks from `at` can be read; a
      row of blocks is four rows of pixels. */
  predicate ImageReadable(mem: seq<byte>, at: nat, pitch: nat, rows: nat, cols: nat)
    decreases rows
  {
    rows == 0 || (RowReadable(mem, at, pitch, cols) && ImageReadable(mem, at + pitch * 4, pitch, rows - 1, cols))
  }

  /** The encoded blocks of a row, left to right. */
  function RowBytes(enc: Pixels -> seq<byte>, mem: seq<byte>, at: nat, pitch: nat, n: nat): seq<byte>
    requires RowReadable(mem, at, pitch, n)
    decreases n
  {
    if n == 0 then [] else enc(ExtractBlock(mem, at, pitch)) + RowBytes(enc, mem, at + 16, pitch, n - 1)
  }

  /** The encoded image: its rows of blocks, top to bottom, packed. */
  function ImageBytes(enc: Pixels -> seq<byte>, mem: seq<byte>, at: nat, pitch: nat, rows: nat, cols: nat): seq<byte>
    requires ImageReadable(mem, at, pitch, rows, cols)
    decreases rows
  {
    if rows == 0 then []
    else RowBytes(enc, mem, at, pitch, cols) + ImageBytes(enc, mem, at + pitch * 4, pitch, rows - 1, cols)
  }

  lemma MulSucc(a: nat, b: nat)
    requires a >= 1
    ensures a * b == (a - 1) * b + b && (a - 1) * b >= 0
  {
  }

  /** A row of `n` blocks encodes to `n` times the block size. */
  lemma {:induction false} RowBytesLength(enc: Pixels -> seq<byte>, bpb: nat, mem: seq<byte>, at: nat, pitch: nat, n: nat)
    requires FixedSize(enc, bpb) && RowReadable(mem, at, pitch, n)
    ensures |RowBytes(enc, mem, at, pitch, n)| == n * bpb
    decreases n
  {
    if n > 0 {
      RowBytesLength(enc, bpb, mem, at + 16, pitch, n - 1);
      MulSucc(n, bpb);
    }
  }

  /** An image of `rows` rows of `cols` blocks encodes to `rows` rows of
      `cols` times the block size. */
  lemma {:induction false} ImageBytesLength(enc: Pixels -> seq<byte>, bpb: nat, mem: seq<byte>, at: nat, pitch: nat, rows: nat, cols: nat)
    requires FixedSize(enc, bpb) && ImageReadable(mem, at, pitch, rows, cols)
    ensures |ImageBytes(enc, mem, at, pitch, rows, cols)| == rows * (cols * bpb)
    decreases rows
  {
    if rows > 0 {
      RowBytesLength(enc, bpb, mem, at, pitch, cols);
      ImageBytesLength(enc, bpb, mem, at + pitch * 4, pitch, rows - 1, cols);
      MulSucc(rows, cols * bpb);
    }
  }

  /** The encoded row grows one block at a time, left to right. */
  lemma {:induction false} RowBytesSnoc(enc: Pixels -> seq<byte>, mem: seq<byte>, at: nat, pitch: nat, k: nat)
    requires RowReadable(mem, at, pitch, k + 1)
    ensures RowReadable(mem, at, pitch, k)
    ensures RowBytes(enc, mem, at, pitch, k + 1)
         == RowBytes(enc, mem, at, pitch, k) + enc(ExtractBlock(mem, at + 16 * k, pitch))
    decreases k
  {
    if k > 0 {
      RowBytesSnoc(enc, mem, at + 16, pitch, k - 1);
      Associate3(enc(ExtractBlock(mem, at, pitch)), RowBytes(enc, mem, at + 16, pitch, k - 1),
                 enc(ExtractBlock(mem, at + 16 * k, pitch)));
    }
  }

  /** Taking the first block off the encoded rest of a row. */
  lemma RowStep(enc: Pixels -> seq<byte>, mem: seq<byte>, at: nat, pitch: nat, n: nat,
                done: seq<byte>, row: seq<byte>)
    requires n > 0 && RowReadable(mem, at, pitch, n)
    requires done + RowBytes(enc, mem, at, pitch, n) == row
    ensures at + 3 * pitch + 16 <= |mem| && RowReadable(mem, at + 16, pitch, n - 1)
    ensures (done + enc(ExtractBlock(mem, at, pitch))) + RowBytes(enc, mem, at + 16, pitch, n - 1) == row
  {
    Associate3(done, enc(ExtractBlock(mem, at, pitch)), RowBytes(enc, mem, at + 16, pitch, n - 1));
  }

  /** Taking the first row off the encoded rest of an image. */
  lemma ImageStep(enc: Pixels -> seq<byte>, mem: seq<byte>, at: nat, pitch: nat, rows: nat, cols: nat,
                  done: seq<byte>, total: seq<byte>)
    requires rows > 0 && ImageReadable(mem, at, pitch, rows, cols)
    requires done + ImageBytes(enc, mem, at, pitch, rows, cols) == total
    ensures RowReadable(mem, at, pitch, cols) && ImageReadable(mem, at + pitch * 4, pitch, rows - 1, cols)
    ensures (done + RowBytes(enc, mem, at, pitch, cols)) + ImageBytes(enc, mem, at + pitch * 4, pitch, rows - 1, cols) == total
  {
    Associate3(done, RowBytes(enc, mem, at, pitch, cols), ImageBytes(enc, mem, at + pitch * 4, pitch, rows - 1, cols));
  }

  lemma Associate3<T>(x: seq<T>, y: seq<T>, z: seq<T>)
    ensures x + (y + z) == (x + y) + z
  {
  }

  /** The stores of one block's fields through the destination pointer. */
  method Store(dst: array<byte>, at: nat, bytes: seq<byte>)
    requires at + |bytes| <= dst.Length
    modifies dst
    ensures dst[..] == WriteAt(old(dst[..]), at, bytes)
  {
    ghost var m := dst[..];
    for k := 0 to |bytes|
      invariant dst[..] == WriteAt(m, at, bytes[..k])
    {
      ghost var before := dst[..];
      dst[at + k] := bytes[k];
      assert dst[..] == before[at + k := bytes[k]];
      WriteAtOne(before, at + k, bytes[k]);
      WriteAtAppend(m, at, bytes[..k], [bytes[k]]);
      assert bytes[..k + 1] == bytes[..k] + [bytes[k]];
    }
    assert bytes[..|bytes|] == bytes;
  }

  /** Storing `block` just past the `done` bytes already stored from `start`. */
  method StoreAfter(dst: array<byte>, pDst: nat, block: seq<byte>,
                    ghost m0: seq<byte>, ghost start: nat, ghost done: seq<byte>)
    requires pDst == start + |done| && pDst + |block| <= dst.Length == |m0|
    requires dst[..] == WriteAt(m0, start, done)
    modifies dst
    ensures dst[..] == WriteAt(m0, start, done + block)
  {
    WriteAtAppend(m0, start, done, block);
    Store(dst, pDst, block);
  }

  /** The number of 4-texel steps a loop `for (i = 0; i < size; i += 4)` takes. */
  function Blocks(size: nat): nat { (size + 3) / 4 }

  /** CompressBC1, CompressBC3 and CompressBC5U share one loop nest and
      differ only in the block encoder `enc`, which writes `bpb` bytes: each
      4x4 block of a `size` x `size` image is read from `src` at pitch
      `srcPitch` and its encoding stored in the destination, rows of blocks
      `dstPitch` bytes apart. */
  method CompressImage(enc: Pixels -> seq<byte>, bpb: nat, src: seq<byte>, srcAt: nat, srcPitch: nat, size: nat,
                       dst: array<byte>, dstAt: nat, dstPitch: nat)
    requires FixedSize(enc, bpb)
    requires ImageReadable(src, srcAt, srcPitch, Blocks(size), Blocks(size))
    requires dstPitch == Blocks(size) * bpb
    requires dstAt + Blocks(size) * dstPitch <= dst.Length
    modifies dst
    ensures |ImageBytes(enc, src, srcAt, srcPitch, Blocks(size), Blocks(size))| == Blocks(size) * dstPitch
    ensures dst[..] == WriteAt(old(dst[..]), dstAt, ImageBytes(enc, src, srcAt, srcPitch, Blocks(size), Blocks(size)))
  {
    var nb := Blocks(size);
    ghost var total := ImageBytes(enc, src, srcAt, srcPitch, nb, nb);
    ImageBytesLength(enc, bpb, src, srcAt, srcPitch, nb, nb);
    ghost var m0 := dst[..];
    ghost var done: seq<byte> := [];
    ghost var left: nat := nb;
    ghost var rest := total;
    var pSource: nat, pDestination: nat := srcAt, dstAt;
    var j := 0;
    while j < size
      invariant j == 4 * (nb - left) && left <= nb && (j < size <==> left > 0)
      invariant ImageReadable(src, pSource, srcPitch, left, nb)
      invariant rest == ImageBytes(enc, src, pSource, srcPitch, left, nb) && done + rest == total
      invariant pDestination == dstAt + |done| && pDestination + left * dstPitch <= dst.Length
      invariant dst[..] == WriteAt(m0, dstAt, done)
      decreases size - j
    {
      done, rest := CompressRowAt(enc, bpb, src, pSource, srcPitch, size, dst, pDestination, dstPitch, m0, dstAt, done, left, total);
      left := left - 1;
      pSource := pSource + srcPitch * 4;
      pDestination := pDestination + dstPitch;
      j := j + 4;
    }
  }

  /** One pass of the outer loop: the row of blocks at `pSource` stored
      at `pDestination`, leaving `left - 1` rows to go. */
  method CompressRowAt(enc: Pixels -> seq<byte>, bpb: nat, src: seq<byte>, pSource: nat, srcPitch: nat, size: nat,
                       dst: array<byte>, pDestination: nat, dstPitch: nat, ghost m0: seq<byte>, ghost start: nat,
                       ghost done: seq<byte>, ghost left: nat, ghost total: seq<byte>)
    returns (ghost done': seq<byte>, ghost rest': seq<byte>)
    requires FixedSize(enc, bpb) && dstPitch == Blocks(size) * bpb && left > 0
    requires ImageReadable(src, pSource, srcPitch, left, Blocks(size))
    requires done + ImageBytes(enc, src, pSource, srcPitch, left, Blocks(size)) == total
    requires pDestination == start + |done| && pDestination + left * dstPitch <= dst.Length == |m0|
    requires dst[..] == WriteAt(m0, start, done)
    modifies dst
    ensures ImageReadable(src, pSource + srcPitch * 4, srcPitch, left - 1, Blocks(size))
    ensures rest' == ImageBytes(enc, src, pSource + srcPitch * 4, srcPitch, left - 1, Blocks(size)) && done' + rest' == total
    ensures pDestination + dstPitch == start + |done'| && pDestination + dstPitch + (left - 1) * dstPitch <= dst.Length
    ensures dst[..] == WriteAt(m0, start, done')
  {
    ImageStep(enc, src, pSource, srcPitch, left, Blocks(size), done, total);
    MulSucc(left, dstPitch);
    CompressRow(enc, bpb, src, pSource, srcPitch, size, dst, pDestination, m0, start, done);
    done' := done + RowBytes(enc, src, pSource, srcPitch, Blocks(size));
    rest' := ImageBytes(enc, src, pSource + srcPitch * 4, srcPitch, left - 1, Blocks(size));
  }

  /** The inner loop: the blocks of the row at `pSource` stored from
      `pDestination`, just past the `done` bytes stored from `start`. */
  method CompressRow(enc: Pixels -> seq<byte>, bpb: nat, src: seq<byte>, pSource: nat, srcPitch: nat, size: nat,
                     dst: array<byte>, pDestination: nat, ghost m0: seq<byte>, ghost start: nat, ghost done: seq<byte>)
    requires FixedSize(enc, bpb)
    requires RowReadable(src, pSource, srcPitch, Blocks(size))
    requires pDestination == start + |done| && pDestination + Blocks(size) * bpb <= dst.Length == |m0|
    requires dst[..] == WriteAt(m0, start, done)
    modifies dst
    ensures |RowBytes(enc, src, pSource, srcPitch, Blocks(size))| == Blocks(size) * bpb
    ensures dst[..] == WriteAt(m0, start, done + RowBytes(enc, src, pSource, srcPitch, Blocks(size)))
  {
    var nb := Blocks(size);
    ghost var row := done + RowBytes(enc, src, pSource, srcPitch, nb);
    RowBytesLength(enc, bpb, src, pSource, srcPitch, nb);
    ghost var stored := done;
    ghost var left: nat := nb;
    var pSrc: nat, pDst: nat := pSource, pDestination;
    var i := 0;
    while i < size
      invariant i == 4 * (nb - left) && left <= nb && (i < size <==> left > 0)
      invariant RowReadable(src, pSrc, srcPitch, left)
      invariant stored + RowBytes(enc, src, pSrc, srcPitch, left) == row
      invariant pDst == start + |stored|
      invariant dst[..] == WriteAt(m0, start, stored)
      decreases size - i
    {
      RowStep(enc, src, pSrc, srcPitch, left, stored, row);
      var block := enc(ExtractBlock(src, pSrc, srcPitch));
      StoreAfter(dst, pDst, block, m0, start, stored);
      stored := stored + block;
      left := left - 1;
      pSrc := pSrc + 16;
      pDst := pDst + bpb;
      i := i + 4;
    }
  }

  // ---------------------------------------------------------------------
  // Compress
  // ---------------------------------------------------------------------

  /** max(texSize >> level, 4u): the width and height Compress walks at mip
      `level`. */
  function MipSize(texSize: u32, level: nat): nat
  {
    Max(texSize / Pow(2, level), 4)
  }

  predicate Aligned(s: Subresource)
  {
    s.data % 16 == 0
  }

  /** The first level from `k` on, below `n`, whose source data is not
      16-byte aligned, or `n` when there is none. */
  function FirstMisaligned(subs: seq<Subresource>, k: nat, n: nat): (r: nat)
    requires k <= n <= |subs|
    ensures k <= r <= n
    ensures forall l :: k <= l < r ==> Aligned(subs[l])
    ensures r < n ==> !Aligned(subs[r])
    decreases n - k
  {
    if k == n then n else if !Aligned(subs[k]) then k else FirstMisaligned(subs, k + 1, n)
  }

  /** What Compress needs of one level: the source blocks of a `size` by
      `size` image readable, and the destination packed at the row pitch of
      its blocks and inside `dstLen` bytes. */
  predicate LevelFits(src: seq<byte>, dstLen: nat, s: Subresource, d: Subresource, size: nat, bpb: nat)
  {
    ImageReadable(src, s.data, s.rowPitch, Blocks(size), Blocks(size))
    && d.rowPitch == Blocks(size) * bpb && d.data + Blocks(size) * d.rowPitch <= dstLen
  }

  predicate LevelsFit(src: seq<byte>, dstLen: nat, subs: seq<Subresource>, bcs: seq<Subresource>,
                      texSize: u32, bpb: nat, n: nat)
    requires n <= |subs| && n <= |bcs|
  {
    forall l :: 0 <= l < n ==> LevelFits(src, dstLen, subs[l], bcs[l], MipSize(texSize, l), bpb)
  }

  /** Whether Compress gets past its argument checks and the format switch. */
  predicate Compresses(texSize: u32, mipLevels: u32, subresources: Option<seq<Subresource>>, fmt: nat,
                       bcSubresources: Option<seq<Subresource>>)
  {
    SizeArgsValid(texSize, mipLevels) && subresources.Some? && bcSubresources.Some? && IsBlockFormat(fmt)
  }

  /** What Compress assumes of its caller once its own checks pass: both
      arrays hold `mipLevels` entries, and every level it goes on to
      compress fits. */
  predicate CompressCallerOk(texSize: u32, mipLevels: u32, src: seq<byte>, subresources: Option<seq<Subresource>>,
                             fmt: nat, dstLen: nat, bcSubresources: Option<seq<Subresource>>)
  {
    SizeArgsValid(texSize, mipLevels) && subresources.Some? && bcSubresources.Some? ==>
      mipLevels <= |subresources.value| && mipLevels <= |bcSubresources.value|
      && (IsBlockFormat(fmt) ==>
            LevelsFit(src, dstLen, subresources.value, bcSubresources.value, texSize, BytesPerBlock(fmt),
                      FirstMisaligned(subresources.value, 0, mipLevels)))
  }

  /** The HRESULT of Compress. A misaligned level 0 is reported before the
      format is looked at. */
  function CompressResult(texSize: u32, mipLevels: u32, subresources: Option<seq<Subresource>>, fmt: nat,
                          bcSubresources: Option<seq<Subresource>>): nat
    requires SizeArgsValid(texSize, mipLevels) && subresources.Some? && bcSubresources.Some? ==>
      mipLevels <= |subresources.value|
  {
    if !SizeArgsValid(texSize, mipLevels) || subresources.None? || bcSubresources.None? then E_INVALIDARG
    else
      var m := FirstMisaligned(subresources.value, 0, mipLevels);
      if m == 0 then E_NOT_SUPPORTED
      else if !IsBlockFormat(fmt) then E_INVALIDARG
      else if m < mipLevels then E_NOT_SUPPORTED
      else S_OK
  }

  /** Compress succeeds exactly when its checks pass and every level's
      source is 16-byte aligned. A misaligned level fails it with
      ERROR_NOT_SUPPORTED, unless level 0 is aligned and the format is one
      it does not encode. */
  lemma CompressResultCases(texSize: u32, mipLevels: u32, subresources: Option<seq<Subresource>>, fmt: nat,
                            bcSubresources: Option<seq<Subresource>>)
    requires SizeArgsValid(texSize, mipLevels) && subresources.Some? && bcSubresources.Some? ==>
      mipLevels <= |subresources.value|
    ensures CompressResult(texSize, mipLevels, subresources, fmt, bcSubresources) == S_OK <==>
      Compresses(texSize, mipLevels, subresources, fmt, bcSubresources)
      && forall l :: 0 <= l < mipLevels ==> Aligned(subresources.value[l])
    ensures (SizeArgsValid(texSize, mipLevels) && subresources.Some? && bcSubresources.Some?
             && (exists l :: 0 <= l < mipLevels && !Aligned(subresources.value[l]))
             && (IsBlockFormat(fmt) || !Aligned(subresources.value[0]))) ==>
      CompressResult(texSize, mipLevels, subresources, fmt, bcSubresources) == E_NOT_SUPPORTED
  {
  }

  /** Memory `mem` after the first `n` levels are compressed, in order. */
  function CompressedLevels(mem: seq<byte>, enc: Pixels -> seq<byte>, bpb: nat, src: seq<byte>,
                            subs: seq<Subresource>, bcs: seq<Subresource>, texSize: u32, n: nat): (r: seq<byte>)
    requires FixedSize(enc, bpb) && n <= |subs| && n <= |bcs|
    requires LevelsFit(src, |mem|, subs, bcs, texSize, bpb, n)
    ensures |r| == |mem|
  {
    if n == 0 then mem
    else
      var s, d, nb := subs[n - 1], bcs[n - 1], Blocks(MipSize(texSize, n - 1));
      assert LevelFits(src, |mem|, s, d, MipSize(texSize, n - 1), bpb);
      ImageBytesLength(enc, bpb, src, s.data, s.rowPitch, nb, nb);
      WriteAt(CompressedLevels(mem, enc, bpb, src, subs, bcs, texSize, n - 1), d.data,
              ImageBytes(enc, src, s.data, s.rowPitch, nb, nb))
  }

  /** CompressorCPU::Compress. `src` is the memory the uncompressed levels
      point into and `dst` the memory of the compressed ones; None stands
      for a null array. Levels before the first misaligned one are
      compressed even when that one makes the call fail. */
  method Compress(texSize: u32, mipLevels: u32, src: seq<byte>, subresources: Option<seq<Subresource>>, fmt: nat,
                  dst: array<byte>, bcSubresources: Option<seq<Subresource>>) returns (hr: nat)
    requires CompressCallerOk(texSize, mipLevels, src, subresources, fmt, dst.Length, bcSubresources)
    modifies dst
    ensures hr == CompressResult(texSize, mipLevels, subresources, fmt, bcSubresources)
    ensures !Compresses(texSize, mipLevels, subresources, fmt, bcSubresources) ==> dst[..] == old(dst[..])
    ensures Compresses(texSize, mipLevels, subresources, fmt, bcSubresources) ==>
      dst[..] == CompressedLevels(old(dst[..]), Encoder(fmt), BytesPerBlock(fmt), src, subresources.value,
                                  bcSubresources.value, texSize, FirstMisaligned(subresources.value, 0, mipLevels))
  {
    if texSize < 4 || mipLevels == 0 || mipLevels > REQ_MIP_LEVELS {
      return E_INVALIDARG;
    }
    if texSize % 4 != 0 {
      return E_INVALIDARG;
    }
    if subresources.None? || bcSubresources.None? {
      return E_INVALIDARG;
    }
    var subs, bcs := subresources.value, bcSubresources.value;
    ghost var m0 := dst[..];
    var level: nat := 0;
    while level < mipLevels
      invariant level <= FirstMisaligned(subs, 0, mipLevels)
      invariant level > 0 ==> IsBlockFormat(fmt)
      invariant level == 0 ==> dst[..] == m0
      invariant level > 0 ==> dst[..] == CompressedLevels(m0, Encoder(fmt), BytesPerBlock(fmt), src, subs, bcs, texSize, level)
    {
      if subs[level].data % 16 != 0 {
        assert !Aligned(subs[level]);
        assert level == FirstMisaligned(subs, 0, mipLevels);
        return E_NOT_SUPPORTED;
      }
      assert Aligned(subs[level]);
      assert level < FirstMisaligned(subs, 0, mipLevels);
      if !IsBlockFormat(fmt) {
        return E_INVALIDARG;
      }
      CompressLevel(Encoder(fmt), BytesPerBlock(fmt), texSize, src, subs, dst, bcs, level, m0);
      level := level + 1;
    }
    assert level == FirstMisaligned(subs, 0, mipLevels);
    CompressedLevelsAt(old(dst[..]), Encoder(fmt), BytesPerBlock(fmt), src, subresources.value, bcSubresources.value,
                       texSize, level, FirstMisaligned(subresources.value, 0, mipLevels), dst[..]);
    return S_OK;
  }

  /** One pass of Compress's mip loop once the level is aligned and the
      format known: compress level `l` as `enc` encodes blocks. */
  method CompressLevel(enc: Pixels -> seq<byte>, bpb: nat, texSize: u32, src: seq<byte>, subs: seq<Subresource>,
                       dst: array<byte>, bcs: seq<Subresource>, l: nat, ghost m0: seq<byte>)
    requires FixedSize(enc, bpb) && l < |subs| && l < |bcs| && |m0| == dst.Length
    requires LevelsFit(src, dst.Length, subs, bcs, texSize, bpb, l + 1)
    requires dst[..] == CompressedLevels(m0, enc, bpb, src, subs, bcs, texSize, l)
    modifies dst
    ensures dst[..] == CompressedLevels(m0, enc, bpb, src, subs, bcs, texSize, l + 1)
  {
    var mipSize := Max(texSize / Pow(2, l), 4);
    assert LevelFits(src, dst.Length, subs[l], bcs[l], mipSize, bpb);
    CompressImage(enc, bpb, src, subs[l].data, subs[l].rowPitch, mipSize, dst, bcs[l].data, bcs[l].rowPitch);
  }

  /** Restating memory after `a` levels as after `b == a` levels; saves the
      solver an extensional comparison of the two. */
  lemma CompressedLevelsAt(mem: seq<byte>, enc: Pixels -> seq<byte>, bpb: nat, src: seq<byte>,
                           subs: seq<Subresource>, bcs: seq<Subresource>, texSize: u32, a: nat, b: nat, cur: seq<byte>)
    requires FixedSize(enc, bpb) && a <= |subs| && a <= |bcs|
    requires LevelsFit(src, |mem|, subs, bcs, texSize, bpb, a)
    requires a == b && cur == CompressedLevels(mem, enc, bpb, src, subs, bcs, texSize, a)
    ensures cur == CompressedLevels(mem, enc, bpb, src, subs, bcs, texSize, b)
  {
  }

  /** Offsets grow with the number of levels. */
  lemma {:induction false} OffsetMono(texSize: u32, fmt: nat, k: nat, n: nat)
    requires k <= n
    ensures Offset(texSize, fmt, k) <= Offset(texSize, fmt, n)
    decreases n - k
  {
    if k < n {
      OffsetMono(texSize, fmt, k + 1, n);
    }
  }

  /** Prepare's pitch for mip `l` is the packed pitch of the blocks Compress
      walks at that level, although the two clamp the size differently
      (to 1 texel and to 4). */
  lemma MipBlocks(texSize: u32, fmt: nat, l: nat)
    requires texSize <= 0x1000_0000
    ensures var p := LevelPitch(texSize, fmt, l);
      p.rowPitch == Blocks(MipSize(texSize, l)) * BytesPerBlock(fmt)
      && p.slicePitch == Blocks(MipSize(texSize, l)) * p.rowPitch
  {
    var s := texSize / Pow(2, l);
    assert s <= texSize;
    PitchBlocks(LevelSize(texSize, l), fmt);
    assert BlocksAcross(LevelSize(texSize, l)) == Blocks(MipSize(texSize, l));
  }

  /** The chain Prepare lays out meets Compress's demands on the destination
      of each level. */
  lemma PrepareFitsCompress(base: nat, texSize: u32, fmt: nat, n: nat, dstLen: nat, l: nat)
    requires texSize <= 0x1000_0000 && l < n
    requires base + Offset(texSize, fmt, n) <= dstLen
    ensures var d := Layout(base, texSize, fmt, n)[l];
      d.rowPitch == Blocks(MipSize(texSize, l)) * BytesPerBlock(fmt)
      && d.data + Blocks(MipSize(texSize, l)) * d.rowPitch <= dstLen
  {
    LayoutAt(base, texSize, fmt, n, l);
    MipBlocks(texSize, fmt, l);
    OffsetMono(texSize, fmt, l + 1, n);
  }
}
