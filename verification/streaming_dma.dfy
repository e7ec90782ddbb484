// Bookkeeping of the streaming DMA decompression library: which read blocks
// of a compressed stream have been issued and completed (one bit per block in
// a 64-bit word), the per-file table of read requests in flight, validation
// of the compressed header carried by the first block, and the chunk layout
// walked when loaded chunks are handed to the DMA engine.
//
// The block size, the per-file queue depth and the DMA allocation size are
// constants of a header outside this model; they are parameters here.

module StreamingDma {
  import opened Common

  /** Reads are extended to this sector size for unbuffered I/O. */
  const UNBUFFERED_READ_ALIGNMENT: nat := 4096
  /** One tracking bit per read block in a ULONG64. */
  const TRACKING_BITS: nat := 64

  const ERROR_OUTOFMEMORY: u32 := 14
  const ERROR_BAD_ARGUMENTS: u32 := 160
  const ERROR_DATA_CHECKSUM_ERROR: u32 := 323
  const ERROR_DEVICE_NOT_AVAILABLE: u32 := 4319

  /** MAKE_SCODE(SEVERITY_ERROR, FACILITY_WIN32, code). */
  function Win32Failure(code: u32): u32
    requires code < TWO_16
  {
    0x8007_0000 + code
  }

  /** (HANDLE)-1 on a 64-bit target. */
  const INVALID_HANDLE_VALUE: u64 := 0xFFFF_FFFF_FFFF_FFFF

  // ---------------------------------------------------------------------
  // Alignment arithmetic

  /** x rounded up to a multiple of four, without wrap-around. */
  function RoundUp4(x: int): int { 4 * ((x + 3) / 4) }

  /** Rounding up to four bytes in 32 bits agrees with rounding the exact
      value and wrapping afterwards. */
  lemma AlignUp4Wraps(x: int)
    ensures AlignUp32(x, 4) == Wrap32(RoundUp4(x))
  {
    var s := Wrap32(x + 3);
    var q := (x + 3) / TWO_32;
    assert x + 3 == s + TWO_32 * q;
    Wrap32Mod4(x + 3);
    var r := (x + 3) % 4;
    assert x + 3 == 4 * ((x + 3) / 4) + r;
    assert RoundUp4(x) == (s - r) + TWO_32 * q;
    Wrap32Shift(s - r, q);
  }

  /** Rounding up past a multiple of four. */
  lemma RoundUp4Add(j: int, c: int)
    ensures RoundUp4(4 * j + c) == 4 * j + RoundUp4(c)
  {
    assert c + 3 == 4 * ((c + 3) / 4) + (c + 3) % 4;
    DivModUnique(4 * j + c + 3, 4, j + (c + 3) / 4, (c + 3) % 4);
  }

  /** Rounding a wrapped value up to four and wrapping again. */
  lemma RoundUp4Wrap(y: int)
    ensures Wrap32(RoundUp4(Wrap32(y))) == Wrap32(RoundUp4(y))
  {
    var w := Wrap32(y);
    var q := y / TWO_32;
    assert y == w + 4 * (0x4000_0000 * q);
    RoundUp4Add(0x4000_0000 * q, w);
    assert RoundUp4(y) == RoundUp4(w) + TWO_32 * q;
    Wrap32Shift(RoundUp4(w), q);
  }

  // ---------------------------------------------------------------------
  // Block numbers and tracking bits

  /** The file offset a read request for `block` starts at. */
  function RequestOffset(streamStart: nat, block: nat, blockSize: nat): nat
  {
    streamStart + block * blockSize
  }

  /** ReadRequestToBlockNumber: the 64-bit distance from the stream start
      divided (truncating) by the block size, cast to int. */
  function BlockNumber(offset: int, streamStart: int, blockSize: nat): i32
    requires blockSize > 0
  {
    WrapI32(CDiv(offset - streamStart, blockSize))
  }

  /** The block number recovered from a request is the block it was issued for. */
  lemma BlockNumberOfRequest(streamStart: nat, block: nat, blockSize: nat)
    requires blockSize > 0 && block < TRACKING_BITS
    ensures BlockNumber(RequestOffset(streamStart, block, blockSize), streamStart, blockSize) == block
  {
    var d := block * blockSize;
    assert RequestOffset(streamStart, block, blockSize) - streamStart == d;
    MulNonNeg(block, blockSize);
    DivModUnique(d, blockSize, block, 0);
  }

  /** The number of read blocks: the byte count rounded up to whole blocks,
      with the 32-bit wrap of the rounding sum. */
  function TotalReadBlocks(bytesToRead: u32, blockSize: nat): nat
    requires blockSize > 0
  {
    Wrap32(bytesToRead + (blockSize - 1)) / blockSize
  }

  /** _BitScanForward64 on the complement of the issued bits, starting at
      `from`: the lowest clear position, or 64 when every bit is set. */
  function LowestClear(bits: set<nat>, from: nat): (k: nat)
    requires from <= TRACKING_BITS
    ensures from <= k <= TRACKING_BITS
    ensures k < TRACKING_BITS ==> k !in bits
    ensures forall j :: from <= j < k ==> j in bits
    decreases TRACKING_BITS - from
  {
    if from == TRACKING_BITS || from !in bits then from else LowestClear(bits, from + 1)
  }

  /** FindNextReadBlock. When all 64 bits are set the intrinsic leaves its
      output unwritten; `stale` is whatever the variable held. */
  function FindNextReadBlock(error: u32, bytesToRead: u32, issued: set<nat>, blockSize: nat, stale: u32): (r: int)
    requires blockSize > 0
    ensures error != 0 ==> r == -1
    ensures error == 0 && LowestClear(issued, 0) < TRACKING_BITS ==>
      (r == -1 <==> forall b :: 0 <= b < TotalReadBlocks(bytesToRead, blockSize) ==> b in issued)
    ensures error == 0 && LowestClear(issued, 0) < TRACKING_BITS && r != -1 ==>
      0 <= r < TotalReadBlocks(bytesToRead, blockSize) && r !in issued &&
      forall b :: 0 <= b < r ==> b in issued
  {
    if error != 0 then -1
    else
      var totalReadBlocks := TotalReadBlocks(bytesToRead, blockSize);
      var k := LowestClear(issued, 0);
      var neededBlock := if k < TRACKING_BITS then k else stale;
      if neededBlock < totalReadBlocks then neededBlock else -1
  }

  /** The bytes requested for `block`: what is left of the stream, capped at
      one block; the subtraction is unsigned 32-bit. */
  function RequestBytes(bytesToRead: u32, block: nat, blockSize: nat): (n: u32)
  {
    var left := Wrap32(bytesToRead - block * blockSize);
    if left <= blockSize then left else blockSize
  }

  /** Bytes requested by blocks 0 .. k-1. */
  function CoveredBytes(bytesToRead: u32, blockSize: nat, k: nat): nat
  {
    if k == 0 then 0 else CoveredBytes(bytesToRead, blockSize, k - 1) + RequestBytes(bytesToRead, k - 1, blockSize)
  }

  /** Every block below the total starts inside the stream. */
  lemma BlockStartsInStream(bytesToRead: u32, blockSize: nat, k: nat)
    requires blockSize > 0 && bytesToRead + blockSize - 1 < TWO_32
    requires k < TotalReadBlocks(bytesToRead, blockSize)
    ensures k * blockSize < bytesToRead
  {
    var total := TotalReadBlocks(bytesToRead, blockSize);
    var s := bytesToRead + blockSize - 1;
    Wrap32Small(s);
    assert s == blockSize * total + s % blockSize;
    MulNonNeg(blockSize, total - k - 1);
    assert blockSize * total == blockSize * k + blockSize + blockSize * (total - k - 1);
  }

  /** The requests for blocks 0 .. total-1 read the whole stream, no byte twice:
      the first k of them cover min(bytes, k * block size). */
  lemma {:induction false} RequestsCoverStream(bytesToRead: u32, blockSize: nat, k: nat)
    requires blockSize > 0 && bytesToRead + blockSize - 1 < TWO_32
    requires k <= TotalReadBlocks(bytesToRead, blockSize)
    ensures CoveredBytes(bytesToRead, blockSize, k) == Min(bytesToRead, k * blockSize)
  {
    if k > 0 {
      RequestsCoverStream(bytesToRead, blockSize, k - 1);
      BlockStartsInStream(bytesToRead, blockSize, k - 1);
      var p := (k - 1) * blockSize;
      MulSucc(k - 1, blockSize);
      Wrap32Small(bytesToRead - p);
    }
  }

  lemma RequestsReadWholeStream(bytesToRead: u32, blockSize: nat)
    requires blockSize > 0 && bytesToRead + blockSize - 1 < TWO_32
    ensures CoveredBytes(bytesToRead, blockSize, TotalReadBlocks(bytesToRead, blockSize)) == bytesToRead
  {
    var total := TotalReadBlocks(bytesToRead, blockSize);
    var s := bytesToRead + blockSize - 1;
    Wrap32Small(s);
    assert s == blockSize * total + s % blockSize;
    RequestsCoverStream(bytesToRead, blockSize, total);
  }

  // ---------------------------------------------------------------------
  // The ReadFile calls a request issues

  /** What a ReadFile call reported. */
  datatype ReadOutcome = Completed | Pending | InvalidParameter | Failed

  /** A ReadFile call: file offset, offset into the working buffer, size. */
  datatype ReadCall = ReadCall(fileOffset: int, bufferOffset: int, size: u32)

  /** The read a request starts with. With the buffer already known to be
      offset, the destination moves up to the next page boundary; either way
      the size is rounded up to the sector size. */
  function FirstReadCall(offset: int, bytes: u32, block: nat, blockSize: nat, unaligned: nat, isDmaBufferOffset: bool): ReadCall
  {
    if isDmaBufferOffset then
      var readOffset := Wrap32(UNBUFFERED_READ_ALIGNMENT - unaligned);
      ReadCall(offset + readOffset, unaligned + readOffset + blockSize * block, AlignUp32(bytes, UNBUFFERED_READ_ALIGNMENT))
    else
      ReadCall(offset, unaligned + blockSize * block, AlignUp32(bytes, UNBUFFERED_READ_ALIGNMENT))
  }

  /** An invalid-parameter failure on an unaligned first block means the
      handle is unbuffered: the read is retried from the sector boundary. */
  predicate RetriesRead(first: ReadOutcome, block: nat, unaligned: nat, bytes: u32)
  {
    first == InvalidParameter && block == 0 && (unaligned != 0 || bytes % UNBUFFERED_READ_ALIGNMENT != 0)
  }

  function RetryReadCall(offset: int, bytes: u32, unaligned: nat): ReadCall
  {
    ReadCall(offset - unaligned, 0, AlignUp32(bytes + unaligned, UNBUFFERED_READ_ALIGNMENT))
  }

  /** Every read is a whole number of sectors and covers the bytes it is for. */
  lemma ReadSizesAligned(offset: int, bytes: u32, block: nat, blockSize: nat, unaligned: nat, isDmaBufferOffset: bool)
    requires unaligned < UNBUFFERED_READ_ALIGNMENT && bytes + 2 * UNBUFFERED_READ_ALIGNMENT < TWO_32
    ensures var c := FirstReadCall(offset, bytes, block, blockSize, unaligned, isDmaBufferOffset);
      c.size % UNBUFFERED_READ_ALIGNMENT == 0 && bytes <= c.size < bytes + UNBUFFERED_READ_ALIGNMENT
    ensures var c := RetryReadCall(offset, bytes, unaligned);
      c.size % UNBUFFERED_READ_ALIGNMENT == 0 && bytes + unaligned <= c.size < bytes + unaligned + UNBUFFERED_READ_ALIGNMENT
  {
    AlignUp32Bounds(bytes, UNBUFFERED_READ_ALIGNMENT);
    AlignUp32Bounds(bytes + unaligned, UNBUFFERED_READ_ALIGNMENT);
  }

  // ---------------------------------------------------------------------
  // The request slot table

  /** Number of occupied slots. */
  function Occupied(s: seq<Option<nat>>): nat
  {
    if s == [] then 0 else Occupied(s[..|s| - 1]) + (if s[|s| - 1].Some? then 1 else 0)
  }

  /** The occupied slots form a prefix of the table. */
  predicate Packed(s: seq<Option<nat>>)
  {
    forall i, j :: 0 <= i < j < |s| && s[i].None? ==> s[j].None?
  }

  /** A table whose first `k` slots are occupied and the rest free. */
  predicate Shape(s: seq<Option<nat>>, k: nat)
  {
    k <= |s| && (forall i :: 0 <= i < k ==> s[i].Some?) && (forall i :: k <= i < |s| ==> s[i].None?)
  }

  lemma {:induction false} ShapeOccupied(s: seq<Option<nat>>, k: nat)
    requires Shape(s, k)
    ensures Occupied(s) == k && Packed(s)
  {
    if s != [] {
      var t := s[..|s| - 1];
      if k == |s| {
        assert Shape(t, k - 1);
        ShapeOccupied(t, k - 1);
      } else {
        assert Shape(t, k);
        ShapeOccupied(t, k);
      }
    }
  }

  lemma {:induction false} PackedShape(s: seq<Option<nat>>)
    requires Packed(s)
    ensures Shape(s, Occupied(s))
  {
    if s != [] {
      var t := s[..|s| - 1];
      assert Packed(t);
      PackedShape(t);
      if s[|s| - 1].Some? {
        assert forall i :: 0 <= i < |t| ==> t[i].Some? by {
          forall i | 0 <= i < |t| ensures t[i].Some? {
            assert t[i] == s[i] && s[|s| - 1].Some?;
          }
        }
        ShapeOccupied(t, |t|);
      }
    }
  }

  /** The first index holding `x`, or |s|. */
  function FirstIndexOf(s: seq<Option<nat>>, x: Option<nat>): (i: nat)
    ensures i <= |s| && (i < |s| ==> s[i] == x)
    ensures forall j :: 0 <= j < i ==> s[j] != x
    ensures x in s ==> i < |s|
  {
    if s == [] || s[0] == x then 0 else 1 + FirstIndexOf(s[1..], x)
  }

  /** The table after a completed request is unlinked: its slot is cleared
      and the later slots shift down by one, keeping their order. */
  function Released(s: seq<Option<nat>>, request: nat): seq<Option<nat>>
  {
    var i := FirstIndexOf(s, Some(request));
    if i == |s| then s else s[..i] + s[i + 1..] + [None]
  }

  /** Unlinking keeps the table packed and frees exactly one slot; the other
      requests keep their relative order. */
  lemma ReleaseKeepsPacked(s: seq<Option<nat>>, request: nat)
    requires Packed(s) && Some(request) in s
    ensures Packed(Released(s, request)) && Occupied(Released(s, request)) == Occupied(s) - 1
    ensures var i := FirstIndexOf(s, Some(request));
      Released(s, request) == s[..i] + s[i + 1..] + [None]
  {
    PackedShape(s);
    var n := Occupied(s);
    var i := FirstIndexOf(s, Some(request));
    assert i < |s|;
    var r := s[..i] + s[i + 1..] + [None];
    assert r == Released(s, request);
    assert i < n;
    assert Shape(r, n - 1) by {
      forall j | 0 <= j < |r| ensures (j < n - 1 ==> r[j].Some?) && (j >= n - 1 ==> r[j].None?) {
        if j < i { assert r[j] == s[j]; }
        else if j < |s| - 1 { assert r[j] == s[j + 1]; }
      }
    }
    ShapeOccupied(r, n - 1);
  }

  /** Filling the first free slot of a packed table. */
  lemma FillKeepsPacked(s: seq<Option<nat>>, request: nat)
    requires Packed(s) && Occupied(s) < |s|
    ensures Packed(s[Occupied(s) := Some(request)]) && Occupied(s[Occupied(s) := Some(request)]) == Occupied(s) + 1
  {
    PackedShape(s);
    var n := Occupied(s);
    assert Shape(s[n := Some(request)], n + 1);
    ShapeOccupied(s[n := Some(request)], n + 1);
  }

  // ---------------------------------------------------------------------
  // The compressed header and the chunk layout

  /** One chunk entry of the header: 8 bytes after the 4-byte count. */
  datatype ChunkInfo = ChunkInfo(compressedSize: u32, originalSize: u32)

  /** Sum, in 4-byte words, of the chunk sizes of the first n chunks, each
      padded to a whole word. */
  function PaddedWords(chunks: seq<ChunkInfo>, n: nat): nat
    requires n <= |chunks|
  {
    if n == 0 then 0 else PaddedWords(chunks, n - 1) + (chunks[n - 1].compressedSize + 3) / 4
  }

  /** The same sum in bytes. */
  function PaddedSize(chunks: seq<ChunkInfo>, n: nat): nat
    requires n <= |chunks|
  {
    4 * PaddedWords(chunks, n)
  }

  /** The stream size the header describes, summed as the source does:
      4 bytes of count, then per chunk 8 header bytes and the padded data. */
  function StreamSize(chunks: seq<ChunkInfo>, n: nat): u32
    requires n <= |chunks|
  {
    if n == 0 then 4
    else Wrap32(StreamSize(chunks, n - 1) + 8 + AlignUp32(chunks[n - 1].compressedSize, 4))
  }

  /** Sum of the original sizes of the first n chunks, in 32 bits. */
  function DecompressedTotal(chunks: seq<ChunkInfo>, n: nat): u32
    requires n <= |chunks|
  {
    if n == 0 then 0 else Wrap32(DecompressedTotal(chunks, n - 1) + chunks[n - 1].originalSize)
  }

  lemma {:induction false} StreamSizeIsPadded(chunks: seq<ChunkInfo>, n: nat)
    requires n <= |chunks|
    ensures StreamSize(chunks, n) == Wrap32(4 + 8 * n + PaddedSize(chunks, n))
  {
    if n > 0 {
      StreamSizeIsPadded(chunks, n - 1);
      var c := chunks[n - 1].compressedSize;
      var a := 4 + 8 * (n - 1) + PaddedSize(chunks, n - 1);
      var w := Wrap32(RoundUp4(c));
      AlignUp4Wraps(c);
      calc {
        StreamSize(chunks, n);
        Wrap32(Wrap32(a) + (8 + w));
        { Wrap32Add(a, 8 + w); }
        Wrap32(w + (a + 8));
        { Wrap32Add(RoundUp4(c), a + 8); }
        Wrap32(RoundUp4(c) + (a + 8));
      }
    }
  }

  /** Where the compressed data of chunk 0 starts: after the count and the entries. */
  function FirstChunkStart(chunks: seq<ChunkInfo>): u32
  {
    Wrap32(4 + |chunks| * 8)
  }

  /** The last byte of a chunk that starts at `start`. */
  function ChunkEnd(start: u32, c: ChunkInfo): u32
  {
    Wrap32(start + c.compressedSize - 1)
  }

  /** The next chunk starts after the last byte, rounded up to 4 bytes. */
  function NextChunkStart(start: u32, c: ChunkInfo): u32
  {
    AlignUp32(Wrap32(ChunkEnd(start, c) + 1), 4)
  }

  /** Start offset of chunk i's data in the compressed stream. */
  function ChunkStart(chunks: seq<ChunkInfo>, i: nat): u32
    requires i <= |chunks|
  {
    if i == 0 then FirstChunkStart(chunks) else NextChunkStart(ChunkStart(chunks, i - 1), chunks[i - 1])
  }

  /** Start offset of chunk i's output in the decompressed buffer. */
  function DecompressedStart(chunks: seq<ChunkInfo>, i: nat): u32
    requires i <= |chunks|
  {
    DecompressedTotal(chunks, i)
  }

  /** Wrapping a multiple of four leaves a multiple of four. */
  lemma WrapMultipleOf4(k: int)
    ensures Wrap32(4 * k) % 4 == 0
  {
    Wrap32Mod4(4 * k);
    DivModUnique(4 * k, 4, k, 0);
  }

  /** From a 4-aligned start, the next chunk starts after the padded data. */
  lemma NextStartOfAligned(s: u32, c: ChunkInfo)
    requires s % 4 == 0
    ensures NextChunkStart(s, c) == Wrap32(s + RoundUp4(c.compressedSize))
  {
    var j := s / 4;
    assert s == 4 * j;
    calc {
      NextChunkStart(s, c);
      AlignUp32(Wrap32(Wrap32(s + c.compressedSize - 1) + 1), 4);
      { Wrap32Add(s + c.compressedSize - 1, 1); }
      AlignUp32(Wrap32(s + c.compressedSize), 4);
      { AlignUp4Wraps(Wrap32(s + c.compressedSize)); }
      Wrap32(RoundUp4(Wrap32(s + c.compressedSize)));
      { RoundUp4Wrap(s + c.compressedSize); }
      Wrap32(RoundUp4(4 * j + c.compressedSize));
      { RoundUp4Add(j, c.compressedSize); }
      Wrap32(s + RoundUp4(c.compressedSize));
    }
  }

  lemma {:induction false} ChunkStartIsPadded(chunks: seq<ChunkInfo>, i: nat)
    requires i <= |chunks|
    ensures ChunkStart(chunks, i) == Wrap32(4 + 8 * |chunks| + PaddedSize(chunks, i))
  {
    if i > 0 {
      ChunkStartIsPadded(chunks, i - 1);
      var s := ChunkStart(chunks, i - 1);
      var c := chunks[i - 1];
      var a := 4 * (1 + 2 * |chunks| + PaddedWords(chunks, i - 1));
      WrapMultipleOf4(1 + 2 * |chunks| + PaddedWords(chunks, i - 1));
      NextStartOfAligned(s, c);
      Wrap32Add(a, RoundUp4(c.compressedSize));
    }
  }

  /** The chunk walk ends exactly where the header says the stream ends, so
      an accepted header (stream size == bytes to read) places the end of
      the last chunk at the end of the bytes read. */
  lemma ChunkLayoutMatchesHeader(chunks: seq<ChunkInfo>)
    ensures ChunkStart(chunks, |chunks|) == StreamSize(chunks, |chunks|)
  {
    ChunkStartIsPadded(chunks, |chunks|);
    StreamSizeIsPadded(chunks, |chunks|);
  }

  /** Without wrap-around, chunk i's data ends before chunk i+1 starts, and
      that start lies within the stream the header describes. */
  lemma ChunkWithinStream(chunks: seq<ChunkInfo>, i: nat)
    requires i < |chunks| && 4 + 8 * |chunks| + PaddedSize(chunks, |chunks|) < TWO_32
    ensures ChunkStart(chunks, i) + chunks[i].compressedSize <= ChunkStart(chunks, i + 1) <= StreamSize(chunks, |chunks|)
  {
    ChunkLayoutMatchesHeader(chunks);
    ChunkStartExact(chunks, i);
    ChunkStartExact(chunks, i + 1);
    ChunkStartExact(chunks, |chunks|);
    PaddedGrows(chunks, i + 1, |chunks|);
    PaddedGrows(chunks, i, i + 1);
  }

  /** Without wrap-around, chunk i starts after the header and the padded
      data of the chunks before it. */
  lemma ChunkStartExact(chunks: seq<ChunkInfo>, i: nat)
    requires i <= |chunks| && 4 + 8 * |chunks| + PaddedSize(chunks, |chunks|) < TWO_32
    ensures ChunkStart(chunks, i) == 4 + 8 * |chunks| + PaddedSize(chunks, i)
  {
    ChunkStartIsPadded(chunks, i);
    PaddedGrows(chunks, i, |chunks|);
    Wrap32Small(4 + 8 * |chunks| + PaddedSize(chunks, i));
  }

  lemma {:induction false} PaddedGrows(chunks: seq<ChunkInfo>, i: nat, j: nat)
    requires i <= j <= |chunks|
    ensures PaddedSize(chunks, i) <= PaddedSize(chunks, j)
    ensures j == i + 1 ==> PaddedSize(chunks, j) >= PaddedSize(chunks, i) + chunks[i].compressedSize
  {
    if i < j {
      PaddedGrows(chunks, i, j - 1);
    }
  }

  /** How a completed first block judges the header. */
  datatype HeaderCheck = Accepted(targetBytesRead: u32, decompressedSize: u32) | Rejected

  /** The first block is accepted when more bytes arrived than the buffer
      offset, the part past the offset holds the count, and the sizes in
      the header add up to exactly the bytes to read. */
  function CheckHeader(bytesRead: u32, unaligned: nat, isDmaBufferOffset: bool, chunks: seq<ChunkInfo>, bytesToRead: u32): HeaderCheck
  {
    var target := if isDmaBufferOffset then Wrap32(bytesRead - unaligned) else bytesRead;
    if bytesRead > unaligned && target >= 4 && target >= |chunks| * 4 && StreamSize(chunks, |chunks|) == bytesToRead
    then Accepted(target, DecompressedTotal(chunks, |chunks|))
    else Rejected
  }

  /** The header loop: the stream size and the decompressed size. */
  method SumChunks(chunks: seq<ChunkInfo>) returns (compressedStreamSize: u32, decompressedDataSize: u32)
    ensures compressedStreamSize == StreamSize(chunks, |chunks|)
    ensures decompressedDataSize == DecompressedTotal(chunks, |chunks|)
  {
    compressedStreamSize := 4;
    decompressedDataSize := 0;
    var i := 0;
    while i < |chunks|
      invariant i <= |chunks|
      invariant compressedStreamSize == StreamSize(chunks, i)
      invariant decompressedDataSize == DecompressedTotal(chunks, i)
    {
      compressedStreamSize := Wrap32(compressedStreamSize + 8 + AlignUp32(chunks[i].compressedSize, 4));
      decompressedDataSize := Wrap32(decompressedDataSize + chunks[i].originalSize);
      i := i + 1;
    }
  }

  /** An accepted header describes a stream at least as long as the header
      itself, whenever its sizes add up without wrap-around. */
  lemma AcceptedHeaderFits(bytesRead: u32, unaligned: nat, isDmaBufferOffset: bool, chunks: seq<ChunkInfo>, bytesToRead: u32)
    requires CheckHeader(bytesRead, unaligned, isDmaBufferOffset, chunks, bytesToRead).Accepted?
    requires 4 + 8 * |chunks| + PaddedSize(chunks, |chunks|) < TWO_32
    ensures FirstChunkStart(chunks) <= ChunkStart(chunks, |chunks|) == bytesToRead
  {
    ChunkLayoutMatchesHeader(chunks);
    ChunkStartIsPadded(chunks, |chunks|);
    Wrap32Small(4 + |chunks| * 8);
    Wrap32Small(4 + 8 * |chunks| + PaddedSize(chunks, |chunks|));
  }

  // ---------------------------------------------------------------------
  // DMA kickoff

  /** A command put on the DMA queue: zero the tail of the output buffer, or
      decompress one chunk. Offsets are relative to the decompressed buffer
      and to the first byte of the compressed stream. */
  datatype DmaCommand = ZeroFill(offset: u32, length: u32) | Decompress(dst: u32, src: u32, size: u32)

  /** Every read block the chunk starting at `start` touches has completed. */
  predicate ChunkLoaded(complete: set<nat>, start: u32, c: ChunkInfo, blockSize: nat)
    requires blockSize > 0
  {
    forall b: nat :: start / blockSize <= b <= ChunkEnd(start, c) / blockSize ==> b in complete
  }

  /** The commands queued for chunk k, if it is not queued yet and loaded;
      the last chunk also zero-fills the buffer past its 4-byte-aligned
      output. */
  function ChunkCommands(chunks: seq<ChunkInfo>, k: nat, complete: set<nat>, bufferSize: u32, blockSize: nat): seq<DmaCommand>
    requires k < |chunks| && blockSize > 0
  {
    var dst := DecompressedStart(chunks, k);
    var decompress := Decompress(dst, ChunkStart(chunks, k), chunks[k].compressedSize);
    if k == |chunks| - 1 then
      var fill := Wrap32(dst + (chunks[k].originalSize - chunks[k].originalSize % 4));
      [ZeroFill(fill, Wrap32(bufferSize - fill)), decompress]
    else [decompress]
  }

  /** The state of the kickoff walk after chunks 0 .. n-1. */
  datatype Kick = Kick(commands: seq<DmaCommand>, queued: seq<bool>, allChunksQueued: bool)

  function KickoffAfter(chunks: seq<ChunkInfo>, n: nat, complete: set<nat>, queued: seq<bool>, bufferSize: u32, blockSize: nat): (r: Kick)
    requires n <= |chunks| && |queued| == |chunks| + 1 && blockSize > 0
    ensures |r.queued| == |queued|
  {
    if n == 0 then Kick([], queued, true)
    else
      var prev := KickoffAfter(chunks, n - 1, complete, queued, bufferSize, blockSize);
      KickStep(chunks, n - 1, ChunkStart(chunks, n - 1), complete, prev, bufferSize, blockSize)
  }

  /** One pass of the walk over chunk k, which starts at `start`: a marked
      chunk is skipped, a chunk still missing blocks clears the all-queued
      flag, and a loaded one has its commands queued and is marked (the last
      chunk also marks the slot past the end). */
  function KickStep(chunks: seq<ChunkInfo>, k: nat, start: u32, complete: set<nat>, prev: Kick, bufferSize: u32, blockSize: nat): (r: Kick)
    requires k < |chunks| && |prev.queued| == |chunks| + 1 && blockSize > 0
    ensures |r.queued| == |prev.queued|
  {
    if prev.queued[k] then prev
    else if !ChunkLoaded(complete, start, chunks[k], blockSize) then prev.(allChunksQueued := false)
    else
      var q := if k == |chunks| - 1 then prev.queued[k + 1 := true] else prev.queued;
      Kick(prev.commands + ChunkCommands(chunks, k, complete, bufferSize, blockSize), q[k := true], prev.allChunksQueued)
  }

  /** After the walk a chunk is marked queued iff it was before or all its
      blocks are loaded; the marks of chunks not walked yet are untouched,
      and no mark is ever cleared. */
  lemma {:induction false} KickoffMarks(chunks: seq<ChunkInfo>, n: nat, complete: set<nat>, queued: seq<bool>, bufferSize: u32, blockSize: nat)
    requires n <= |chunks| && |queued| == |chunks| + 1 && blockSize > 0
    ensures var r := KickoffAfter(chunks, n, complete, queued, bufferSize, blockSize);
      (forall k :: 0 <= k < n ==> r.queued[k] == (queued[k] || ChunkLoaded(complete, ChunkStart(chunks, k), chunks[k], blockSize))) &&
      (forall k :: n <= k < |chunks| ==> r.queued[k] == queued[k]) &&
      (forall k :: 0 <= k < |queued| && queued[k] ==> r.queued[k])
  {
    if n > 0 {
      KickoffMarks(chunks, n - 1, complete, queued, bufferSize, blockSize);
      var prev := KickoffAfter(chunks, n - 1, complete, queued, bufferSize, blockSize);
      var r := KickoffAfter(chunks, n, complete, queued, bufferSize, blockSize);
      assert prev.queued[n - 1] == queued[n - 1];
      forall k | 0 <= k < |queued| && k != n - 1 && k != |chunks|
        ensures r.queued[k] == prev.queued[k]
      {}
    }
  }

  /** The walk reports every chunk queued iff each walked chunk was queued
      before or is loaded now. */
  lemma {:induction false} KickoffAllQueued(chunks: seq<ChunkInfo>, n: nat, complete: set<nat>, queued: seq<bool>, bufferSize: u32, blockSize: nat)
    requires n <= |chunks| && |queued| == |chunks| + 1 && blockSize > 0
    ensures KickoffAfter(chunks, n, complete, queued, bufferSize, blockSize).allChunksQueued <==>
      forall k :: 0 <= k < n ==> queued[k] || ChunkLoaded(complete, ChunkStart(chunks, k), chunks[k], blockSize)
  {
    if n > 0 {
      KickoffAllQueued(chunks, n - 1, complete, queued, bufferSize, blockSize);
      KickoffMarks(chunks, n - 1, complete, queued, bufferSize, blockSize);
    }
  }

  /** The commands for chunks 0 .. n-1 that were unmarked on entry and are
      loaded, each chunk's commands once and in chunk order. */
  function FreshChunkCommands(chunks: seq<ChunkInfo>, n: nat, complete: set<nat>, queued: seq<bool>, bufferSize: u32, blockSize: nat): seq<DmaCommand>
    requires n <= |chunks| && |queued| == |chunks| + 1 && blockSize > 0
  {
    if n == 0 then []
    else
      var k := n - 1;
      FreshChunkCommands(chunks, k, complete, queued, bufferSize, blockSize) +
      (if !queued[k] && ChunkLoaded(complete, ChunkStart(chunks, k), chunks[k], blockSize)
       then ChunkCommands(chunks, k, complete, bufferSize, blockSize) else [])
  }

  /** Each chunk is decompressed at most once: the walk emits exactly the
      commands of the chunks that were unmarked and are loaded. */
  lemma {:induction false} KickoffQueuesOnce(chunks: seq<ChunkInfo>, n: nat, complete: set<nat>, queued: seq<bool>, bufferSize: u32, blockSize: nat)
    requires n <= |chunks| && |queued| == |chunks| + 1 && blockSize > 0
    ensures KickoffAfter(chunks, n, complete, queued, bufferSize, blockSize).commands ==
      FreshChunkCommands(chunks, n, complete, queued, bufferSize, blockSize)
  {
    if n > 0 {
      var k := n - 1;
      KickoffQueuesOnce(chunks, k, complete, queued, bufferSize, blockSize);
      KickoffMarks(chunks, k, complete, queued, bufferSize, blockSize);
      var prev := KickoffAfter(chunks, k, complete, queued, bufferSize, blockSize);
      var r := KickStep(chunks, k, ChunkStart(chunks, k), complete, prev, bufferSize, blockSize);
      assert KickoffAfter(chunks, n, complete, queued, bufferSize, blockSize) == r;
      assert prev.queued[k] == queued[k];
      if !queued[k] && ChunkLoaded(complete, ChunkStart(chunks, k), chunks[k], blockSize) {
        assert r.commands == prev.commands + ChunkCommands(chunks, k, complete, bufferSize, blockSize);
      } else {
        assert r.commands == prev.commands;
      }
    }
  }

  // ---------------------------------------------------------------------
  // ReadFileCompressed

  /** The arguments ReadFileCompressed checks, with null pointers as absent. */
  datatype ReadArgs = ReadArgs(
    handle: u64, bytesToRead: u32, hasOverlapped: bool, offset: u32,
    hasBufferPointer: bool, hasAllocator: bool)

  /** The last-error code a rejected call sets, in the order of the checks;
      None when the call goes ahead. */
  function CheckReadArgs(a: ReadArgs, initialised: bool): (e: Option<u32>)
    ensures e.None? <==>
      a.handle != 0 && a.handle != INVALID_HANDLE_VALUE && a.bytesToRead != 0 && a.hasOverlapped &&
      initialised && (a.hasBufferPointer || a.hasAllocator) && a.offset % 4 == 0
    ensures e.Some? ==> e.value in {ERROR_BAD_ARGUMENTS, ERROR_DEVICE_NOT_AVAILABLE}
  {
    if a.handle == 0 || a.handle == INVALID_HANDLE_VALUE || a.bytesToRead == 0 || !a.hasOverlapped then Some(ERROR_BAD_ARGUMENTS)
    else if !initialised then Some(ERROR_DEVICE_NOT_AVAILABLE)
    else if !a.hasBufferPointer && !a.hasAllocator then Some(ERROR_BAD_ARGUMENTS)
    else if a.offset % 4 != 0 then Some(ERROR_BAD_ARGUMENTS)
    else None
  }

  /** The working buffer: the byte count rounded up to the DMA allocation
      size, with one more sector when the offset is not sector-aligned. */
  function WorkingMemorySize(bytesToRead: u32, offset: u32, dmaAllocationSize: nat): u32
    requires dmaAllocationSize > 0
  {
    if offset % UNBUFFERED_READ_ALIGNMENT == 0 then AlignUp32(bytesToRead, dmaAllocationSize)
    else AlignUp32(bytesToRead + UNBUFFERED_READ_ALIGNMENT, dmaAllocationSize)
  }

  /** The working buffer holds the whole stream read from the sector boundary
      before the offset, in whole DMA allocations. */
  lemma WorkingMemoryHoldsStream(bytesToRead: u32, offset: u32, dmaAllocationSize: nat)
    requires dmaAllocationSize > 0 && bytesToRead + UNBUFFERED_READ_ALIGNMENT + dmaAllocationSize < TWO_32
    ensures var w := WorkingMemorySize(bytesToRead, offset, dmaAllocationSize);
      w % dmaAllocationSize == 0 && bytesToRead + offset % UNBUFFERED_READ_ALIGNMENT <= w
  {
    AlignUp32Bounds(bytesToRead, dmaAllocationSize);
    AlignUp32Bounds(bytesToRead + UNBUFFERED_READ_ALIGNMENT, dmaAllocationSize);
  }

  // ---------------------------------------------------------------------
  // Per-file read state

  /** CompressedFileReadInfo: the tracking bits (as the sets of set bit
      positions), the request slot table, the header once the first block
      has arrived, and the chunk marks of the DMA tracking page. */
  class CompressedFileRead {
    const blockSize: nat
    const dmaAllocationSize: nat
    const streamStart: nat
    const bytesToRead: u32
    /** DmaWorkingBufferFirstByte - DmaWorkingBuffer. */
    const unalignedOffset: nat
    /** ReadRequests; None for a null entry. */
    const requests: array<Option<nat>>

    var issued: set<nat>
    var complete: set<nat>
    var inFlight: nat
    var isDmaBufferOffset: bool
    var error: u32
    var bytesReadFromDisk: u32
    var chunks: seq<ChunkInfo>
    var decompressedSize: u32
    var decompressedBufferSize: u32
    /** LowPart of each ChunkDmaTrackingPage entry: chunk k queued (and, at
        index ChunkCount, the zero fill queued). */
    var queued: seq<bool>
    var fenceInserted: bool

    ghost predicate Valid()
      reads this, requests
    {
      blockSize > 0 && dmaAllocationSize > 0 && unalignedOffset < UNBUFFERED_READ_ALIGNMENT &&
      Packed(requests[..]) && inFlight == Occupied(requests[..]) &&
      (error == 0 && 0 in complete ==> |queued| == |chunks| + 1)
    }

    /** The state ReadFileCompressed sets up for an accepted call. */
    constructor (bytesToRead: u32, offset: u32, blockSize: nat, maxQueueDepth: nat, dmaAllocationSize: nat)
      requires blockSize > 0 && dmaAllocationSize > 0
      ensures Valid() && fresh(requests) && requests.Length == maxQueueDepth
      ensures this.bytesToRead == bytesToRead && streamStart == offset && this.blockSize == blockSize
      ensures unalignedOffset == offset % UNBUFFERED_READ_ALIGNMENT && this.dmaAllocationSize == dmaAllocationSize
      ensures issued == {} && complete == {} && inFlight == 0 && !isDmaBufferOffset && error == 0
      ensures bytesReadFromDisk == 0 && !fenceInserted && queued == [] && chunks == []
    {
      this.blockSize := blockSize;
      this.dmaAllocationSize := dmaAllocationSize;
      streamStart := offset;
      this.bytesToRead := bytesToRead;
      unalignedOffset := offset % UNBUFFERED_READ_ALIGNMENT;
      requests := new Option<nat>[maxQueueDepth](_ => None);
      issued := {};
      complete := {};
      inFlight := 0;
      isDmaBufferOffset := false;
      error := 0;
      bytesReadFromDisk := 0;
      chunks := [];
      decompressedSize := 0;
      decompressedBufferSize := 0;
      queued := [];
      fenceInserted := false;
      new;
      assert Shape(requests[..], 0);
      ShapeOccupied(requests[..], 0);
    }

    /** FindNextReadBlock on this file. */
    function NextReadBlock(stale: u32): int
      reads this
      requires blockSize > 0
    {
      FindNextReadBlock(error, bytesToRead, issued, blockSize, stale)
    }

    /** IssueReadRequest: link the request into the first free slot, build its
        offset and size, issue the read (retrying once from the sector
        boundary for an unbuffered handle), and set the block's issued bit.
        A full table breaks into the debugger in the source. */
    method IssueReadRequest(request: nat, block: nat, first: ReadOutcome, retry: ReadOutcome)
      returns (req: (int, u32), calls: seq<ReadCall>, ret: bool)
      requires Valid() && inFlight < requests.Length && block < TRACKING_BITS
      modifies this`issued, this`inFlight, this`isDmaBufferOffset, requests
      ensures Valid()
      ensures requests[..] == old(requests[..])[old(inFlight) := Some(request)]
      ensures inFlight == old(inFlight) + 1 && issued == old(issued) + {block}
      ensures req == (RequestOffset(streamStart, block, blockSize), RequestBytes(bytesToRead, block, blockSize))
      ensures var c := FirstReadCall(req.0, req.1, block, blockSize, unalignedOffset, old(isDmaBufferOffset));
        if RetriesRead(first, block, unalignedOffset, req.1) then
          calls == [c, RetryReadCall(req.0, req.1, unalignedOffset)] && ret == (retry == Completed) &&
          isDmaBufferOffset == (old(isDmaBufferOffset) || retry == Completed || retry == Pending)
        else
          calls == [c] && ret == (first == Completed) && isDmaBufferOffset == old(isDmaBufferOffset)
    {
      ghost var s := requests[..];
      PackedShape(s);
      assert s[inFlight].None?;
      var requestSlot := -1;
      var r := 0;
      while r < requests.Length
        invariant 0 <= r <= requests.Length && requestSlot == -1 && requests[..] == s
        invariant forall j :: 0 <= j < r ==> s[j].Some?
      {
        if requests[r].None? {
          requestSlot := r;
          break;
        }
        r := r + 1;
      }
      assert requestSlot == inFlight;

      var offset := RequestOffset(streamStart, block, blockSize);
      var bytesToRequest := RequestBytes(bytesToRead, block, blockSize);
      req := (offset, bytesToRequest);

      requests[requestSlot] := Some(request);
      FillKeepsPacked(s, request);
      inFlight := inFlight + 1;

      calls := [FirstReadCall(offset, bytesToRequest, block, blockSize, unalignedOffset, isDmaBufferOffset)];
      ret := first == Completed;
      if first == InvalidParameter && block == 0 &&
         (unalignedOffset != 0 || bytesToRequest % UNBUFFERED_READ_ALIGNMENT != 0)
      {
        calls := calls + [RetryReadCall(offset, bytesToRequest, unalignedOffset)];
        ret := retry == Completed;
        if retry == Completed || retry == Pending {
          isDmaBufferOffset := true;
        }
      }
      issued := issued + {block};
    }

    /** The unlinking loop: find the request's slot, then shift the later
        slots down over it. */
    method ReleaseRequest(request: nat)
      requires Valid() && Some(request) in requests[..]
      modifies requests, this`inFlight
      ensures Valid()
      ensures requests[..] == Released(old(requests[..]), request)
      ensures inFlight == old(inFlight) - 1
    {
      ghost var s := requests[..];
      ReleaseKeepsPacked(s, request);
      assert FirstIndexOf(s, Some(request)) < |s|;
      var r := 0;
      while r < requests.Length
        invariant 0 <= r <= FirstIndexOf(s, Some(request)) && requests[..] == s
      {
        if requests[r] == Some(request) {
          assert r == FirstIndexOf(s, Some(request));
          ShiftDown(r);
          assert requests[..] == Released(s, request);
          break;
        }
        r := r + 1;
      }
      inFlight := inFlight - 1;
    }

    /** Clear slot r and move every later slot down by one. */
    method ShiftDown(r: nat)
      requires r < requests.Length
      modifies requests
      ensures requests[..] == old(requests[..r]) + old(requests[r + 1..]) + [None]
    {
      ghost var s := requests[..];
      requests[r] := None;
      var rr := r + 1;
      while rr < requests.Length
        invariant r + 1 <= rr <= requests.Length
        invariant requests[..rr - 1] == s[..r] + s[r + 1..rr]
        invariant requests[rr - 1] == None
        invariant requests[rr..] == s[rr..]
      {
        requests[rr - 1] := requests[rr];
        requests[rr] := None;
        rr := rr + 1;
      }
      assert requests[..] == requests[..rr - 1] + [requests[rr - 1]];
    }

    /** Bookkeeping of a completed read of `block`: the first block carries
        the header, a later one only sets its complete bit. */
    method RecordBlock(block: nat, bytesRead: u32, header: seq<ChunkInfo>, buffersAllocated: bool)
      requires Valid() && block < TRACKING_BITS
      modifies this`complete, this`bytesReadFromDisk, this`error, this`chunks, this`decompressedSize,
        this`decompressedBufferSize, this`queued
      ensures Valid()
      ensures block != 0 ==>
        complete == old(complete) + {block} && bytesReadFromDisk == Wrap32(old(bytesReadFromDisk) + bytesRead) &&
        error == old(error) && chunks == old(chunks) && queued == old(queued)
      ensures block == 0 ==> HeaderRecorded(CheckHeader(bytesRead, unalignedOffset, isDmaBufferOffset, header, bytesToRead),
        old(complete), old(bytesReadFromDisk), old(error), header, buffersAllocated)
    {
      if block == 0 {
        RecordHeader(bytesRead, header, buffersAllocated);
      } else {
        complete := complete + {block};
        bytesReadFromDisk := Wrap32(bytesReadFromDisk + bytesRead);
      }
    }

    /** The state after the first block's header has been judged. */
    ghost predicate HeaderRecorded(check: HeaderCheck, complete0: set<nat>, bytesReadFromDisk0: u32, error0: u32,
                                   header: seq<ChunkInfo>, buffersAllocated: bool)
      reads this
      requires dmaAllocationSize > 0
    {
      match check
      case Rejected =>
        error == Win32Failure(ERROR_DATA_CHECKSUM_ERROR) && complete == complete0 &&
        bytesReadFromDisk == bytesReadFromDisk0
      case Accepted(target, size) =>
        complete == complete0 + {0} && bytesReadFromDisk == Wrap32(bytesReadFromDisk0 + target) &&
        chunks == header && decompressedSize == size &&
        decompressedBufferSize == AlignUp32(size, dmaAllocationSize) &&
        (buffersAllocated ==> error == error0 && queued == seq(|header| + 1, _ => false)) &&
        (!buffersAllocated ==> error == Win32Failure(ERROR_OUTOFMEMORY))
    }

    /** Lines of the first-block branch: check the header, then size and
        allocate the output and zero the tracking page. */
    method RecordHeader(bytesRead: u32, header: seq<ChunkInfo>, buffersAllocated: bool)
      requires Valid()
      modifies this`complete, this`bytesReadFromDisk, this`error, this`chunks, this`decompressedSize,
        this`decompressedBufferSize, this`queued
      ensures Valid()
      ensures HeaderRecorded(CheckHeader(bytesRead, unalignedOffset, isDmaBufferOffset, header, bytesToRead),
        old(complete), old(bytesReadFromDisk), old(error), header, buffersAllocated)
    {
      ghost var check := CheckHeader(bytesRead, unalignedOffset, isDmaBufferOffset, header, bytesToRead);
      var target := if isDmaBufferOffset then Wrap32(bytesRead - unalignedOffset) else bytesRead;
      if bytesRead > unalignedOffset && target >= 4 && target >= |header| * 4 {
        var compressedStreamSize, decompressedDataSize := SumChunks(header);
        if compressedStreamSize == bytesToRead {
          assert check == Accepted(target, decompressedDataSize);
          AcceptHeader(target, decompressedDataSize, header, buffersAllocated);
        } else {
          assert check == Rejected;
          error := Win32Failure(ERROR_DATA_CHECKSUM_ERROR);
        }
      } else {
        assert check == Rejected;
        error := Win32Failure(ERROR_DATA_CHECKSUM_ERROR);
      }
    }

    /** The accepted branch of RecordHeader: mark block 0, count its bytes,
        keep the chunk table and size the output. */
    method AcceptHeader(target: u32, size: u32, header: seq<ChunkInfo>, buffersAllocated: bool)
      requires Valid()
      modifies this`complete, this`bytesReadFromDisk, this`error, this`chunks, this`decompressedSize,
        this`decompressedBufferSize, this`queued
      ensures Valid()
      ensures complete == old(complete) + {0} && bytesReadFromDisk == Wrap32(old(bytesReadFromDisk) + target)
      ensures chunks == header && decompressedSize == size
      ensures decompressedBufferSize == AlignUp32(size, dmaAllocationSize)
      ensures buffersAllocated ==> error == old(error) && queued == seq(|header| + 1, _ => false)
      ensures !buffersAllocated ==> error == Win32Failure(ERROR_OUTOFMEMORY)
    {
      complete := complete + {0};
      bytesReadFromDisk := Wrap32(bytesReadFromDisk + target);
      chunks := header;
      decompressedSize := size;
      decompressedBufferSize := AlignUp32(size, dmaAllocationSize);
      if !buffersAllocated {
        error := Win32Failure(ERROR_OUTOFMEMORY);
      } else {
        queued := seq(|header| + 1, _ => false);
      }
    }

    /** ProcessDmaKickoff: once the fence is in, nothing; otherwise walk the
        chunks, queue every unmarked chunk whose blocks have all arrived, and
        insert the fence when every chunk is queued. */
    method ProcessDmaKickoff() returns (commands: seq<DmaCommand>)
      requires Valid() && |queued| == |chunks| + 1
      modifies this`queued, this`fenceInserted
      ensures Valid()
      ensures old(fenceInserted) ==> commands == [] && queued == old(queued) && fenceInserted
      ensures !old(fenceInserted) ==>
        var r := KickoffAfter(chunks, |chunks|, complete, old(queued), decompressedBufferSize, blockSize);
        commands == r.commands && queued == r.queued && fenceInserted == r.allChunksQueued
    {
      if fenceInserted {
        return [];
      }
      ghost var q0 := queued;
      var chunk := 0;
      var start := FirstChunkStart(chunks);
      var allChunksQueued := true;
      commands := [];
      while chunk < |chunks|
        invariant chunk <= |chunks| && |queued| == |chunks| + 1
        invariant start == ChunkStart(chunks, chunk)
        invariant KickoffAfter(chunks, chunk, complete, q0, decompressedBufferSize, blockSize) ==
          Kick(commands, queued, allChunksQueued)
      {
        commands, allChunksQueued := KickChunk(chunk, start, commands, allChunksQueued);
        start := NextChunkStart(start, chunks[chunk]);
        chunk := chunk + 1;
      }
      ghost var r := KickoffAfter(chunks, |chunks|, complete, q0, decompressedBufferSize, blockSize);
      assert commands == r.commands && queued == r.queued && allChunksQueued == r.allChunksQueued;
      // the fence goes in once every chunk is queued; the flag was clear here
      fenceInserted := allChunksQueued;
    }

    /** One pass of the chunk loop. */
    method KickChunk(chunk: nat, start: u32, commands: seq<DmaCommand>, allChunksQueued: bool)
      returns (commands': seq<DmaCommand>, allChunksQueued': bool)
      requires blockSize > 0 && chunk < |chunks| && |queued| == |chunks| + 1
      modifies this`queued
      ensures Kick(commands', queued, allChunksQueued') ==
        KickStep(chunks, chunk, start, complete, Kick(commands, old(queued), allChunksQueued), decompressedBufferSize, blockSize)
    {
      commands', allChunksQueued' := commands, allChunksQueued;
      if !queued[chunk] {
        var loaded := BlocksComplete(start / blockSize, ChunkEnd(start, chunks[chunk]) / blockSize);
        if loaded {
          commands' := commands + ChunkCommands(chunks, chunk, complete, decompressedBufferSize, blockSize);
          if chunk == |chunks| - 1 {
            queued := queued[chunk + 1 := true];
          }
          queued := queued[chunk := true];
        } else {
          allChunksQueued' := false;
        }
      }
    }

    /** The block loop of the kickoff: are blocks first .. last all complete? */
    method BlocksComplete(first: nat, last: nat) returns (loaded: bool)
      ensures loaded == forall b: nat :: first <= b <= last ==> b in complete
    {
      var b := first;
      while b <= last
        invariant first <= b && forall j: nat :: first <= j < b ==> j in complete
      {
        if b !in complete {
          return false;
        }
        b := b + 1;
      }
      return true;
    }
  }
}
