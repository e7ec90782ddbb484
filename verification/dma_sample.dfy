// The DMA decompression sample's fragment bookkeeping: how a file is cut
// into fragments for the hardware compressor and for zlib, the UINT length
// prefix every fragment buffer starts with, where decompression writes each
// fragment, and the controls that cycle the compressor and the file.
//
// The compressors and the decompressor are hardware or library code; they
// are parameters here (`deflate`, `inflate`). MAX_COMPRESSED_BUFFER_SIZE and
// FRAGMENT_SIZE come from a header outside this model; they are constants
// of the sample object.

module DmaSample {
  import opened Common
  import SerialBytes
  import Radix

  /** A compressor the sample calls into: input bytes to a compressed stream. */
  type Codec = seq<byte> -> seq<byte>

  /** A decompressor: a stream to its output, or None when the hardware
      reports an error for it. */
  type Decoder = seq<byte> -> Option<seq<byte>>

  // ---------------------------------------------------------------------
  // Controls

  /** CompressionOption, in the order of the on-screen names. */
  datatype CompressionOption = DmaHardware | SoftwareZlib | SoftwareZopfli

  const COMPRESSION_OPTION_COUNT: nat := 3

  function OptionIndex(o: CompressionOption): (i: nat)
    ensures i < COMPRESSION_OPTION_COUNT
  {
    match o
    case DmaHardware => 0
    case SoftwareZlib => 1
    case SoftwareZopfli => 2
  }

  function OptionAt(i: nat): (o: CompressionOption)
    requires i < COMPRESSION_OPTION_COUNT
    ensures OptionIndex(o) == i
  {
    if i == 0 then DmaHardware else if i == 1 then SoftwareZlib else SoftwareZopfli
  }

  /** The A button: the next option, modulo the option count. */
  function NextOption(o: CompressionOption): CompressionOption
  {
    OptionAt((OptionIndex(o) + 1) % COMPRESSION_OPTION_COUNT)
  }

  /** Pressing A visits every option and comes back after three presses. */
  lemma NextOptionCycles(o: CompressionOption)
    ensures NextOption(o) != o && NextOption(NextOption(o)) != o
    ensures NextOption(NextOption(NextOption(o))) == o
  {
  }

  /** D-pad up: the previous file, wrapping from the first to the last. */
  function PrevFile(current: nat, count: nat): nat
    requires count > 0
  {
    if current == 0 then count - 1 else current - 1
  }

  /** D-pad down: the next file, modulo the file count. */
  function NextFile(current: nat, count: nat): nat
    requires count > 0
  {
    (current + 1) % count
  }

  /** Both steps stay on a file and each undoes the other. */
  lemma FileStepsInverse(current: nat, count: nat)
    requires current < count
    ensures PrevFile(current, count) < count && NextFile(current, count) < count
    ensures NextFile(PrevFile(current, count), count) == current
    ensures PrevFile(NextFile(current, count), count) == current
  {
    if current + 1 < count {
      DivModUnique(current + 1, count, 0, current + 1);
    } else {
      DivModUnique(current + 1, count, 1, 0);
    }
    if current == 0 {
      DivModUnique(count, count, 1, 0);
    } else {
      DivModUnique(current, count, 0, current);
    }
  }

  /** The buttons that went down this frame. */
  datatype Buttons = Buttons(a: bool, b: bool, dpadUp: bool, dpadDown: bool)

  /** The file after one frame: d-pad up is handled before d-pad down. */
  function FileAfter(current: nat, count: nat, pressed: Buttons): nat
    requires count > 0
  {
    var up := if pressed.dpadUp then PrevFile(current, count) else current;
    if pressed.dpadDown then NextFile(up, count) else up
  }

  // ---------------------------------------------------------------------
  // Fragment buffers

  /** A fragment buffer as the hardware compressor leaves it, and as the
      zlib path imitates it: a UINT with the stream length, then the stream. */
  function FragmentBuffer(stream: seq<byte>): seq<byte>
    requires |stream| < TWO_32
  {
    SerialBytes.LE(|stream|, 4) + stream
  }

  /** The stream a decompressor reads: the UINT at the start of the buffer
      gives its length, and it follows the four bytes of that UINT. */
  function StreamOf(buffer: seq<byte>): Option<seq<byte>>
  {
    if |buffer| < 4 then None
    else
      var n := SerialBytes.FromLE(buffer[..4]);
      if 4 + n <= |buffer| then Some(buffer[4..4 + n]) else None
  }

  /** A fragment buffer gives back its stream, and occupies four bytes more. */
  lemma StreamOfFragmentBuffer(stream: seq<byte>)
    requires |stream| < TWO_32
    ensures |FragmentBuffer(stream)| == |stream| + 4
    ensures StreamOf(FragmentBuffer(stream)) == Some(stream)
  {
    var b := FragmentBuffer(stream);
    assert b[..4] == SerialBytes.LE(|stream|, 4);
    assert SerialBytes.Pow256(4) == TWO_32;
    SerialBytes.FromLEOfLE(|stream|, 4);
    assert b[4..4 + |stream|] == stream;
  }

  /** Conversely, a buffer from which a stream is read starts with the
      fragment buffer of that stream. */
  lemma FragmentBufferOfStream(buffer: seq<byte>, stream: seq<byte>)
    requires StreamOf(buffer) == Some(stream)
    ensures |stream| < TWO_32
    ensures buffer[..4 + |stream|] == FragmentBuffer(stream)
  {
    SerialBytes.FromLEBound(buffer[..4]);
    assert SerialBytes.Pow256(4) == TWO_32;
    SerialBytes.LEOfFromLE(buffer[..4]);
  }

  /** `bufs` hold the compressed consecutive pieces of `src`, whose lengths
      are `sizes`, the last piece in the last buffer. */
  predicate Encodes(src: seq<byte>, sizes: seq<u32>, bufs: seq<seq<byte>>, deflate: Codec)
    decreases |sizes|
  {
    |sizes| == |bufs| &&
    if sizes == [] then src == []
    else
      var k := |sizes| - 1;
      var cut := |src| - sizes[k];
      0 <= cut &&
      |deflate(src[cut..])| < TWO_32 &&
      bufs[k] == FragmentBuffer(deflate(src[cut..])) &&
      Encodes(src[..cut], sizes[..k], bufs[..k], deflate)
  }

  /** One more piece, compressed into one more buffer, extends the encoding. */
  lemma EncodesExtend(src: seq<byte>, a: nat, m: u32, sizes: seq<u32>, bufs: seq<seq<byte>>, deflate: Codec)
    requires a + m <= |src| && |deflate(src[a..a + m])| < TWO_32
    requires Encodes(src[..a], sizes, bufs, deflate)
    ensures Encodes(src[..a + m], sizes + [m], bufs + [FragmentBuffer(deflate(src[a..a + m]))], deflate)
  {
    var s := src[..a + m];
    assert s[|s| - m..] == src[a..a + m];
    assert s[..|s| - m] == src[..a];
    assert (sizes + [m])[..|sizes|] == sizes;
    assert (bufs + [FragmentBuffer(deflate(src[a..a + m]))])[..|bufs|] == bufs;
  }

  /** The original sizes of an encoding add up to the length of the source. */
  lemma {:induction false} EncodesCoversSource(src: seq<byte>, sizes: seq<u32>, bufs: seq<seq<byte>>, deflate: Codec)
    requires Encodes(src, sizes, bufs, deflate)
    ensures Sum(sizes) == |src|
    decreases |sizes|
  {
    if sizes != [] {
      var k := |sizes| - 1;
      var cut := |src| - sizes[k];
      EncodesCoversSource(src[..cut], sizes[..k], bufs[..k], deflate);
    }
  }

  // ---------------------------------------------------------------------
  // Decompression with the DMA engine

  /** One LZDecompressMemoryX command: the stream after the length prefix,
      decompressed to `at`. None when the stream does not decode or the
      output does not fit in the destination. */
  function DecompressFragment(dest: seq<byte>, at: nat, buffer: seq<byte>, inflate: Decoder): (r: Option<seq<byte>>)
    ensures r.Some? ==> |r.value| == |dest|
  {
    match StreamOf(buffer)
    case None => None
    case Some(stream) =>
      match inflate(stream)
      case None => None
      case Some(out) => if at + |out| <= |dest| then Some(WriteAt(dest, at, out)) else None
  }

  /** The destination after the commands of the first fragments: fragment k
      goes to the sum of the original sizes of the fragments before it, in
      UINT arithmetic. */
  function DmaWrites(dest: seq<byte>, bufs: seq<seq<byte>>, sizes: seq<u32>, inflate: Decoder): (r: Option<seq<byte>>)
    requires |bufs| == |sizes|
    ensures r.Some? ==> |r.value| == |dest|
    decreases |bufs|
  {
    if bufs == [] then Some(dest)
    else
      var k := |bufs| - 1;
      match DmaWrites(dest, bufs[..k], sizes[..k], inflate)
      case None => None
      case Some(d) => DecompressFragment(d, Wrap32(Sum(sizes[..k])), bufs[k], inflate)
  }

  /** Decompressing an encoding of `src` with the inverse of its compressor
      puts `src` at the start of the destination: the check the sample runs
      after every round trip. */
  lemma {:induction false} DmaRoundTrip(src: seq<byte>, sizes: seq<u32>, bufs: seq<seq<byte>>, dest: seq<byte>,
                                        deflate: Codec, inflate: Decoder)
    requires Encodes(src, sizes, bufs, deflate)
    requires |src| <= |dest| && |src| < TWO_32
    requires forall x :: inflate(deflate(x)) == Some(x)
    ensures DmaWrites(dest, bufs, sizes, inflate) == Some(WriteAt(dest, 0, src))
    decreases |sizes|
  {
    if sizes == [] {
      assert WriteAt(dest, 0, src) == dest;
    } else {
      var k := |sizes| - 1;
      var cut := |src| - sizes[k];
      var head, last := src[..cut], src[cut..];
      DmaRoundTrip(head, sizes[..k], bufs[..k], dest, deflate, inflate);
      EncodesCoversSource(head, sizes[..k], bufs[..k], deflate);
      Wrap32Small(cut);
      StreamOfFragmentBuffer(deflate(last));
      assert inflate(deflate(last)) == Some(last);
      WriteAtAppend(dest, 0, head, last);
      assert head + last == src;
    }
  }

  // ---------------------------------------------------------------------
  // Fragment counts and chunk sizes

  /** maxCompressionBufferSize: three quarters of a compressed buffer, so a
      piece that grows under compression still fits the decoder. */
  function DmaChunkSize(maxCompressed: nat): nat
  {
    (maxCompressed * 3) / 4
  }

  /** requiredFragments as written: (srcSize - 1) / chunk + 1 in UINT
      arithmetic. */
  function RequiredFragments(srcSize: u32, chunk: nat): u32
    requires chunk > 0
  {
    Wrap32(Wrap32(srcSize - 1) / chunk + 1)
  }

  /** The number of pieces of at most `chunk` bytes that make up `srcSize`
      bytes: the count the fragment loop reaches. */
  function FragmentsNeeded(srcSize: nat, chunk: nat): nat
    requires chunk > 0
  {
    (srcSize + chunk - 1) / chunk
  }

  /** For a non-empty source the formula as written is the needed count. */
  lemma RequiredFragmentsAgree(srcSize: u32, chunk: nat)
    requires 0 < chunk < TWO_32 - 1 && srcSize > 0
    ensures RequiredFragments(srcSize, chunk) == FragmentsNeeded(srcSize, chunk)
  {
    Wrap32Small(srcSize - 1);
    var q, r := (srcSize - 1) / chunk, (srcSize - 1) % chunk;
    assert srcSize - 1 == chunk * q + r;
    assert q <= srcSize - 1 by {
      if q > srcSize - 1 {
        MulLeft(chunk, q, srcSize);
      }
    }
    Wrap32Small(q + 1);
    MulSucc(q, chunk);
    DivModUnique(srcSize + chunk - 1, chunk, q + 1, r);
  }

  lemma MulLeft(c: nat, q: nat, n: nat)
    requires c >= 1 && q >= n
    ensures c * q >= n
  {
    assert c * q == q + (c - 1) * q;
    MulNonNeg(c - 1, q);
  }

  /** An empty source: the formula as written wraps and asks for a buffer
      per chunk of the whole 32-bit range, although no piece is compressed. */
  lemma EmptySourceOverAllocates(chunk: nat)
    requires 1 < chunk < TWO_32
    ensures RequiredFragments(0, chunk) == (TWO_32 - 1) / chunk + 1 > 0
    ensures FragmentsNeeded(0, chunk) == 0
  {
    Wrap32Shift(-1, 1);
    Wrap32Small(TWO_32 - 1);
    var q := (TWO_32 - 1) / chunk;
    assert q < TWO_32 - 1 by {
      var r := (TWO_32 - 1) % chunk;
      assert TWO_32 - 1 == chunk * q + r;
      Radix.MulLe(q, 2, chunk);
    }
    Wrap32Small(q + 1);
    DivModUnique(chunk - 1, chunk, 0, chunk - 1);
  }

  /** The piece sizes CompressWithDMA cuts `n` bytes into: whole chunks,
      then what remains. */
  function DmaSizes(n: nat, chunk: nat): seq<u32>
    requires 0 < chunk < TWO_32 && n < TWO_32
    decreases n
  {
    if n == 0 then [] else if n <= chunk then [n] else [chunk] + DmaSizes(n - chunk, chunk)
  }

  /** There are FragmentsNeeded pieces; each is non-empty and at most a
      chunk, and every piece but the last is a whole chunk. */
  lemma {:induction false} DmaSizesShape(n: nat, chunk: nat)
    requires 0 < chunk < TWO_32 && n < TWO_32
    ensures |DmaSizes(n, chunk)| == FragmentsNeeded(n, chunk)
    ensures forall i :: 0 <= i < |DmaSizes(n, chunk)| ==> 0 < DmaSizes(n, chunk)[i] <= chunk
    ensures forall i :: 0 <= i < |DmaSizes(n, chunk)| - 1 ==> DmaSizes(n, chunk)[i] == chunk
    decreases n
  {
    if n == 0 {
      DivModUnique(chunk - 1, chunk, 0, chunk - 1);
    } else if n <= chunk {
      DivModUnique(n + chunk - 1, chunk, 1, n - 1);
    } else {
      DmaSizesShape(n - chunk, chunk);
      FragmentsStep(n, chunk);
    }
  }

  /** One more whole chunk of source needs one more fragment. */
  lemma FragmentsStep(n: nat, chunk: nat)
    requires 0 < chunk < n
    ensures FragmentsNeeded(n, chunk) == FragmentsNeeded(n - chunk, chunk) + 1
  {
    var q, r := (n - 1) / chunk, (n - 1) % chunk;
    assert n - 1 == chunk * q + r;
    MulSucc(q, chunk);
    DivModUnique(n + chunk - 1, chunk, q + 1, r);
    DivModUnique(n - chunk + chunk - 1, chunk, q, r);
  }

  /** The zlib path's next attempt after a piece compressed too large: the
      size scaled by MAX_COMPRESSED_BUFFER_SIZE / required, times 0.9,
      truncated, with the two low bits cleared. */
  function Shrink(p: nat, required: nat, maxCompressed: nat): int
    requires required > 0
  {
    var q := (p * maxCompressed * 9) / (required * 10);
    4 * (q / 4)
  }

  lemma DivNonNeg(n: int, d: int)
    requires n >= 0 && d > 0
    ensures n / d >= 0
  {
    var q, r := n / d, n % d;
    assert n == d * q + r;
    if q < 0 {
      MulNonNeg(d, -q - 1);
      assert false;
    }
  }

  /** A shrunk size is a multiple of four, is smaller than a non-zero size
      whenever the attempt exceeded a whole compressed buffer, and stays 0
      once it is 0. */
  lemma ShrinkSmaller(p: nat, required: nat, maxCompressed: nat)
    requires 0 < maxCompressed <= required
    ensures 0 <= Shrink(p, required, maxCompressed) && Shrink(p, required, maxCompressed) % 4 == 0
    ensures p > 0 ==> Shrink(p, required, maxCompressed) < p
    ensures p == 0 ==> Shrink(p, required, maxCompressed) == 0
  {
    var n, d := p * maxCompressed * 9, required * 10;
    MulNonNeg(p, maxCompressed);
    if p > 0 {
      ScaledBelow(p, maxCompressed, required);
    } else {
      assert n == 0;
    }
    RoundDownBelow(n, d, p);
  }

  /** Nine tenths of p * maxCompressed is below p * required * 10 / 10. */
  lemma ScaledBelow(p: nat, maxCompressed: nat, required: nat)
    requires 0 < p && 0 < maxCompressed <= required
    ensures p * maxCompressed * 9 < p * (required * 10)
  {
    Radix.MulLe(p * 9, maxCompressed, required);
    assert p * maxCompressed * 9 == (p * 9) * maxCompressed;
    assert p * (required * 10) == (p * 9) * required + p * required;
    MulNonNeg(p, required - 1);
  }

  /** n / d rounded down to a multiple of four stays below p when n is
      below p * d. */
  lemma RoundDownBelow(n: nat, d: nat, p: nat)
    requires d > 0 && (p > 0 ==> n < p * d) && (p == 0 ==> n == 0)
    ensures var q := n / d;
      0 <= 4 * (q / 4) && (4 * (q / 4)) % 4 == 0
      && (p > 0 ==> 4 * (q / 4) < p) && (p == 0 ==> 4 * (q / 4) == 0)
  {
    var q := n / d;
    DivNonNeg(n, d);
    assert q == 4 * (q / 4) + q % 4;
    DivModUnique(4 * (q / 4), 4, q / 4, 0);
    if p > 0 {
      assert n == d * q + n % d;
      if q >= p {
        Radix.MulLe(d, p, q);
      }
    }
  }

  /** Set entry `i` of the buffers and of the original sizes. */
  method Overwrite(bufs: seq<seq<byte>>, sizes: seq<u32>, i: nat, b: seq<byte>, m: u32)
    returns (bufs': seq<seq<byte>>, sizes': seq<u32>)
    requires i < |bufs| == |sizes|
    ensures bufs' == bufs[i := b] && sizes' == sizes[i := m]
    ensures bufs'[..i + 1] == bufs[..i] + [b] && sizes'[..i + 1] == sizes[..i] + [m]
    ensures bufs'[i + 1..] == bufs[i + 1..] && sizes'[i + 1..] == sizes[i + 1..]
  {
    bufs', sizes' := bufs[i := b], sizes[i := m];
    assert bufs'[..i + 1] == bufs[..i] + [b];
    assert sizes'[..i + 1] == sizes[..i] + [m];
  }

  /** A fresh, empty buffer with an original size of 0 when entry `i` is
      one past the existing buffers. */
  method Reserve(bufs: seq<seq<byte>>, sizes: seq<u32>, i: nat)
    returns (bufs': seq<seq<byte>>, sizes': seq<u32>)
    requires i <= |bufs| == |sizes|
    ensures |bufs'| == |sizes'| == Max(|bufs|, i + 1)
    ensures bufs'[..|bufs|] == bufs && sizes'[..|sizes|] == sizes
    ensures bufs'[..i] == bufs[..i] && sizes'[..i] == sizes[..i]
  {
    bufs', sizes' := bufs, sizes;
    if i >= |bufs| {
      bufs', sizes' := bufs + [[]], sizes + [0];
      assert bufs'[..i] == bufs[..i];
      assert sizes'[..i] == sizes[..i];
    }
  }

  /** The piece of `m` bytes at `a` compressed into buffer `i`, after the
      pieces before it, with a buffer allocated when `i` is one past the
      existing ones. */
  method AppendPiece(src: seq<byte>, a: nat, m: u32, bufs0: seq<seq<byte>>, sizes0: seq<u32>, i: nat, deflate: Codec)
    returns (bufs: seq<seq<byte>>, sizes: seq<u32>)
    requires a + m <= |src| && |deflate(src[a..a + m])| < TWO_32
    requires i <= |bufs0| == |sizes0|
    requires Encodes(src[..a], sizes0[..i], bufs0[..i], deflate)
    ensures |bufs| == |sizes| == Max(|bufs0|, i + 1)
    ensures Encodes(src[..a + m], sizes[..i + 1], bufs[..i + 1], deflate)
    ensures |bufs[i]| == |deflate(src[a..a + m])| + 4 && sizes[i] == m
    ensures sizes[..i + 1] == sizes0[..i] + [m]
    ensures forall j :: 0 <= j < i ==> bufs[j] == bufs0[j] && sizes[j] == sizes0[j]
    ensures forall j :: i < j < |bufs0| ==> bufs[j] == bufs0[j] && sizes[j] == sizes0[j]
  {
    var stream := deflate(src[a..a + m]);
    StreamOfFragmentBuffer(stream);
    EncodesExtend(src, a, m, sizes0[..i], bufs0[..i], deflate);
    bufs, sizes := Reserve(bufs0, sizes0, i);
    bufs, sizes := Overwrite(bufs, sizes, i, FragmentBuffer(stream), m);
  }

  /** The first loop of CompressWithDMA: a fresh, empty buffer with an
      original size of 0 for every fragment beyond the existing ones. */
  method AllocateFragments(bufs0: seq<seq<byte>>, sizes0: seq<u32>, needed: nat)
    returns (bufs: seq<seq<byte>>, sizes: seq<u32>)
    requires |bufs0| == |sizes0|
    ensures |bufs| == |sizes| == Max(|bufs0|, needed)
    ensures bufs[..|bufs0|] == bufs0 && sizes[..|sizes0|] == sizes0
  {
    bufs, sizes := bufs0, sizes0;
    var i := |bufs|;
    while i < needed
      invariant |bufs0| <= i && (i <= needed || i == |bufs0|)
      invariant |bufs| == |sizes| == i
      invariant bufs[..|bufs0|] == bufs0 && sizes[..|sizes0|] == sizes0
    {
      bufs, sizes := bufs + [[]], sizes + [0];
      i := i + 1;
    }
  }

  /** The first `count` buffers encode the first `processed` bytes in chunks
      of the DMA size, with room left for the chunks still to come. */
  predicate DmaProgress(src: seq<byte>, chunk: nat, processed: nat, bufs0: seq<seq<byte>>, sizes0: seq<u32>,
                        bufs: seq<seq<byte>>, sizes: seq<u32>, count: nat, deflate: Codec)
    requires 0 < chunk < TWO_32 && |src| < TWO_32
  {
    && processed <= |src|
    && |bufs| == |sizes| == |bufs0| == |sizes0|
    && count + |DmaSizes(|src| - processed, chunk)| <= |bufs0|
    && sizes[..count] + DmaSizes(|src| - processed, chunk) == DmaSizes(|src|, chunk)
    && Encodes(src[..processed], sizes[..count], bufs[..count], deflate)
    && forall j :: count <= j < |bufs0| ==> bufs[j] == bufs0[j] && sizes[j] == sizes0[j]
  }

  /** One chunk of CompressWithDMA's second loop. */
  method AppendChunk(src: seq<byte>, chunk: nat, processed: nat, m: nat, bufs0: seq<seq<byte>>, sizes0: seq<u32>,
                     bufs1: seq<seq<byte>>, sizes1: seq<u32>, count: nat, deflate: Codec)
    returns (bufs: seq<seq<byte>>, sizes: seq<u32>)
    requires 0 < chunk < TWO_32 && |src| < TWO_32 && forall x :: |deflate(x)| < TWO_32
    requires DmaProgress(src, chunk, processed, bufs0, sizes0, bufs1, sizes1, count, deflate)
    requires processed < |src| && m == Min(chunk, |src| - processed)
    ensures DmaProgress(src, chunk, processed + m, bufs0, sizes0, bufs, sizes, count + 1, deflate)
  {
    ghost var rest := DmaSizes(|src| - processed - m, chunk);
    assert DmaSizes(|src| - processed, chunk) == [m] + rest;
    assert sizes1[..count] + [m] + rest == DmaSizes(|src|, chunk);
    bufs, sizes := AppendPiece(src, processed, m, bufs1, sizes1, count, deflate);
  }

  /** The second loop of CompressWithDMA: the pieces of DmaSizes, each
      compressed into the next buffer. */
  method SplitForDma(src: seq<byte>, chunk: nat, bufs0: seq<seq<byte>>, sizes0: seq<u32>, deflate: Codec)
    returns (bufs: seq<seq<byte>>, sizes: seq<u32>, count: nat)
    requires 0 < chunk < TWO_32 && |src| < TWO_32
    requires |bufs0| == |sizes0| >= FragmentsNeeded(|src|, chunk)
    requires forall x :: |deflate(x)| < TWO_32
    ensures |bufs| == |sizes| == |bufs0|
    ensures count == FragmentsNeeded(|src|, chunk)
    ensures sizes[..count] == DmaSizes(|src|, chunk)
    ensures Encodes(src, sizes[..count], bufs[..count], deflate)
    ensures forall j :: count <= j < |bufs0| ==> bufs[j] == bufs0[j] && sizes[j] == sizes0[j]
  {
    DmaSizesShape(|src|, chunk);
    bufs, sizes := bufs0, sizes0;
    var processed := 0;
    count := 0;
    while processed < |src|
      invariant DmaProgress(src, chunk, processed, bufs0, sizes0, bufs, sizes, count, deflate)
      decreases |src| - processed
    {
      var m := Min(chunk, |src| - processed);
      bufs, sizes := AppendChunk(src, chunk, processed, m, bufs0, sizes0, bufs, sizes, count, deflate);
      processed, count := processed + m, count + 1;
    }
    assert src[..processed] == src;
    assert sizes[..count] + [] == sizes[..count];
  }

  // ---------------------------------------------------------------------
  // The sample

  class Sample {
    /** MAX_COMPRESSED_BUFFER_SIZE: what the hardware decoder accepts. */
    const maxCompressed: nat
    /** FRAGMENT_SIZE: the size of each allocated fragment buffer. */
    const fragmentSize: nat
    /** m_files.size(): the files loaded when the sample starts. */
    const fileCount: nat

    var compressionOption: CompressionOption
    var useHardwareDecompression: bool
    var currentFile: nat
    var compressTimeMS: real
    var decompressTimeMS: real
    var decompressCompleted: bool
    /** The written part of each fragment buffer. */
    var fragmentBuffers: seq<seq<byte>>
    var originalSizes: seq<u32>
    var fragmentCount: nat

    predicate Valid()
      reads this
    {
      2 <= maxCompressed && 3 * maxCompressed < TWO_32 && maxCompressed <= fragmentSize &&
      0 < fileCount < TWO_32 && currentFile < fileCount &&
      |originalSizes| == |fragmentBuffers| && fragmentCount <= |fragmentBuffers|
    }

    /** Initialize: the first option, hardware decompression, the first
        file, no timings, and one fragment buffer when it can be allocated. */
    constructor (maxCompressed: nat, fragmentSize: nat, fileCount: nat, allocOk: bool)
      requires 2 <= maxCompressed && 3 * maxCompressed < TWO_32 && maxCompressed <= fragmentSize
      requires 0 < fileCount < TWO_32
      ensures Valid()
      ensures this.maxCompressed == maxCompressed && this.fragmentSize == fragmentSize
      ensures this.fileCount == fileCount
      ensures compressionOption == DmaHardware && useHardwareDecompression && currentFile == 0
      ensures compressTimeMS == 0.0 && decompressTimeMS == 0.0 && !decompressCompleted
      ensures fragmentBuffers == (if allocOk then [[]] else []) && originalSizes == (if allocOk then [0] else [])
      ensures fragmentCount == 0
    {
      this.maxCompressed := maxCompressed;
      this.fragmentSize := fragmentSize;
      this.fileCount := fileCount;
      compressionOption := DmaHardware;
      useHardwareDecompression := true;
      currentFile := 0;
      compressTimeMS := 0.0;
      decompressTimeMS := 0.0;
      decompressCompleted := false;
      fragmentBuffers := if allocOk then [[]] else [];
      originalSizes := if allocOk then [0] else [];
      fragmentCount := 0;
    }

    /** One frame of input. A cycles the compressor, B toggles hardware
        decompression, the d-pad steps through the files; each resets the
        timing it invalidates. A disconnected pad changes nothing. */
    method Update(pad: Option<Buttons>)
      requires Valid()
      modifies this
      ensures Valid()
      ensures pad.None? ==> unchanged(this)
      ensures pad.Some? ==>
        compressionOption == (if pad.value.a then NextOption(old(compressionOption)) else old(compressionOption))
      ensures pad.Some? ==>
        useHardwareDecompression == (if pad.value.b then !old(useHardwareDecompression) else old(useHardwareDecompression))
      ensures pad.Some? ==> currentFile == FileAfter(old(currentFile), fileCount, pad.value)
      ensures pad.Some? ==>
        compressTimeMS == (if pad.value.a || pad.value.dpadUp || pad.value.dpadDown then 0.0 else old(compressTimeMS))
      ensures pad.Some? ==> decompressTimeMS == (if pad.value.b then 0.0 else old(decompressTimeMS))
      ensures pad.Some? ==>
        decompressCompleted == (old(decompressCompleted) && !(pad.value.a || pad.value.b || pad.value.dpadUp || pad.value.dpadDown))
      ensures unchanged(this`fragmentBuffers, this`originalSizes, this`fragmentCount)
    {
      if pad.Some? {
        var p := pad.value;
        var option, hardware, file := compressionOption, useHardwareDecompression, currentFile;
        var compressTime, decompressTime, completed := compressTimeMS, decompressTimeMS, decompressCompleted;
        if p.a {
          option := NextOption(option);
          compressTime, completed := 0.0, false;
        }
        if p.b {
          hardware := !hardware;
          decompressTime, completed := 0.0, false;
        }
        FileStepsInverse(file, fileCount);
        if p.dpadUp {
          file := PrevFile(file, fileCount);
          compressTime, completed := 0.0, false;
        }
        if p.dpadDown {
          FileStepsInverse(file, fileCount);
          file := NextFile(file, fileCount);
          compressTime, completed := 0.0, false;
        }
        compressionOption, useHardwareDecompression, currentFile := option, hardware, file;
        compressTimeMS, decompressTimeMS, decompressCompleted := compressTime, decompressTime, completed;
      }
    }

    /** CompressWithDMA: enough fragment buffers for the pieces, then the
        source cut into pieces of the chunk size (the last one shorter), each
        compressed into its own buffer with its original size recorded. */
    method CompressWithDma(src: seq<byte>, deflate: Codec)
      requires Valid() && |src| < TWO_32
      requires forall x :: |deflate(x)| < TWO_32
      modifies this
      ensures Valid()
      ensures unchanged(this`compressionOption, this`useHardwareDecompression, this`currentFile)
      ensures unchanged(this`compressTimeMS, this`decompressTimeMS, this`decompressCompleted)
      ensures fragmentCount == FragmentsNeeded(|src|, DmaChunkSize(maxCompressed))
      ensures |fragmentBuffers| == Max(|old(fragmentBuffers)|, fragmentCount)
      ensures originalSizes[..fragmentCount] == DmaSizes(|src|, DmaChunkSize(maxCompressed))
      ensures Encodes(src, originalSizes[..fragmentCount], fragmentBuffers[..fragmentCount], deflate)
      ensures forall i :: fragmentCount <= i < |old(fragmentBuffers)| ==>
        fragmentBuffers[i] == old(fragmentBuffers[i]) && originalSizes[i] == old(originalSizes[i])
    {
      var chunk := DmaChunkSize(maxCompressed);
      var bufs, sizes := AllocateFragments(fragmentBuffers, originalSizes, FragmentsNeeded(|src|, chunk));
      var count;
      bufs, sizes, count := SplitForDma(src, chunk, bufs, sizes, deflate);
      fragmentBuffers, originalSizes, fragmentCount := bufs, sizes, count;
    }

    /** The compressed size of a zlib attempt plus its length prefix. */
    function ZlibRequired(stream: seq<byte>): nat
    {
      |stream| + 4
    }

    /** Lines 852-863 of CompressWithZlib: start from `p0` bytes at `at` and
        shrink the piece until its fragment buffer fits. `stuck` reports the
        case where the piece has shrunk to nothing and still does not fit,
        where the original retries the same attempt forever. */
    method FitZlibPiece(src: seq<byte>, at: nat, p0: nat, deflate: Codec) returns (p: nat, stuck: bool)
      requires 0 < maxCompressed <= fragmentSize && at + p0 <= |src|
      ensures p <= p0 && (p == p0 || p % 4 == 0)
      ensures !stuck ==> ZlibRequired(deflate(src[at..at + p])) <= fragmentSize
      ensures stuck ==> p == 0 && ZlibRequired(deflate([])) > fragmentSize
      ensures ZlibRequired(deflate(src[at..at + p0])) <= fragmentSize ==> p == p0 && !stuck
      ensures at == 0 && p0 == |src| && ZlibRequired(deflate(src)) <= fragmentSize ==> p == p0 && !stuck
    {
      if at == 0 && p0 == |src| {
        assert src[at..at + p0] == src;
      }
      p := p0;
      var required := ZlibRequired(deflate(src[at..at + p]));
      while required > fragmentSize && p > 0
        invariant p <= p0 && (p == p0 || p % 4 == 0)
        invariant required == ZlibRequired(deflate(src[at..at + p]))
        invariant ZlibRequired(deflate(src[at..at + p0])) <= fragmentSize ==> p == p0
        decreases p
      {
        ShrinkSmaller(p, required, maxCompressed);
        p := Shrink(p, required, maxCompressed);
        required := ZlibRequired(deflate(src[at..at + p]));
      }
      stuck := required > fragmentSize;
      if stuck {
        assert src[at..at + p] == [];
      }
    }

    /** CompressWithZlib: pieces that start at the whole remaining source
        and never grow again, each shrunk until its buffer fits
        FRAGMENT_SIZE, with a buffer allocated whenever the pieces outrun
        the existing ones. `hangs` reports a piece of size 0, from which the
        original never advances. */
    method CompressWithZlib(src: seq<byte>, deflate: Codec) returns (hangs: bool)
      requires Valid() && |src| < TWO_32
      requires forall x :: |deflate(x)| < TWO_32
      modifies this
      ensures Valid()
      ensures unchanged(this`compressionOption, this`useHardwareDecompression, this`currentFile)
      ensures unchanged(this`compressTimeMS, this`decompressTimeMS, this`decompressCompleted)
      ensures !hangs ==> Encodes(src, originalSizes[..fragmentCount], fragmentBuffers[..fragmentCount], deflate)
      ensures !hangs ==> forall i :: 0 <= i < fragmentCount ==> |fragmentBuffers[i]| <= fragmentSize
      ensures |src| > 0 && ZlibRequired(deflate(src)) <= fragmentSize ==> !hangs && fragmentCount == 1
    {
      var bufs, sizes, count;
      bufs, sizes, count, hangs := SplitForZlib(src, fragmentBuffers, originalSizes, deflate);
      fragmentBuffers, originalSizes, fragmentCount := bufs, sizes, count;
    }

    /** The first `count` buffers encode the first `processed` bytes, and
        each fits a fragment. */
    predicate ZlibProgress(src: seq<byte>, processed: nat, bufs0: seq<seq<byte>>, bufs: seq<seq<byte>>,
                           sizes: seq<u32>, count: nat, deflate: Codec)
      reads this
    {
      processed <= |src| && count <= |bufs| == |sizes| && |bufs0| <= |bufs| &&
      Encodes(src[..processed], sizes[..count], bufs[..count], deflate) &&
      forall j :: 0 <= j < count ==> |bufs[j]| <= fragmentSize
    }

    /** One piece that fits a fragment, appended after the first `count`. */
    method AppendFitting(src: seq<byte>, processed: nat, p: nat, bufs0: seq<seq<byte>>,
                         bufs1: seq<seq<byte>>, sizes1: seq<u32>, count: nat, deflate: Codec)
      returns (bufs: seq<seq<byte>>, sizes: seq<u32>)
      requires ZlibProgress(src, processed, bufs0, bufs1, sizes1, count, deflate)
      requires processed + p <= |src| < TWO_32 && |deflate(src[processed..processed + p])| < TWO_32
      requires ZlibRequired(deflate(src[processed..processed + p])) <= fragmentSize
      ensures ZlibProgress(src, processed + p, bufs0, bufs, sizes, count + 1, deflate)
    {
      bufs, sizes := AppendPiece(src, processed, p, bufs1, sizes1, count, deflate);
    }

    /** One pass of the fragment loop: the piece at `processed`, no longer
        than the previous one, shrunk until it fits and then appended;
        `stop` when it cannot advance. */
    method ZlibPass(src: seq<byte>, processed: nat, prospective: nat, bufs0: seq<seq<byte>>,
                    bufs1: seq<seq<byte>>, sizes1: seq<u32>, count: nat, deflate: Codec)
      returns (p: nat, bufs: seq<seq<byte>>, sizes: seq<u32>, stop: bool)
      requires 0 < maxCompressed <= fragmentSize && processed < |src| < TWO_32
      requires forall x :: |deflate(x)| < TWO_32
      requires ZlibProgress(src, processed, bufs0, bufs1, sizes1, count, deflate)
      ensures stop ==> bufs == bufs1 && sizes == sizes1
      ensures !stop ==> 0 < p <= |src| - processed && ZlibProgress(src, processed + p, bufs0, bufs, sizes, count + 1, deflate)
      ensures processed == 0 && prospective == |src| && ZlibRequired(deflate(src)) <= fragmentSize
              ==> !stop && p == |src|
    {
      var stuck;
      p, stuck := FitZlibPiece(src, processed, Min(prospective, |src| - processed), deflate);
      bufs, sizes := bufs1, sizes1;
      stop := stuck || p == 0;
      if !stop {
        bufs, sizes := AppendFitting(src, processed, p, bufs0, bufs1, sizes1, count, deflate);
      }
    }

    /** The fragment loop of CompressWithZlib, on the buffers it is given. */
    method SplitForZlib(src: seq<byte>, bufs0: seq<seq<byte>>, sizes0: seq<u32>, deflate: Codec)
      returns (bufs: seq<seq<byte>>, sizes: seq<u32>, count: nat, hangs: bool)
      requires 0 < maxCompressed <= fragmentSize && |src| < TWO_32 && |bufs0| == |sizes0|
      requires forall x :: |deflate(x)| < TWO_32
      ensures count <= |bufs| == |sizes| && |bufs0| <= |bufs|
      ensures !hangs ==> Encodes(src, sizes[..count], bufs[..count], deflate)
      ensures !hangs ==> forall i :: 0 <= i < count ==> |bufs[i]| <= fragmentSize
      ensures |src| > 0 && ZlibRequired(deflate(src)) <= fragmentSize ==> !hangs && count == 1
    {
      bufs, sizes := bufs0, sizes0;
      var processed, prospective: nat := 0, |src|;
      ghost var wholeFits := |src| > 0 && ZlibRequired(deflate(src)) <= fragmentSize;
      count, hangs := 0, false;
      while processed < |src|
        invariant ZlibProgress(src, processed, bufs0, bufs, sizes, count, deflate)
        invariant wholeFits ==>
          (processed == 0 && count == 0 && prospective == |src|) || (processed == |src| && count == 1)
        decreases |src| - processed
      {
        var p, stop;
        p, bufs, sizes, stop := ZlibPass(src, processed, prospective, bufs0, bufs, sizes, count, deflate);
        if stop {
          hangs := true;
          break;
        }
        prospective := p;
        processed, count := processed + p, count + 1;
      }
      if !hangs {
        assert src[..processed] == src;
      }
    }

    /** DecompressWithDMA: one command per fragment, the destination offset
        advanced by each fragment's original size. */
    method DecompressWithDma(dest: seq<byte>, inflate: Decoder) returns (r: Option<seq<byte>>)
      requires Valid()
      ensures r == DmaWrites(dest, fragmentBuffers[..fragmentCount], originalSizes[..fragmentCount], inflate)
    {
      r := Some(dest);
      var at: u32 := 0;
      var i := 0;
      while i < fragmentCount
        invariant i <= fragmentCount
        invariant at == Wrap32(Sum(originalSizes[..i]))
        invariant r == DmaWrites(dest, fragmentBuffers[..i], originalSizes[..i], inflate)
      {
        assert fragmentBuffers[..i + 1][..i] == fragmentBuffers[..i];
        assert originalSizes[..i + 1][..i] == originalSizes[..i];
        if r.Some? {
          r := DecompressFragment(r.value, at, fragmentBuffers[i], inflate);
        }
        Wrap32Add(Sum(originalSizes[..i]), originalSizes[i]);
        at := Wrap32(at + originalSizes[i]);
        i := i + 1;
      }
      assert fragmentBuffers[..fragmentCount] == fragmentBuffers[..i];
    }
  }

  /** Either compressor followed by DMA decompression gives back the file,
      when the decompressor inverts the compressor and the destination holds
      the file. */
  lemma CompressedFragmentsRoundTrip(s: Sample, src: seq<byte>, dest: seq<byte>, deflate: Codec, inflate: Decoder)
    requires s.Valid() && |src| < TWO_32 && |src| <= |dest|
    requires Encodes(src, s.originalSizes[..s.fragmentCount], s.fragmentBuffers[..s.fragmentCount], deflate)
    requires forall x :: inflate(deflate(x)) == Some(x)
    ensures DmaWrites(dest, s.fragmentBuffers[..s.fragmentCount], s.originalSizes[..s.fragmentCount], inflate)
      == Some(WriteAt(dest, 0, src))
    ensures WriteAt(dest, 0, src)[..|src|] == src
  {
    DmaRoundTrip(src, s.originalSizes[..s.fragmentCount], s.fragmentBuffers[..s.fragmentCount], dest, deflate, inflate);
  }
}
