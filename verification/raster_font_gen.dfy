// The pieces of the raster font generator that are plain computation: the
// -dg default-glyph parser, the code-point range filters applied to glyphs
// and kerning pairs, packing glyph pixels one bit each into the pixel
// buffer, the font's effective ascent and descent, and wmain's option loop.
// GDI (fonts, glyph outlines) and the file writer are not modelled; a glyph
// arrives as its metrics and its pixels in ForEachPixel order.

module RasterFontGen {
  import opened Common
  import opened Radix

  // ---------------------------------------------------------------------
  // Code-point ranges
  // ---------------------------------------------------------------------

  /** WCRANGE: `cGlyphs` code points from `wcLow` (both 16-bit). */
  datatype WcRange = WcRange(wcLow: u16, cGlyphs: u16)

  /** KERNINGPAIR */
  datatype KerningPair = KerningPair(wFirst: u16, wSecond: u16, iKernAmount: i32)

  /** IsCodePointInRange. The last character is computed into a wchar_t,
      so it wraps around 16 bits. */
  predicate IsCodePointInRange(codePoint: u16, range: WcRange)
  {
    codePoint >= range.wcLow && codePoint <= Wrap16(range.wcLow + range.cGlyphs - 1)
  }

  /** A range that neither is empty nor runs past 0xFFFF holds exactly the
      code points from wcLow to wcLow + cGlyphs - 1. */
  lemma InRangeInterval(codePoint: u16, range: WcRange)
    requires range.cGlyphs >= 1 && range.wcLow + range.cGlyphs <= TWO_16
    ensures IsCodePointInRange(codePoint, range) <==> range.wcLow <= codePoint < range.wcLow + range.cGlyphs
  {
  }

  /** The wrap at the ends: an empty range at 0 holds every code point, and
      an empty range anywhere else holds none. */
  lemma EmptyRangeWraps(codePoint: u16, range: WcRange)
    requires range.cGlyphs == 0
    ensures IsCodePointInRange(codePoint, range) <==> range.wcLow == 0
  {
  }

  predicate InSomeRange(codePoint: u16, ranges: seq<WcRange>)
  {
    exists r :: 0 <= r < |ranges| && IsCodePointInRange(codePoint, ranges[r])
  }

  /** FilterCodePoint: whether some range holds the code point. */
  method FilterCodePoint(codePoint: u16, ranges: seq<WcRange>) returns (keep: bool)
    ensures keep <==> InSomeRange(codePoint, ranges)
  {
    var r := 0;
    while r < |ranges|
      invariant r <= |ranges|
      invariant forall i :: 0 <= i < r ==> !IsCodePointInRange(codePoint, ranges[i])
    {
      if IsCodePointInRange(codePoint, ranges[r]) {
        return true;
      }
      r := r + 1;
    }
    return false;
  }

  /** FilterKerningPair: both characters of the pair are in the ranges,
      not necessarily in the same one. */
  method FilterKerningPair(pair: KerningPair, ranges: seq<WcRange>) returns (keep: bool)
    ensures keep <==> InSomeRange(pair.wFirst, ranges) && InSomeRange(pair.wSecond, ranges)
  {
    var firstInRange, secondInRange := false, false;
    var r := 0;
    while r < |ranges|
      invariant r <= |ranges|
      invariant firstInRange <==> exists i :: 0 <= i < r && IsCodePointInRange(pair.wFirst, ranges[i])
      invariant secondInRange <==> exists i :: 0 <= i < r && IsCodePointInRange(pair.wSecond, ranges[i])
      invariant !(firstInRange && secondInRange)
    {
      firstInRange := firstInRange || IsCodePointInRange(pair.wFirst, ranges[r]);
      secondInRange := secondInRange || IsCodePointInRange(pair.wSecond, ranges[r]);
      if firstInRange && secondInRange {
        return true;
      }
      r := r + 1;
    }
    return false;
  }

  // ---------------------------------------------------------------------
  // ParseDefaultGlyph
  // ---------------------------------------------------------------------

  predicate IsHexDigit(c: char)
  {
    '0' <= c <= '9' || 'a' <= c <= 'f' || 'A' <= c <= 'F'
  }

  function HexValue(c: char): (v: nat)
    requires IsHexDigit(c)
    ensures v < 16
  {
    if '0' <= c <= '9' then c as int - '0' as int
    else if 'a' <= c <= 'f' then c as int - 'a' as int + 10
    else c as int - 'A' as int + 10
  }

  predicate AllHex(s: seq<char>)
  {
    forall i :: 0 <= i < |s| ==> IsHexDigit(s[i])
  }

  /** How many hex digits `s` starts with: what %lx scans and ConsumeDigits
      skips. */
  function HexRun(s: seq<char>): (n: nat)
    ensures n <= |s| && AllHex(s[..n]) && (n < |s| ==> !IsHexDigit(s[n]))
  {
    if s == [] || !IsHexDigit(s[0]) then 0
    else
      var n := 1 + HexRun(s[1..]);
      assert s[..n] == [s[0]] + s[1..][..n - 1];
      n
  }

  /** The value of hex digits, most significant first. */
  function FromHex(s: seq<char>): nat
    requires AllHex(s)
  {
    if s == [] then 0 else 16 * FromHex(s[..|s| - 1]) + HexValue(s[|s| - 1])
  }

  predicate HasHexPrefix(s: seq<char>)
  {
    |s| >= 2 && s[0] == '0' && (s[1] == 'x' || s[1] == 'X')
  }

  /** The character code ParseDefaultGlyph accepts, in the order of its
      checks: the prefix, at least one digit, the value, nothing after. */
  function DefaultGlyphCode(charCode: seq<char>): (r: Option<u16>)
    ensures r.Some? <==> HasHexPrefix(charCode) && |charCode| > 2 && AllHex(charCode[2..])
                         && FromHex(charCode[2..]) <= 0xFFFF
    ensures r.Some? ==> r.value == FromHex(charCode[2..])
  {
    if !HasHexPrefix(charCode) then None
    else
      var hexCode := charCode[2..];
      var n := HexRun(hexCode);
      if n == 0 then None
      else
        var code := FromHex(hexCode[..n]);
        if code > 0xFFFF then
          assert n == |hexCode| ==> hexCode[..n] == hexCode;
          None
        else if n < |hexCode| then None
        else
          assert hexCode[..n] == hexCode;
          Some(code)
  }

  /** ParseDefaultGlyph: on success the glyph is the code and one range
      holding just that code is appended; otherwise nothing changes. */
  method ParseDefaultGlyph(charCode: seq<char>, defaultGlyph: u16, regions: seq<WcRange>)
    returns (ok: bool, glyphOut: u16, regionsOut: seq<WcRange>)
    ensures ok <==> DefaultGlyphCode(charCode).Some?
    ensures ok ==> glyphOut == DefaultGlyphCode(charCode).value && regionsOut == regions + [WcRange(glyphOut, 1)]
    ensures !ok ==> glyphOut == defaultGlyph && regionsOut == regions
  {
    glyphOut, regionsOut := defaultGlyph, regions;
    if !HasHexPrefix(charCode) {
      return false, glyphOut, regionsOut;
    }
    var hexCode := charCode[2..];
    var n := HexRun(hexCode);
    if n == 0 {
      return false, glyphOut, regionsOut;
    }
    var code := FromHex(hexCode[..n]);
    if code > 0xFFFF {
      return false, glyphOut, regionsOut;
    }
    if n < |hexCode| {
      return false, glyphOut, regionsOut;
    }
    glyphOut := code;
    regionsOut := regions + [WcRange(code, 1)];
    return true, glyphOut, regionsOut;
  }

  /** The range appended for the default glyph holds that glyph and no
      other code point. */
  lemma DefaultGlyphRange(code: u16, c: u16)
    ensures IsCodePointInRange(c, WcRange(code, 1)) <==> c == code
  {
  }

  function HexChar(v: nat): (c: char)
    requires v < 16
    ensures IsHexDigit(c) && HexValue(c) == v
  {
    if v < 10 then ('0' as int + v) as char else ('A' as int + v - 10) as char
  }

  /** The shortest hex spelling of `v`. */
  function ToHex(v: nat): (s: seq<char>)
    ensures |s| >= 1 && AllHex(s)
  {
    if v < 16 then [HexChar(v)] else ToHex(v / 16) + [HexChar(v % 16)]
  }

  lemma {:induction false} FromHexToHex(v: nat)
    ensures FromHex(ToHex(v)) == v
  {
    if v >= 16 {
      FromHexToHex(v / 16);
      var s := ToHex(v);
      assert s[..|s| - 1] == ToHex(v / 16);
    }
  }

  /** Every code point written as "0x" and its hex digits parses back to
      itself. */
  lemma ParseShowsCode(code: u16)
    ensures DefaultGlyphCode("0x" + ToHex(code)) == Some(code)
  {
    var t := "0x" + ToHex(code);
    assert t[2..] == ToHex(code);
    FromHexToHex(code);
  }

  // ---------------------------------------------------------------------
  // CreatePixelBuffer
  // ---------------------------------------------------------------------

  /** GLYPHMETRICS: the black box's size and upper-left corner, and the
      cell increments. */
  datatype GlyphMetrics = GlyphMetrics(blackBoxX: u32, blackBoxY: u32, originX: i32, originY: i32,
                                       cellIncX: int, cellIncY: int)

  /** A GGO_Glyph: its character, its metrics, and the pixel values
      ForEachPixel visits, in the order it visits them. */
  datatype Glyph = Glyph(character: u16, metrics: GlyphMetrics, pixels: seq<byte>)

  /** gmBlackBoxX * gmBlackBoxY, a UINT product. */
  function PixelCount(m: GlyphMetrics): u32
  {
    Wrap32(m.blackBoxX * m.blackBoxY)
  }

  /** GetStorageSize<uint8_t>(bits): the bytes that hold `bits` bits. */
  function StorageBytes(bits: nat): nat
  {
    (bits + 7) / 8
  }

  /** ForEachPixel visits as many pixels as the storage is sized for. */
  predicate GlyphOk(g: Glyph)
  {
    |g.pixels| == PixelCount(g.metrics)
  }

  predicate AllGlyphsOk(glyphs: seq<Glyph>)
  {
    forall i :: 0 <= i < |glyphs| ==> GlyphOk(glyphs[i])
  }

  /** The bytes the first `n` glyphs take, one after another. */
  function StorageTotal(glyphs: seq<Glyph>, n: nat): nat
    requires n <= |glyphs|
  {
    if n == 0 then 0 else StorageTotal(glyphs, n - 1) + StorageBytes(PixelCount(glyphs[n - 1].metrics))
  }

  /** !!clr: whether each pixel is drawn. */
  function Lit(pixels: seq<byte>): (bits: seq<bool>)
    ensures |bits| == |pixels|
  {
    seq(|pixels|, i requires 0 <= i < |pixels| => pixels[i] != 0)
  }

  function Falses(n: nat): (bits: seq<bool>)
    ensures |bits| == n
  {
    seq(n, i => false)
  }

  function Zeros(n: nat): (bytes: seq<byte>)
    ensures |bytes| == n
  {
    seq(n, i => 0)
  }

  /** The value of bits read from the most significant end. */
  function BitsValue(bits: seq<bool>): nat
  {
    if bits == [] then 0 else 2 * BitsValue(bits[..|bits| - 1]) + (if bits[|bits| - 1] then 1 else 0)
  }

  /** The same bits as binary digits, least significant first. */
  function LsbDigits(bits: seq<bool>): (ds: seq<nat>)
    ensures |ds| == |bits| && AllBelow(ds, 2)
  {
    seq(|bits|, t requires 0 <= t < |bits| => if bits[|bits| - 1 - t] then 1 else 0)
  }

  lemma {:induction false} BitsValueDigits(bits: seq<bool>)
    ensures BitsValue(bits) == FromDigits(LsbDigits(bits), 2)
  {
    if bits != [] {
      var front := bits[..|bits| - 1];
      BitsValueDigits(front);
      assert LsbDigits(bits)[1..] == LsbDigits(front);
    }
  }

  /** Up to eight bits, padded with zero bits to a whole byte. */
  function Pad8(bits: seq<bool>): (b8: seq<bool>)
    requires |bits| <= 8
    ensures |b8| == 8
  {
    bits + Falses(8 - |bits|)
  }

  /** The byte whose bits from the top down are `bits`. */
  function ByteOf(bits: seq<bool>): byte
    requires |bits| <= 8
  {
    BitsValueDigits(Pad8(bits));
    FromDigitsBound(LsbDigits(Pad8(bits)), 2);
    assert Pow(2, 8) == 256;
    BitsValue(Pad8(bits))
  }

  /** The up to eight bits stored in byte `j`. */
  function Chunk(bits: seq<bool>, j: nat): (c: seq<bool>)
    requires j < StorageBytes(|bits|)
    ensures |c| <= 8
  {
    bits[8 * j..Min(8 * j + 8, |bits|)]
  }

  /** Bits packed eight to a byte, the first in the most significant bit,
      the last byte padded with zero bits. */
  function PackBits(bits: seq<bool>): (bytes: seq<byte>)
    ensures |bytes| == StorageBytes(|bits|)
  {
    seq(StorageBytes(|bits|), j requires 0 <= j < StorageBytes(|bits|) => ByteOf(Chunk(bits, j)))
  }

  /** Bit `i` of packed storage: the byte shifted right and masked. */
  function BitAt(bytes: seq<byte>, i: nat): bool
    requires i / 8 < |bytes|
  {
    Digit(bytes[i / 8], 2, 7 - i % 8) == 1
  }

  /** Unpacking what was packed gives back every bit. */
  lemma UnpackBits(bits: seq<bool>, i: nat)
    requires i < |bits|
    ensures i / 8 < StorageBytes(|bits|) && BitAt(PackBits(bits), i) == bits[i]
  {
    var j := i / 8;
    var c := Chunk(bits, j);
    assert Pad8(c)[i % 8] == bits[i];
    BitsValueDigits(Pad8(c));
    DigitOfFromDigits(LsbDigits(Pad8(c)), 2, 7 - i % 8);
  }

  /** Setting bit `t` from the top of a byte, which is clear, adds
      2^(7 - t). */
  lemma ByteOfSet(c: seq<bool>, t: nat, v: bool)
    requires |c| <= 8 && t < |c| && !c[t]
    ensures ByteOf(c[t := v]) == ByteOf(c) + (if v then Pow(2, 7 - t) else 0)
  {
    var b8 := Pad8(c);
    assert Pad8(c[t := v]) == b8[t := v];
    assert LsbDigits(b8[t := v]) == LsbDigits(b8)[7 - t := if v then 1 else 0];
    BitsValueDigits(b8);
    BitsValueDigits(b8[t := v]);
    FromDigitsSet(LsbDigits(b8), 2, 7 - t, if v then 1 else 0);
  }

  /** Drawing bit `k`, which is clear, adds its weight to byte k / 8 and
      leaves the other bytes as they were. */
  lemma PackSetBit(bits: seq<bool>, k: nat, v: bool)
    requires k < |bits| && !bits[k]
    ensures var p, q := PackBits(bits), PackBits(bits[k := v]);
      k / 8 < |p| && q[k / 8] == p[k / 8] + (if v then Pow(2, 7 - k % 8) else 0)
      && forall i :: 0 <= i < |p| && i != k / 8 ==> q[i] == p[i]
  {
    var p, q := PackBits(bits), PackBits(bits[k := v]);
    var j := k / 8;
    var c := Chunk(bits, j);
    assert Chunk(bits[k := v], j) == c[k % 8 := v];
    ByteOfSet(c, k % 8, v);
    forall i | 0 <= i < |p| && i != j
      ensures q[i] == p[i]
    {
      assert Chunk(bits[k := v], i) == Chunk(bits, i);
    }
  }

  lemma PackFalses(n: nat)
    ensures PackBits(Falses(n)) == Zeros(StorageBytes(n))
  {
    forall j | 0 <= j < StorageBytes(n)
      ensures ByteOf(Chunk(Falses(n), j)) == 0
    {
      var c := Pad8(Chunk(Falses(n), j));
      assert c == Falses(8);
      var ds := LsbDigits(c);
      assert forall t :: 0 <= t < |ds| ==> ds[t] == 0;
      BitsValueDigits(c);
      FromDigitsZeros(ds);
    }
  }

  lemma {:induction false} FromDigitsZeros(ds: seq<nat>)
    requires forall i :: 0 <= i < |ds| ==> ds[i] == 0
    ensures FromDigits(ds, 2) == 0
  {
    if ds != [] {
      FromDigitsZeros(ds[1..]);
    }
  }

  /** The glyph's bits after the first `k` pixels are drawn. */
  function Drawn(bits: seq<bool>, k: nat): (d: seq<bool>)
    requires k <= |bits|
    ensures |d| == |bits|
  {
    bits[..k] + Falses(|bits| - k)
  }

  /** The bytes of the first `n` glyphs, one after another. */
  function PackGlyphs(glyphs: seq<Glyph>, n: nat): (bytes: seq<byte>)
    requires AllGlyphsOk(glyphs) && n <= |glyphs|
    ensures |bytes| == StorageTotal(glyphs, n)
  {
    if n == 0 then [] else PackGlyphs(glyphs, n - 1) + PackBits(Lit(glyphs[n - 1].pixels))
  }

  lemma {:induction false} StorageMono(glyphs: seq<Glyph>, i: nat, n: nat)
    requires i <= n <= |glyphs|
    ensures StorageTotal(glyphs, i) <= StorageTotal(glyphs, n)
  {
    if i < n {
      StorageMono(glyphs, i, n - 1);
    }
  }

  /** ForEachPixel's callback over one glyph, stored at byte `at`, right
      after the `done` bytes of the glyphs before it, where the buffer is
      still clear: pixel k sets bit 7 - k % 8 of the glyph's byte k / 8. */
  method PackGlyph(buf: array<byte>, at: nat, pixels: seq<byte>, ghost done: seq<byte>, ghost rest: nat, ghost tail: seq<byte>)
    requires at == |done| && StorageBytes(|pixels|) <= rest
    requires buf[..] == done + Zeros(rest) + tail
    modifies buf
    ensures buf[..] == done + PackBits(Lit(pixels)) + Zeros(rest - StorageBytes(|pixels|)) + tail
  {
    ghost var bits := Lit(pixels);
    ghost var n := StorageBytes(|pixels|);
    PackFalses(|pixels|);
    assert Drawn(bits, 0) == Falses(|pixels|);
    ZerosSplit(done, n, rest, tail);
    var pixelIdx := 0;
    while pixelIdx < |pixels|
      invariant pixelIdx <= |pixels|
      invariant buf[..] == done + PackBits(Drawn(bits, pixelIdx)) + Zeros(rest - n) + tail
    {
      DrawPixel(buf, at, pixels, pixelIdx, done, Zeros(rest - n), tail);
      pixelIdx := pixelIdx + 1;
    }
    assert Drawn(bits, |pixels|) == bits;
  }

  /** The callback for pixel `k`: (!!clr) << shift is added into the
      glyph's byte k / 8, where that bit is still clear. */
  method DrawPixel(buf: array<byte>, at: nat, pixels: seq<byte>, k: nat, ghost done: seq<byte>, ghost z: seq<byte>, ghost tail: seq<byte>)
    requires at == |done| && k < |pixels|
    requires buf[..] == done + PackBits(Drawn(Lit(pixels), k)) + z + tail
    modifies buf
    ensures buf[..] == done + PackBits(Drawn(Lit(pixels), k + 1)) + z + tail
  {
    var shift := 7 - k % 8;
    ghost var p, q := PackBits(Drawn(Lit(pixels), k)), PackBits(Drawn(Lit(pixels), k + 1));
    DrawStep(pixels, k, p, q);
    UpdateMiddle(done, p, z, tail, k / 8, q[k / 8]);
    var bit := if pixels[k] != 0 then Pow(2, shift) else 0;
    ghost var before := buf[..];
    assert before[at + k / 8] + bit == q[k / 8];
    buf[at + k / 8] := buf[at + k / 8] + bit;
    assert buf[..] == before[at + k / 8 := q[k / 8]];
  }

  lemma ZerosSplit(done: seq<byte>, n: nat, rest: nat, tail: seq<byte>)
    requires n <= rest
    ensures done + Zeros(rest) + tail == done + Zeros(n) + Zeros(rest - n) + tail
  {
    assert Zeros(rest) == Zeros(n) + Zeros(rest - n);
  }

  lemma UpdateMiddle(done: seq<byte>, p: seq<byte>, z: seq<byte>, tail: seq<byte>, j: nat, v: byte)
    requires j < |p|
    ensures |done| + j < |done + p + z + tail| && (done + p + z + tail)[|done| + j] == p[j]
    ensures (done + p + z + tail)[|done| + j := v] == done + p[j := v] + z + tail
  {
  }

  /** Drawing pixel k: its bit, still clear, is set by adding its weight. */
  lemma DrawStep(pixels: seq<byte>, k: nat, p: seq<byte>, q: seq<byte>)
    requires k < |pixels|
    requires p == PackBits(Drawn(Lit(pixels), k)) && q == PackBits(Drawn(Lit(pixels), k + 1))
    ensures k / 8 < |p| && !BitAt(p, k)
    ensures q[k / 8] == p[k / 8] + (if pixels[k] != 0 then Pow(2, 7 - k % 8) else 0)
    ensures q == p[k / 8 := q[k / 8]]
  {
    var bits := Lit(pixels);
    var before := Drawn(bits, k);
    assert Drawn(bits, k + 1) == before[k := bits[k]];
    PackSetBit(before, k, bits[k]);
    UnpackBits(before, k);
    assert |q| == |p|;
  }

  /** memset(pixels, 0, pixelBufferSize) */
  method Clear(buf: array<byte>, n: nat)
    requires n <= buf.Length
    modifies buf
    ensures buf[..] == Zeros(n) + old(buf[..])[n..]
  {
    var k := 0;
    while k < n
      invariant k <= n
      invariant forall j :: 0 <= j < k ==> buf[j] == 0
      invariant forall j :: k <= j < buf.Length ==> buf[j] == old(buf[j])
    {
      buf[k] := 0;
      k := k + 1;
    }
    assert buf[..] == Zeros(n) + old(buf[..])[n..];
  }

  /** CreatePixelBuffer: the bytes the glyphs need; when `pixels` is
      non-null and large enough, the first pixelBufferSize bytes are cleared
      and each glyph's bits stored right after the previous glyph's. */
  method CreatePixelBuffer(glyphs: seq<Glyph>, pixels: array?<byte>, pixelBufferSize: nat) returns (pixelByteCount: nat)
    requires AllGlyphsOk(glyphs)
    requires pixels != null ==> pixelBufferSize <= pixels.Length
    modifies pixels
    ensures pixelByteCount == StorageTotal(glyphs, |glyphs|)
    ensures pixels != null && pixelByteCount <= pixelBufferSize ==>
      pixels[..] == PackGlyphs(glyphs, |glyphs|) + Zeros(pixelBufferSize - pixelByteCount) + old(pixels[..])[pixelBufferSize..]
    ensures pixels != null && pixelByteCount > pixelBufferSize ==> pixels[..] == old(pixels[..])
  {
    pixelByteCount := 0;
    var i := 0;
    while i < |glyphs|
      invariant i <= |glyphs| && pixelByteCount == StorageTotal(glyphs, i)
    {
      pixelByteCount := pixelByteCount + StorageBytes(PixelCount(glyphs[i].metrics));
      i := i + 1;
    }
    if pixels == null || pixelByteCount > pixelBufferSize {
      return;
    }
    Clear(pixels, pixelBufferSize);
    StoreGlyphs(glyphs, pixels, pixelBufferSize);
  }

  /** CreatePixelBuffer's second loop: each glyph's bits, stored into the
      cleared buffer right after the previous glyph's. */
  method StoreGlyphs(glyphs: seq<Glyph>, pixels: array<byte>, pixelBufferSize: nat)
    requires AllGlyphsOk(glyphs) && StorageTotal(glyphs, |glyphs|) <= pixelBufferSize <= pixels.Length
    requires pixels[..pixelBufferSize] == Zeros(pixelBufferSize)
    modifies pixels
    ensures pixels[..] == PackGlyphs(glyphs, |glyphs|) + Zeros(pixelBufferSize - StorageTotal(glyphs, |glyphs|))
                          + old(pixels[..])[pixelBufferSize..]
  {
    ghost var tail := pixels[pixelBufferSize..];
    assert pixels[..] == pixels[..pixelBufferSize] + tail;
    var pxls := 0;
    var i := 0;
    while i < |glyphs|
      invariant i <= |glyphs| && pxls == StorageTotal(glyphs, i) <= pixelBufferSize
      invariant pixels[..] == PackGlyphs(glyphs, i) + Zeros(pixelBufferSize - pxls) + tail
    {
      var size := StoreGlyph(glyphs, i, pixels, pxls, pixelBufferSize, tail);
      pxls := pxls + size;
      i := i + 1;
    }
  }

  /** One pass of the second loop: glyph `i` stored at `pxls`, which
      advances by the glyph's storage size. */
  method StoreGlyph(glyphs: seq<Glyph>, i: nat, pixels: array<byte>, pxls: nat, pixelBufferSize: nat, ghost tail: seq<byte>)
    returns (size: nat)
    requires AllGlyphsOk(glyphs) && i < |glyphs| && StorageTotal(glyphs, |glyphs|) <= pixelBufferSize
    requires pxls == StorageTotal(glyphs, i) <= pixelBufferSize
    requires pixels[..] == PackGlyphs(glyphs, i) + Zeros(pixelBufferSize - pxls) + tail
    modifies pixels
    ensures pxls + size == StorageTotal(glyphs, i + 1) <= pixelBufferSize
    ensures pixels[..] == PackGlyphs(glyphs, i + 1) + Zeros(pixelBufferSize - pxls - size) + tail
  {
    ghost var done, g := PackGlyphs(glyphs, i), PackBits(Lit(glyphs[i].pixels));
    size := StorageBytes(PixelCount(glyphs[i].metrics));
    assert GlyphOk(glyphs[i]);
    assert |g| == size;
    StorageMono(glyphs, i + 1, |glyphs|);
    PackGlyph(pixels, pxls, glyphs[i].pixels, done, pixelBufferSize - pxls, tail);
    AppendGlyph(done, g, PackGlyphs(glyphs, i + 1), Zeros(pixelBufferSize - pxls - size), tail);
  }

  lemma AppendGlyph(done: seq<byte>, g: seq<byte>, packed: seq<byte>, z: seq<byte>, tail: seq<byte>)
    requires packed == done + g
    ensures done + g + z + tail == packed + z + tail
  {
  }

  /** Glyphs stored later leave the bytes of the earlier ones alone. */
  lemma {:induction false} PackGlyphsPrefix(glyphs: seq<Glyph>, i: nat, n: nat, k: nat)
    requires AllGlyphsOk(glyphs) && i <= n <= |glyphs| && k < StorageTotal(glyphs, i)
    ensures k < StorageTotal(glyphs, n) && PackGlyphs(glyphs, n)[k] == PackGlyphs(glyphs, i)[k]
  {
    if i < n {
      PackGlyphsPrefix(glyphs, i, n - 1, k);
    }
  }

  /** Pixel `p` of glyph `i` is bit `p` counted from the glyph's first byte,
      the offset the sheet records as the glyph's pixelIndex: drawn exactly
      when its value is nonzero. */
  lemma GlyphPixelAt(glyphs: seq<Glyph>, i: nat, p: nat)
    requires AllGlyphsOk(glyphs) && i < |glyphs| && p < |glyphs[i].pixels|
    ensures var at := StorageTotal(glyphs, i);
      at + p / 8 < StorageTotal(glyphs, |glyphs|)
      && (Digit(PackGlyphs(glyphs, |glyphs|)[at + p / 8], 2, 7 - p % 8) == 1 <==> glyphs[i].pixels[p] != 0)
  {
    var at := StorageTotal(glyphs, i);
    var g := PackBits(Lit(glyphs[i].pixels));
    UnpackBits(Lit(glyphs[i].pixels), p);
    assert PackGlyphs(glyphs, i + 1) == PackGlyphs(glyphs, i) + g;
    assert PackGlyphs(glyphs, i + 1)[at + p / 8] == g[p / 8];
    PackGlyphsPrefix(glyphs, i + 1, |glyphs|, at + p / 8);
  }

  /** wmain's pixelIndex for each raster glyph: the running total of the
      storage before it, in a uint32_t. */
  method PixelIndices(glyphs: seq<Glyph>) returns (indices: seq<u32>)
    ensures |indices| == |glyphs|
    ensures forall i :: 0 <= i < |glyphs| ==> indices[i] == Wrap32(StorageTotal(glyphs, i))
  {
    indices := [];
    var pixelIndex: u32 := 0;
    var i := 0;
    while i < |glyphs|
      invariant i <= |glyphs| && indices == Offsets(glyphs, i)
      invariant pixelIndex == Wrap32(StorageTotal(glyphs, i))
    {
      indices := indices + [pixelIndex];
      pixelIndex := AdvanceIndex(glyphs, i, pixelIndex);
      i := i + 1;
    }
    forall j | 0 <= j < |glyphs|
      ensures indices[j] == Wrap32(StorageTotal(glyphs, j))
    {
      OffsetsAt(glyphs, |glyphs|, j);
    }
  }

  /** The wrapped running totals before each of the first `n` glyphs. */
  ghost function Offsets(glyphs: seq<Glyph>, n: nat): (r: seq<u32>)
    requires n <= |glyphs|
    ensures |r| == n
  {
    if n == 0 then [] else Offsets(glyphs, n - 1) + [Wrap32(StorageTotal(glyphs, n - 1))]
  }

  lemma {:induction false} OffsetsAt(glyphs: seq<Glyph>, n: nat, j: nat)
    requires j < n <= |glyphs|
    ensures Offsets(glyphs, n)[j] == Wrap32(StorageTotal(glyphs, j))
  {
    if j < n - 1 {
      OffsetsAt(glyphs, n - 1, j);
    }
  }

  /** pixelIndex += GetStorageSize(glyph's pixel count), in 32 bits. */
  method AdvanceIndex(glyphs: seq<Glyph>, i: nat, pixelIndex: u32) returns (next: u32)
    requires i < |glyphs| && pixelIndex == Wrap32(StorageTotal(glyphs, i))
    ensures next == Wrap32(StorageTotal(glyphs, i + 1))
  {
    var size := StorageBytes(PixelCount(glyphs[i].metrics));
    IndexStep(glyphs, i, pixelIndex);
    next := Wrap32(pixelIndex + size);
  }

  /** Adding a glyph's storage to the wrapped running total gives the
      wrapped total with that glyph. */
  lemma IndexStep(glyphs: seq<Glyph>, i: nat, pixelIndex: u32)
    requires i < |glyphs| && pixelIndex == Wrap32(StorageTotal(glyphs, i))
    ensures Wrap32(pixelIndex + StorageBytes(PixelCount(glyphs[i].metrics))) == Wrap32(StorageTotal(glyphs, i + 1))
  {
    var a, b := StorageTotal(glyphs, i), StorageBytes(PixelCount(glyphs[i].metrics));
    assert StorageTotal(glyphs, i + 1) == a + b;
    Wrap32Add(a, b);
  }

  // ---------------------------------------------------------------------
  // ComputeAscentDescent
  // ---------------------------------------------------------------------

  /** The largest positive value among the first `n`, or 0 when none is
      positive. */
  function MaxPositive(vals: seq<int>, n: nat): (m: nat)
    requires n <= |vals|
    ensures forall i :: 0 <= i < n ==> vals[i] <= m
  {
    if n == 0 then 0
    else
      var m := MaxPositive(vals, n - 1);
      if vals[n - 1] > m then vals[n - 1] else m
  }

  /** No smaller bound exists: every nonnegative bound on the first `n`
      values bounds their maximum too. */
  lemma {:induction false} MaxPositiveLeast(vals: seq<int>, n: nat, b: int)
    requires n <= |vals| && 0 <= b
    requires forall i :: 0 <= i < n ==> vals[i] <= b
    ensures MaxPositive(vals, n) <= b
  {
    if n > 0 {
      MaxPositiveLeast(vals, n - 1, b);
    }
  }

  /** How far each black box reaches above the base line. */
  function Ascents(glyphs: seq<Glyph>): (vals: seq<int>)
    ensures |vals| == |glyphs|
  {
    seq(|glyphs|, i requires 0 <= i < |glyphs| => glyphs[i].metrics.originY)
  }

  /** How far each black box reaches below the base line: gmBlackBoxY minus
      the origin's y, computed in 32-bit unsigned arithmetic and kept in an
      int. */
  function Descents(glyphs: seq<Glyph>): (vals: seq<int>)
    ensures |vals| == |glyphs|
  {
    seq(|glyphs|, i requires 0 <= i < |glyphs| => WrapI32(glyphs[i].metrics.blackBoxY - glyphs[i].metrics.originY))
  }

  /** ComputeAscentDescent: the ascent is one more than the highest black
      box top, the descent the lowest black box bottom, both over the
      glyphs that reach above or below the base line. */
  method ComputeAscentDescent(glyphs: seq<Glyph>) returns (effectiveAscent: u32, effectiveDescent: u32)
    ensures effectiveAscent == Wrap32(MaxPositive(Ascents(glyphs), |glyphs|) + 1)
    ensures effectiveDescent == MaxPositive(Descents(glyphs), |glyphs|)
  {
    effectiveAscent, effectiveDescent := 0, 0;
    var i := 0;
    while i < |glyphs|
      invariant i <= |glyphs|
      invariant effectiveAscent == MaxPositive(Ascents(glyphs), i)
      invariant effectiveDescent == MaxPositive(Descents(glyphs), i)
    {
      var metrics := glyphs[i].metrics;
      var ascent := metrics.originY;
      if ascent > 0 {
        effectiveAscent := Max(effectiveAscent, ascent);
      }
      var descent := WrapI32(metrics.blackBoxY - metrics.originY);
      if descent > 0 {
        effectiveDescent := Max(effectiveDescent, descent);
      }
      i := i + 1;
    }
    effectiveAscent := Wrap32(effectiveAscent + 1);
  }

  /** The increment of the ascent never wraps: an origin is a LONG, so the
      highest is below 2^31. */
  lemma AscentNoWrap(glyphs: seq<Glyph>)
    ensures Wrap32(MaxPositive(Ascents(glyphs), |glyphs|) + 1) == MaxPositive(Ascents(glyphs), |glyphs|) + 1
  {
    MaxPositiveLeast(Ascents(glyphs), |glyphs|, 0x7FFF_FFFF);
  }
}
