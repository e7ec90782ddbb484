// The portable block encoders of the FastBlockCompress sample's CPU path:
// one 4x4 block of RGBA8 pixels becomes an 8-byte BC1 block, a 16-byte BC3
// block or a 16-byte BC5 (unsigned) block. Endpoints come from an inset
// bounding box of the block's colours; every pixel then gets the index of the
// palette entry the index rules pick.

module FbcBlock {
  import opened Common
  import opened Radix
  import opened SerialBytes

  /** A 4x4 block as ExtractBlock lays it out: 16 pixels of 4 bytes (R, G, B,
      A), row after row. */
  type Pixels = s: seq<byte> | |s| == 64 witness seq(64, i => 0)

  /** Channel `ch` of pixel `i`. */
  function At(px: Pixels, i: nat, ch: nat): byte
    requires i < 16 && ch < 4
  {
    px[4 * i + ch]
  }

  function Abs(x: int): nat { if x < 0 then -x else x }

  // ---------------------------------------------------------------------
  // Bounding box of the block (GetMinMaxColors, GetMinMaxNormals)
  // ---------------------------------------------------------------------

  /** Channel `ch` of the 16 pixels, in pixel order. */
  function Column(px: Pixels, ch: nat): (c: seq<byte>)
    requires ch < 4
    ensures |c| == 16
  {
    seq(16, i requires 0 <= i < 16 => At(px, i, ch))
  }

  /** The running minimum of a run of channel values, starting from 255 as
      the source's minclr does and replaced by any smaller value. */
  function RunMin(s: seq<byte>): byte
  {
    if s == [] then 255
    else
      var m := RunMin(s[..|s| - 1]);
      if s[|s| - 1] < m then s[|s| - 1] else m
  }

  /** The running maximum, starting from 0. */
  function RunMax(s: seq<byte>): byte
  {
    if s == [] then 0
    else
      var m := RunMax(s[..|s| - 1]);
      if s[|s| - 1] > m then s[|s| - 1] else m
  }

  /** The running minimum and maximum of a non-empty run are its least and
      greatest value, and both occur in it. */
  lemma {:induction false} RunExtremes(s: seq<byte>)
    requires s != []
    ensures forall i :: 0 <= i < |s| ==> RunMin(s) <= s[i] <= RunMax(s)
    ensures RunMin(s) in s && RunMax(s) in s
  {
    if |s| > 1 {
      var init := s[..|s| - 1];
      RunExtremes(init);
      assert forall i :: 0 <= i < |init| ==> s[i] == init[i];
    }
  }

  function ChannelMin(px: Pixels, ch: nat): byte
    requires ch < 4
  {
    RunMin(Column(px, ch))
  }

  function ChannelMax(px: Pixels, ch: nat): byte
    requires ch < 4
  {
    RunMax(Column(px, ch))
  }

  lemma ChannelOrdered(px: Pixels, ch: nat)
    requires ch < 4
    ensures ChannelMin(px, ch) <= ChannelMax(px, ch)
  {
    RunExtremes(Column(px, ch));
    assert ChannelMin(px, ch) <= Column(px, ch)[0] <= ChannelMax(px, ch);
  }

  /** The amount the colour box is shrunk by on each side: one sixteenth of
      its extent, stored in a byte. */
  function ColorInset(lo: byte, hi: byte): byte
  {
    ((hi - lo) / 16) % 256
  }

  function InsetLow(lo: byte, hi: byte): byte
  {
    var inset := ColorInset(lo, hi);
    if lo + inset <= 255 then lo + inset else 255
  }

  function InsetHigh(lo: byte, hi: byte): byte
  {
    var inset := ColorInset(lo, hi);
    if hi >= inset then hi - inset else 0
  }

  /** Low and high end of channel `ch` of the inset colour box. */
  function BoxLow(px: Pixels, ch: nat): byte
    requires ch < 4
  {
    InsetLow(ChannelMin(px, ch), ChannelMax(px, ch))
  }

  function BoxHigh(px: Pixels, ch: nat): byte
    requires ch < 4
  {
    InsetHigh(ChannelMin(px, ch), ChannelMax(px, ch))
  }

  /** The inset box lies inside the block's bounding box and is not empty. */
  lemma BoxInset(px: Pixels, ch: nat)
    requires ch < 4
    ensures ChannelMin(px, ch) <= BoxLow(px, ch) <= BoxHigh(px, ch) <= ChannelMax(px, ch)
  {
    ChannelOrdered(px, ch);
    InsetOrdered(ChannelMin(px, ch), ChannelMax(px, ch));
  }

  /** Shrinking [lo, hi] by a sixteenth of its extent on each side keeps
      it inside [lo, hi] and not empty. */
  lemma InsetOrdered(lo: byte, hi: byte)
    requires lo <= hi
    ensures lo <= InsetLow(lo, hi) <= InsetHigh(lo, hi) <= hi
  {
    var d := hi - lo;
    assert d / 16 < 256 && 2 * (d / 16) <= d;
    assert ColorInset(lo, hi) == d / 16;
  }

  /** Four channel bytes packed into a 32-bit colour, R in the low byte. */
  function Pack4(r: byte, g: byte, b: byte, a: byte): nat
  {
    r + 256 * g + 65536 * b + 16777216 * a
  }

  /** The packed colour is the base-256 number with digits R, G, B, A, and
      each channel reads back with a shift and a mask. */
  lemma Pack4Bytes(r: byte, g: byte, b: byte, a: byte)
    ensures var c := Pack4(r, g, b, a);
      c == FromDigits([r, g, b, a], 256) && c < TWO_32
      && c % 256 == r && c / 256 % 256 == g && c / 65536 % 256 == b && c / 16777216 % 256 == a
  {
    var c := Pack4(r, g, b, a);
    var ds := [r, g, b, a];
    assert ds[3..][1..] == [] && ds[2..][1..] == ds[3..] && ds[1..][1..] == ds[2..];
    assert FromDigits(ds[3..], 256) == a;
    assert FromDigits(ds[2..], 256) == b + 256 * a;
    assert FromDigits(ds[1..], 256) == g + 256 * (b + 256 * a);
    DivMulAdd(r, 256, g + 256 * b + 65536 * a);
    DivMulAdd(g, 256, b + 256 * a);
    DivMulAdd(r + 256 * g, 65536, b + 256 * a);
    DivMulAdd(b, 256, a);
    DivMulAdd(r + 256 * g + 65536 * b, 16777216, a);
  }

  function MinColor(px: Pixels): nat
  {
    Pack4(BoxLow(px, 0), BoxLow(px, 1), BoxLow(px, 2), BoxLow(px, 3))
  }

  function MaxColor(px: Pixels): nat
  {
    Pack4(BoxHigh(px, 0), BoxHigh(px, 1), BoxHigh(px, 2), BoxHigh(px, 3))
  }

  /** Byte `k` of a packed colour, as `(color >> 8k) & 0xff` extracts it. */
  function ChannelOf(color: nat, k: nat): byte
  {
    Digit(color, 256, k)
  }

  /** Unpacking the inset colours gives back the box ends channel by
      channel, and the packed colours fit 32 bits. */
  lemma ColorChannels(px: Pixels, k: nat)
    requires k < 4
    ensures ChannelOf(MinColor(px), k) == BoxLow(px, k)
    ensures ChannelOf(MaxColor(px), k) == BoxHigh(px, k)
    ensures MinColor(px) < TWO_32 && MaxColor(px) < TWO_32
  {
    Pack4Channel(BoxLow(px, 0), BoxLow(px, 1), BoxLow(px, 2), BoxLow(px, 3), k);
    Pack4Channel(BoxHigh(px, 0), BoxHigh(px, 1), BoxHigh(px, 2), BoxHigh(px, 3), k);
  }

  /** Channel k of a packed colour is its k-th byte. */
  lemma Pack4Channel(r: byte, g: byte, b: byte, a: byte, k: nat)
    requires k < 4
    ensures Pack4(r, g, b, a) < TWO_32 && ChannelOf(Pack4(r, g, b, a), k) == [r, g, b, a][k]
  {
    Pack4Bytes(r, g, b, a);
    DigitOfFromDigits([r, g, b, a], 256, k);
  }

  /** The running minimum and maximum of channel `ch` over pixels 0..i-1. */
  function LowSoFar(px: Pixels, ch: nat, i: nat): byte
    requires ch < 4 && i <= 16
  {
    RunMin(Column(px, ch)[..i])
  }

  function HighSoFar(px: Pixels, ch: nat, i: nat): byte
    requires ch < 4 && i <= 16
  {
    RunMax(Column(px, ch)[..i])
  }

  /** The four running minima after `i` pixels. */
  predicate MinSoFar(px: Pixels, i: nat, minclr: seq<byte>)
    requires i <= 16
  {
    |minclr| == 4
    && minclr[0] == LowSoFar(px, 0, i) && minclr[1] == LowSoFar(px, 1, i)
    && minclr[2] == LowSoFar(px, 2, i) && minclr[3] == LowSoFar(px, 3, i)
  }

  /** The four running maxima after `i` pixels. */
  predicate MaxSoFar(px: Pixels, i: nat, maxclr: seq<byte>)
    requires i <= 16
  {
    |maxclr| == 4
    && maxclr[0] == HighSoFar(px, 0, i) && maxclr[1] == HighSoFar(px, 1, i)
    && maxclr[2] == HighSoFar(px, 2, i) && maxclr[3] == HighSoFar(px, 3, i)
  }

  method GetMinMaxColors(px: Pixels) returns (minColor: nat, maxColor: nat)
    ensures minColor == MinColor(px) && maxColor == MaxColor(px)
  {
    var minclr: seq<byte> := [255, 255, 255, 255];
    var maxclr: seq<byte> := [0, 0, 0, 0];
    for i := 0 to 16
      invariant MinSoFar(px, i, minclr) && MaxSoFar(px, i, maxclr)
    {
      minclr := LowerMin(px, i, minclr);
      maxclr := RaiseMax(px, i, maxclr);
    }
    assert forall ch :: 0 <= ch < 4 ==> Column(px, ch)[..16] == Column(px, ch);
    minColor := Pack4(InsetLow(minclr[0], maxclr[0]), InsetLow(minclr[1], maxclr[1]),
                      InsetLow(minclr[2], maxclr[2]), InsetLow(minclr[3], maxclr[3]));
    maxColor := Pack4(InsetHigh(minclr[0], maxclr[0]), InsetHigh(minclr[1], maxclr[1]),
                      InsetHigh(minclr[2], maxclr[2]), InsetHigh(minclr[3], maxclr[3]));
  }

  /** The first half of an iteration of GetMinMaxColors' loop: pixel `i`
      lowers each channel's minimum where it lies below it. */
  method LowerMin(px: Pixels, i: nat, minclr: seq<byte>) returns (minOut: seq<byte>)
    requires i < 16 && MinSoFar(px, i, minclr)
    ensures MinSoFar(px, i + 1, minOut)
  {
    RunStep(px, 0, i);
    RunStep(px, 1, i);
    RunStep(px, 2, i);
    RunStep(px, 3, i);
    minOut := minclr;
    if At(px, i, 0) < minOut[0] { minOut := minOut[0 := At(px, i, 0)]; }
    if At(px, i, 1) < minOut[1] { minOut := minOut[1 := At(px, i, 1)]; }
    if At(px, i, 2) < minOut[2] { minOut := minOut[2 := At(px, i, 2)]; }
    if At(px, i, 3) < minOut[3] { minOut := minOut[3 := At(px, i, 3)]; }
  }

  /** The second half: pixel `i` raises each channel's maximum where it
      lies above it. */
  method RaiseMax(px: Pixels, i: nat, maxclr: seq<byte>) returns (maxOut: seq<byte>)
    requires i < 16 && MaxSoFar(px, i, maxclr)
    ensures MaxSoFar(px, i + 1, maxOut)
  {
    RunStep(px, 0, i);
    RunStep(px, 1, i);
    RunStep(px, 2, i);
    RunStep(px, 3, i);
    maxOut := maxclr;
    if At(px, i, 0) > maxOut[0] { maxOut := maxOut[0 := At(px, i, 0)]; }
    if At(px, i, 1) > maxOut[1] { maxOut := maxOut[1 := At(px, i, 1)]; }
    if At(px, i, 2) > maxOut[2] { maxOut := maxOut[2 := At(px, i, 2)]; }
    if At(px, i, 3) > maxOut[3] { maxOut := maxOut[3 := At(px, i, 3)]; }
  }

  /** One more pixel lowers a channel's running minimum, or raises its
      running maximum, to its own value when it lies outside them. */
  lemma RunStep(px: Pixels, ch: nat, i: nat)
    requires ch < 4 && i < 16
    ensures var v, lo, hi := At(px, i, ch), LowSoFar(px, ch, i), HighSoFar(px, ch, i);
      LowSoFar(px, ch, i + 1) == (if v < lo then v else lo)
      && HighSoFar(px, ch, i + 1) == (if v > hi then v else hi)
  {
    var s := Column(px, ch)[..i + 1];
    assert s[..i] == Column(px, ch)[..i];
  }

  /** Low end of a BC5 normal channel: the box is moved inwards by
      (extent - 15) / 32 on each side, with C's arithmetic right shift
      (a floor) and clamping to a byte. */
  function NormalLow(lo: byte, hi: byte): byte
  {
    var inset := (hi - lo) - 15;
    var mini := (lo * 32 + inset) / 32;
    (if mini >= 0 then mini else 0) % 256
  }

  function NormalHigh(lo: byte, hi: byte): byte
  {
    var inset := (hi - lo) - 15;
    var maxi := (hi * 32 - inset) / 32;
    (if maxi <= 255 then maxi else 255) % 256
  }

  /** The normal box stays ordered: a wide range (at least 15) is shrunk
      inwards, a narrow one keeps its high end and drops its low end by one
      (clamped at 0). The byte casts never wrap. */
  lemma NormalBox(lo: byte, hi: byte)
    requires lo <= hi
    ensures NormalLow(lo, hi) <= NormalHigh(lo, hi)
    ensures hi - lo >= 15 ==> lo <= NormalLow(lo, hi) && NormalHigh(lo, hi) <= hi
    ensures hi - lo < 15 ==> NormalLow(lo, hi) == Max(lo - 1, 0) && NormalHigh(lo, hi) == hi
  {
    var t := (hi - lo) - 15;
    var mini := (lo * 32 + t) / 32;
    var maxi := (hi * 32 - t) / 32;
    if t >= 0 {
      WideLow(lo, t);
      WideHigh(hi, t);
      assert 2 * (t / 32) + 1 <= t + 15;
      ByteStore(mini);
      ByteStore(maxi);
    } else {
      NarrowShift(lo, hi, t);
      ByteStore(maxi);
    }
  }

  lemma WideLow(lo: byte, t: int)
    requires t >= 0
    ensures (lo * 32 + t) / 32 == lo + t / 32
  {
    assert lo * 32 + t == t % 32 + 32 * (lo + t / 32);
    DivMulAdd(t % 32, 32, lo + t / 32);
  }

  lemma WideHigh(hi: byte, t: int)
    requires 0 <= t <= hi
    ensures hi - t / 32 - 1 <= (hi * 32 - t) / 32 <= hi
  {
    var q := (hi * 32 - t) / 32;
    assert 32 * q <= hi * 32 - t < 32 * q + 32;
    assert 32 * (t / 32) <= t < 32 * (t / 32) + 32;
  }

  lemma NarrowShift(lo: byte, hi: byte, t: int)
    requires -15 <= t < 0
    ensures (lo * 32 + t) / 32 == lo - 1 && (hi * 32 - t) / 32 == hi
  {
    var a, b := (lo * 32 + t) / 32, (hi * 32 - t) / 32;
    assert 32 * a <= lo * 32 + t < 32 * a + 32;
    assert 32 * b <= hi * 32 - t < 32 * b + 32;
  }

  function NormalMinX(px: Pixels): byte { NormalLow(ChannelMin(px, 0), ChannelMax(px, 0)) }
  function NormalMaxX(px: Pixels): byte { NormalHigh(ChannelMin(px, 0), ChannelMax(px, 0)) }
  function NormalMinY(px: Pixels): byte { NormalLow(ChannelMin(px, 1), ChannelMax(px, 1)) }
  function NormalMaxY(px: Pixels): byte { NormalHigh(ChannelMin(px, 1), ChannelMax(px, 1)) }

  method GetMinMaxNormals(px: Pixels) returns (minX: byte, maxX: byte, minY: byte, maxY: byte)
    ensures minX == NormalMinX(px) && maxX == NormalMaxX(px)
    ensures minY == NormalMinY(px) && maxY == NormalMaxY(px)
  {
    var minn: seq<byte> := [255, 255];
    var maxn: seq<byte> := [0, 0];
    for i := 0 to 16
      invariant |minn| == 2 && |maxn| == 2
      invariant minn[0] == LowSoFar(px, 0, i) && minn[1] == LowSoFar(px, 1, i)
      invariant maxn[0] == HighSoFar(px, 0, i) && maxn[1] == HighSoFar(px, 1, i)
    {
      RunStep(px, 0, i);
      RunStep(px, 1, i);
      if At(px, i, 0) < minn[0] { minn := minn[0 := At(px, i, 0)]; }
      if At(px, i, 1) < minn[1] { minn := minn[1 := At(px, i, 1)]; }

      if At(px, i, 0) > maxn[0] { maxn := maxn[0 := At(px, i, 0)]; }
      if At(px, i, 1) > maxn[1] { maxn := maxn[1 := At(px, i, 1)]; }
    }
    assert Column(px, 0)[..16] == Column(px, 0) && Column(px, 1)[..16] == Column(px, 1);
    minX, maxX := NormalLow(minn[0], maxn[0]), NormalHigh(minn[0], maxn[0]);
    minY, maxY := NormalLow(minn[1], maxn[1]), NormalHigh(minn[1], maxn[1]);
  }

  /** The BC5 endpoints of a block are ordered, which is what EmitAlphaIndices
      asserts of its arguments. */
  lemma NormalsOrdered(px: Pixels)
    ensures NormalMinX(px) <= NormalMaxX(px) && NormalMinY(px) <= NormalMaxY(px)
  {
    ChannelOrdered(px, 0);
    ChannelOrdered(px, 1);
    NormalBox(ChannelMin(px, 0), ChannelMax(px, 0));
    NormalBox(ChannelMin(px, 1), ChannelMax(px, 1));
  }

  // ---------------------------------------------------------------------
  // BC1 colour endpoints and indices (ColorTo565, EmitColorIndices)
  // ---------------------------------------------------------------------

  /** A packed RGBA colour reduced to the 5:6:5 endpoint of a BC1 block: the
      top five bits of R in bits 11-15, the top six of G in bits 5-10, the top
      five of B in bits 0-4 (the source's masks and shifts select disjoint
      bits, so their OR is a sum). */
  function ColorTo565(color: nat): (r: nat)
    ensures r < TWO_16
    ensures r / 2048 == (color % 256) / 8
    ensures (r / 32) % 64 == (color / 256 % 256) / 4
    ensures r % 32 == (color / 65536 % 256) / 8
  {
    var r5, g6, b5 := (color % 256) / 8, (color / 256 % 256) / 4, (color / 65536 % 256) / 8;
    Fields565(r5, g6, b5);
    r5 * 2048 + g6 * 32 + b5
  }

  /** A 5-bit, a 6-bit and a 5-bit field side by side in 16 bits. */
  lemma Fields565(r5: nat, g6: nat, b5: nat)
    requires r5 < 32 && g6 < 64 && b5 < 32
    ensures var v := r5 * 2048 + g6 * 32 + b5;
      v < TWO_16 && v / 2048 == r5 && (v / 32) % 64 == g6 && v % 32 == b5
  {
    var v := r5 * 2048 + g6 * 32 + b5;
    assert v == (b5 + 32 * g6) + 2048 * r5;
    DivMulAdd(b5 + 32 * g6, 2048, r5);
    assert v == b5 + 32 * (g6 + 64 * r5);
    DivMulAdd(b5, 32, g6 + 64 * r5);
    DivMulAdd(g6, 64, r5);
  }

  datatype Rgb = Rgb(r: byte, g: byte, b: byte)

  /** (x & 0xF8) | (x >> 5): the top five bits of `x` with their own top three
      bits repeated below them. */
  function Expand5(x: byte): byte { (x / 8) * 8 + x / 32 }

  /** (x & 0xFC) | (x >> 6) */
  function Expand6(x: byte): byte { (x / 4) * 4 + x / 64 }

  /** The palette colour the encoder derives from a packed endpoint. */
  function Endpoint(color: nat): Rgb
  {
    Rgb(Expand5(color % 256), Expand6(color / 256 % 256), Expand5(color / 65536 % 256))
  }

  /** The colour a BC1 decoder rebuilds from a stored 5:6:5 endpoint by bit
      replication. */
  function Decode565(c: nat): Rgb
    requires c < TWO_16
  {
    var r5, g6, b5 := c / 2048, (c / 32) % 64, c % 32;
    Rgb(r5 * 8 + r5 / 4, g6 * 4 + g6 / 16, b5 * 8 + b5 / 4)
  }

  /** The endpoint colours the encoder scores pixels against are exactly the
      colours a decoder rebuilds from the stored 5:6:5 endpoints. */
  lemma EndpointIsDecoded(color: nat)
    ensures Endpoint(color) == Decode565(ColorTo565(color))
  {
  }

  /** (2a + b) / 3 per channel: the entry a third of the way from a to b. */
  function Mix(a: Rgb, b: Rgb): Rgb
  {
    Rgb((2 * a.r + b.r) / 3, (2 * a.g + b.g) / 3, (2 * a.b + b.b) / 3)
  }

  /** The four-entry BC1 palette: max, min and the two colours between. */
  function Palette(minColor: nat, maxColor: nat): (p: seq<Rgb>)
    ensures |p| == 4
  {
    var c0, c1 := Endpoint(maxColor), Endpoint(minColor);
    [c0, c1, Mix(c0, c1), Mix(c1, c0)]
  }

  /** Sum of absolute channel differences between a palette entry and pixel `i`. */
  function Distance(e: Rgb, px: Pixels, i: nat): nat
    requires i < 16
  {
    Abs(e.r - At(px, i, 0)) + Abs(e.g - At(px, i, 1)) + Abs(e.b - At(px, i, 2))
  }

  /** The index the comparison network picks from the four distances. It
      picks the strictly nearest entry when that is entry 0, 2 or 3; when
      entry 1 is strictly nearest it picks 1 only if entry 3 is also nearer
      than entries 0 and 2, and 0 otherwise. Equal distances give 0. */
  function ColorIndexOf(d0: nat, d1: nat, d2: nat, d3: nat): (r: nat)
    ensures r < 4
    ensures d0 < d1 && d0 < d2 && d0 < d3 ==> r == 0
    ensures d2 < d0 && d2 < d1 && d2 < d3 ==> r == 2
    ensures d3 < d0 && d3 < d1 && d3 < d2 ==> r == 3
    ensures d1 < d0 && d1 < d2 && d1 < d3 ==> r == (if d3 < d0 && d3 < d2 then 1 else 0)
    ensures d0 == d1 == d2 == d3 ==> r == 0
  {
    var b0, b1, b2, b3, b4 := d0 > d3, d1 > d2, d0 > d2, d1 > d3, d2 > d3;
    var x0, x1, x2 := b1 && b2, b0 && b3, b0 && b4;
    (if x2 then 1 else 0) + (if x0 || x1 then 2 else 0)
  }

  function ColorIndexAt(px: Pixels, pal: seq<Rgb>, i: nat): nat
    requires |pal| == 4 && i < 16
  {
    ColorIndexOf(Distance(pal[0], px, i), Distance(pal[1], px, i),
                 Distance(pal[2], px, i), Distance(pal[3], px, i))
  }

  /** The 16 colour indices of a block, pixel 0 first. */
  function ColorIndices(px: Pixels, pal: seq<Rgb>): (idx: seq<nat>)
    requires |pal| == 4
    ensures |idx| == 16 && AllBelow(idx, 4)
  {
    seq(16, i requires 0 <= i < 16 => ColorIndexAt(px, pal, i))
  }

  /** The power of four the colour indices use, spelled out. */
  lemma Pow4Facts()
    ensures Pow(4, 16) == Pow256(4) == 4294967296
  {
    assert Pow(4, 1) == 4;
    assert Pow(4, 2) == 16;
    assert Pow(4, 3) == 64;
    assert Pow(4, 4) == 256;
    assert Pow(4, 5) == 1024;
    assert Pow(4, 6) == 4096;
    assert Pow(4, 7) == 16384;
    assert Pow(4, 8) == 65536;
    assert Pow(4, 9) == 262144;
    assert Pow(4, 10) == 1048576;
    assert Pow(4, 11) == 4194304;
    assert Pow(4, 12) == 16777216;
    assert Pow(4, 13) == 67108864;
    assert Pow(4, 14) == 268435456;
    assert Pow(4, 15) == 1073741824;
    assert Pow(4, 16) == 4294967296;
    assert Pow256(4) == 4294967296;
  }

  /** The powers of eight the alpha indices use, spelled out. */
  lemma Pow8Facts()
    ensures Pow(8, 8) == Pow256(3) && Pow(8, 16) == Pow256(6)
  {
    assert Pow(8, 1) == 8;
    assert Pow(8, 2) == 64;
    assert Pow(8, 3) == 512;
    assert Pow(8, 4) == 4096;
    assert Pow(8, 5) == 32768;
    assert Pow(8, 6) == 262144;
    assert Pow(8, 7) == 2097152;
    assert Pow(8, 8) == 16777216;
    assert Pow(8, 9) == 134217728;
    assert Pow(8, 10) == 1073741824;
    assert Pow(8, 11) == 8589934592;
    assert Pow(8, 12) == 68719476736;
    assert Pow(8, 13) == 549755813888;
    assert Pow(8, 14) == 4398046511104;
    assert Pow(8, 15) == 35184372088832;
    assert Pow(8, 16) == 281474976710656;
    assert Pow256(3) == 16777216;
    assert Pow256(6) == 281474976710656;
  }

  /** The indices of pixels k to 15 in place at bit 2k and up. */
  function PackedFrom(ds: seq<nat>, k: nat): nat
    requires k <= |ds|
  {
    Pow(4, k) * FromDigits(ds[k..], 4)
  }

  /** One pass of the loop: pixel i's index, picked from its four
      distances, ORed in at bit 2i. */
  method OrColorIndex(px: Pixels, colors: seq<Rgb>, i: nat, acc: nat, high: nat) returns (acc': nat, low: nat)
    requires |colors| == 4 && i < 16
    requires high == Pow(4, i + 1) && acc == PackedFrom(ColorIndices(px, colors), i + 1)
    ensures low == Pow(4, i) && acc' == PackedFrom(ColorIndices(px, colors), i)
  {
    var d0, d1 := Distance(colors[0], px, i), Distance(colors[1], px, i);
    var d2, d3 := Distance(colors[2], px, i), Distance(colors[3], px, i);
    var index := ColorIndexOf(d0, d1, d2, d3);
    ghost var idx := ColorIndices(px, colors);
    assert index == idx[i];
    PackIndexStep(idx, i, acc, high);
    low := high / 4;
    acc' := acc + index * low;
  }

  /** The index of pixel i, ORed in at weight 4^i, extends the packed
      indices of the pixels above it. */
  lemma PackIndexStep(ds: seq<nat>, i: nat, acc: int, high: int)
    requires i < |ds| && high == Pow(4, i + 1) && acc == PackedFrom(ds, i + 1)
    ensures high / 4 == Pow(4, i)
    ensures acc + ds[i] * (high / 4) == PackedFrom(ds, i)
  {
    assert high == 4 * Pow(4, i);
    ShiftStep(ds, i);
  }

  lemma ShiftStep(ds: seq<nat>, i: nat)
    requires i < |ds|
    ensures Pow(4, i) * FromDigits(ds[i..], 4) == ds[i] * Pow(4, i) + Pow(4, i + 1) * FromDigits(ds[i + 1..], 4)
  {
    assert ds[i..][1..] == ds[i + 1..];
    var p, f := Pow(4, i), FromDigits(ds[i + 1..], 4);
    assert p * (ds[i] + 4 * f) == ds[i] * p + (4 * p) * f;
  }

  /** Builds the 32-bit index word from pixel 15 down to pixel 0; the source
      ORs each 2-bit index into its own, still clear, bit pair. */
  method EmitColorIndices(px: Pixels, minColor: nat, maxColor: nat) returns (result: nat)
    ensures result == FromDigits(ColorIndices(px, Palette(minColor, maxColor)), 4)
  {
    var colors := Palette(minColor, maxColor);
    result := PackColorIndices(px, colors);
  }

  /** Before the first pass: nothing is packed, and the weight above
      pixel 15 is 4^16. */
  lemma NothingPacked(ds: seq<nat>)
    requires |ds| == 16
    ensures PackedFrom(ds, 16) == 0 && Pow(4, 16) == 4294967296
  {
    Pow4Facts();
    assert ds[16..] == [];
  }

  /** EmitColorIndices' loop over the pixels, given the palette. */
  method PackColorIndices(px: Pixels, colors: seq<Rgb>) returns (result: nat)
    requires |colors| == 4
    ensures result == FromDigits(ColorIndices(px, colors), 4)
  {
    ghost var idx := ColorIndices(px, colors);
    var acc: nat := 0;
    var high: nat := 4294967296;
    NothingPacked(idx);
    var n := 16;
    while n > 0
      invariant n <= 16 && high == Pow(4, n) && acc == PackedFrom(idx, n)
    {
      acc, high := OrColorIndex(px, colors, n - 1, acc, high);
      n := n - 1;
    }
    AllPacked(idx);
    result := acc;
  }

  /** After the last pass every index is in place. */
  lemma AllPacked(ds: seq<nat>)
    ensures PackedFrom(ds, 0) == FromDigits(ds, 4)
  {
    assert ds[0..] == ds;
  }

  /** A 5:6:5 endpoint does not decrease when no channel decreases. */
  lemma To565Monotone(lo: nat, hi: nat)
    requires lo % 256 <= hi % 256 && lo / 256 % 256 <= hi / 256 % 256
    requires lo / 65536 % 256 <= hi / 65536 % 256
    ensures ColorTo565(lo) <= ColorTo565(hi)
  {
  }

  /** When both endpoints are the same colour, every pixel is equally far
      from all four entries and gets index 0. */
  lemma FlatPaletteIndices(px: Pixels, c: Rgb)
    ensures forall i :: 0 <= i < 16 ==> ColorIndices(px, [c, c, c, c])[i] == 0
  {
  }

  /** In BC1, endpoint 0 never ranks below endpoint 1, and when the two are
      equal (the three-colour mode, where index 3 means transparent) every
      pixel gets index 0. */
  lemma EndpointsNeverTransparent(px: Pixels)
    ensures ColorTo565(MaxColor(px)) >= ColorTo565(MinColor(px))
    ensures ColorTo565(MaxColor(px)) == ColorTo565(MinColor(px)) ==>
      forall i :: 0 <= i < 16 ==> ColorIndices(px, Palette(MinColor(px), MaxColor(px)))[i] == 0
  {
    var lo, hi := MinColor(px), MaxColor(px);
    Pack4Bytes(BoxLow(px, 0), BoxLow(px, 1), BoxLow(px, 2), BoxLow(px, 3));
    Pack4Bytes(BoxHigh(px, 0), BoxHigh(px, 1), BoxHigh(px, 2), BoxHigh(px, 3));
    BoxInset(px, 0);
    BoxInset(px, 1);
    BoxInset(px, 2);
    To565Monotone(lo, hi);
    if ColorTo565(hi) == ColorTo565(lo) {
      EndpointIsDecoded(lo);
      EndpointIsDecoded(hi);
      var c := Endpoint(hi);
      assert Mix(c, c) == c;
      assert Palette(lo, hi) == [c, c, c, c];
      FlatPaletteIndices(px, c);
    }
  }

  /** The first three channel bytes of a colour, as the encoder reads them. */
  lemma ChannelDigits(color: nat)
    ensures ChannelOf(color, 0) == color % 256
    ensures ChannelOf(color, 1) == color / 256 % 256
    ensures ChannelOf(color, 2) == color / 65536 % 256
    ensures ChannelOf(color, 3) == AlphaOf(color)
  {
    assert Digit(color, 256, 1) == Digit(color / 256, 256, 0);
    assert Digit(color, 256, 2) == Digit(color / 256, 256, 1) == Digit(color / 256 / 256, 256, 0);
    assert Digit(color, 256, 3) == Digit(color / 256, 256, 2) == Digit(color / 256 / 256, 256, 1)
        == Digit(color / 256 / 256 / 256, 256, 0);
    assert color / 256 / 256 == color / 65536;
    assert color / 256 / 256 / 256 == color / 16777216;
  }

  // ---------------------------------------------------------------------
  // BC3 alpha and BC4/BC5 channel indices (EmitAlphaIndices)
  // ---------------------------------------------------------------------

  /** The seven thresholds ab1..ab7 between neighbouring palette entries,
      each stored in a byte: ab1 = min + mid, abk = ((8-k)max + (k-1)min)/7
      + mid for k = 2..7, where mid = (max - min) / 14 is half a step. */
  function Thresholds(m: byte, hiA: byte): (ab: seq<byte>)
    ensures |ab| == 7
  {
    var mid := ((hiA - m) / 14) % 256;
    seq(7, k requires 0 <= k < 7 => (RawThreshold(m, hiA, k) + mid) % 256)
  }

  /** The threshold ab(k+1) before half a step is added. */
  function RawThreshold(m: byte, hiA: byte, k: nat): nat
  {
    if k == 0 then m
    else if k == 1 then (6 * hiA + 1 * m) / 7
    else if k == 2 then (5 * hiA + 2 * m) / 7
    else if k == 3 then (4 * hiA + 3 * m) / 7
    else if k == 4 then (3 * hiA + 4 * m) / 7
    else if k == 5 then (2 * hiA + 5 * m) / 7
    else (1 * hiA + 6 * m) / 7
  }

  function Le(a: byte, t: byte): nat { if a <= t then 1 else 0 }

  /** The index of value `a`: one more than the number of thresholds at or
      above it, modulo 8, with 0 and 1 swapped (`index ^ (2 > index)`). */
  function AlphaIndexOf(a: byte, ab: seq<byte>): (r: nat)
    requires |ab| == 7
    ensures r < 8
  {
    var s := Le(a, ab[0]) + Le(a, ab[1]) + Le(a, ab[2]) + Le(a, ab[3])
           + Le(a, ab[4]) + Le(a, ab[5]) + Le(a, ab[6]);
    var index := (s + 1) % 8;
    if 2 > index then 1 - index else index
  }

  /** With min <= max no threshold overflows its byte, and they fall from
      ab2 down to ab7 and then ab1. */
  lemma ThresholdsOrdered(m: byte, hiA: byte)
    requires m <= hiA
    ensures var ab := Thresholds(m, hiA); var mid := (hiA - m) / 14;
      ab[0] == m + mid && ab[1] == (6 * hiA + m) / 7 + mid && ab[6] == (hiA + 6 * m) / 7 + mid
      && ab[1] >= ab[2] >= ab[3] >= ab[4] >= ab[5] >= ab[6] >= ab[0]
  {
    var mid := (hiA - m) / 14;
    DivMono(5 * hiA + 2 * m, 6 * hiA + 1 * m);
    DivMono(4 * hiA + 3 * m, 5 * hiA + 2 * m);
    DivMono(3 * hiA + 4 * m, 4 * hiA + 3 * m);
    DivMono(2 * hiA + 5 * m, 3 * hiA + 4 * m);
    DivMono(1 * hiA + 6 * m, 2 * hiA + 5 * m);
    DivMono(7 * m, 1 * hiA + 6 * m);
    TopThresholdFits(m, hiA);
    ByteStore(mid);
    var ab := Thresholds(m, hiA);
    forall k | 0 <= k < 7
      ensures ab[k] == RawThreshold(m, hiA, k) + mid
    {
      ByteStore(RawThreshold(m, hiA, k) + mid);
    }
  }

  lemma ByteStore(x: int)
    requires 0 <= x < 256
    ensures x % 256 == x
  {
  }

  /** ab2 before its byte store is at most max: no threshold wraps. */
  lemma TopThresholdFits(m: byte, hiA: byte)
    requires m <= hiA
    ensures (6 * hiA + 1 * m) / 7 + (hiA - m) / 14 <= hiA
  {
    var d := hiA - m;
    var q, r := (6 * d) / 7, d / 14;
    assert 6 * hiA + 1 * m == (6 * d) % 7 + 7 * (m + q);
    DivMulAdd((6 * d) % 7, 7, m + q);
    assert 7 * q <= 6 * d && 14 * r <= d;
  }

  lemma DivMono(x: nat, y: nat)
    requires x <= y
    ensures x / 7 <= y / 7
  {
  }

  /** Against falling thresholds the index is that of the palette interval
      `a` falls in: 0 (the maximum) above ab2, 1 (the minimum) at or below
      ab1, and k in 2..7 above the next lower threshold and at or below that
      of k. */
  lemma AlphaIndexInterval(a: byte, ab: seq<byte>)
    requires |ab| == 7 && ab[1] >= ab[2] >= ab[3] >= ab[4] >= ab[5] >= ab[6] >= ab[0]
    ensures var r := AlphaIndexOf(a, ab);
      (r == 0 <==> a > ab[1]) && (r == 1 <==> a <= ab[0])
      && (forall k :: 2 <= k < 7 ==> (r == k <==> ab[k] < a <= ab[k - 1]))
      && (r == 7 <==> ab[0] < a <= ab[6])
  {
  }

  /** The 16 indices of one channel of a block, pixel 0 first. */
  function AlphaIndices(px: Pixels, channel: nat, m: byte, hiA: byte): (idx: seq<nat>)
    requires channel < 4
    ensures |idx| == 16 && AllBelow(idx, 8)
  {
    var ab := Thresholds(m, hiA);
    seq(16, i requires 0 <= i < 16 => AlphaIndexOf(At(px, i, channel), ab))
  }

  /** The six index bytes: each byte takes the next 8 bits of the 3-bit
      indices, an index that straddles two bytes split between them (the
      fields ORed into a byte are disjoint, so the OR is a sum; the store to
      a byte drops the high bits). */
  function AlphaBitmap(idx: seq<nat>): (bm: seq<byte>)
    requires |idx| == 16
    ensures |bm| == 6
  {
    AlphaGroup(idx[..8]) + AlphaGroup(idx[8..])
  }

  /** Three of the index bytes, from eight 3-bit indices: pixels 0-7 give
      bytes 0-2 and pixels 8-15 bytes 3-5, in the same pattern. */
  function AlphaGroup(ds: seq<nat>): (bm: seq<byte>)
    requires |ds| == 8
    ensures |bm| == 3
  {
    [(ds[0] + ds[1] * 8 + ds[2] * 64) % 256,
     (ds[2] / 4 + ds[3] * 2 + ds[4] * 16 + ds[5] * 128) % 256,
     (ds[5] / 2 + ds[6] * 4 + ds[7] * 32) % 256]
  }

  lemma FromDigits8(ds: seq<nat>)
    requires |ds| == 8
    ensures FromDigits(ds, 8) == ds[0] + 8 * ds[1] + 64 * ds[2] + 512 * ds[3] + 4096 * ds[4]
                                 + 32768 * ds[5] + 262144 * ds[6] + 2097152 * ds[7]
  {
    assert ds[7..][1..] == [];
    assert FromDigits(ds[7..], 8) == ds[7];
    assert ds[6..][1..] == ds[7..];
    assert FromDigits(ds[6..], 8) == ds[6] + 8 * ds[7];
    assert ds[5..][1..] == ds[6..];
    assert FromDigits(ds[5..], 8) == ds[5] + 8 * FromDigits(ds[6..], 8);
    assert ds[4..][1..] == ds[5..];
    assert FromDigits(ds[4..], 8) == ds[4] + 8 * FromDigits(ds[5..], 8);
    assert ds[3..][1..] == ds[4..];
    assert FromDigits(ds[3..], 8) == ds[3] + 8 * FromDigits(ds[4..], 8);
    assert ds[2..][1..] == ds[3..];
    assert FromDigits(ds[2..], 8) == ds[2] + 8 * FromDigits(ds[3..], 8);
    assert ds[1..][1..] == ds[2..];
    assert FromDigits(ds[1..], 8) == ds[1] + 8 * FromDigits(ds[2..], 8);
  }

  /** Eight 3-bit fields, as one number, split into three bytes. */
  lemma GroupBytes(i0: nat, i1: nat, i2: nat, i3: nat, i4: nat, i5: nat, i6: nat, i7: nat)
    requires i0 < 8 && i1 < 8 && i2 < 8 && i3 < 8 && i4 < 8 && i5 < 8 && i6 < 8 && i7 < 8
    ensures var v := i0 + 8 * i1 + 64 * i2 + 512 * i3 + 4096 * i4 + 32768 * i5 + 262144 * i6 + 2097152 * i7;
      v % 256 == (i0 + i1 * 8 + i2 * 64) % 256
      && v / 256 % 256 == (i2 / 4 + i3 * 2 + i4 * 16 + i5 * 128) % 256
      && v / 256 / 256 % 256 == (i5 / 2 + i6 * 4 + i7 * 32) % 256
  {
    var v := i0 + 8 * i1 + 64 * i2 + 512 * i3 + 4096 * i4 + 32768 * i5 + 262144 * i6 + 2097152 * i7;
    var a := i0 + 8 * i1 + 64 * (i2 % 4);
    var v1 := i2 / 4 + 2 * i3 + 16 * i4 + 128 * i5 + 1024 * i6 + 8192 * i7;
    assert v == a + 256 * v1;
    DivMulAdd(a, 256, v1);
    var c := i2 / 4 + 2 * i3 + 16 * i4 + 128 * (i5 % 2);
    var v2 := i5 / 2 + 4 * i6 + 32 * i7;
    assert v1 == c + 256 * v2;
    DivMulAdd(c, 256, v2);
    assert i0 + i1 * 8 + i2 * 64 == a + 256 * (i2 / 4);
    DivMulAdd(a, 256, i2 / 4);
    assert i2 / 4 + i3 * 2 + i4 * 16 + i5 * 128 == c + 256 * (i5 / 2);
    DivMulAdd(c, 256, i5 / 2);
    DivMulAdd(v2, 256, 0);
  }

  lemma LE3(v: nat)
    ensures LE(v, 3) == [v % 256, v / 256 % 256, v / 256 / 256 % 256]
  {
    assert LE(v, 3) == [v % 256] + LE(v / 256, 2);
    assert LE(v / 256, 2) == [v / 256 % 256] + LE(v / 256 / 256, 1);
  }

  /** Eight 3-bit indices fill three bytes, least significant first. */
  lemma PackGroup(ds: seq<nat>)
    requires |ds| == 8 && AllBelow(ds, 8)
    ensures LE(FromDigits(ds, 8), 3) == AlphaGroup(ds)
  {
    FromDigits8(ds);
    LE3(FromDigits(ds, 8));
    GroupBytes(ds[0], ds[1], ds[2], ds[3], ds[4], ds[5], ds[6], ds[7]);
  }

  /** The six index bytes are the 48-bit little-endian word holding index k
      in bits 3k..3k+2. */
  lemma AlphaBitmapPacks(idx: seq<nat>)
    requires |idx| == 16 && AllBelow(idx, 8)
    ensures AlphaBitmap(idx) == LE(FromDigits(idx, 8), 6)
  {
    var lo, hi := idx[..8], idx[8..];
    var a, b := FromDigits(lo, 8), FromDigits(hi, 8);
    assert FromDigits(idx, 8) == a + Pow256(3) * b && a < Pow256(3) by {
      FromDigitsSplit(idx, 8, 8);
      FromDigitsBound(lo, 8);
      Pow8Facts();
    }
    LESplit(a, b, 3, 3);
    PackGroup(lo);
    PackGroup(hi);
  }

  /** Index k of a block reads back from its six index bytes as bits
      3k..3k+2 of their little-endian value. */
  lemma AlphaIndexReadBack(idx: seq<nat>, k: nat)
    requires |idx| == 16 && AllBelow(idx, 8) && k < 16
    ensures Digit(FromLE(AlphaBitmap(idx)), 8, k) == idx[k]
  {
    AlphaBitmapPacks(idx);
    FromDigitsBound(idx, 8);
    Pow8Facts();
    FromLEOfLE(FromDigits(idx, 8), 6);
    DigitOfFromDigits(idx, 8, k);
  }

  method EmitAlphaIndices(px: Pixels, channel: nat, m: byte, hiA: byte) returns (bitmap: seq<byte>)
    requires channel < 4
    requires hiA >= m
    ensures bitmap == AlphaBitmap(AlphaIndices(px, channel, m, hiA))
  {
    var ab := Thresholds(m, hiA);
    var indices: seq<nat> := [];
    for i := 0 to 16
      invariant |indices| == i
      invariant forall j :: 0 <= j < i ==> indices[j] == AlphaIndexOf(At(px, j, channel), ab)
    {
      indices := indices + [AlphaIndexOf(At(px, i, channel), ab)];
    }
    assert indices == AlphaIndices(px, channel, m, hiA);
    bitmap := AlphaBitmap(indices);
  }

  // ---------------------------------------------------------------------
  // Whole blocks (the bodies of CompressBC1, CompressBC3, CompressBC5U)
  // ---------------------------------------------------------------------

  /** The alpha byte of a packed colour: (color >> 24) & 0xff. */
  function AlphaOf(color: nat): byte { color / 16777216 % 256 }

  /** struct BC1 { uint16 rgb[2]; uint32 bitmap; } in memory. */
  function BC1Block(px: Pixels): (b: seq<byte>)
    ensures |b| == 8
  {
    var lo, hi := MinColor(px), MaxColor(px);
    LE(ColorTo565(hi), 2) + LE(ColorTo565(lo), 2)
      + LE(FromDigits(ColorIndices(px, Palette(lo, hi)), 4), 4)
  }

  /** struct BC3 { uint8 alpha[2]; uint8 bitmap[6]; BC1 bc1; } in memory. */
  function BC3Block(px: Pixels): (b: seq<byte>)
    ensures |b| == 16
  {
    var lo, hi := MinColor(px), MaxColor(px);
    [AlphaOf(hi), AlphaOf(lo)]
      + AlphaBitmap(AlphaIndices(px, 3, AlphaOf(lo), AlphaOf(hi)))
      + BC1Block(px)
  }

  /** struct BC5U { BC4U x; BC4U y; }, each BC4U { uint8 red_0, red_1;
      uint8 indices[6]; }, in memory. */
  function BC5Block(px: Pixels): (b: seq<byte>)
    ensures |b| == 16
  {
    [NormalMaxX(px), NormalMinX(px)]
      + AlphaBitmap(AlphaIndices(px, 0, NormalMinX(px), NormalMaxX(px)))
      + [NormalMaxY(px), NormalMinY(px)]
      + AlphaBitmap(AlphaIndices(px, 1, NormalMinY(px), NormalMaxY(px)))
  }

  /** The alpha channel of the inset box is ordered, which is what
      EmitAlphaIndices asserts of its arguments on the BC3 path. */
  lemma AlphaOrdered(px: Pixels)
    ensures AlphaOf(MinColor(px)) <= AlphaOf(MaxColor(px))
  {
    ColorChannels(px, 3);
    BoxInset(px, 3);
    ChannelDigits(MinColor(px));
    ChannelDigits(MaxColor(px));
  }

  method CompressBlockBC1(px: Pixels) returns (out: seq<byte>)
    ensures out == BC1Block(px)
  {
    var minColor, maxColor := GetMinMaxColors(px);
    var bitmap := EmitColorIndices(px, minColor, maxColor);
    out := LE(ColorTo565(maxColor), 2) + LE(ColorTo565(minColor), 2) + LE(bitmap, 4);
  }

  method CompressBlockBC3(px: Pixels) returns (out: seq<byte>)
    ensures out == BC3Block(px)
  {
    var minColor, maxColor := GetMinMaxColors(px);
    var bitmap := EmitColorIndices(px, minColor, maxColor);
    var bc1 := LE(ColorTo565(maxColor), 2) + LE(ColorTo565(minColor), 2) + LE(bitmap, 4);
    var minAlpha, maxAlpha := AlphaOf(minColor), AlphaOf(maxColor);
    AlphaOrdered(px);
    var alphaBits := EmitAlphaIndices(px, 3, minAlpha, maxAlpha);
    out := [maxAlpha, minAlpha] + alphaBits + bc1;
  }

  method CompressBlockBC5(px: Pixels) returns (out: seq<byte>)
    ensures out == BC5Block(px)
  {
    var minX, maxX, minY, maxY := GetMinMaxNormals(px);
    NormalsOrdered(px);
    var xBits := EmitAlphaIndices(px, 0, minX, maxX);
    var yBits := EmitAlphaIndices(px, 1, minY, maxY);
    out := [maxX, minX] + xBits + [maxY, minY] + yBits;
  }

  /** What a BC1 decoder reads back from an encoded block: endpoint 0 is the
      5:6:5 form of the inset maximum, endpoint 1 of the inset minimum, and
      the 2-bit field of pixel k is the index chosen for it. */
  lemma BC1ReadBack(px: Pixels, k: nat)
    requires k < 16
    ensures var b := BC1Block(px);
      FromLE(b[0..2]) == ColorTo565(MaxColor(px))
      && FromLE(b[2..4]) == ColorTo565(MinColor(px))
      && Digit(FromLE(b[4..8]), 4, k) == ColorIndexAt(px, Palette(MinColor(px), MaxColor(px)), k)
  {
    var lo, hi := MinColor(px), MaxColor(px);
    var idx := ColorIndices(px, Palette(lo, hi));
    FromDigitsBound(idx, 4);
    Pow4Facts();
    BC1Fields(ColorTo565(hi), ColorTo565(lo), FromDigits(idx, 4));
    DigitOfFromDigits(idx, 4, k);
  }

  /** The three fields of a BC1 block read back from their byte ranges. */
  lemma BC1Fields(e0: nat, e1: nat, bits: nat)
    requires e0 < TWO_16 && e1 < TWO_16 && bits < TWO_32
    ensures var b := LE(e0, 2) + LE(e1, 2) + LE(bits, 4);
      FromLE(b[0..2]) == e0 && FromLE(b[2..4]) == e1 && FromLE(b[4..8]) == bits
  {
    var b := LE(e0, 2) + LE(e1, 2) + LE(bits, 4);
    assert b[0..2] == LE(e0, 2);
    assert b[2..4] == LE(e1, 2);
    assert b[4..8] == LE(bits, 4);
    assert Pow256(2) == TWO_16 && Pow256(4) == TWO_32;
    FromLEOfLE(e0, 2);
    FromLEOfLE(e1, 2);
    FromLEOfLE(bits, 4);
  }

  /** What a BC3 decoder reads back from the alpha half of an encoded block:
      alpha 0 is the inset maximum, alpha 1 the inset minimum, and the 3-bit
      field of pixel k is the index chosen for its alpha. */
  lemma BC3AlphaReadBack(px: Pixels, k: nat)
    requires k < 16
    ensures var b := BC3Block(px); var lo, hi := AlphaOf(MinColor(px)), AlphaOf(MaxColor(px));
      b[0] == hi && b[1] == lo && lo <= hi
      && Digit(FromLE(b[2..8]), 8, k) == AlphaIndexOf(At(px, k, 3), Thresholds(lo, hi))
      && b[8..] == BC1Block(px)
  {
    var lo, hi := AlphaOf(MinColor(px)), AlphaOf(MaxColor(px));
    var idx := AlphaIndices(px, 3, lo, hi);
    var b := BC3Block(px);
    assert b[2..8] == AlphaBitmap(idx);
    AlphaIndexReadBack(idx, k);
    AlphaOrdered(px);
  }
}
