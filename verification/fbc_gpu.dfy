// The GPU path of the FastBlockCompress sample (CompressorGPU): the
// power-of-two test, the argument checks and format mapping of Prepare and
// Compress, the mip and descriptor counts Prepare works with, and the
// sequence of compute passes Compress records for a mip chain. The
// pipeline objects, descriptors and command list are not modelled; a pass
// is described by the mip it starts at, the shader it uses and the width of
// its dispatch.

module FbcGpu {
  import opened Common
  import opened Radix
  import opened Dx
  import opened FbcCpu

  const COMPRESS_TWO_MIPS_SIZE_THRESHOLD: nat := 512
  const COMPRESS_ONE_MIP_THREADGROUP_WIDTH: nat := 8
  const COMPRESS_TWO_MIPS_THREADGROUP_WIDTH: nat := 16

  // ---------------------------------------------------------------------
  // Powers of two
  // ---------------------------------------------------------------------

  /** ispow2: x is non-zero and `x & (x - 1)` is zero. */
  predicate IsPow2Bits(x: nat)
  {
    x != 0 && BitAnd(x, x - 1) == 0
  }

  /** Clearing the lowest set bit leaves nothing exactly for the powers of two. */
  lemma {:induction false} IsPow2BitsIff(x: nat)
    ensures IsPow2Bits(x) <==> IsPow2(x)
  {
    if x > 1 {
      if x % 2 == 0 {
        assert (x - 1) / 2 == x / 2 - 1 && (x - 1) % 2 == 1;
        assert BitAnd(x, x - 1) == 2 * BitAnd(x / 2, x / 2 - 1);
        IsPow2BitsIff(x / 2);
      } else {
        assert (x - 1) / 2 == x / 2 && (x - 1) % 2 == 0;
        assert BitAnd(x, x - 1) == 2 * BitAnd(x / 2, x / 2);
        BitAndSelf(x / 2);
      }
    }
  }

  /** The exponent of a power of two. */
  function Log2(x: nat): (n: nat)
    requires IsPow2(x)
    ensures Pow(2, n) == x
  {
    if x == 1 then 0 else 1 + Log2(x / 2)
  }

  lemma {:induction false} Pow2Add(a: nat, b: nat)
    ensures Pow(2, a + b) == Pow(2, a) * Pow(2, b)
  {
    if a > 0 {
      Pow2Add(a - 1, b);
      assert Pow(2, a + b) == 2 * Pow(2, a - 1 + b);
      assert 2 * (Pow(2, a - 1) * Pow(2, b)) == (2 * Pow(2, a - 1)) * Pow(2, b);
    }
  }

  lemma {:induction false} Pow2Less(a: nat, b: nat)
    requires a < b
    ensures Pow(2, a) < Pow(2, b)
  {
    if a < b - 1 {
      Pow2Less(a, b - 1);
    }
    assert Pow(2, b) == 2 * Pow(2, b - 1);
  }

  /** Powers of two are ordered as their exponents. */
  lemma Pow2Order(a: nat, b: nat)
    ensures Pow(2, a) < Pow(2, b) <==> a < b
    ensures Pow(2, a) == Pow(2, b) <==> a == b
  {
    if a < b {
      Pow2Less(a, b);
    } else if b < a {
      Pow2Less(b, a);
    }
  }

  lemma Pow2Div(n: nat, i: nat)
    requires i <= n
    ensures Pow(2, n) / Pow(2, i) == Pow(2, n - i)
  {
    Pow2Add(i, n - i);
    DivModUnique(Pow(2, n), Pow(2, i), Pow(2, n - i), 0);
  }

  lemma SmallPows()
    ensures Pow(2, 2) == 4 && Pow(2, 3) == 8 && Pow(2, 4) == 16 && Pow(2, 9) == 512
  {
    assert Pow(2, 1) == 2;
    assert Pow(2, 2) == 4;
    assert Pow(2, 3) == 8;
    assert Pow(2, 4) == 16;
    assert Pow(2, 5) == 32;
    assert Pow(2, 6) == 64;
    assert Pow(2, 7) == 128;
    assert Pow(2, 8) == 256;
  }

  /** Mip `i` of a 2^n texture is 2^(n-i) wide. */
  lemma WidthAt(n: nat, i: nat)
    requires i <= n && Pow(2, n) < TWO_32
    ensures LevelSize(Pow(2, n), i) == Pow(2, n - i)
  {
    Pow2Div(n, i);
  }

  // ---------------------------------------------------------------------
  // Argument checks and formats
  // ---------------------------------------------------------------------

  /** The uint format of the intermediate texture that holds one compressed
      block per texel. */
  function IntermediateFormat(bcFormat: nat): (r: Option<nat>)
    ensures r.Some? <==> IsBlockFormat(bcFormat)
    ensures r.Some? ==> TexelBytes(r.value) == BytesPerBlock(bcFormat)
  {
    if bcFormat == BC1_UNORM then Some(R32G32_UINT)
    else if bcFormat == BC3_UNORM || bcFormat == BC5_UNORM then Some(R32G32B32A32_UINT)
    else None
  }

  /** Bytes per texel of the two intermediate formats. */
  function TexelBytes(fmt: nat): nat
  {
    if fmt == R32G32_UINT then 8 else if fmt == R32G32B32A32_UINT then 16 else 0
  }

  /** The checks at the head of Prepare and Compress, in order: size and mip
      count, the output pointers (Prepare only; Compress passes true), the
      format, then the power-of-two size. None when all pass. */
  function Check(texSize: u32, bcFormat: nat, mipLevels: u32, outputsPresent: bool): (r: Option<nat>)
    ensures r == None <==>
      16 <= texSize && 1 <= mipLevels <= REQ_MIP_LEVELS && outputsPresent
      && IsBlockFormat(bcFormat) && IsPow2(texSize)
    ensures r == Some(E_NOT_SUPPORTED) <==>
      16 <= texSize && 1 <= mipLevels <= REQ_MIP_LEVELS && outputsPresent
      && IsBlockFormat(bcFormat) && !IsPow2(texSize)
    ensures r == None || r == Some(E_INVALIDARG) || r == Some(E_NOT_SUPPORTED)
  {
    IsPow2BitsIff(texSize);
    if texSize < 16 || mipLevels == 0 || mipLevels > REQ_MIP_LEVELS then Some(E_INVALIDARG)
    else if !outputsPresent then Some(E_INVALIDARG)
    else if IntermediateFormat(bcFormat).None? then Some(E_INVALIDARG)
    else if !IsPow2Bits(texSize) then Some(E_NOT_SUPPORTED)
    else None
  }

  // ---------------------------------------------------------------------
  // Prepare
  // ---------------------------------------------------------------------

  /** What Prepare sets up: the intermediate format, the mip counts of the
      compressed and intermediate textures, and whether the two extra 2x2 and
      1x1 intermediate textures are made. */
  datatype Plan = Plan(intermediateFormat: nat, numMips: u32, numIntermediateMips: u32, generateMips: bool)

  /** A shader resource view of the compressed texture. */
  datatype SrvView = SrvView(mostDetailedMip: nat, mipLevels: nat)

  function Upto(n: nat): seq<nat>
  {
    seq(n, i => i)
  }

  /** The descriptor slots Prepare writes an unordered access view into, in
      order: one per intermediate mip, then the 2x2 and 1x1 textures. */
  function UavSlots(p: Plan): seq<nat>
  {
    Upto(p.numIntermediateMips)
      + (if p.generateMips then [p.numIntermediateMips as nat, Wrap32(p.numIntermediateMips + 1) as nat] else [])
  }

  /** The shader resource view in slot i sees mips i to the last. */
  function SrvViews(p: Plan): (r: seq<SrvView>)
    ensures |r| == p.numMips
    ensures forall i :: 0 <= i < |r| ==>
      r[i].mostDetailedMip == i && r[i].mipLevels >= 1 && r[i].mostDetailedMip + r[i].mipLevels == p.numMips
  {
    seq(p.numMips, i requires 0 <= i < p.numMips => SrvView(i, p.numMips - i))
  }

  /** CompressorGPU::Prepare as written: with generateMips the intermediate
      count is numMips - 2 in uint32_t arithmetic. */
  function PrepareAsWritten(texSize: u32, bcFormat: nat, mipLevels: u32, outputsPresent: bool,
                            generateMips: bool): (r: Result<Plan, nat>)
    ensures r.Err? ==> Check(texSize, bcFormat, mipLevels, outputsPresent) == Some(r.error)
    ensures r.Ok? ==> (Check(texSize, bcFormat, mipLevels, outputsPresent) == None
      && TexelBytes(r.value.intermediateFormat) == BytesPerBlock(bcFormat)
      && r.value.numMips == (if generateMips then mipLevels else 1)
      && (generateMips && mipLevels >= 2 ==> r.value.numIntermediateMips + 2 == mipLevels)
      && (!generateMips ==> r.value.numIntermediateMips == 1))
  {
    var chk := Check(texSize, bcFormat, mipLevels, outputsPresent);
    if chk.Some? then Err(chk.value)
    else
      var numMips: u32 := if generateMips then mipLevels else 1;
      var numIntermediateMips: u32 := if generateMips then Wrap32(numMips - 2) else 1;
      assert generateMips && mipLevels >= 2 ==> numIntermediateMips == mipLevels - 2 by {
        if generateMips && mipLevels >= 2 { Wrap32Small(mipLevels - 2); }
      }
      Ok(Plan(IntermediateFormat(bcFormat).value, numMips, numIntermediateMips, generateMips))
  }

  /** With generateMips and a single mip level the checks pass, the
      intermediate count wraps to 2^32 - 1, and Prepare's view loop writes
      slot 15 and beyond of the 15-entry descriptor table. */
  lemma OneMipWrapsIntermediateCount()
    ensures var r := PrepareAsWritten(16, BC1_UNORM, 1, true, true);
      r.Ok? && r.value.numIntermediateMips == 0xFFFF_FFFF
      && |UavSlots(r.value)| > REQ_MIP_LEVELS && UavSlots(r.value)[REQ_MIP_LEVELS] == REQ_MIP_LEVELS
  {
    assert IsPow2(2) && IsPow2(4) && IsPow2(8) && IsPow2(16);
    Wrap32Shift(-1, 1);
    Wrap32Small(0xFFFF_FFFF);
  }

  /** Prepare with the generateMips case requiring at least the two mips it
      always writes. */
  function Prepare(texSize: u32, bcFormat: nat, mipLevels: u32, outputsPresent: bool,
                   generateMips: bool): (r: Result<Plan, nat>)
    ensures r.Err? <==> Check(texSize, bcFormat, mipLevels, outputsPresent).Some? || (generateMips && mipLevels < 2)
    ensures r.Ok? ==> (TexelBytes(r.value.intermediateFormat) == BytesPerBlock(bcFormat)
      && r.value.numMips == (if generateMips then mipLevels else 1))
  {
    if generateMips && mipLevels < 2 then Err(E_INVALIDARG)
    else PrepareAsWritten(texSize, bcFormat, mipLevels, outputsPresent, generateMips)
  }

  /** Every view Prepare creates has its own slot in the 15-entry descriptor
      tables: the unordered access views fill slots 0 to numMips - 1 once
      each, and there is a shader resource view per mip. */
  lemma PrepareViewsFit(texSize: u32, bcFormat: nat, mipLevels: u32, outputsPresent: bool, generateMips: bool)
    requires Prepare(texSize, bcFormat, mipLevels, outputsPresent, generateMips).Ok?
    ensures var p := Prepare(texSize, bcFormat, mipLevels, outputsPresent, generateMips).value;
      UavSlots(p) == Upto(p.numMips) && |SrvViews(p)| == p.numMips <= REQ_MIP_LEVELS
      && (generateMips ==> p.numIntermediateMips + 2 == p.numMips)
  {
    var p := Prepare(texSize, bcFormat, mipLevels, outputsPresent, generateMips).value;
    if generateMips {
      var m := p.numMips;
      Wrap32Small(m - 1);
      assert UavSlots(p) == Upto(m - 2) + [m - 2, m - 1];
      assert forall j :: 0 <= j < m ==> UavSlots(p)[j] == j;
    } else {
      assert UavSlots(p) == [0];
    }
  }

  // ---------------------------------------------------------------------
  // Compress
  // ---------------------------------------------------------------------

  /** The three compute shaders: one mip, two mips at once, and the tail
      shader that compresses the 16x16 mip and the four below it. */
  datatype PassKind = OneMip | TwoMips | TailMips

  /** A compute pass: the mip it starts at, its shader, and the width (and
      height) in thread groups of its dispatch. */
  datatype ComputePass = ComputePass(mip: nat, kind: PassKind, groups: nat)

  /** How many mips a pass compresses. */
  function Span(k: PassKind): nat
  {
    match k
    case OneMip => 1
    case TwoMips => 2
    case TailMips => 5
  }

  /** The mip after the ones a pass compresses. */
  function Next(p: ComputePass): nat { p.mip + Span(p.kind) }

  /** One past the last intermediate descriptor a pass binds: the one-mip
      and two-mip passes bind slots mip and mip + 1, the tail pass five. */
  function Bound(p: ComputePass): nat
  {
    if p.kind == TailMips then p.mip + 5 else p.mip + 2
  }

  /** Thread-group width of the one-mip and two-mip shaders. */
  function GroupWidth(k: PassKind): nat
  {
    if k == TwoMips then COMPRESS_TWO_MIPS_THREADGROUP_WIDTH else COMPRESS_ONE_MIP_THREADGROUP_WIDTH
  }

  /** A pass at mip `p.mip` of a `texSize` texture: the tail shader exactly
      at the 16-wide mip, the two-mip shader only where allowed and at least
      512 wide (and always there while allowed), and a dispatch whose groups
      cover the mip's 4x4 blocks exactly. */
  predicate PassFits(texSize: u32, allowTwo: bool, p: ComputePass)
  {
    var w := LevelSize(texSize, p.mip);
    (p.kind == TailMips <==> w == 16)
    && (p.kind == TwoMips ==> allowTwo && w >= COMPRESS_TWO_MIPS_SIZE_THRESHOLD)
    && (p.kind == OneMip && allowTwo ==> w < COMPRESS_TWO_MIPS_SIZE_THRESHOLD)
    && (if p.kind == TailMips then p.groups == 1 else p.groups * GroupWidth(p.kind) * 4 == w)
  }

  /** Where the passes end: the mip after the last one. */
  function End(passes: seq<ComputePass>): nat
  {
    if passes == [] then 0 else Next(passes[|passes| - 1])
  }

  /** Passes that start at mip 0, each starting where the one before ended. */
  predicate Chained(passes: seq<ComputePass>)
  {
    |passes| >= 1 && passes[0].mip == 0
    && forall k :: 0 <= k < |passes| - 1 ==> passes[k + 1].mip == Next(passes[k])
  }

  /** The passes Compress records for `numMips` mips: chained, every pass
      starting at a mip that exists and fitting its width, the tail pass
      last if present, and the loop stopping only at the tail or past the
      last mip. */
  predicate Schedule(texSize: u32, allowTwo: bool, numMips: nat, passes: seq<ComputePass>)
  {
    Chained(passes)
    && (forall k :: 0 <= k < |passes| ==> passes[k].mip < numMips && PassFits(texSize, allowTwo, passes[k]))
    && (forall k :: 0 <= k < |passes| - 1 ==> passes[k].kind != TailMips)
    && (passes[|passes| - 1].kind == TailMips || End(passes) >= numMips)
  }

  /** A complete mip chain: `mipLevels` mips from texSize down to 1x1. */
  predicate FullChain(texSize: nat, mipLevels: nat)
  {
    mipLevels >= 1 && Pow(2, mipLevels - 1) == texSize
  }

  /** The mips the passes compress, in order. */
  function Written(passes: seq<ComputePass>): seq<nat>
  {
    if passes == [] then []
    else
      var p := passes[|passes| - 1];
      Written(passes[..|passes| - 1]) + seq(Span(p.kind), j => p.mip + j)
  }

  /** Chained passes compress mips 0 to End - 1, each exactly once. */
  lemma {:induction false} ChainedWritesEachMipOnce(passes: seq<ComputePass>)
    requires Chained(passes)
    ensures Written(passes) == Upto(End(passes))
  {
    var n := |passes|;
    var p := passes[n - 1];
    var front := passes[..n - 1];
    if n == 1 {
      assert Written(passes) == Written([]) + seq(Span(p.kind), j => p.mip + j);
    } else {
      assert Chained(front);
      ChainedWritesEachMipOnce(front);
      assert End(front) == p.mip;
      assert Written(passes) == Upto(p.mip) + seq(Span(p.kind), j => p.mip + j);
    }
  }

  /** CompressorGPU::Compress: the checks, then the mip loop. The two-mip
      shader is allowed with generateMips and never for BC3. */
  method Compress(texSize: u32, bcFormat: nat, mipLevels: u32, generateMips: bool)
    returns (r: Result<seq<ComputePass>, nat>)
    ensures r.Err? ==> Check(texSize, bcFormat, mipLevels, true) == Some(r.error)
    ensures r.Ok? ==> (Check(texSize, bcFormat, mipLevels, true) == None
      && Schedule(texSize, generateMips && bcFormat != BC3_UNORM, if generateMips then mipLevels else 1, r.value))
    ensures r.Ok? && generateMips && FullChain(texSize, mipLevels) ==>
      (r.value[|r.value| - 1].kind == TailMips && End(r.value) == mipLevels
       && forall k :: 0 <= k < |r.value| ==> Bound(r.value[k]) <= mipLevels)
  {
    var chk := Check(texSize, bcFormat, mipLevels, true);
    if chk.Some? {
      return Err(chk.value);
    }
    var numMips: nat := if generateMips then mipLevels else 1;
    var passes := MipPasses(texSize, generateMips && bcFormat != BC3_UNORM, numMips);
    if generateMips && FullChain(texSize, mipLevels) {
      Pow2Order(mipLevels - 1, Log2(texSize));
    }
    r := Ok(passes);
  }

  /** The mip loop of Compress over `numMips` mips of a power-of-two texture
      at least 16 wide. A pass at a mip 16 wide is the tail pass and ends
      the loop; while the two-mip shader is in use it is dropped at the
      first mip narrower than 512. Every descriptor a pass binds belongs to
      a mip of the full chain, and on a full chain the passes end exactly at
      its last mip, with the tail pass. */
  method MipPasses(texSize: u32, allowTwo: bool, numMips: nat) returns (passes: seq<ComputePass>)
    requires IsPow2(texSize) && texSize >= 16 && numMips >= 1
    ensures Schedule(texSize, allowTwo, numMips, passes)
    ensures forall k :: 0 <= k < |passes| ==> Bound(passes[k]) <= Log2(texSize) + 1
    ensures numMips == Log2(texSize) + 1 ==> passes[|passes| - 1].kind == TailMips && End(passes) == numMips
  {
    var twoMips := allowTwo;
    ghost var n := Log2(texSize);
    assert n >= 4 by {
      SmallPows();
      Pow2Order(n, 4);
    }
    passes := [];
    var i: nat := 0;
    while i < numMips
      invariant i + 4 <= n && Pow(2, n) == texSize
      invariant twoMips ==> allowTwo
      invariant allowTwo && !twoMips ==> n - i < 9
      invariant passes == [] ==> i == 0
      invariant passes != [] ==> Chained(passes) && End(passes) == i
      invariant Prefix(texSize, allowTwo, numMips, n, passes)
    {
      var mipWidth := LevelSize(texSize, i);
      if mipWidth == 16 {
        TailAt(n, i);
        Extend(texSize, allowTwo, numMips, n, passes, ComputePass(i, TailMips, 1));
        passes := passes + [ComputePass(i, TailMips, 1)];
        return;
      }
      ghost var wasTwo := twoMips;
      if twoMips && mipWidth < COMPRESS_TWO_MIPS_SIZE_THRESHOLD {
        twoMips := false;
      }
      var kind := if twoMips then TwoMips else OneMip;
      var dispatchWidth := Max(1, mipWidth / 4 / GroupWidth(kind));
      PassStep(n, i, allowTwo, wasTwo);
      Extend(texSize, allowTwo, numMips, n, passes, ComputePass(i, kind, dispatchWidth));
      passes := passes + [ComputePass(i, kind, dispatchWidth)];
      i := i + Span(kind);
    }
  }

  /** The passes recorded so far: none of them the tail pass, each at a mip
      that exists, fitting its width and binding descriptors of the chain. */
  predicate Prefix(texSize: u32, allowTwo: bool, numMips: nat, n: nat, passes: seq<ComputePass>)
  {
    forall k :: 0 <= k < |passes| ==>
      passes[k].kind != TailMips && passes[k].mip < numMips
      && PassFits(texSize, allowTwo, passes[k]) && Bound(passes[k]) <= n + 1
  }

  /** Appending a fitting pass at the mip where the passes end. */
  lemma Extend(texSize: u32, allowTwo: bool, numMips: nat, n: nat, passes: seq<ComputePass>, p: ComputePass)
    requires Prefix(texSize, allowTwo, numMips, n, passes)
    requires passes == [] ==> p.mip == 0
    requires passes != [] ==> Chained(passes) && End(passes) == p.mip
    requires p.mip < numMips && PassFits(texSize, allowTwo, p) && Bound(p) <= n + 1
    ensures Chained(passes + [p]) && End(passes + [p]) == Next(p)
    ensures p.kind != TailMips ==> Prefix(texSize, allowTwo, numMips, n, passes + [p])
    ensures p.kind == TailMips ==>
      (Schedule(texSize, allowTwo, numMips, passes + [p])
       && forall k :: 0 <= k < |passes + [p]| ==> Bound((passes + [p])[k]) <= n + 1)
  {
    var ps := passes + [p];
    assert forall k :: 0 <= k < |passes| ==> ps[k] == passes[k];
  }

  /** In a chain 2^n wide the 16-wide mip is mip n - 4. */
  lemma TailAt(n: nat, i: nat)
    requires i + 4 <= n && Pow(2, n) < TWO_32 && LevelSize(Pow(2, n), i) == 16
    ensures i + 4 == n
  {
    SmallPows();
    WidthAt(n, i);
    Pow2Order(n - i, 4);
  }

  /** The pass the loop body records at a mip other than the 16-wide one
      fits that mip and binds descriptors of the chain; the loop goes on at
      least four mips above 1x1, and once the two-mip shader is dropped the
      next mip is narrower than 512 (its exponent is below 9). */
  lemma PassStep(n: nat, i: nat, allowTwo: bool, twoMips: bool)
    requires i + 4 <= n && Pow(2, n) < TWO_32 && LevelSize(Pow(2, n), i) != 16
    requires twoMips ==> allowTwo
    requires allowTwo && !twoMips ==> n - i < 9
    ensures var w := LevelSize(Pow(2, n), i);
      var two := twoMips && w >= COMPRESS_TWO_MIPS_SIZE_THRESHOLD;
      var kind := if two then TwoMips else OneMip;
      var p := ComputePass(i, kind, Max(1, w / 4 / GroupWidth(kind)));
      PassFits(Pow(2, n), allowTwo, p) && Bound(p) <= n + 1 && Next(p) + 4 <= n
      && (allowTwo && !two ==> n - Next(p) < 9)
  {
    var e: nat := n - i;
    SmallPows();
    WidthAt(n, i);
    Pow2Order(e, 4);
    Pow2Order(e, 9);
    var two := twoMips && Pow(2, e) >= COMPRESS_TWO_MIPS_SIZE_THRESHOLD;
    DispatchCovers(e, if two then 4 else 3);
  }

  /** A dispatch of max(1, w / 4 / 2^g) groups of 2^g threads, one thread
      per 4x4 block, covers a 2^e-wide mip exactly once it is at least
      2^(g+2) wide. */
  lemma DispatchCovers(e: nat, g: nat)
    requires e >= g + 2
    ensures Max(1, Pow(2, e) / 4 / Pow(2, g)) * Pow(2, g) * 4 == Pow(2, e)
  {
    var b := Pow(2, e - 2 - g);
    Pow2Split(e, g);
    DivExact(b, Pow(2, g), 4);
  }

  lemma Pow2Split(e: nat, g: nat)
    requires e >= g + 2
    ensures Pow(2, e) == Pow(2, e - 2 - g) * Pow(2, g) * 4
  {
    Pow2Add(e - 2 - g, g);
    Pow2Add(e - 2, 2);
    assert Pow(2, 2) == 4;
  }

  lemma DivExact(b: nat, y: nat, z: nat)
    requires b >= 1 && y >= 1 && z >= 1
    ensures Max(1, b * y * z / z / y) * y * z == b * y * z
  {
    DivModUnique(b * y * z, z, b * y, 0);
    DivModUnique(b * y, y, b, 0);
  }
}
