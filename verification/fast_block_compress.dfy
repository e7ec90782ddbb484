// The FastBlockCompress sample around its two compressors: the BGRA to
// RGBA swizzle, the viewer state the game pad drives, the passes of the
// RMS-error reduction, and the 16-byte aligned RGBA copy of a source image
// that the CPU compressor reads (MakeRGBATexture).

module FastBlockCompress {
  import opened Common
  import opened Radix
  import opened FbcCpu

  // ---------------------------------------------------------------------
  // Swizzle
  // ---------------------------------------------------------------------

  /** Byte k of a 32-bit texel, k = 0 being the lowest (red in R8G8B8A8,
      blue in B8G8R8A8) and k = 3 alpha. */
  function Byte(t: bv32, k: nat): bv32
    requires k < 4
  {
    if k == 0 then t & 0xff
    else if k == 1 then (t >> 8) & 0xff
    else if k == 2 then (t >> 16) & 0xff
    else t >> 24
  }

  /** Swizzle: BGR to RGB by exchanging bytes 0 and 2; alpha is forced
      opaque when it is to be ignored. */
  function Swizzle(t: bv32, ignoreAlpha: bool): bv32
  {
    var t1 := (t & 0x00ff0000) >> 16;
    var t2 := (t & 0x000000ff) << 16;
    var t3 := t & 0x0000ff00;
    var ta := if ignoreAlpha then 0xff000000 else t & 0xff000000;
    t1 | t2 | t3 | ta
  }

  /** The swizzled texel has the red and blue bytes exchanged, green kept,
      and alpha kept or made opaque. */
  lemma SwizzleChannels(t: bv32, ignoreAlpha: bool)
    ensures var r := Swizzle(t, ignoreAlpha);
      Byte(r, 0) == Byte(t, 2) && Byte(r, 1) == Byte(t, 1) && Byte(r, 2) == Byte(t, 0)
      && Byte(r, 3) == (if ignoreAlpha then 0xff else Byte(t, 3))
  {}

  /** Keeping alpha, the swizzle is its own inverse. */
  lemma SwizzleInvolution(t: bv32)
    ensures Swizzle(Swizzle(t, false), false) == t
  {}

  /** Ignoring alpha, swizzling twice restores the colour and makes the
      texel opaque. */
  lemma SwizzleTwiceOpaque(t: bv32)
    ensures Swizzle(Swizzle(t, true), true) == t | 0xff000000
  {}

  // ---------------------------------------------------------------------
  // The viewer state driven by Update
  // ---------------------------------------------------------------------

  /** The compression methods the viewer cycles through: the GPU and the
      CPU compressor. */
  const MAX_METHOD: nat := 2

  /** The buttons that went down this frame. */
  datatype Buttons = Buttons(x: bool, a: bool, y: bool, rightShoulder: bool, leftShoulder: bool,
                             dpadRight: bool, dpadLeft: bool, dpadUp: bool, dpadDown: bool)

  /** What the difference view shows. */
  datatype DiffMode = NoDiffs | ColorDiffs | AlphaDiffs

  function Mode(colorDiffs: bool, alphaDiffs: bool): DiffMode
  {
    if colorDiffs then ColorDiffs else if alphaDiffs then AlphaDiffs else NoDiffs
  }

  /** The cycle [Y] walks: none, colour, alpha, none. */
  function NextMode(m: DiffMode): DiffMode
  {
    match m
    case NoDiffs => ColorDiffs
    case ColorDiffs => AlphaDiffs
    case AlphaDiffs => NoDiffs
  }

  /** The new (colorDiffs, alphaDiffs) after [Y]: never both, and one step
      along the cycle. */
  function PressY(colorDiffs: bool, alphaDiffs: bool): (r: (bool, bool))
    ensures !(r.0 && r.1)
    ensures Mode(r.0, r.1) == NextMode(Mode(colorDiffs, alphaDiffs))
  {
    if colorDiffs then (false, true) else if alphaDiffs then (false, false) else (true, false)
  }

  function NextImage(i: nat, n: nat): (r: nat)
    requires n > 0
    ensures r < n
  {
    (i + 1) % n
  }

  function PrevImage(i: nat, n: nat): (r: nat)
    requires n > 0
    ensures r < n
  {
    (i + n - 1) % n
  }

  /** The shoulder buttons step through the images in both directions,
      each undoing the other. */
  lemma ImageStepsInverse(i: nat, n: nat)
    requires i < n
    ensures PrevImage(NextImage(i, n), n) == i
    ensures NextImage(PrevImage(i, n), n) == i
  {
    if i + 1 < n {
      DivModUnique(i + 1, n, 0, i + 1);
      DivModUnique(i + n, n, 1, i);
    } else {
      DivModUnique(i + 1, n, 1, 0);
      DivModUnique(n - 1, n, 0, n - 1);
    }
    if i == 0 {
      DivModUnique(n - 1, n, 0, n - 1);
      DivModUnique(n, n, 1, 0);
    } else {
      DivModUnique(i + n - 1, n, 1, i - 1);
      DivModUnique(i, n, 0, i);
    }
  }

  /** The method shown and whether the original image is shown instead. */
  datatype MethodView = MethodView(toggleOriginal: bool, shown: nat)

  /** D-pad right: windowed, the next method round the cycle; fullscreen,
      the next method, with the original image shown once after the last. */
  function MethodRight(fullscreen: bool, v: MethodView): (r: MethodView)
    requires v.shown < MAX_METHOD
    ensures r.shown < MAX_METHOD && (r.toggleOriginal ==> fullscreen || v.toggleOriginal)
  {
    if !fullscreen then MethodView(v.toggleOriginal, (v.shown + 1) % MAX_METHOD)
    else if v.toggleOriginal then MethodView(false, v.shown)
    else if v.shown + 1 == MAX_METHOD then MethodView(true, 0)
    else MethodView(false, v.shown + 1)
  }

  /** D-pad left: the same walk the other way. */
  function MethodLeft(fullscreen: bool, v: MethodView): (r: MethodView)
    requires v.shown < MAX_METHOD
    ensures r.shown < MAX_METHOD && (r.toggleOriginal ==> fullscreen || v.toggleOriginal)
  {
    if !fullscreen then MethodView(v.toggleOriginal, (v.shown + MAX_METHOD - 1) % MAX_METHOD)
    else if v.toggleOriginal then MethodView(false, v.shown)
    else if v.shown == 0 then MethodView(true, MAX_METHOD - 1)
    else MethodView(false, v.shown - 1)
  }

  /** Windowed, left and right undo each other. */
  lemma WindowedMethodStepsInverse(v: MethodView)
    requires v.shown < MAX_METHOD
    ensures MethodLeft(false, MethodRight(false, v)) == v
    ensures MethodRight(false, MethodLeft(false, v)) == v
  {
    ImageStepsInverse(v.shown, MAX_METHOD);
  }

  /** Fullscreen, pressing right from the first method shows every method
      and then the original image once before coming back. */
  lemma FullscreenRightCycle()
    ensures MethodRight(true, MethodView(false, 0)) == MethodView(false, 1)
    ensures MethodRight(true, MethodView(false, 1)) == MethodView(true, 0)
    ensures MethodRight(true, MethodView(true, 0)) == MethodView(false, 0)
  {}

  /** D-pad up: one mip smaller, up to the last mip of the image. */
  function MipUp(mip: int, count: nat): int { Min(mip + 1, count - 1) }

  /** D-pad down: one mip larger, down to mip 0. */
  function MipDown(mip: int): int { Max(mip - 1, 0) }

  /** The clamp at the end of Update: no mip the current image lacks. */
  function ClampMip(mip: int, count: nat): int { Min(mip, count - 1) }

  /** The mip steps keep a mip of the image, and a clamped mip that already
      exists is unchanged. */
  lemma MipStepsInRange(mip: int, count: nat)
    requires 0 <= mip && count >= 1
    ensures 0 <= MipUp(mip, count) < count && 0 <= MipDown(mip) < Max(mip, 1)
    ensures 0 <= ClampMip(mip, count) < count
    ensures mip < count ==> ClampMip(mip, count) == mip && MipUp(mip, count) >= mip
  {}

  /** The fields of the sample that Update changes, apart from the camera. */
  class Viewer {
    /** For each image, how many mips it has (shader resource views). */
    const mipCounts: seq<nat>
    var fullscreen: bool
    var toggleOriginal: bool
    var highlightBlocks: bool
    var colorDiffs: bool
    var alphaDiffs: bool
    var currentImage: nat
    var currentMethod: nat
    var mipLevel: int

    predicate Valid()
      reads this
    {
      |mipCounts| >= 1 && (forall k :: 0 <= k < |mipCounts| ==> mipCounts[k] >= 1)
      && currentImage < |mipCounts| && currentMethod < MAX_METHOD
      && 0 <= mipLevel < mipCounts[currentImage]
      && !(colorDiffs && alphaDiffs)
      && (toggleOriginal ==> fullscreen)
    }

    /** The initial values of the constructor, once the images are loaded. */
    constructor (mipCounts: seq<nat>)
      requires |mipCounts| >= 1 && forall k :: 0 <= k < |mipCounts| ==> mipCounts[k] >= 1
      ensures Valid() && this.mipCounts == mipCounts
      ensures !fullscreen && !toggleOriginal && !highlightBlocks && !colorDiffs && !alphaDiffs
      ensures currentImage == 0 && currentMethod == 0 && mipLevel == 0
    {
      this.mipCounts := mipCounts;
      fullscreen, toggleOriginal, highlightBlocks := false, false, false;
      colorDiffs, alphaDiffs := false, false;
      currentImage, currentMethod, mipLevel := 0, 0, 0;
    }

    /** The button handling of Update (None when no pad is connected),
        then the clamp of the mip to the current image. */
    method Update(pad: Option<Buttons>)
      requires Valid()
      modifies this
      ensures Valid()
      ensures pad.None? ==> (
        && fullscreen == old(fullscreen) && toggleOriginal == old(toggleOriginal)
        && highlightBlocks == old(highlightBlocks)
        && colorDiffs == old(colorDiffs) && alphaDiffs == old(alphaDiffs)
        && currentImage == old(currentImage) && currentMethod == old(currentMethod)
        && mipLevel == old(mipLevel))
      ensures pad.Some? ==> (
        && fullscreen == (old(fullscreen) != pad.value.x)
        && highlightBlocks == (old(highlightBlocks) != pad.value.a)
        && (colorDiffs, alphaDiffs) ==
             (if pad.value.y then PressY(old(colorDiffs), old(alphaDiffs)) else (old(colorDiffs), old(alphaDiffs)))
        && currentImage == ImageAfter(pad.value, old(currentImage), |mipCounts|)
        && MethodView(toggleOriginal, currentMethod) ==
             MethodAfter(pad.value, fullscreen, MethodView(old(toggleOriginal) && !pad.value.x, old(currentMethod)))
        && mipLevel == ClampMip(MipAfter(pad.value, old(mipLevel), mipCounts[currentImage]), mipCounts[currentImage]))
    {
      if pad.Some? {
        PressToggles(pad.value);
        ChangeImage(pad.value);
        ChangeMethod(pad.value);
        ChangeMip(pad.value);
      }
      ClampToImage();
    }

    /** [X] fullscreen (and the original image off), [A] block highlight,
        [Y] the difference view. */
    method PressToggles(b: Buttons)
      requires Valid()
      modifies this
      ensures Valid()
      ensures fullscreen == (old(fullscreen) != b.x) && toggleOriginal == (old(toggleOriginal) && !b.x)
      ensures highlightBlocks == (old(highlightBlocks) != b.a)
      ensures (colorDiffs, alphaDiffs) ==
        (if b.y then PressY(old(colorDiffs), old(alphaDiffs)) else (old(colorDiffs), old(alphaDiffs)))
      ensures currentImage == old(currentImage) && currentMethod == old(currentMethod) && mipLevel == old(mipLevel)
    {
      if b.x {
        fullscreen := !fullscreen;
        toggleOriginal := false;
      }
      if b.a {
        highlightBlocks := !highlightBlocks;
      }
      if b.y {
        var d := PressY(colorDiffs, alphaDiffs);
        colorDiffs, alphaDiffs := d.0, d.1;
      }
    }

    /** The shoulder buttons: the next or previous image, from the first
        method and without the original image. */
    method ChangeImage(b: Buttons)
      requires |mipCounts| >= 1 && currentImage < |mipCounts| && currentMethod < MAX_METHOD
      requires toggleOriginal ==> fullscreen
      modifies this
      ensures currentImage == ImageAfter(b, old(currentImage), |mipCounts|) && currentImage < |mipCounts|
      ensures MethodView(toggleOriginal, currentMethod) ==
        if b.rightShoulder || b.leftShoulder then MethodView(false, 0) else MethodView(old(toggleOriginal), old(currentMethod))
      ensures fullscreen == old(fullscreen) && highlightBlocks == old(highlightBlocks)
      ensures colorDiffs == old(colorDiffs) && alphaDiffs == old(alphaDiffs) && mipLevel == old(mipLevel)
    {
      if b.rightShoulder {
        currentImage := NextImage(currentImage, |mipCounts|);
        currentMethod := 0;
        toggleOriginal := false;
      } else if b.leftShoulder {
        currentImage := PrevImage(currentImage, |mipCounts|);
        currentMethod := 0;
        toggleOriginal := false;
      }
    }

    /** D-pad right or left: the method cycle. */
    method ChangeMethod(b: Buttons)
      requires currentMethod < MAX_METHOD && (toggleOriginal ==> fullscreen)
      modifies this
      ensures MethodView(toggleOriginal, currentMethod) == MethodStep(b, fullscreen, MethodView(old(toggleOriginal), old(currentMethod)))
      ensures currentMethod < MAX_METHOD && (toggleOriginal ==> fullscreen)
      ensures fullscreen == old(fullscreen) && highlightBlocks == old(highlightBlocks) && currentImage == old(currentImage)
      ensures colorDiffs == old(colorDiffs) && alphaDiffs == old(alphaDiffs) && mipLevel == old(mipLevel)
    {
      if b.dpadRight {
        var v := MethodRight(fullscreen, MethodView(toggleOriginal, currentMethod));
        toggleOriginal, currentMethod := v.toggleOriginal, v.shown;
      } else if b.dpadLeft {
        var v := MethodLeft(fullscreen, MethodView(toggleOriginal, currentMethod));
        toggleOriginal, currentMethod := v.toggleOriginal, v.shown;
      }
    }

    /** D-pad up or down: the next smaller or larger mip. */
    method ChangeMip(b: Buttons)
      requires |mipCounts| >= 1 && currentImage < |mipCounts| && mipCounts[currentImage] >= 1 && mipLevel >= 0
      modifies this
      ensures currentImage == old(currentImage)
      ensures mipLevel == MipAfter(b, old(mipLevel), mipCounts[currentImage]) && mipLevel >= 0
      ensures fullscreen == old(fullscreen) && toggleOriginal == old(toggleOriginal)
      ensures highlightBlocks == old(highlightBlocks)
      ensures colorDiffs == old(colorDiffs) && alphaDiffs == old(alphaDiffs) && currentMethod == old(currentMethod)
    {
      MipStepsInRange(mipLevel, mipCounts[currentImage]);
      if b.dpadUp {
        mipLevel := MipUp(mipLevel, mipCounts[currentImage]);
      } else if b.dpadDown {
        mipLevel := MipDown(mipLevel);
      }
    }

    /** The end of Update: no mip the current image lacks. */
    method ClampToImage()
      requires |mipCounts| >= 1 && (forall k :: 0 <= k < |mipCounts| ==> mipCounts[k] >= 1)
      requires currentImage < |mipCounts| && currentMethod < MAX_METHOD && mipLevel >= 0
      requires !(colorDiffs && alphaDiffs) && (toggleOriginal ==> fullscreen)
      modifies this
      ensures Valid() && mipLevel == ClampMip(old(mipLevel), mipCounts[currentImage])
      ensures fullscreen == old(fullscreen) && toggleOriginal == old(toggleOriginal)
      ensures highlightBlocks == old(highlightBlocks) && currentImage == old(currentImage)
      ensures colorDiffs == old(colorDiffs) && alphaDiffs == old(alphaDiffs) && currentMethod == old(currentMethod)
    {
      MipStepsInRange(mipLevel, mipCounts[currentImage]);
      mipLevel := ClampMip(mipLevel, mipCounts[currentImage]);
    }
  }

  /** The image after the shoulder buttons. */
  function ImageAfter(b: Buttons, image: nat, count: nat): nat
    requires count > 0
  {
    if b.rightShoulder then NextImage(image, count)
    else if b.leftShoulder then PrevImage(image, count)
    else image
  }

  /** The method view after the d-pad's right or left. */
  function MethodStep(b: Buttons, fullscreen: bool, v: MethodView): MethodView
    requires v.shown < MAX_METHOD
  {
    if b.dpadRight then MethodRight(fullscreen, v)
    else if b.dpadLeft then MethodLeft(fullscreen, v)
    else v
  }

  /** The method view after the shoulder buttons (which go back to the
      first method) and the d-pad. */
  function MethodAfter(b: Buttons, fullscreen: bool, v: MethodView): MethodView
    requires v.shown < MAX_METHOD
  {
    MethodStep(b, fullscreen, if b.rightShoulder || b.leftShoulder then MethodView(false, 0) else v)
  }

  /** The mip after the d-pad's up or down, before the clamp. */
  function MipAfter(b: Buttons, mip: int, count: nat): int
  {
    if b.dpadUp then MipUp(mip, count) else if b.dpadDown then MipDown(mip) else mip
  }

  // ---------------------------------------------------------------------
  // RMSError: the reduction passes
  // ---------------------------------------------------------------------

  const RMS_THREADGROUP_WIDTH: nat := 64

  datatype ReduceBuffer = BufferA | BufferB

  function Other(b: ReduceBuffer): ReduceBuffer
  {
    if b == BufferA then BufferB else BufferA
  }

  /** A reduce pass: the buffer it reads, the one it writes, how many
      elements it reduces, and its dispatch width in thread groups. */
  datatype ReducePass = ReducePass(input: ReduceBuffer, output: ReduceBuffer, elements: nat, groups: nat)

  /** The buffer that is first in the pair after `k` swaps. */
  function BufferAfter(k: nat): ReduceBuffer
  {
    if k % 2 == 0 then BufferA else BufferB
  }

  /** The element count the error pass leaves to reduce for a mip `w`
      wide: w*w/4 in 32-bit arithmetic, at least 2. */
  function ReduceStart(w: nat): nat
  {
    Max(2, Wrap32(w * w) / 4)
  }

  /** x >> k, one halving at a time. */
  function Shr(x: nat, k: nat): nat
  {
    if k == 0 then x else Shr(x, k - 1) / 2
  }

  /** The shift divides by 2^k and never grows its operand. */
  lemma {:induction false} ShrIsDivision(x: nat, k: nat)
    ensures Shr(x, k) == x / Pow(2, k) && Shr(x, k) <= x
  {
    if k > 0 {
      ShrIsDivision(x, k - 1);
      DivDiv(x, Pow(2, k - 1), 2);
      assert Pow(2, k - 1) * 2 == Pow(2, k);
    }
  }

  /** The element count after k reduce passes, each dividing it by 4. */
  function Quarter(n: nat, k: nat): nat
  {
    if k == 0 then n else Quarter(n, k - 1) / 4
  }

  lemma DivDiv(x: nat, a: nat, b: nat)
    requires a > 0 && b > 0
    ensures x / a / b == x / (a * b)
  {
    var q, r := x / a, x % a;
    var q2, r2 := q / b, q % b;
    assert x == a * q + r;
    assert q == b * q2 + r2;
    var ab := a * b;
    assert a * q == ab * q2 + a * r2 by {
      assert a * (b * q2 + r2) == a * (b * q2) + a * r2;
      assert a * (b * q2) == (a * b) * q2;
    }
    assert a * r2 + r < ab by {
      MulNonNeg(a, b - 1 - r2);
      assert a * (b - 1 - r2) == ab - a - a * r2;
    }
    MulNonNeg(a, r2);
    DivModUnique(x, ab, q2, a * r2 + r);
  }

  /** k passes leave n / 4^k elements. */
  lemma {:induction false} QuarterIsDivision(n: nat, k: nat)
    ensures Quarter(n, k) == n / Pow(4, k)
  {
    if k > 0 {
      QuarterIsDivision(n, k - 1);
      DivDiv(n, Pow(4, k - 1), 4);
      assert Pow(4, k - 1) * 4 == Pow(4, k);
    }
  }

  /** Pass k of a reduction that starts from n0 elements. */
  predicate ReducePassOk(p: ReducePass, n0: nat, k: nat)
  {
    p.elements == Quarter(n0, k) > 1
    && p.groups == Max(1, p.elements / 2 / RMS_THREADGROUP_WIDTH)
    && p.input == BufferAfter(k) && p.output == Other(p.input)
  }

  /** RMSError's passes for mip `mipLevel` of a `width`-wide texture: the
      error pass's dispatch width and the reduce passes. The k-th reduce
      pass reduces start / 4^k elements (QuarterIsDivision), the passes go
      on exactly while that count is above 1, they alternate between the
      two buffers starting from A, and the result is read back from the
      buffer the last pass wrote. */
  method RmsPasses(width: u32, mipLevel: nat) returns (errorGroups: nat, passes: seq<ReducePass>, result: ReduceBuffer)
    ensures var w := Shr(width, mipLevel);
      errorGroups == Max(1, w / 2 / RMS_THREADGROUP_WIDTH)
      && |passes| >= 1 && Quarter(ReduceStart(w), |passes|) <= 1
      && (forall k :: 0 <= k < |passes| ==> ReducePassOk(passes[k], ReduceStart(w), k))
      && result == passes[|passes| - 1].output
  {
    ShrIsDivision(width, mipLevel);
    var w: u32 := Shr(width, mipLevel);
    errorGroups := Max(1, w / 2 / RMS_THREADGROUP_WIDTH);
    var n: nat := ReduceStart(w);
    ghost var n0 := n;
    var reduceA, reduceB := BufferA, BufferB;
    passes := [];
    while n > 1
      invariant n == Max(1, Quarter(n0, |passes|))
      invariant |passes| == 0 ==> n == n0 && n0 >= 2
      invariant reduceA == BufferAfter(|passes|) && reduceB == Other(reduceA)
      invariant forall k :: 0 <= k < |passes| ==> ReducePassOk(passes[k], n0, k)
      invariant |passes| > 0 ==> passes[|passes| - 1].output == reduceA
      decreases n
    {
      passes := passes + [ReducePass(reduceA, reduceB, n, Max(1, n / 2 / RMS_THREADGROUP_WIDTH))];
      n := Max(1, n / 4);
      reduceA, reduceB := reduceB, reduceA;
    }
    result := reduceA;
  }

  // ---------------------------------------------------------------------
  // MakeRGBATexture
  // ---------------------------------------------------------------------

  /** A mip of the source image as rows of 32-bit texels, row y being the
      texels from pData + y * RowPitch. */
  datatype SourceLevel = SourceLevel(rows: seq<seq<bv32>>)

  /** max(texSize >> level, 4u): the side of the level in the copy. */
  function TargetSize(texSize: u32, level: nat): (t: nat)
    ensures t >= 4
  {
    Max(Shr(texSize, level), 4)
  }

  /** max(texSize >> level, 1u): the side of the source level. */
  function MipSide(texSize: u32, level: nat): (s: nat)
    ensures s >= 1
  {
    Max(Shr(texSize, level), 1)
  }

  /** The source side of a level is the mip size the compressors use. */
  lemma MipSideIsLevelSize(texSize: u32, level: nat)
    ensures MipSide(texSize, level) == LevelSize(texSize, level)
    ensures TargetSize(texSize, level) == Max(LevelSize(texSize, level), 4)
  {
    ShrIsDivision(texSize, level);
  }

  /** The side of the square of source texels a level's copy repeats: the
      whole level from 4x4 up, the top-left 2x2 for levels 2 or 3 wide, the
      single texel of a 1x1 level. */
  function Period(s: nat): (p: nat)
    ensures 1 <= p && (s >= 1 ==> p <= s)
  {
    if s >= 4 then s else if s >= 2 then 2 else 1
  }

  /** The first n rows hold at least s texels each. */
  predicate Wide(src: SourceLevel, n: nat, s: nat)
  {
    n <= |src.rows| && forall y :: 0 <= y < n ==> s <= |src.rows[y]|
  }

  /** The source texels the copy of a level `s` wide reads are there. */
  predicate Readable(src: SourceLevel, s: nat)
  {
    Wide(src, Period(s), Period(s))
  }

  /** The copied texel from column x of row y, swizzled or not. */
  function Texel(src: SourceLevel, x: nat, y: nat, swizzle: bool, ignoreAlpha: bool): bv32
    requires y < |src.rows| && x < |src.rows[y]|
  {
    var t := src.rows[y][x];
    if swizzle then Swizzle(t, ignoreAlpha) else t
  }

  /** Row y of a level `s` wide. */
  function RowWords(src: SourceLevel, y: nat, s: nat, swizzle: bool, ignoreAlpha: bool): (r: seq<bv32>)
    requires y < |src.rows| && s <= |src.rows[y]|
    ensures |r| == s
  {
    seq(s, x requires 0 <= x < s => Texel(src, x, y, swizzle, ignoreAlpha))
  }

  /** The first n rows of a level `s` wide, one after another. */
  function Rows(src: SourceLevel, n: nat, s: nat, swizzle: bool, ignoreAlpha: bool): (r: seq<bv32>)
    requires Wide(src, n, s)
    ensures |r| == n * s
  {
    if n == 0 then []
    else Rows(src, n - 1, s, swizzle, ignoreAlpha) + RowWords(src, n - 1, s, swizzle, ignoreAlpha)
  }

  /** The words MakeRGBATexture writes for a level `s` wide: its rows from
      4x4 up, and otherwise a 4x4 block repeating the 2x2 pattern or the
      single texel. */
  function LevelWords(src: SourceLevel, s: nat, swizzle: bool, ignoreAlpha: bool): (r: seq<bv32>)
    requires Readable(src, s)
    ensures |r| == Area(Max(s, 4))
  {
    if s >= 4 then Rows(src, s, s, swizzle, ignoreAlpha)
    else if s >= 2 then
      var p0, p1 := Texel(src, 0, 0, swizzle, ignoreAlpha), Texel(src, 1, 0, swizzle, ignoreAlpha);
      var p2, p3 := Texel(src, 0, 1, swizzle, ignoreAlpha), Texel(src, 1, 1, swizzle, ignoreAlpha);
      [p0, p1, p0, p1,  p2, p3, p2, p3,  p0, p1, p0, p1,  p2, p3, p2, p3]
    else
      var p0 := Texel(src, 0, 0, swizzle, ignoreAlpha);
      [p0, p0, p0, p0,  p0, p0, p0, p0,  p0, p0, p0, p0,  p0, p0, p0, p0]
  }

  lemma {:induction false} RowsAt(src: SourceLevel, n: nat, s: nat, swizzle: bool, ignoreAlpha: bool, x: nat, y: nat)
    requires x < s && y < n && Wide(src, n, s)
    ensures y * s + x < n * s
    ensures Rows(src, n, s, swizzle, ignoreAlpha)[y * s + x] == Texel(src, x, y, swizzle, ignoreAlpha)
  {
    var front := Rows(src, n - 1, s, swizzle, ignoreAlpha);
    assert |front| == (n - 1) * s;
    assert (n - 1) * s + s == n * s by {
      Common.MulSucc(n - 1, s);
    }
    if y < n - 1 {
      RowsAt(src, n - 1, s, swizzle, ignoreAlpha, x, y);
    } else {
      assert y * s + x - |front| == x;
    }
  }

  /** Every texel of a level's copy, t = max(s, 4) wide, is the source
      texel at its coordinates modulo the period: the level itself from 4x4
      up, the 2x2 or 1x1 level repeated over a 4x4 block below. */
  lemma LevelTexel(src: SourceLevel, s: nat, swizzle: bool, ignoreAlpha: bool, x: nat, y: nat)
    requires 1 <= s && Readable(src, s) && x < Max(s, 4) && y < Max(s, 4)
    ensures var t, p, w := Max(s, 4), Period(s), LevelWords(src, s, swizzle, ignoreAlpha);
      y % p < |src.rows| && x % p < |src.rows[y % p]| && y * t + x < |w|
      && w[y * t + x] == Texel(src, x % p, y % p, swizzle, ignoreAlpha)
  {
    if s >= 4 {
      DivModUnique(x, s, 0, x);
      DivModUnique(y, s, 0, y);
      RowsAt(src, s, s, swizzle, ignoreAlpha, x, y);
    } else {
      SmallLevelTexel(src, s, swizzle, ignoreAlpha, x, y);
    }
  }

  lemma SmallLevelTexel(src: SourceLevel, s: nat, swizzle: bool, ignoreAlpha: bool, x: nat, y: nat)
    requires 1 <= s < 4 && Readable(src, s) && x < 4 && y < 4
    ensures var p := Period(s);
      y % p < |src.rows| && x % p < |src.rows[y % p]| && y * 4 + x < 16
      && LevelWords(src, s, swizzle, ignoreAlpha)[y * 4 + x] == Texel(src, x % p, y % p, swizzle, ignoreAlpha)
  {
    if s >= 2 {
      Level2x2Texel(src, s, swizzle, ignoreAlpha, x, y);
    } else {
      var p0 := Texel(src, 0, 0, swizzle, ignoreAlpha);
      assert LevelWords(src, s, swizzle, ignoreAlpha) == seq(16, _ => p0);
    }
  }

  lemma Level2x2Texel(src: SourceLevel, s: nat, swizzle: bool, ignoreAlpha: bool, x: nat, y: nat)
    requires 2 <= s < 4 && Readable(src, s) && x < 4 && y < 4
    ensures y % 2 < |src.rows| && x % 2 < |src.rows[y % 2]|
    ensures LevelWords(src, s, swizzle, ignoreAlpha)[y * 4 + x] == Texel(src, x % 2, y % 2, swizzle, ignoreAlpha)
  {
    var w := LevelWords(src, s, swizzle, ignoreAlpha);
    var i, j := x % 2, y % 2;
    var p0, p1 := Texel(src, 0, 0, swizzle, ignoreAlpha), Texel(src, 1, 0, swizzle, ignoreAlpha);
    var p2, p3 := Texel(src, 0, 1, swizzle, ignoreAlpha), Texel(src, 1, 1, swizzle, ignoreAlpha);
    assert w == [p0, p1, p0, p1, p2, p3, p2, p3, p0, p1, p0, p1, p2, p3, p2, p3];
    QuadIndex(x, y);
    ReplicatePattern(p0, p1, p2, p3, y / 2, j, x / 2, i);
  }

  /** Texel (x, y) of a 4x4 block splits into its 2x2 quadrant and its
      place in the quadrant. */
  lemma QuadIndex(x: nat, y: nat)
    requires x < 4 && y < 4
    ensures y / 2 < 2 && x / 2 < 2
    ensures y * 4 + x == 8 * (y / 2) + 4 * (y % 2) + 2 * (x / 2) + x % 2
  {
  }

  /** Entry (2*hx + i, 2*hy + j) of the 4x4 block repeating the 2x2 pattern
      p0 p1 / p2 p3 is entry (i, j) of the pattern. */
  lemma ReplicatePattern(p0: bv32, p1: bv32, p2: bv32, p3: bv32, hy: nat, j: nat, hx: nat, i: nat)
    requires hy < 2 && j < 2 && hx < 2 && i < 2
    ensures var w := [p0, p1, p0, p1, p2, p3, p2, p3, p0, p1, p0, p1, p2, p3, p2, p3];
      w[8 * hy + 4 * j + 2 * hx + i] == if j == 0 then (if i == 0 then p0 else p1) else (if i == 0 then p2 else p3)
  {
    if hy == 0 {
      if hx == 0 {} else {}
    } else {
      if hx == 0 {} else {}
    }
  }

  /** The texels of a level t wide. */
  function Area(t: nat): nat
  {
    t * t
  }

  /** The subresource record of a level whose words start at `at`: byte
      offset, row pitch and slice pitch of a level TargetSize wide. */
  function LevelSubresource(texSize: u32, level: nat, at: nat): Subresource
  {
    var t := TargetSize(texSize, level);
    Subresource(4 * at, Wrap32(t * 4), Wrap32(t * t * 4))
  }

  function Span(t: nat): nat
  {
    (t * t + 3) / 4 * 4
  }

  /** Where level n starts, in words from the start of the allocation. */
  function WordOffset(texSize: u32, n: nat): (r: nat)
    ensures r % 4 == 0
  {
    if n == 0 then 0 else WordOffset(texSize, n - 1) + Span(TargetSize(texSize, n - 1))
  }

  /** The first loop's term: AlignUp(mipSize * mipSize * 4, 16) in 32 bits. */
  function LevelBytes(texSize: u32, level: nat): u32
  {
    var t := TargetSize(texSize, level);
    AlignUp32(Wrap32(t * t * 4), 16)
  }

  function TotalBytes(texSize: u32, n: nat): nat
  {
    if n == 0 then 0 else TotalBytes(texSize, n - 1) + LevelBytes(texSize, n - 1)
  }

  /** The words each level's copy holds. */
  function Expected(texSize: u32, srcs: seq<SourceLevel>, swizzle: bool, ignoreAlpha: bool): (e: seq<seq<bv32>>)
    requires forall l :: 0 <= l < |srcs| ==> Readable(srcs[l], MipSide(texSize, l))
    ensures |e| == |srcs|
  {
    seq(|srcs|, l requires 0 <= l < |srcs| => LevelWords(srcs[l], MipSide(texSize, l), swizzle, ignoreAlpha))
  }

  /** Level l of the copy: its subresource record, pointing at the level's
      16-byte aligned offset with the pitches of a level TargetSize wide,
      and its words in place there. */
  predicate Placed(texSize: u32, expected: seq<seq<bv32>>, words: seq<bv32>, subresources: seq<Subresource>, l: nat)
    requires l < |expected| && l < |subresources|
  {
    var t, at := TargetSize(texSize, l), WordOffset(texSize, l);
    subresources[l] == LevelSubresource(texSize, l, at)
    && at + |expected[l]| <= |words|
    && words[at..at + |expected[l]|] == expected[l]
  }

  /** Levels 0 to n-1 are in place. */
  predicate AllPlaced(texSize: u32, expected: seq<seq<bv32>>, words: seq<bv32>, subresources: seq<Subresource>, n: nat)
  {
    n == 0 ||
    (&& AllPlaced(texSize, expected, words, subresources, n - 1)
     && n - 1 < |expected| && n - 1 < |subresources|
     && Placed(texSize, expected, words, subresources, n - 1))
  }

  /** The RGBA copy: the size allocated, the words written (padding words
      are not specified), and a subresource per level. */
  datatype RgbaTexture = RgbaTexture(totalSize: nat, words: seq<bv32>, subresources: seq<Subresource>)

  /** Image::MakeRGBATexture over the levels `srcs`, given whether the
      16-byte aligned allocation succeeds (failure throws bad_alloc). */
  method MakeRGBATexture(texSize: u32, srcs: seq<SourceLevel>, swizzle: bool, ignoreAlpha: bool, allocOk: bool)
    returns (r: Option<RgbaTexture>)
    requires forall l :: 0 <= l < |srcs| ==> Readable(srcs[l], MipSide(texSize, l))
    ensures r.None? <==> !allocOk
    ensures r.Some? ==> (
      && r.value.totalSize == TotalBytes(texSize, |srcs|)
      && |r.value.subresources| == |srcs| && |r.value.words| == WordOffset(texSize, |srcs|)
      && var expected := Expected(texSize, srcs, swizzle, ignoreAlpha);
         forall l :: 0 <= l < |srcs| ==> Placed(texSize, expected, r.value.words, r.value.subresources, l))
  {
    var totalSize := AllocationSize(texSize, |srcs|);
    if !allocOk {
      return None;
    }
    ghost var expected := Expected(texSize, srcs, swizzle, ignoreAlpha);
    var words, subresources := CopyLevels(texSize, srcs, swizzle, ignoreAlpha);
    forall l | 0 <= l < |srcs|
      ensures Placed(texSize, expected, words, subresources, l)
    {
      PlacedAt(texSize, expected, words, subresources, |srcs|, l);
    }
    return Some(RgbaTexture(totalSize, words, subresources));
  }

  /** The first loop: the bytes to allocate. */
  method AllocationSize(texSize: u32, levels: nat) returns (totalSize: nat)
    ensures totalSize == TotalBytes(texSize, levels)
  {
    totalSize := 0;
    var level := 0;
    while level < levels
      invariant level <= levels && totalSize == TotalBytes(texSize, level)
    {
      totalSize := totalSize + LevelBytes(texSize, level);
      level := level + 1;
    }
  }

  /** The second loop: every level copied and its subresource recorded. */
  method CopyLevels(texSize: u32, srcs: seq<SourceLevel>, swizzle: bool, ignoreAlpha: bool)
    returns (words: seq<bv32>, subresources: seq<Subresource>)
    requires forall l :: 0 <= l < |srcs| ==> Readable(srcs[l], MipSide(texSize, l))
    ensures |subresources| == |srcs| && |words| == WordOffset(texSize, |srcs|)
    ensures AllPlaced(texSize, Expected(texSize, srcs, swizzle, ignoreAlpha), words, subresources, |srcs|)
  {
    ghost var expected := Expected(texSize, srcs, swizzle, ignoreAlpha);
    words, subresources := [], [];
    var level := 0;
    while level < |srcs|
      invariant level <= |srcs| && |subresources| == level && |words| == WordOffset(texSize, level)
      invariant AllPlaced(texSize, expected, words, subresources, level)
    {
      words, subresources := PlaceLevel(texSize, srcs, swizzle, ignoreAlpha, expected, words, subresources);
      level := level + 1;
    }
  }

  /** One pass of the second loop: the subresource record, then the copy. */
  method PlaceLevel(texSize: u32, srcs: seq<SourceLevel>, swizzle: bool, ignoreAlpha: bool, ghost expected: seq<seq<bv32>>,
                    words: seq<bv32>, subresources: seq<Subresource>)
    returns (words': seq<bv32>, subresources': seq<Subresource>)
    requires forall l :: 0 <= l < |srcs| ==> Readable(srcs[l], MipSide(texSize, l))
    requires expected == Expected(texSize, srcs, swizzle, ignoreAlpha)
    requires |subresources| < |srcs| && |words| == WordOffset(texSize, |subresources|)
    requires AllPlaced(texSize, expected, words, subresources, |subresources|)
    ensures |subresources'| == |subresources| + 1 && |words'| == WordOffset(texSize, |subresources'|)
    ensures AllPlaced(texSize, expected, words', subresources', |subresources'|)
  {
    var level := |subresources|;
    var t, side := TargetSize(texSize, level), MipSide(texSize, level);
    assert Max(side, 4) == t;
    subresources' := subresources + [LevelSubresource(texSize, level, |words|)];
    words' := AppendLevel(words, srcs[level], side, swizzle, ignoreAlpha);
    assert subresources'[..level] == subresources;
    assert expected[level] == LevelWords(srcs[level], side, swizzle, ignoreAlpha);
    PlacedKept(texSize, expected, words, subresources, words', subresources', level);
    NewLevelPlaced(texSize, expected, words, subresources, words', subresources', expected[level]);
  }

  /** The second loop's step: the new level is in place at its offset. */
  lemma NewLevelPlaced(texSize: u32, expected: seq<seq<bv32>>, words: seq<bv32>, subs: seq<Subresource>,
                       words': seq<bv32>, subs': seq<Subresource>, level: seq<bv32>)
    requires |subs| < |expected| && expected[|subs|] == level && |words| == WordOffset(texSize, |subs|)
    requires var t := TargetSize(texSize, |subs|);
      && |level| == Area(t)
      && subs' == subs + [LevelSubresource(texSize, |subs|, |words|)]
      && |words'| == |words| + Span(t)
      && words'[|words|..|words| + Area(t)] == level
    ensures |words'| == WordOffset(texSize, |subs'|)
    ensures Placed(texSize, expected, words', subs', |subs|)
  {
  }

  /** Writing past the levels already in place leaves them as they were. */
  lemma {:induction false} PlacedKept(texSize: u32, expected: seq<seq<bv32>>, words: seq<bv32>, subs: seq<Subresource>,
                                      words': seq<bv32>, subs': seq<Subresource>, n: nat)
    requires |subs| <= |subs'| && |words| <= |words'|
    requires words'[..|words|] == words && subs'[..|subs|] == subs
    requires AllPlaced(texSize, expected, words, subs, n)
    ensures AllPlaced(texSize, expected, words', subs', n)
  {
    if n > 0 {
      PlacedKept(texSize, expected, words, subs, words', subs', n - 1);
      var l := n - 1;
      var at, e := WordOffset(texSize, l), WordOffset(texSize, l) + |expected[l]|;
      assert forall i :: at <= i < e ==> words'[i] == words'[..|words|][i];
      assert words'[at..e] == words[at..e];
      assert subs'[l] == subs'[..|subs|][l];
    }
  }

  /** The recursive invariant gives each level below n. */
  lemma {:induction false} PlacedAt(texSize: u32, expected: seq<seq<bv32>>, words: seq<bv32>, subs: seq<Subresource>,
                                    n: nat, l: nat)
    requires AllPlaced(texSize, expected, words, subs, n) && l < n
    ensures l < |expected| && l < |subs| && Placed(texSize, expected, words, subs, l)
  {
    if l < n - 1 {
      PlacedAt(texSize, expected, words, subs, n - 1, l);
    }
  }

  /** One pass of the second loop: the level's words, then the step of the
      destination pointer up to the next 16-byte boundary. */
  method AppendLevel(words: seq<bv32>, src: SourceLevel, s: nat, swizzle: bool, ignoreAlpha: bool)
    returns (out: seq<bv32>)
    requires s >= 1 && Readable(src, s) && |words| % 4 == 0
    ensures |out| == |words| + Span(Max(s, 4))
    ensures out[..|words|] == words
    ensures out[|words|..|words| + Area(Max(s, 4))] == LevelWords(src, s, swizzle, ignoreAlpha)
  {
    var body := CopyLevel(src, s, swizzle, ignoreAlpha);
    var pad: seq<bv32> := seq((4 - (|words| + |body|) % 4) % 4, _ => 0);
    out := words + body + pad;
    SpanPads(|words|, Max(s, 4));
    assert out[|words|..|words| + |body|] == body;
  }

  /** The level's words: row by row from 4x4 up, the replicated 2x2 or
      1x1 pattern below. */
  method CopyLevel(src: SourceLevel, s: nat, swizzle: bool, ignoreAlpha: bool) returns (out: seq<bv32>)
    requires s >= 1 && Readable(src, s)
    ensures out == LevelWords(src, s, swizzle, ignoreAlpha)
  {
    if s >= 4 {
      out := CopyRows(src, s, swizzle, ignoreAlpha);
    } else if s >= 2 {
      var p0, p1 := Texel(src, 0, 0, swizzle, ignoreAlpha), Texel(src, 1, 0, swizzle, ignoreAlpha);
      var p2, p3 := Texel(src, 0, 1, swizzle, ignoreAlpha), Texel(src, 1, 1, swizzle, ignoreAlpha);
      out := [p0, p1, p0, p1,  p2, p3, p2, p3,  p0, p1, p0, p1,  p2, p3, p2, p3];
    } else {
      var p0 := Texel(src, 0, 0, swizzle, ignoreAlpha);
      out := [p0, p0, p0, p0,  p0, p0, p0, p0,  p0, p0, p0, p0,  p0, p0, p0, p0];
    }
  }

  /** The rows of a level at least 4 wide, one after another. */
  method CopyRows(src: SourceLevel, s: nat, swizzle: bool, ignoreAlpha: bool) returns (out: seq<bv32>)
    requires Wide(src, s, s)
    ensures out == Rows(src, s, s, swizzle, ignoreAlpha)
  {
    out := [];
    var y := 0;
    while y < s
      invariant y <= s && out == Rows(src, y, s, swizzle, ignoreAlpha)
    {
      var row := AppendRow(src, y, s, swizzle, ignoreAlpha);
      out := out + row;
      y := y + 1;
    }
  }

  /** Aligning the end of t*t words written at a 16-byte boundary leaves the
      level's rounded-up span. */
  lemma SpanPads(at: nat, t: nat)
    requires at % 4 == 0
    ensures at + t * t + (4 - (at + t * t) % 4) % 4 == at + Span(t)
  {
    var m := t * t;
    var q, r := m / 4, m % 4;
    assert m == 4 * q + r;
    DivModUnique(at + m, 4, at / 4 + q, r);
    if r == 0 {
      DivModUnique(m + 3, 4, q, 3);
    } else {
      DivModUnique(m + 3, 4, q + 1, r - 1);
    }
  }

  /** One row of a level at least 4 wide: texel by texel through Swizzle,
      or copied as it is. */
  method AppendRow(src: SourceLevel, y: nat, s: nat, swizzle: bool, ignoreAlpha: bool) returns (row: seq<bv32>)
    requires y < |src.rows| && s <= |src.rows[y]|
    ensures row == RowWords(src, y, s, swizzle, ignoreAlpha)
  {
    if swizzle {
      row := [];
      var x := 0;
      while x < s
        invariant x <= s && row == RowWords(src, y, s, swizzle, ignoreAlpha)[..x]
      {
        row := row + [Swizzle(src.rows[y][x], ignoreAlpha)];
        x := x + 1;
      }
    } else {
      row := src.rows[y][..s];
    }
  }

  /** A level of m texels below 2^30 takes 4*m bytes, which AlignUp takes
      to the 16-byte units Span counts. */
  lemma LevelBytesExact(m: nat)
    requires m < 0x3FFF_FFF0
    ensures AlignUp32(Wrap32(4 * m), 16) == 4 * ((m + 3) / 4 * 4)
  {
    Wrap32Small(4 * m);
    Wrap32Small(4 * m + 15);
    var q, r := m / 4, m % 4;
    assert m == 4 * q + r;
    if r == 0 {
      DivModUnique(4 * m + 15, 16, q, 15);
      DivModUnique(m + 3, 4, q, 3);
    } else {
      DivModUnique(4 * m + 15, 16, q + 1, 4 * r - 1);
      DivModUnique(m + 3, 4, q + 1, r - 1);
    }
  }

  /** Below 32768 texels across nothing wraps: the allocation is exactly
      the words the second loop writes, padding included. */
  lemma {:induction false} AllocationHoldsCopy(texSize: u32, n: nat)
    requires texSize < 32768
    ensures TotalBytes(texSize, n) == 4 * WordOffset(texSize, n)
  {
    if n > 0 {
      AllocationHoldsCopy(texSize, n - 1);
      var t := TargetSize(texSize, n - 1);
      assert t <= 32767 by {
        ShrIsDivision(texSize, n - 1);
      }
      assert t * t < 0x3FFF_FFF0 by {
        MulLe(t, t, 32767);
        MulLe(32767, t, 32767);
      }
      LevelBytesExact(t * t);
      assert t * t * 4 == 4 * (t * t);
    }
  }
}
