// The Direct3D 11 device wrapper of the spatial-sound UWP sample: how many
// feature levels it offers the runtime, the window it renders into with its
// size and display rotation, and the orientation transform it derives from
// that rotation. The device, the swap chain and the window are outside the
// model.

module SpatialDeviceResources {
  import opened Common
  import opened Dx

  /** std::out_of_range for a minimum level above every supported one, and
      std::exception when no window was set. */
  datatype Error = OutOfRange | NoWindow

  /** s_featureLevels: the levels the sample supports, best first. */
  const FEATURE_LEVELS: seq<nat> := [
    FEATURE_LEVEL_12_1, FEATURE_LEVEL_12_0, FEATURE_LEVEL_11_1, FEATURE_LEVEL_11_0,
    FEATURE_LEVEL_10_1, FEATURE_LEVEL_10_0, FEATURE_LEVEL_9_3, FEATURE_LEVEL_9_2, FEATURE_LEVEL_9_1]

  predicate Descending(levels: seq<nat>)
  {
    forall i, j :: 0 <= i < j < |levels| ==> levels[i] > levels[j]
  }

  /** How many of `levels`, in any order, are at least `minLevel`. */
  function LevelsAtLeast(levels: seq<nat>, minLevel: nat): (n: nat)
    ensures n <= |levels|
  {
    if levels == [] then 0
    else (if levels[0] >= minLevel then 1 else 0) + LevelsAtLeast(levels[1..], minLevel)
  }

  /** In a descending list, the levels at least the minimum are exactly the
      prefix that stops at the first one below it. */
  lemma {:induction false} PrefixIsAllAtLeast(levels: seq<nat>, minLevel: nat, k: nat)
    requires Descending(levels) && k <= |levels|
    requires forall i :: 0 <= i < k ==> levels[i] >= minLevel
    requires k < |levels| ==> levels[k] < minLevel
    ensures LevelsAtLeast(levels, minLevel) == k
    decreases levels
  {
    if levels != [] {
      var rest := levels[1..];
      assert Descending(rest) by {
        forall i, j | 0 <= i < j < |rest| ensures rest[i] > rest[j] {
          assert rest[i] == levels[i + 1] && rest[j] == levels[j + 1];
        }
      }
      if k == 0 {
        assert levels[0] < minLevel;
        PrefixIsAllAtLeast(rest, minLevel, 0);
      } else {
        PrefixIsAllAtLeast(rest, minLevel, k - 1);
      }
    }
  }

  /** A 2-by-2 integer matrix: the upper-left block of the XMFLOAT4X4 screen
      rotations, whose other entries are those of the identity. */
  datatype Mat2 = Mat2(m11: int, m12: int, m21: int, m22: int)

  // ScreenRotation::Rotation0 .. Rotation270, row by row
  const ROTATION_0: Mat2 := Mat2(1, 0, 0, 1)
  const ROTATION_90: Mat2 := Mat2(0, 1, -1, 0)
  const ROTATION_180: Mat2 := Mat2(-1, 0, 0, -1)
  const ROTATION_270: Mat2 := Mat2(0, -1, 1, 0)

  /** The angle, in degrees, of a matrix that turns the plane by a multiple
      of 90 degrees: its first row holds the cosine and the sine, its second
      row the negated sine and the cosine. Any other matrix has none. */
  function QuarterTurnAngle(m: Mat2): Option<nat>
  {
    if m.m22 != m.m11 || m.m21 != -m.m12 then None
    else if m.m11 == 1 && m.m12 == 0 then Some(0)
    else if m.m11 == 0 && m.m12 == 1 then Some(90)
    else if m.m11 == -1 && m.m12 == 0 then Some(180)
    else if m.m11 == 0 && m.m12 == -1 then Some(270)
    else None
  }

  /** How far the display is turned, in degrees; UNSPECIFIED and unknown
      values count as not turned. */
  function DisplayAngle(rotation: nat): (a: nat)
    ensures a < 360
  {
    if rotation == ROTATE90 then 90
    else if rotation == ROTATE180 then 180
    else if rotation == ROTATE270 then 270
    else 0
  }

  /** m_orientationTransform3D for a display rotation: the switch of
      CreateWindowSizeDependentResources, whose default is the identity. */
  function OrientationTransform(rotation: nat): (m: Mat2)
    ensures m == ROTATION_0 || m == ROTATION_90 || m == ROTATION_180 || m == ROTATION_270
  {
    if rotation == ROTATE90 then ROTATION_270
    else if rotation == ROTATE180 then ROTATION_180
    else if rotation == ROTATE270 then ROTATION_90
    else ROTATION_0
  }

  /** The transform turns the scene back by exactly the display's rotation:
      it is a quarter-turn rotation whose angle and the display's add up to
      a whole turn. */
  lemma OrientationUndoesRotation(rotation: nat)
    ensures QuarterTurnAngle(OrientationTransform(rotation)).Some?
    ensures (DisplayAngle(rotation) + QuarterTurnAngle(OrientationTransform(rotation)).value) % 360 == 0
  {
    var a := QuarterTurnAngle(OrientationTransform(rotation)).value;
    DivModUnique(DisplayAngle(rotation) + a, 360, (DisplayAngle(rotation) + a) / 360, 0);
  }

  class DeviceResources {
    const backBufferFormat: nat
    const depthBufferFormat: nat
    const backBufferCount: u32
    /** m_d3dMinFeatureLevel */
    const minFeatureLevel: nat

    var hasWindow: bool
    var outputSize: Rect
    var rotation: nat
    /** m_orientationTransform3D */
    var orientation: Mat2
    /** The format passed to the swap chain on the last resize. */
    var swapChainFormat: nat
    /** The viewport's width and height: the back-buffer size. */
    var viewportWidth: u32
    var viewportHeight: u32

    constructor (backBufferFormat: nat, depthBufferFormat: nat, backBufferCount: u32, minFeatureLevel: nat)
      ensures this.backBufferFormat == backBufferFormat && this.depthBufferFormat == depthBufferFormat
      ensures this.backBufferCount == backBufferCount && this.minFeatureLevel == minFeatureLevel
      ensures !hasWindow && outputSize == Rect(0, 0, 1, 1)
      ensures rotation == ROTATION_IDENTITY && orientation == ROTATION_0
    {
      this.backBufferFormat := backBufferFormat;
      this.depthBufferFormat := depthBufferFormat;
      this.backBufferCount := backBufferCount;
      this.minFeatureLevel := minFeatureLevel;
      hasWindow := false;
      outputSize := Rect(0, 0, 1, 1);
      rotation := ROTATION_IDENTITY;
      orientation := ROTATION_0;
      swapChainFormat := UNKNOWN;
      viewportWidth, viewportHeight := 0, 0;
    }

    /** The feature-level count of CreateDeviceResources: the supported
        levels are walked best first until one falls below the minimum; none
        at all throws. */
    method FeatureLevelCount() returns (r: Result<nat, Error>)
      ensures r.Err? <==> minFeatureLevel > FEATURE_LEVEL_12_1
      ensures r.Err? ==> r.error == OutOfRange
      ensures r.Ok? ==> 0 < r.value <= |FEATURE_LEVELS|
      ensures r.Ok? ==> r.value == LevelsAtLeast(FEATURE_LEVELS, minFeatureLevel)
      ensures r.Ok? ==> forall i :: 0 <= i < r.value ==> FEATURE_LEVELS[i] >= minFeatureLevel
    {
      var count := 0;
      while count < |FEATURE_LEVELS|
        invariant count <= |FEATURE_LEVELS|
        invariant forall i :: 0 <= i < count ==> FEATURE_LEVELS[i] >= minFeatureLevel
      {
        if FEATURE_LEVELS[count] < minFeatureLevel {
          break;
        }
        count := count + 1;
      }
      if count == 0 {
        return Err(OutOfRange);
      }
      PrefixIsAllAtLeast(FEATURE_LEVELS, minFeatureLevel, count);
      r := Ok(count);
    }

    /** SetWindow: the window, an output rectangle from the origin to the
        given size, and the display rotation. */
    method SetWindow(window: bool, width: i32, height: i32, rotation: nat)
      modifies this`hasWindow, this`outputSize, this`rotation
      ensures hasWindow == window && outputSize == Rect(0, 0, width, height) && this.rotation == rotation
    {
      hasWindow := window;
      outputSize := Rect(0, 0, width, height);
      this.rotation := rotation;
    }

    /** The bookkeeping of CreateWindowSizeDependentResources: without a
        window it throws; otherwise the swap chain gets the format without
        sRGB, the back buffer the output size (at least 1 by 1), and the
        scene the transform that undoes the display rotation. */
    method CreateWindowSizeDependentResources() returns (r: Outcome<Error>)
      modifies this`swapChainFormat, this`viewportWidth, this`viewportHeight, this`orientation
      ensures r.Fail? <==> !hasWindow
      ensures r.Fail? ==> r.error == NoWindow && unchanged(this)
      ensures r.Pass? ==> swapChainFormat == NoSrgb(backBufferFormat)
      ensures r.Pass? ==> viewportWidth == Extent(outputSize.left, outputSize.right) >= 1
      ensures r.Pass? ==> viewportHeight == Extent(outputSize.top, outputSize.bottom) >= 1
      ensures r.Pass? ==> QuarterTurnAngle(orientation).Some?
      ensures r.Pass? ==> (DisplayAngle(rotation) + QuarterTurnAngle(orientation).value) % 360 == 0
      ensures r.Pass? ==> orientation == OrientationTransform(rotation)
    {
      if !hasWindow {
        return Fail(NoWindow);
      }
      swapChainFormat := NoSrgb(backBufferFormat);
      viewportWidth := Extent(outputSize.left, outputSize.right);
      viewportHeight := Extent(outputSize.top, outputSize.bottom);
      orientation := OrientationTransform(rotation);
      OrientationUndoesRotation(rotation);
      r := Pass;
    }

    /** WindowSizeChanged: the same size and rotation change nothing and
        report false; anything else is stored and the size-dependent
        resources are rebuilt. */
    method WindowSizeChanged(width: i32, height: i32, rotation: nat) returns (changed: bool, r: Outcome<Error>)
      modifies this`outputSize, this`rotation, this`swapChainFormat, this`viewportWidth, this`viewportHeight,
               this`orientation
      ensures !changed <==> old(outputSize) == Rect(0, 0, width, height) && old(this.rotation) == rotation
      ensures !changed ==> unchanged(this) && r == Pass
      ensures changed ==> outputSize == Rect(0, 0, width, height) && this.rotation == rotation
      ensures changed ==> (r.Fail? <==> !hasWindow)
      ensures changed && r.Pass? ==> orientation == OrientationTransform(rotation)
      ensures changed && r.Pass? ==> viewportWidth == Extent(0, width) && viewportHeight == Extent(0, height)
    {
      var newRc := Rect(0, 0, width, height);
      if newRc == outputSize && rotation == this.rotation {
        return false, Pass;
      }
      outputSize := newRc;
      this.rotation := rotation;
      r := CreateWindowSizeDependentResources();
      changed := true;
    }
  }
}
