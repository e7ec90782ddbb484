// The mouse-cursor sample's view provider: the display rotation derived
// from the native and current orientations, the output size in pixels
// (swapped for quarter turns), and the three mouse modes -- the absolute
// Windows pointer, the captured relative mouse that drives the camera,
// and the captured clip cursor drawn by the sample -- with the on-screen
// position of that virtual cursor. The sample's own hit test for the
// mode tiles, the camera, the window and the pointer capture are outside
// the model: what they report comes in as parameters.

module MouseCursor {
  datatype Orientation = NoOrientation | Landscape | Portrait | LandscapeFlipped | PortraitFlipped

  datatype Rotation = Unspecified | Identity | Rotate90 | Rotate180 | Rotate270

  /** The mode the sample's hit test reports for a pointer press. */
  datatype MouseMode = AbsoluteMouse | RelativeMouse | ClipCursorMouse

  /** ComputeDisplayRotation: a fixed table over the two landscape-based
      and portrait-based native orientations; any other pair is
      unspecified. */
  function ComputeDisplayRotation(native: Orientation, current: Orientation): Rotation
  {
    match native
    case Landscape =>
      (match current
       case Landscape => Identity
       case Portrait => Rotate270
       case LandscapeFlipped => Rotate180
       case PortraitFlipped => Rotate90
       case _ => Unspecified)
    case Portrait =>
      (match current
       case Landscape => Rotate90
       case Portrait => Identity
       case LandscapeFlipped => Rotate270
       case PortraitFlipped => Rotate180
       case _ => Unspecified)
    case _ => Unspecified
  }

  predicate IsOrientation(o: Orientation) { o != NoOrientation }

  /** Clockwise angle of an orientation, in degrees. */
  function Angle(o: Orientation): int
  {
    match o
    case Landscape => 0
    case Portrait => 90
    case LandscapeFlipped => 180
    case PortraitFlipped => 270
    case NoOrientation => 0
  }

  function Degrees(r: Rotation): int
  {
    match r
    case Identity => 0
    case Rotate90 => 90
    case Rotate180 => 180
    case Rotate270 => 270
    case Unspecified => 0
  }

  /** The table is the angle from the current orientation back to the
      native one: for a landscape or portrait native orientation and any
      actual current orientation, the rotation is specified and its angle
      is native minus current, modulo a full turn. Every other pair is
      unspecified. */
  lemma RotationIsAngleDifference(native: Orientation, current: Orientation)
    ensures (native == Landscape || native == Portrait) && IsOrientation(current) ==>
      && ComputeDisplayRotation(native, current) != Unspecified
      && Degrees(ComputeDisplayRotation(native, current)) == (Angle(native) - Angle(current)) % 360
    ensures !((native == Landscape || native == Portrait) && IsOrientation(current)) ==>
      ComputeDisplayRotation(native, current) == Unspecified
  {
  }

  predicate SwapsAxes(r: Rotation) { r == Rotate90 || r == Rotate270 }

  predicate IsPortraitShaped(o: Orientation) { o == Portrait || o == PortraitFlipped }

  /** Width and height trade places exactly when the current orientation
      is turned a quarter from the native one. */
  lemma SwapWhenShapeDiffers(native: Orientation, current: Orientation)
    requires native == Landscape || native == Portrait
    requires IsOrientation(current)
    ensures SwapsAxes(ComputeDisplayRotation(native, current)) <==> IsPortraitShaped(native) != IsPortraitShaped(current)
  {
  }

  /** C++ float-to-int conversion: truncation toward zero. */
  function Truncate(x: real): int
  {
    if x >= 0.0 then x.Floor else -((-x).Floor)
  }

  /** ConvertDipsToPixels: the scaled length, rounded half up for
      non-negative lengths. */
  function DipsToPixels(dips: real, dpi: real): (px: int)
    requires dpi > 0.0
    ensures dips >= 0.0 ==> px >= 0
  {
    var x := dips * dpi / 96.0 + 0.5;
    assert dips >= 0.0 ==> dips * dpi >= 0.0;
    Truncate(x)
  }

  function ClampReal(v: real, hi: real): (r: real)
    requires hi >= 0.0
    ensures 0.0 <= r <= hi
    ensures 0.0 <= v <= hi ==> r == v
  {
    if v < 0.0 then 0.0 else if v > hi then hi else v
  }

  /** A position scaled by the ratio of a new size to the previous one;
      a position within [0, previous] lands within [0, new]. */
  function Rescale(x: real, prev: int, next: int): (r: real)
    requires prev > 0
    ensures 0.0 <= x <= prev as real && next >= 0 ==> 0.0 <= r <= next as real
  {
    var k := next as real / prev as real;
    assert next >= 0 ==> k >= 0.0 && prev as real * k == next as real;
    assert next >= 0 && 0.0 <= x <= prev as real ==> 0.0 <= x * k <= prev as real * k;
    x * k
  }

  class ViewProvider {
    var absolute: bool
    var relative: bool
    var clipCursor: bool
    var cursorX: real
    var cursorY: real
    var logicalWidth: real
    var logicalHeight: real
    var dpi: real
    var native: Orientation
    var current: Orientation
    var outputWidth: int
    var outputHeight: int

    /** Exactly one mouse mode is active, and the display numbers are
        usable. */
    ghost predicate Valid()
      reads this
    {
      && (if absolute then !relative && !clipCursor else relative != clipCursor)
      && dpi > 0.0 && logicalWidth >= 0.0 && logicalHeight >= 0.0
      && outputWidth >= 0 && outputHeight >= 0
    }

    predicate CursorOnScreen()
      reads this
    {
      0.0 <= cursorX <= outputWidth as real && 0.0 <= cursorY <= outputHeight as real
    }

    /** The window starts with the Windows pointer in absolute mode and
        the output size of its bounds at the current DPI. */
    constructor (width: real, height: real, dpi: real, native: Orientation, current: Orientation)
      requires width >= 0.0 && height >= 0.0 && dpi > 0.0
      ensures Valid() && absolute && !relative && !clipCursor
      ensures this.native == native && this.current == current && this.dpi == dpi
      ensures SwapsAxes(ComputeDisplayRotation(native, current)) ==>
        outputWidth == DipsToPixels(height, dpi) && outputHeight == DipsToPixels(width, dpi)
      ensures !SwapsAxes(ComputeDisplayRotation(native, current)) ==>
        outputWidth == DipsToPixels(width, dpi) && outputHeight == DipsToPixels(height, dpi)
    {
      absolute, relative, clipCursor := true, false, false;
      cursorX, cursorY := 0.0, 0.0;
      logicalWidth, logicalHeight := width, height;
      this.dpi := dpi;
      this.native, this.current := native, current;
      var w := DipsToPixels(width, dpi);
      var h := DipsToPixels(height, dpi);
      if SwapsAxes(ComputeDisplayRotation(native, current)) {
        w, h := h, w;
      }
      outputWidth, outputHeight := w, h;
    }

    /** The output size from the logical size and the DPI, with width and
        height swapped for a quarter-turn rotation. */
    method HandleWindowSizeChanged() returns (rotation: Rotation)
      requires Valid()
      modifies this`outputWidth, this`outputHeight
      ensures Valid()
      ensures rotation == ComputeDisplayRotation(native, current)
      ensures SwapsAxes(rotation) ==>
        outputWidth == DipsToPixels(logicalHeight, dpi) && outputHeight == DipsToPixels(logicalWidth, dpi)
      ensures !SwapsAxes(rotation) ==>
        outputWidth == DipsToPixels(logicalWidth, dpi) && outputHeight == DipsToPixels(logicalHeight, dpi)
    {
      outputWidth := DipsToPixels(logicalWidth, dpi);
      outputHeight := DipsToPixels(logicalHeight, dpi);
      rotation := ComputeDisplayRotation(native, current);
      if SwapsAxes(rotation) {
        outputWidth, outputHeight := outputHeight, outputWidth;
      }
    }

    method OnDpiChanged(newDpi: real)
      requires Valid() && newDpi > 0.0
      modifies this`dpi, this`outputWidth, this`outputHeight
      ensures Valid() && dpi == newDpi
      ensures SwapsAxes(ComputeDisplayRotation(native, current)) ==>
        outputWidth == DipsToPixels(logicalHeight, dpi) && outputHeight == DipsToPixels(logicalWidth, dpi)
      ensures !SwapsAxes(ComputeDisplayRotation(native, current)) ==>
        outputWidth == DipsToPixels(logicalWidth, dpi) && outputHeight == DipsToPixels(logicalHeight, dpi)
    {
      dpi := newDpi;
      var _ := HandleWindowSizeChanged();
    }

    method OnOrientationChanged(newCurrent: Orientation)
      requires Valid()
      modifies this`current, this`outputWidth, this`outputHeight
      ensures Valid() && current == newCurrent
      ensures SwapsAxes(ComputeDisplayRotation(native, current)) ==>
        outputWidth == DipsToPixels(logicalHeight, dpi) && outputHeight == DipsToPixels(logicalWidth, dpi)
      ensures !SwapsAxes(ComputeDisplayRotation(native, current)) ==>
        outputWidth == DipsToPixels(logicalWidth, dpi) && outputHeight == DipsToPixels(logicalHeight, dpi)
    {
      current := newCurrent;
      var _ := HandleWindowSizeChanged();
    }

    /** A press on a mode tile while the Windows pointer is free captures
        the mouse in that mode and puts the virtual cursor at the press,
        on screen. Any other press changes nothing. */
    method OnPointerPressed(x: real, y: real, mode: MouseMode)
      requires Valid()
      modifies this`absolute, this`relative, this`clipCursor, this`cursorX, this`cursorY
      ensures Valid()
      ensures old(absolute) && mode == RelativeMouse ==> !absolute && relative && !clipCursor
      ensures old(absolute) && mode == ClipCursorMouse ==> !absolute && !relative && clipCursor
      ensures old(absolute) && mode != AbsoluteMouse ==>
        cursorX == ClampReal(DipsToPixels(x, dpi) as real, outputWidth as real)
        && cursorY == ClampReal(DipsToPixels(y, dpi) as real, outputHeight as real)
        && CursorOnScreen()
      ensures !old(absolute) || mode == AbsoluteMouse ==>
        absolute == old(absolute) && relative == old(relative) && clipCursor == old(clipCursor)
        && cursorX == old(cursorX) && cursorY == old(cursorY)
    {
      if absolute {
        var newX := DipsToPixels(x, dpi) as real;
        var newY := DipsToPixels(y, dpi) as real;
        if mode == RelativeMouse {
          absolute := false;
          relative := true;
          cursorX := ClampReal(newX, outputWidth as real);
          cursorY := ClampReal(newY, outputHeight as real);
        } else if mode == ClipCursorMouse {
          absolute := false;
          clipCursor := true;
          cursorX := ClampReal(newX, outputWidth as real);
          cursorY := ClampReal(newY, outputHeight as real);
        }
      }
    }

    /** Releasing the capture, by Escape or by losing it, returns to the
        Windows pointer. */
    method ReturnToAbsolute()
      requires Valid()
      modifies this`absolute, this`relative, this`clipCursor
      ensures Valid() && absolute && !relative && !clipCursor
    {
      clipCursor := false;
      relative := false;
      absolute := true;
    }

    /** Escape leaves a captured mode; in absolute mode it does nothing. */
    method OnKeyDown(escape: bool)
      requires Valid()
      modifies this`absolute, this`relative, this`clipCursor
      ensures Valid()
      ensures escape ==> absolute && !relative && !clipCursor
      ensures !escape ==> absolute == old(absolute) && relative == old(relative) && clipCursor == old(clipCursor)
    {
      if escape && !absolute {
        ReturnToAbsolute();
      }
    }

    method OnPointerCaptureLost()
      requires Valid()
      modifies this`absolute, this`relative, this`clipCursor
      ensures Valid() && absolute && !relative && !clipCursor
    {
      ReturnToAbsolute();
    }

    /** Mouse movement while captured: in clip mode the virtual cursor
        moves by the scaled delta and stays on screen; otherwise it does
        not move (relative mode turns the camera instead). */
    method OnMouseMoved(dx: real, dy: real)
      requires Valid()
      modifies this`cursorX, this`cursorY
      ensures Valid()
      ensures clipCursor ==>
        && cursorX == ClampReal(old(cursorX) + DipsToPixels(dx, dpi) as real, outputWidth as real)
        && cursorY == ClampReal(old(cursorY) + DipsToPixels(dy, dpi) as real, outputHeight as real)
        && CursorOnScreen()
      ensures !clipCursor ==> cursorX == old(cursorX) && cursorY == old(cursorY)
    {
      if clipCursor {
        cursorX := ClampReal(cursorX + DipsToPixels(dx, dpi) as real, outputWidth as real);
        cursorY := ClampReal(cursorY + DipsToPixels(dy, dpi) as real, outputHeight as real);
      }
    }

    /** A new window size. The relative-mode cursor goes to the centre;
        the clip-mode cursor is scaled by the ratio of the new unrotated
        size to the previous output size; then the output size is
        recomputed with the rotation. Without a quarter turn, a clip
        cursor that was on screen stays on screen. */
    method OnWindowSizeChanged(width: real, height: real)
      requires Valid() && width >= 0.0 && height >= 0.0
      modifies this`logicalWidth, this`logicalHeight, this`outputWidth, this`outputHeight, this`cursorX, this`cursorY
      ensures Valid() && logicalWidth == width && logicalHeight == height
      ensures relative ==>
        cursorX == DipsToPixels(width, dpi) as real / 2.0 && cursorY == DipsToPixels(height, dpi) as real / 2.0
      ensures clipCursor && old(outputWidth) > 0 && old(outputHeight) > 0 ==>
        && cursorX == Rescale(old(cursorX), old(outputWidth), DipsToPixels(width, dpi))
        && cursorY == Rescale(old(cursorY), old(outputHeight), DipsToPixels(height, dpi))
      ensures (clipCursor && old(CursorOnScreen()) && old(outputWidth) > 0 && old(outputHeight) > 0
               && !SwapsAxes(ComputeDisplayRotation(native, current))) ==> CursorOnScreen()
      ensures absolute ==> cursorX == old(cursorX) && cursorY == old(cursorY)
    {
      var prevWidth, prevHeight := outputWidth, outputHeight;
      logicalWidth, logicalHeight := width, height;
      var w := DipsToPixels(width, dpi);
      var h := DipsToPixels(height, dpi);
      outputWidth, outputHeight := w, h;
      if relative {
        cursorX, cursorY := w as real / 2.0, h as real / 2.0;
      } else if clipCursor && prevWidth > 0 && prevHeight > 0 {
        cursorX, cursorY := Rescale(cursorX, prevWidth, w), Rescale(cursorY, prevHeight, h);
      }
      var _ := HandleWindowSizeChanged();
    }
  }
}
