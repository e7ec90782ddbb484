// The advanced ESRAM sample's controls: the wrapping index helpers, the
// per-frame update of the outlined object, the selected scene texture and
// that texture's share of ESRAM, the orbit camera, and the page ranges
// handed to the ESRAM visualiser. The transient allocator, the profiler
// and rendering are outside the model; what they report comes in as
// parameters. Floats are modelled as reals.

module AdvancedEsram {
  import opened Common

  // ---------------------------------------------------------------------
  // Wrapping index helpers

  /** C++ `%` on negative values keeps the sign of the dividend, so the
      remainder lies strictly between -mod and mod. */
  lemma CRemRange(a: int, m: int)
    requires m > 0
    ensures -m < CRem(a, m) < m
    ensures a >= 0 ==> CRem(a, m) == a % m
    ensures a < 0 ==> CRem(a, m) <= 0
  {
    if a < 0 {
      var q, r := (-a) / m, (-a) % m;
      assert -a == m * q + r;
      assert CDiv(a, m) == -q;
      assert CRem(a, m) == a + m * q;
    }
  }

  /** AddMod: the truncating remainder of value + add, with any negative
      remainder replaced by mod - 1. */
  function AddMod(value: int, add: int, mod: int): (r: int)
    requires mod > 0
    ensures 0 <= r < mod
    ensures value + add >= 0 ==> r == (value + add) % mod
    ensures -mod < value + add < 0 ==> r == mod - 1
  {
    CRemRange(value + add, mod);
    var res := CRem(value + add, mod);
    if res < 0 then mod - 1 else res
  }

  function IncrMod(value: int, mod: int): int
    requires mod > 0
  {
    AddMod(value, 1, mod)
  }

  function DecrMod(value: int, mod: int): int
    requires mod > 0
  {
    AddMod(value, -1, mod)
  }

  lemma IncrModStep(value: int, mod: int)
    requires 0 <= value < mod
    ensures IncrMod(value, mod) == (if value == mod - 1 then 0 else value + 1)
  {
    if value < mod - 1 {
      assert (value + 1) % mod == value + 1;
    }
  }

  lemma DecrModStep(value: int, mod: int)
    requires 0 <= value < mod
    ensures DecrMod(value, mod) == (if value == 0 then mod - 1 else value - 1)
  {
    if value > 0 {
      assert (value - 1) % mod == value - 1;
    }
  }

  /** On an index in [0, mod), stepping forward and back are mutual
      inverses, and each wraps between 0 and mod - 1. */
  lemma IncrDecrInverse(value: int, mod: int)
    requires 0 <= value < mod
    ensures IncrMod(value, mod) == (if value == mod - 1 then 0 else value + 1)
    ensures DecrMod(value, mod) == (if value == 0 then mod - 1 else value - 1)
    ensures DecrMod(IncrMod(value, mod), mod) == value
    ensures IncrMod(DecrMod(value, mod), mod) == value
  {
    IncrModStep(value, mod);
    DecrModStep(value, mod);
    IncrModStep(DecrMod(value, mod), mod);
    DecrModStep(IncrMod(value, mod), mod);
  }

  /** Saturate: clamps to [0, 1]. */
  function Saturate(value: real): (r: real)
    ensures 0.0 <= r <= 1.0
    ensures 0.0 <= value <= 1.0 ==> r == value
    ensures value < 0.0 ==> r == 0.0
    ensures value > 1.0 ==> r == 1.0
  {
    if value < 0.0 then 0.0 else if value > 1.0 then 1.0 else value
  }

  // ---------------------------------------------------------------------
  // Scene textures and ESRAM shares

  /** The scene textures: colour, depth, two outline and two bloom
      targets. */
  const ST_COUNT := 6

  /** The ESRAM pages a texture of `pageCount` pages asks for: its share
      of the pages, truncated. */
  function EsramPages(pageCount: nat, ratio: real): (pages: int)
    requires 0.0 <= ratio <= 1.0
    ensures 0 <= pages <= pageCount
    ensures ratio == 1.0 ==> pages == pageCount
    ensures ratio == 0.0 ==> pages == 0
  {
    ShareBounds(pageCount as real, ratio);
    (pageCount as real * ratio).Floor
  }

  /** A share of a non-negative amount lies between nothing and all of it. */
  lemma ShareBounds(n: real, ratio: real)
    requires 0.0 <= n && 0.0 <= ratio <= 1.0
    ensures 0.0 <= n * ratio <= n
  {
    assert n * (1.0 - ratio) >= 0.0;
    assert n * ratio == n - n * (1.0 - ratio);
  }

  /** A page range the allocator reports: `count` pages from `start`. */
  datatype Range = Range(start: int, count: int)

  /** The same range as the visualiser takes it: first page and one past
      the last. */
  datatype PageRange = PageRange(x: int, y: int)

  datatype VisTexture = VisTexture(pageRangeCount: int, pageRanges: seq<PageRange>)

  function Bounds(r: Range): PageRange { PageRange(r.start, r.start + r.count) }

  function FromBounds(p: PageRange): Range { Range(p.x, p.y - p.x) }

  /** The visualiser's ranges carry the allocator's ranges unchanged. */
  lemma BoundsInverse(r: Range, p: PageRange)
    ensures FromBounds(Bounds(r)) == r
    ensures Bounds(FromBounds(p)) == p
    ensures r.count >= 0 ==> Bounds(r).x <= Bounds(r).y
  {
  }

  /** The controls the update reads: button presses (edges) and held
      buttons from the button tracker, and the stick positions. */
  datatype Pad = Pad(
    connected: bool, view: bool,
    rightShoulderPressed: bool, leftShoulderPressed: bool,
    dpadRightPressed: bool, dpadLeftPressed: bool,
    dpadUpHeld: bool, dpadDownHeld: bool,
    aPressed: bool, rightStickHeld: bool,
    rightX: real, rightY: real, leftY: real)

  const XM_PI: real := 3.141592654
  const XM_PIDIV2: real := 1.570796327
  const MIN_PHI: real := 0.01
  const DEFAULT_PHI: real := 1.047197551
  const DEFAULT_RADIUS: real := 3.3

  function Clamp(value: real, lo: real, hi: real): (r: real)
    requires lo <= hi
    ensures lo <= r <= hi
    ensures lo <= value <= hi ==> r == value
  {
    if value < lo then lo else if value > hi then hi else value
  }

  /** The new index after a forward or backward press, or the old one. */
  function Stepped(value: int, mod: int, forward: bool, back: bool): int
    requires mod > 0
  {
    if forward then IncrMod(value, mod) else if back then DecrMod(value, mod) else value
  }

  /** The new ESRAM share of the selected texture. */
  function NewRatio(ratio: real, pad: Pad, step: real): real
  {
    if pad.dpadUpHeld then Saturate(ratio + step)
    else if pad.dpadDownHeld then Saturate(ratio - step)
    else ratio
  }

  lemma RealMulNonNeg(a: real, b: real)
    requires 0.0 <= a && 0.0 <= b
    ensures 0.0 <= a * b
  {
  }

  /** A stick deflection within [-1, 1] over at most a second turns the
      camera by at most half a revolution. */
  lemma SmallTurn(x: real, elapsed: real, turn: real)
    requires turn == x * XM_PI * elapsed
    ensures -1.0 <= x <= 1.0 && 0.0 <= elapsed <= 1.0 ==> -XM_PI <= turn <= XM_PI
  {
    if -1.0 <= x <= 1.0 && 0.0 <= elapsed <= 1.0 {
      if x >= 0.0 {
        assert x * elapsed <= 1.0 * elapsed by { assert (1.0 - x) * elapsed >= 0.0; }
        assert 0.0 <= x * elapsed;
      } else {
        assert (-x) * elapsed <= 1.0 * elapsed by { assert (1.0 + x) * elapsed >= 0.0; }
        RealMulNonNeg(-x, elapsed);
      }
      assert x * XM_PI * elapsed == (x * elapsed) * XM_PI;
    }
  }

  class Sample {
    /** The number of objects in the scene, fixed when the scene is
        created. */
    const sceneCount: nat
    const esramRatios: array<real>
    const esramChangeRate: real
    var outlineObjectIndex: int
    var selectedIndex: int
    var updateStats: bool
    var exitRequested: bool
    var duration: real
    var theta: real
    var phi: real
    var radius: real
    var visTextures: seq<VisTexture>

    ghost predicate Valid()
      reads this, esramRatios
    {
      && esramRatios.Length == ST_COUNT
      && 0 <= outlineObjectIndex < sceneCount
      && 0 <= selectedIndex < ST_COUNT
      && (forall k :: 0 <= k < ST_COUNT ==> 0.0 <= esramRatios[k] <= 1.0)
      && MIN_PHI <= phi <= XM_PIDIV2
      && 1.0 <= radius <= 10.0
    }

    /** Every texture starts entirely in ESRAM, with the first object
        outlined and the first texture selected. */
    constructor (sceneCount: nat)
      requires sceneCount > 0
      ensures Valid() && this.sceneCount == sceneCount
      ensures fresh(esramRatios) && esramRatios[..] == seq(ST_COUNT, k => 1.0)
      ensures outlineObjectIndex == 0 && selectedIndex == 0 && updateStats && !exitRequested
      ensures theta == 0.0 && phi == DEFAULT_PHI && radius == DEFAULT_RADIUS
    {
      this.sceneCount := sceneCount;
      esramRatios := new real[ST_COUNT](k => 1.0);
      esramChangeRate := 0.5;
      outlineObjectIndex := 0;
      selectedIndex := 0;
      updateStats := true;
      exitRequested := false;
      duration := 0.0;
      theta := 0.0;
      phi := DEFAULT_PHI;
      radius := DEFAULT_RADIUS;
      visTextures := [];
    }

    /** The shoulder buttons step the outlined object, the d-pad left and
        right step the selected texture. */
    method UpdateSelection(pad: Pad)
      requires Valid()
      modifies this`outlineObjectIndex, this`selectedIndex, this`updateStats
      ensures Valid()
      ensures outlineObjectIndex == Stepped(old(outlineObjectIndex), sceneCount, pad.rightShoulderPressed, pad.leftShoulderPressed)
      ensures selectedIndex == Stepped(old(selectedIndex), ST_COUNT, pad.dpadRightPressed, pad.dpadLeftPressed)
      ensures updateStats == (old(updateStats) || pad.rightShoulderPressed || pad.leftShoulderPressed
                              || pad.dpadRightPressed || pad.dpadLeftPressed)
    {
      if pad.rightShoulderPressed {
        outlineObjectIndex := IncrMod(outlineObjectIndex, sceneCount);
        updateStats := true;
      } else if pad.leftShoulderPressed {
        outlineObjectIndex := DecrMod(outlineObjectIndex, sceneCount);
        updateStats := true;
      }
      if pad.dpadRightPressed {
        selectedIndex := IncrMod(selectedIndex, ST_COUNT);
        updateStats := true;
      } else if pad.dpadLeftPressed {
        selectedIndex := DecrMod(selectedIndex, ST_COUNT);
        updateStats := true;
      }
    }

    /** The d-pad up and down move the selected texture's ESRAM share by
        the change rate per second, kept in [0, 1]. */
    method UpdateRatio(pad: Pad, elapsed: real)
      requires Valid()
      modifies esramRatios, this`updateStats
      ensures Valid()
      ensures esramRatios[..] == old(esramRatios[..])[selectedIndex :=
        NewRatio(old(esramRatios[..])[selectedIndex], pad, elapsed * esramChangeRate)]
      ensures updateStats == (old(updateStats) || pad.dpadUpHeld || pad.dpadDownHeld)
    {
      var index := selectedIndex;
      if pad.dpadUpHeld {
        esramRatios[index] := Saturate(esramRatios[index] + elapsed * esramChangeRate);
        updateStats := true;
      } else if pad.dpadDownHeld {
        esramRatios[index] := Saturate(esramRatios[index] - elapsed * esramChangeRate);
        updateStats := true;
      }
    }

    /** The right stick orbits the camera and the left stick zooms;
        clicking the right stick resets the view. Elevation and distance
        are then clamped and the azimuth wrapped once. */
    method UpdateCamera(pad: Pad, elapsed: real)
      requires Valid()
      modifies this`theta, this`phi, this`radius
      ensures Valid()
      ensures pad.connected && pad.rightStickHeld ==> phi == DEFAULT_PHI && radius == DEFAULT_RADIUS
      ensures !pad.connected ==> phi == old(phi) && radius == old(radius)
      ensures !pad.connected && -XM_PI <= old(theta) <= XM_PI ==> theta == old(theta)
      ensures pad.connected && !pad.rightStickHeld ==>
        && phi == Clamp(old(phi) - pad.rightY * XM_PI * elapsed, MIN_PHI, XM_PIDIV2)
        && radius == Clamp(old(radius) - pad.leftY * 5.0 * elapsed, 1.0, 10.0)
      ensures (-XM_PI <= old(theta) <= XM_PI && -1.0 <= pad.rightX <= 1.0 && 0.0 <= elapsed <= 1.0)
              ==> -XM_PI <= theta <= XM_PI
    {
      if pad.connected {
        if pad.rightStickHeld {
          theta := 0.0;
          phi := DEFAULT_PHI;
          radius := DEFAULT_RADIUS;
        } else {
          var turn := pad.rightX * XM_PI * elapsed;
          SmallTurn(pad.rightX, elapsed, turn);
          theta := theta + turn;
          phi := phi - pad.rightY * XM_PI * elapsed;
          radius := radius - pad.leftY * 5.0 * elapsed;
        }
      }
      phi := Clamp(phi, MIN_PHI, XM_PIDIV2);
      radius := Clamp(radius, 1.0, 10.0);
      if theta > XM_PI {
        theta := theta - XM_PI * 2.0;
      } else if theta < -XM_PI {
        theta := theta + XM_PI * 2.0;
      }
    }

    /** One frame's update. `frameMs` is the profiler's last frame time;
        a reading more than half a millisecond from the shown duration
        replaces it. */
    method Update(pad: Pad, elapsed: real, frameMs: real)
      requires Valid()
      modifies this`outlineObjectIndex, this`selectedIndex, this`updateStats, this`exitRequested,
               this`duration, this`theta, this`phi, this`radius, esramRatios
      ensures Valid()
      ensures !pad.connected ==>
        && outlineObjectIndex == old(outlineObjectIndex) && selectedIndex == old(selectedIndex)
        && esramRatios[..] == old(esramRatios[..]) && updateStats == old(updateStats)
      ensures pad.connected ==>
        && outlineObjectIndex == Stepped(old(outlineObjectIndex), sceneCount, pad.rightShoulderPressed, pad.leftShoulderPressed)
        && selectedIndex == Stepped(old(selectedIndex), ST_COUNT, pad.dpadRightPressed, pad.dpadLeftPressed)
        && esramRatios[..] == old(esramRatios[..])[selectedIndex :=
             NewRatio(old(esramRatios[..])[selectedIndex], pad, elapsed * esramChangeRate)]
      ensures exitRequested == (old(exitRequested) || (pad.connected && pad.view))
      ensures var d := if pad.connected && pad.aPressed then 0.0 else old(duration);
        duration == (if d - frameMs > 0.5 || frameMs - d > 0.5 then frameMs else d)
    {
      if pad.connected {
        if pad.view {
          exitRequested := true;
        }
        UpdateSelection(pad);
        UpdateRatio(pad, elapsed);
        if pad.aPressed {
          duration := 0.0;
        }
      }
      UpdateCamera(pad, elapsed);
      if duration - frameMs > 0.5 || frameMs - duration > 0.5 {
        duration := frameMs;
      }
    }

    /** Copies each scene texture's ESRAM page ranges, as the allocator
        reports them, into the visualiser's data. */
    method UpdateVisualizerRanges(ranges: seq<seq<Range>>)
      requires |ranges| == ST_COUNT
      modifies this`visTextures
      ensures |visTextures| == ST_COUNT
      ensures forall i :: 0 <= i < ST_COUNT ==>
        && visTextures[i].pageRangeCount == |ranges[i]| == |visTextures[i].pageRanges|
        && (forall j :: 0 <= j < |ranges[i]| ==> FromBounds(visTextures[i].pageRanges[j]) == ranges[i][j])
    {
      var vis: seq<VisTexture> := [];
      var i := 0;
      while i < ST_COUNT
        invariant i <= ST_COUNT && |vis| == i
        invariant forall k :: 0 <= k < i ==>
          && vis[k].pageRangeCount == |ranges[k]| == |vis[k].pageRanges|
          && (forall j :: 0 <= j < |ranges[k]| ==> FromBounds(vis[k].pageRanges[j]) == ranges[k][j])
      {
        var pageRanges := CopyRanges(ranges[i]);
        vis := vis + [VisTexture(|ranges[i]|, pageRanges)];
        i := i + 1;
      }
      visTextures := vis;
    }
  }

  /** One texture's ranges, as first page and one past the last. */
  method CopyRanges(rs: seq<Range>) returns (pageRanges: seq<PageRange>)
    ensures |pageRanges| == |rs|
    ensures forall j :: 0 <= j < |rs| ==> FromBounds(pageRanges[j]) == rs[j]
    ensures forall j :: 0 <= j < |rs| && rs[j].count >= 0 ==> pageRanges[j].x <= pageRanges[j].y
  {
    pageRanges := [];
    var j := 0;
    while j < |rs|
      invariant j <= |rs| && |pageRanges| == j
      invariant forall k :: 0 <= k < j ==> pageRanges[k] == Bounds(rs[k])
    {
      pageRanges := pageRanges + [PageRange(rs[j].start, rs[j].start + rs[j].count)];
      j := j + 1;
    }
  }
}
