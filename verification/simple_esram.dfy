// The ESRAM sample's page planning: page counts of 64 KiB pages, the
// metadata page ranges read from a resource layout, the run-length token
// arrays handed to the memory-layout engine for the metadata and random
// mapping schemes, and the controls that move pages of the colour and
// depth targets between ESRAM and system memory. The layout engine, the
// XG layout queries and the random generator are inputs.

module SimpleEsram {
  import opened Common

  const ESRAM_PAGE_COUNT: int := 512
  const PAGE_SIZE: nat := 64 * 1024

  /** The mapping schemes, in the order the sample cycles through them:
      none, simple, split, metadata, random. */
  const SCHEME_NONE: nat := 0
  const SCHEME_SIMPLE: nat := 1
  const SCHEME_SPLIT: nat := 2
  const SCHEME_METADATA: nat := 3
  const SCHEME_RANDOM: nat := 4
  const SCHEME_COUNT: nat := 5

  // ---------------------------------------------------------------------
  // Helpers

  function DivRoundUp(num: nat, denom: nat): nat
    requires denom > 0
  {
    (num + denom - 1) / denom
  }

  /** DivRoundUp is the ceiling of the quotient: the least q with
      q * denom >= num. */
  lemma DivRoundUpIsCeiling(num: nat, denom: nat)
    requires denom > 0
    ensures DivRoundUp(num, denom) * denom >= num
    ensures DivRoundUp(num, denom) == 0 || (DivRoundUp(num, denom) - 1) * denom < num
  {
    var q, r := (num + denom - 1) / denom, (num + denom - 1) % denom;
    assert num + denom - 1 == denom * q + r;
    assert q * denom == num + denom - 1 - r;
  }

  /** The number of 64 KiB pages a resource of `byteSize` bytes takes. */
  function PageCount(byteSize: nat): nat
  {
    DivRoundUp(byteSize, PAGE_SIZE)
  }

  /** The pages hold every byte, and the last page holds at least one. */
  lemma PageCountCovers(byteSize: nat)
    ensures PageCount(byteSize) * PAGE_SIZE >= byteSize
    ensures PageCount(byteSize) == 0 || (PageCount(byteSize) - 1) * PAGE_SIZE < byteSize
  {
    DivRoundUpIsCeiling(byteSize, PAGE_SIZE);
  }

  function Clamp(value: int, min: int, max: int): (r: int)
    ensures min <= max ==> min <= r <= max
    ensures min <= value <= max ==> r == value
    ensures value < min ==> r == min
  {
    if value < min then min else if value > max then max else value
  }

  // ---------------------------------------------------------------------
  // Metadata page ranges

  /** A run of pages [start, start + count). */
  datatype PageRange = PageRange(start: int, count: int)
  {
    function End(): int { start + count }
  }

  /** One plane of a resource layout: whether it holds metadata (colour
      mask, fragment mask, HTILE or delta colour compression), and its
      byte extent. */
  datatype Plane = Plane(isMetadata: bool, baseOffset: nat, size: nat)

  function StartPage(p: Plane): int { p.baseOffset / PAGE_SIZE }

  /** The page holding the byte just past the plane. */
  function EndPage(p: Plane): int { (p.baseOffset + p.size) / PAGE_SIZE }

  predicate RangeHas(r: PageRange, page: int)
  {
    r.start <= page < r.End()
  }

  /** Whether some range of the list holds the page. */
  predicate Covered(ranges: seq<PageRange>, page: int)
  {
    ranges != [] && (Covered(ranges[..|ranges| - 1], page) || RangeHas(ranges[|ranges| - 1], page))
  }

  /** Whether the page lies between the first page of a metadata plane and
      that plane's end page, both included. */
  predicate PlaneHas(p: Plane, page: int)
  {
    p.isMetadata && StartPage(p) <= page <= EndPage(p)
  }

  predicate MetadataHas(planes: seq<Plane>, page: int)
  {
    planes != [] && (MetadataHas(planes[..|planes| - 1], page) || PlaneHas(planes[|planes| - 1], page))
  }

  /** The end of the last range, or 0 when there is none. */
  function DescEnd(ranges: seq<PageRange>): int
  {
    if ranges == [] then 0 else ranges[|ranges| - 1].End()
  }

  /** The planes of a layout lie in address order without overlapping. */
  predicate PlanesAscending(planes: seq<Plane>)
  {
    forall j, k :: 0 <= j < k < |planes| ==> planes[j].baseOffset + planes[j].size <= planes[k].baseOffset
  }

  lemma DivMonotone(a: nat, b: nat, d: nat)
    requires a <= b && d > 0
    ensures a / d <= b / d
  {
    var qa, qb := a / d, b / d;
    assert a == d * qa + a % d && b == d * qb + b % d;
    if qa > qb {
      MulNonNeg(d, qa - qb - 1);
      assert false;
    }
  }

  /** FillLayoutDesc: walk the planes and record the page ranges of the
      metadata planes. Every range is non-empty and the ranges cover
      exactly the metadata planes' pages; when the planes are in address
      order the ranges are too, and the last one ends just past the end
      page of the last metadata plane. */
  method FillLayoutDesc(planes: seq<Plane>) returns (ranges: seq<PageRange>)
    ensures forall page :: Covered(ranges, page) == MetadataHas(planes, page)
    ensures forall j :: 0 <= j < |ranges| ==> ranges[j].count >= 1
    ensures |ranges| <= |planes|
    ensures PlanesAscending(planes) ==> Sorted(ranges)
  {
    ranges := [];
    var i := 0;
    while i < |planes|
      invariant i <= |planes| && |ranges| <= i
      invariant forall page :: Covered(ranges, page) == MetadataHas(planes[..i], page)
      invariant forall j :: 0 <= j < |ranges| ==> ranges[j].count >= 1
      invariant PlanesAscending(planes) ==> Sorted(ranges)
      invariant PlanesAscending(planes) && ranges != [] ==>
        forall k :: i <= k < |planes| ==> DescEnd(ranges) - 1 <= StartPage(planes[k])
    {
      assert planes[..i + 1][..i] == planes[..i];
      ranges := AddPlane(ranges, planes[i]);
      if PlanesAscending(planes) && ranges != [] {
        forall k | i + 1 <= k < |planes|
          ensures DescEnd(ranges) - 1 <= StartPage(planes[k])
        {
          if planes[i].isMetadata {
            DivMonotone(planes[i].baseOffset + planes[i].size, planes[k].baseOffset, PAGE_SIZE);
          }
        }
      }
      i := i + 1;
    }
    assert planes[..|planes|] == planes;
  }

  /** One plane of FillLayoutDesc: a metadata plane that starts on the last
      page of the previous range extends that range; any other metadata
      plane opens a new one. A plane starting no earlier than the last
      page of sorted ranges keeps them sorted. */
  method AddPlane(ranges: seq<PageRange>, plane: Plane) returns (ranges': seq<PageRange>)
    requires forall j :: 0 <= j < |ranges| ==> ranges[j].count >= 1
    ensures forall page :: Covered(ranges', page) == (Covered(ranges, page) || PlaneHas(plane, page))
    ensures forall j :: 0 <= j < |ranges'| ==> ranges'[j].count >= 1
    ensures |ranges'| <= |ranges| + 1
    ensures !plane.isMetadata ==> ranges' == ranges
    ensures plane.isMetadata ==> ranges' != [] && DescEnd(ranges') == EndPage(plane) + 1
    ensures Sorted(ranges) && (ranges != [] ==> DescEnd(ranges) - 1 <= StartPage(plane)) ==> Sorted(ranges')
  {
    ranges' := ranges;
    if plane.isMetadata {
      var startPage := StartPage(plane);
      var endPage := EndPage(plane);
      if |ranges| > 0 && startPage == ranges[|ranges| - 1].End() - 1 {
        var last := ranges[|ranges| - 1];
        ranges' := ranges[|ranges| - 1 := last.(count := last.count + endPage - startPage)];
        MergeRange(ranges, plane, ranges');
      } else {
        ranges' := ranges + [PageRange(startPage, endPage - startPage + 1)];
        AppendRange(ranges, plane, ranges');
      }
    }
  }

  /** A plane's end page is never before its start page. */
  lemma PlanePagesOrdered(plane: Plane)
    ensures StartPage(plane) <= EndPage(plane)
  {
    DivMonotone(plane.baseOffset, plane.baseOffset + plane.size, PAGE_SIZE);
  }

  /** Extending the last range to a metadata plane that starts on its last
      page. */
  lemma MergeRange(ranges: seq<PageRange>, plane: Plane, r: seq<PageRange>)
    requires forall j :: 0 <= j < |ranges| ==> ranges[j].count >= 1
    requires plane.isMetadata && |ranges| > 0 && StartPage(plane) == ranges[|ranges| - 1].End() - 1
    requires var last := ranges[|ranges| - 1];
             r == ranges[|ranges| - 1 := last.(count := last.count + EndPage(plane) - StartPage(plane))]
    ensures forall page :: Covered(r, page) == (Covered(ranges, page) || PlaneHas(plane, page))
    ensures forall j :: 0 <= j < |r| ==> r[j].count >= 1
    ensures r != [] && DescEnd(r) == EndPage(plane) + 1
    ensures Sorted(ranges) ==> Sorted(r)
  {
    PlanePagesOrdered(plane);
    assert r[..|r| - 1] == ranges[..|ranges| - 1];
  }

  /** Opening a new range for a metadata plane. */
  lemma AppendRange(ranges: seq<PageRange>, plane: Plane, r: seq<PageRange>)
    requires forall j :: 0 <= j < |ranges| ==> ranges[j].count >= 1
    requires plane.isMetadata && (|ranges| > 0 ==> StartPage(plane) != ranges[|ranges| - 1].End() - 1)
    requires r == ranges + [PageRange(StartPage(plane), EndPage(plane) - StartPage(plane) + 1)]
    ensures forall page :: Covered(r, page) == (Covered(ranges, page) || PlaneHas(plane, page))
    ensures forall j :: 0 <= j < |r| ==> r[j].count >= 1
    ensures r != [] && DescEnd(r) == EndPage(plane) + 1
    ensures Sorted(ranges) && (ranges != [] ==> DescEnd(ranges) - 1 <= StartPage(plane)) ==> Sorted(r)
  {
    PlanePagesOrdered(plane);
    AppendRangeCovers(ranges, plane, r);
    CountsAppend(ranges, r[|r| - 1]);
    assert r == ranges + [r[|r| - 1]];
    if Sorted(ranges) && (ranges != [] ==> DescEnd(ranges) - 1 <= StartPage(plane)) {
      SortedAppend(ranges, r[|r| - 1]);
    }
  }

  lemma AppendRangeCovers(ranges: seq<PageRange>, plane: Plane, r: seq<PageRange>)
    requires plane.isMetadata
    requires r == ranges + [PageRange(StartPage(plane), EndPage(plane) - StartPage(plane) + 1)]
    ensures forall page :: Covered(r, page) == (Covered(ranges, page) || PlaneHas(plane, page))
  {
    CoversAppend(ranges, r[|r| - 1]);
  }

  lemma CountsAppend(ranges: seq<PageRange>, x: PageRange)
    requires forall j :: 0 <= j < |ranges| ==> ranges[j].count >= 1
    requires x.count >= 1
    ensures forall j :: 0 <= j < |ranges + [x]| ==> (ranges + [x])[j].count >= 1
  {
  }

  /** The pages an appended range covers are those it holds and those the
      earlier ranges cover. */
  lemma CoversAppend(ranges: seq<PageRange>, x: PageRange)
    ensures forall page :: Covered(ranges + [x], page) == (Covered(ranges, page) || RangeHas(x, page))
  {
    assert (ranges + [x])[..|ranges|] == ranges;
  }

  /** Appending a range that starts at or after the end of the last one
      keeps the ranges sorted. */
  lemma SortedAppend(ranges: seq<PageRange>, x: PageRange)
    requires Sorted(ranges) && 0 <= x.start && 0 <= x.count
    requires ranges != [] ==> DescEnd(ranges) <= x.start
    ensures Sorted(ranges + [x])
  {
    var r := ranges + [x];
    forall j | 0 <= j < |ranges|
      ensures ranges[j].End() <= x.start
    {
      if j < |ranges| - 1 {
        assert ranges[j].End() <= ranges[|ranges| - 1].start;
      }
    }
    forall j, k | 0 <= j < k < |r|
      ensures r[j].End() <= r[k].start
    {
      if k < |ranges| {
        assert r[j] == ranges[j] && r[k] == ranges[k];
      }
    }
  }

  // ---------------------------------------------------------------------
  // Run-length tokens

  /** A token of a run-length mapping: a number of pages in ESRAM or in
      system memory. */
  datatype Token = Esram(pages: int) | System(pages: int)

  /** The page-by-page placement a token array describes: true for ESRAM. */
  function Expand(tokens: seq<Token>): seq<bool>
  {
    if tokens == [] then []
    else
      var t := tokens[|tokens| - 1];
      Expand(tokens[..|tokens| - 1]) + Run(t.Esram?, if t.pages < 0 then 0 else t.pages)
  }

  /** n pages of the same placement. */
  function Run(esram: bool, n: nat): seq<bool>
  {
    seq(n, _ => esram)
  }

  lemma RunSucc(esram: bool, n: nat)
    ensures Run(esram, n + 1) == Run(esram, n) + [esram]
  {}

  lemma ExpandAppend(tokens: seq<Token>, t: Token)
    ensures Expand(tokens + [t]) == Expand(tokens) + Run(t.Esram?, if t.pages < 0 then 0 else t.pages)
  {
    assert (tokens + [t])[..|tokens|] == tokens;
  }

  /** Ranges in increasing order, none overlapping the next, none negative. */
  predicate Sorted(ranges: seq<PageRange>)
  {
    (forall j :: 0 <= j < |ranges| ==> 0 <= ranges[j].start && 0 <= ranges[j].count) &&
    (forall j, k :: 0 <= j < k < |ranges| ==> ranges[j].End() <= ranges[k].start)
  }

  /** A page of range i is covered. */
  lemma {:induction false} RangeCovered(ranges: seq<PageRange>, i: nat, page: int)
    requires i < |ranges| && RangeHas(ranges[i], page)
    ensures Covered(ranges, page)
  {
    if i < |ranges| - 1 {
      RangeCovered(ranges[..|ranges| - 1], i, page);
    }
  }

  /** A page between the end of range i-1 (or page 0) and the start of
      range i (or past the end of the last range) lies in no range. */
  lemma {:induction false} GapNotCovered(ranges: seq<PageRange>, i: nat, page: int)
    requires Sorted(ranges) && i <= |ranges|
    requires i > 0 ==> ranges[i - 1].End() <= page
    requires i < |ranges| ==> page < ranges[i].start
    ensures !Covered(ranges, page)
  {
    if ranges != [] {
      var n := |ranges|;
      var prefix := ranges[..n - 1];
      if i < n - 1 {
        assert ranges[i].End() <= ranges[n - 1].start;
        GapNotCovered(prefix, i, page);
      } else {
        if 1 < n {
          assert ranges[n - 2].End() <= ranges[n - 1].start;
        }
        GapNotCovered(prefix, n - 1, page);
      }
    }
  }

  /** The metadata mapping: walk the sorted ranges, emitting a system token
      for each gap and an ESRAM token for each range, then one system token
      for the pages past the last range. The tokens place exactly the
      ranges' pages in ESRAM, page for page, over the whole resource. When
      the last range ends past the resource (a metadata plane ending on the
      resource's last page boundary) the last token counts a negative
      number of pages and the ranges' pages are the whole placement. */
  method MetadataTokens(totalPageCount: int, ranges: seq<PageRange>) returns (tokens: seq<Token>)
    requires Sorted(ranges)
    ensures |Expand(tokens)| == Max(totalPageCount, DescEnd(ranges))
    ensures forall p :: 0 <= p < |Expand(tokens)| ==> Expand(tokens)[p] == Covered(ranges, p)
    ensures tokens != [] && tokens[|tokens| - 1] == System(totalPageCount - DescEnd(ranges))
  {
    tokens := [];
    var currPage := 0;
    var i := 0;
    while currPage < DescEnd(ranges)
      invariant i <= |ranges| && 0 <= currPage <= DescEnd(ranges)
      invariant i < |ranges| ==> currPage <= ranges[i].start
      invariant i > 0 ==> ranges[i - 1].End() <= currPage
      invariant i == |ranges| ==> currPage == DescEnd(ranges)
      invariant |Expand(tokens)| == currPage
      invariant forall p :: 0 <= p < currPage ==> Expand(tokens)[p] == Covered(ranges, p)
      decreases 2 * (|ranges| - i) + (if i < |ranges| && currPage < ranges[i].start then 1 else 0)
    {
      if currPage == ranges[i].start {
        var r := ranges[i];
        ExpandAppend(tokens, Esram(r.count));
        forall p | currPage <= p < r.End()
          ensures Covered(ranges, p)
        {
          RangeCovered(ranges, i, p);
        }
        if i + 1 < |ranges| {
          assert r.End() <= ranges[i + 1].start <= ranges[|ranges| - 1].start;
        }
        tokens := tokens + [Esram(r.count)];
        currPage := r.End();
        i := i + 1;
      } else {
        var gap := ranges[i].start - currPage;
        ExpandAppend(tokens, System(gap));
        forall p | currPage <= p < ranges[i].start
          ensures !Covered(ranges, p)
        {
          GapNotCovered(ranges, i, p);
        }
        tokens := tokens + [System(gap)];
        currPage := ranges[i].start;
      }
    }
    ClosingToken(totalPageCount, ranges, tokens);
    tokens := tokens + [System(totalPageCount - currPage)];
  }

  /** The last token of the metadata mapping: the pages from the end of the
      last range to the end of the resource, none of them covered; nothing
      when the ranges reach past the resource. */
  lemma ClosingToken(totalPageCount: int, ranges: seq<PageRange>, tokens: seq<Token>)
    requires Sorted(ranges) && |Expand(tokens)| == DescEnd(ranges)
    requires forall p :: 0 <= p < DescEnd(ranges) ==> Expand(tokens)[p] == Covered(ranges, p)
    ensures var e := Expand(tokens + [System(totalPageCount - DescEnd(ranges))]);
            |e| == Max(totalPageCount, DescEnd(ranges))
            && forall p :: 0 <= p < |e| ==> e[p] == Covered(ranges, p)
  {
    var end := DescEnd(ranges);
    ExpandAppend(tokens, System(totalPageCount - end));
    forall p | end <= p < totalPageCount
      ensures !Covered(ranges, p)
    {
      GapNotCovered(ranges, |ranges|, p);
    }
  }

  /** The token a run-length mapping built by alternation holds at index k:
      even tokens map to ESRAM, odd ones to system memory. */
  function AlternateToken(k: nat, pages: int): Token
  {
    if k % 2 == 0 then Esram(pages) else System(pages)
  }

  predicate Alternates(tokens: seq<Token>)
  {
    forall k :: 0 <= k < |tokens| ==> tokens[k] == AlternateToken(k, tokens[k].pages)
  }

  lemma AlternatesAppend(tokens: seq<Token>, pages: int)
    requires Alternates(tokens)
    ensures Alternates(tokens + [AlternateToken(|tokens|, pages)])
  {}

  /** The random mapping: given the roll for each page (true: ESRAM), close
      the current run whenever the roll disagrees with the current token's
      memory type, then close the last run. The tokens alternate ESRAM and
      system memory, starting with ESRAM, and place every page where its
      roll says. */
  method RandomTokens(rolls: seq<bool>) returns (tokens: seq<Token>)
    ensures Alternates(tokens)
    ensures Expand(tokens) == rolls
    ensures |tokens| <= |rolls| + 1
  {
    tokens := [];
    var count := 0;
    var i := 0;
    while i < |rolls|
      invariant i <= |rolls| && |tokens| <= i
      invariant Alternates(tokens)
      invariant Expand(tokens) + Run(|tokens| % 2 == 0, count) == rolls[..i]
    {
      assert rolls[..i + 1] == rolls[..i] + [rolls[i]];
      tokens, count := RandomStep(tokens, count, rolls[i]);
      i := i + 1;
    }
    var t := AlternateToken(|tokens|, count);
    ExpandAppend(tokens, t);
    AlternatesAppend(tokens, count);
    tokens := tokens + [t];
    assert rolls[..|rolls|] == rolls;
  }

  /** One page of the random mapping: a roll that disagrees with the
      current token's type closes the current run; the page then joins the
      run. */
  method RandomStep(tokens: seq<Token>, count: nat, toEsram: bool) returns (tokens': seq<Token>, count': nat)
    requires Alternates(tokens)
    ensures Alternates(tokens') && |tokens'| <= |tokens| + 1
    ensures Expand(tokens') + Run(|tokens'| % 2 == 0, count') ==
      Expand(tokens) + Run(|tokens| % 2 == 0, count) + [toEsram]
  {
    tokens', count' := tokens, count;
    var isEsramToken := |tokens| % 2 == 0;
    if isEsramToken != toEsram {
      var t := AlternateToken(|tokens|, count);
      ExpandAppend(tokens, t);
      AlternatesAppend(tokens, count);
      tokens' := tokens + [t];
      count' := 0;
    }
    RunSucc(toEsram, count');
    count' := count' + 1;
  }

  // ---------------------------------------------------------------------
  // The controls

  /** D-pad left steps back through the schemes, wrapping from the first to
      the last. */
  function SchemeLeft(s: nat): nat
  {
    (if s == 0 then SCHEME_COUNT else s) - 1
  }

  /** D-pad right steps forward, wrapping from the last to the first. */
  function SchemeRight(s: nat): nat
  {
    (s + 1) % SCHEME_COUNT
  }

  /** The two directions stay among the schemes and undo each other. */
  lemma SchemeStepsInverse(s: nat)
    requires s < SCHEME_COUNT
    ensures SchemeLeft(s) < SCHEME_COUNT && SchemeRight(s) < SCHEME_COUNT
    ensures SchemeLeft(SchemeRight(s)) == s && SchemeRight(SchemeLeft(s)) == s
  {}

  /** The pad input Update reads: the released d-pad and face buttons and
      the held shoulders and triggers. */
  datatype PadInput = PadInput(dpadLeftReleased: bool, dpadRightReleased: bool,
                               aReleased: bool, bReleased: bool,
                               leftShoulderPressed: bool, leftTriggerPressed: bool,
                               rightShoulderPressed: bool, rightTriggerPressed: bool,
                               leftShoulderReleased: bool, rightShoulderReleased: bool)

  /** The ESRAM page budget of the simple scheme. */
  datatype Budget = Budget(color: int, depth: int)

  /** Both targets within their own page counts and ESRAM's 512 pages. */
  predicate WithinBudget(b: Budget, colorPageCount: nat, depthPageCount: nat)
  {
    0 <= b.color <= Min(colorPageCount, ESRAM_PAGE_COUNT) &&
    0 <= b.depth <= Min(depthPageCount, ESRAM_PAGE_COUNT) &&
    b.color + b.depth <= ESRAM_PAGE_COUNT
  }

  /** The initial split: all of colour, then depth in what is left. */
  function InitialBudget(colorPageCount: nat, depthPageCount: nat): Budget
  {
    var color := Min(colorPageCount, ESRAM_PAGE_COUNT);
    Budget(color, Min(depthPageCount, ESRAM_PAGE_COUNT - color))
  }

  /** The simple scheme's four controls, applied in the order Update tests
      them: left shoulder grows colour (shrinking depth to fit), left
      trigger shrinks colour, right shoulder grows depth (shrinking colour
      to fit), right trigger shrinks depth. */
  function SimpleStep(b: Budget, colorPageCount: nat, depthPageCount: nat, pad: PadInput): Budget
  {
    var b1 := if pad.leftShoulderPressed then
        var color := Min(b.color + 1, Min(colorPageCount, ESRAM_PAGE_COUNT));
        Budget(color, Min(b.depth, ESRAM_PAGE_COUNT - color))
      else b;
    var b2 := if pad.leftTriggerPressed then b1.(color := Max(b1.color - 1, 0)) else b1;
    var b3 := if pad.rightShoulderPressed then
        var depth := Min(b2.depth + 1, Min(depthPageCount, ESRAM_PAGE_COUNT));
        Budget(Min(b2.color, ESRAM_PAGE_COUNT - depth), depth)
      else b2;
    if pad.rightTriggerPressed then b3.(depth := Max(b3.depth - 1, 0)) else b3
  }

  lemma InitialBudgetFits(colorPageCount: nat, depthPageCount: nat)
    ensures WithinBudget(InitialBudget(colorPageCount, depthPageCount), colorPageCount, depthPageCount)
  {}

  /** Every press keeps the budget: neither target maps more pages than it
      has, and together they never exceed ESRAM. */
  lemma SimpleStepKeepsBudget(b: Budget, colorPageCount: nat, depthPageCount: nat, pad: PadInput)
    requires WithinBudget(b, colorPageCount, depthPageCount)
    ensures WithinBudget(SimpleStep(b, colorPageCount, depthPageCount, pad), colorPageCount, depthPageCount)
  {}

  /** A shoulder press grows its target by one page unless it is already at
      its cap; a trigger press shrinks it by one unless it is empty. */
  lemma SimpleStepMoves(b: Budget, colorPageCount: nat, depthPageCount: nat)
    requires WithinBudget(b, colorPageCount, depthPageCount)
    ensures var none := PadInput(false, false, false, false, false, false, false, false, false, false);
      SimpleStep(b, colorPageCount, depthPageCount, none) == b &&
      SimpleStep(b, colorPageCount, depthPageCount, none.(leftShoulderPressed := true)).color ==
        Min(b.color + 1, Min(colorPageCount, ESRAM_PAGE_COUNT)) &&
      SimpleStep(b, colorPageCount, depthPageCount, none.(leftTriggerPressed := true)) ==
        b.(color := Max(b.color - 1, 0)) &&
      SimpleStep(b, colorPageCount, depthPageCount, none.(rightShoulderPressed := true)).depth ==
        Min(b.depth + 1, Min(depthPageCount, ESRAM_PAGE_COUNT)) &&
      SimpleStep(b, colorPageCount, depthPageCount, none.(rightTriggerPressed := true)) ==
        b.(depth := Max(b.depth - 1, 0))
  {}

  /** The sample's mapping controls. The split fractions and the random
      probability are floating point and are not modelled; their presses
      still ask for the mappings to be rebuilt. */
  class EsramControls {
    const colorPageCount: nat
    const depthPageCount: nat
    const supportsEsram: bool
    var mapScheme: nat
    var showOverlay: bool
    var metadataEnabled: bool
    var colorEsramPageCount: int
    var depthEsramPageCount: int

    ghost predicate Valid()
      reads this
    {
      mapScheme < SCHEME_COUNT &&
      WithinBudget(Budget(colorEsramPageCount, depthEsramPageCount), colorPageCount, depthPageCount)
    }

    /** The constructor and the page-count step of resource creation: the
        overlay shows and the simple scheme is chosen only where ESRAM
        exists; all of colour, then as much of depth as fits, goes to
        ESRAM. */
    constructor (colorPageCount: nat, depthPageCount: nat, supportsEsram: bool, metadataEnabled: bool)
      ensures Valid()
      ensures this.colorPageCount == colorPageCount && this.depthPageCount == depthPageCount
      ensures this.supportsEsram == supportsEsram && this.metadataEnabled == metadataEnabled
      ensures showOverlay == supportsEsram && mapScheme == (if supportsEsram then SCHEME_SIMPLE else SCHEME_NONE)
      ensures Budget(colorEsramPageCount, depthEsramPageCount) == InitialBudget(colorPageCount, depthPageCount)
    {
      this.colorPageCount := colorPageCount;
      this.depthPageCount := depthPageCount;
      this.supportsEsram := supportsEsram;
      this.metadataEnabled := metadataEnabled;
      showOverlay := supportsEsram;
      mapScheme := if supportsEsram then SCHEME_SIMPLE else SCHEME_NONE;
      colorEsramPageCount := Min(colorPageCount, ESRAM_PAGE_COUNT);
      depthEsramPageCount := Min(depthPageCount, ESRAM_PAGE_COUNT - Min(colorPageCount, ESRAM_PAGE_COUNT));
    }

    /** The pad handling of Update with a connected pad: scheme cycling and
        the overlay toggle where ESRAM exists, then the controls of the
        (new) scheme. Returns whether the mappings must be rebuilt. */
    method Update(pad: PadInput) returns (recreate: bool)
      requires Valid()
      modifies this
      ensures Valid()
      ensures mapScheme == (if !supportsEsram then old(mapScheme)
                            else if pad.dpadLeftReleased then SchemeLeft(old(mapScheme))
                            else if pad.dpadRightReleased then SchemeRight(old(mapScheme))
                            else old(mapScheme))
      ensures showOverlay == (if supportsEsram && pad.aReleased then !old(showOverlay) else old(showOverlay))
      ensures Budget(colorEsramPageCount, depthEsramPageCount) ==
        if mapScheme == SCHEME_SIMPLE
        then SimpleStep(Budget(old(colorEsramPageCount), old(depthEsramPageCount)), colorPageCount, depthPageCount, pad)
        else Budget(old(colorEsramPageCount), old(depthEsramPageCount))
      ensures metadataEnabled == (if mapScheme == SCHEME_METADATA && pad.bReleased then !old(metadataEnabled) else old(metadataEnabled))
      ensures recreate <==>
        (supportsEsram && (pad.dpadLeftReleased || pad.dpadRightReleased)) ||
        (mapScheme in {SCHEME_SIMPLE, SCHEME_SPLIT} &&
          (pad.leftShoulderPressed || pad.leftTriggerPressed || pad.rightShoulderPressed || pad.rightTriggerPressed)) ||
        (mapScheme == SCHEME_METADATA && pad.bReleased) ||
        (mapScheme == SCHEME_RANDOM && (pad.leftShoulderReleased || pad.rightShoulderReleased))
    {
      recreate := false;
      if supportsEsram {
        if pad.dpadLeftReleased {
          mapScheme := SchemeLeft(mapScheme);
          recreate := true;
        } else if pad.dpadRightReleased {
          mapScheme := SchemeRight(mapScheme);
          recreate := true;
        }
        if pad.aReleased {
          showOverlay := !showOverlay;
        }
      }
      var anyHeld := pad.leftShoulderPressed || pad.leftTriggerPressed || pad.rightShoulderPressed || pad.rightTriggerPressed;
      if mapScheme == SCHEME_SIMPLE {
        SimpleStepKeepsBudget(Budget(colorEsramPageCount, depthEsramPageCount), colorPageCount, depthPageCount, pad);
        var b := SimpleStep(Budget(colorEsramPageCount, depthEsramPageCount), colorPageCount, depthPageCount, pad);
        colorEsramPageCount, depthEsramPageCount := b.color, b.depth;
        recreate := recreate || anyHeld;
      } else if mapScheme == SCHEME_SPLIT {
        recreate := recreate || anyHeld;
      } else if mapScheme == SCHEME_METADATA {
        if pad.bReleased {
          metadataEnabled := !metadataEnabled;
          recreate := true;
        }
      } else if mapScheme == SCHEME_RANDOM {
        recreate := recreate || pad.leftShoulderReleased || pad.rightShoulderReleased;
      }
    }
  }
}
