// The command line of the raster font generator: wmain's loop over argv,
// which looks every switch up in the option table, refuses a switch given
// twice (except -cr, which may repeat), takes a switch's value after ':' or
// from the next argument, and then checks the required options.

module RasterFontOptions {
  import opened Common
  import opened RasterFontGen

  // The OPTIONS enumerators (a uint32_t enumeration)
  const OPT_TYPEFACE: bv32 := 1
  const OPT_HEIGHT: bv32 := 2
  const OPT_WEIGHT: bv32 := 3
  const OPT_ITALIC: bv32 := 4
  const OPT_UNDERLINE: bv32 := 5
  const OPT_STRIKEOUT: bv32 := 6
  const OPT_CHARSET: bv32 := 7
  const OPT_QUALITY: bv32 := 8
  const OPT_PITCH: bv32 := 9
  const OPT_FAMILY: bv32 := 10
  const OPT_GGO_DEPTH: bv32 := 11
  const OPT_CHARACTER_REGION: bv32 := 12
  const OPT_OUTPUT_FILENAME: bv32 := 13
  const OPT_DEFAULT_GLYPH: bv32 := 14
  const OPT_OVERWRITE: bv32 := 15
  const OPT_MAX: bv32 := 16

  /** g_Options: each switch's name and its option. */
  const OPTION_TABLE: seq<(string, bv32)> := [
    ("tf", OPT_TYPEFACE), ("h", OPT_HEIGHT), ("w", OPT_WEIGHT), ("it", OPT_ITALIC),
    ("ul", OPT_UNDERLINE), ("so", OPT_STRIKEOUT), ("cs", OPT_CHARSET), ("q", OPT_QUALITY),
    ("p", OPT_PITCH), ("fa", OPT_FAMILY), ("d", OPT_GGO_DEPTH), ("cr", OPT_CHARACTER_REGION),
    ("of", OPT_OUTPUT_FILENAME), ("ow", OPT_OVERWRITE), ("dg", OPT_DEFAULT_GLYPH)]

  // Windows SDK values of the defaults
  const FW_DONTCARE: u32 := 0
  const DEFAULT_CHARSET: u32 := 1
  const DEFAULT_QUALITY: u32 := 0
  const DEFAULT_PITCH: u32 := 0
  const FF_DONTCARE: u32 := 0
  const GGO_BITMAP: u32 := 1

  /** The font parameters the command line sets. */
  datatype FontOptions = FontOptions(
    typeFace: Option<string>, fontHeight: u32, fontWeight: u32,
    useItalic: bool, useUnderline: bool, useStrikeOut: bool,
    charset: u32, quality: u32, pitch: u32, family: u32, ggoDepth: u32,
    outputFilename: Option<string>, overwriteOutputFile: bool,
    defaultGlyph: u16, regions: seq<WcRange>)

  const DEFAULTS: FontOptions := FontOptions(
    None, 0, FW_DONTCARE, false, false, false,
    DEFAULT_CHARSET, DEFAULT_QUALITY, DEFAULT_PITCH, FF_DONTCARE, GGO_BITMAP,
    None, false, 0, [])

  /** Why wmain prints the usage and returns 1. */
  datatype UsageError =
    | UnknownOrRepeated(name: string)
    | MissingValue(option: bv32)
    | InvalidValue(option: bv32)
    | NoHeight
    | NoOutputFile
    | OutputExists

  /** The parsers of the value tables and character regions, which are not
      part of this model: ParseTableValue reads a value for one of the
      table options, ParseCharacterRegion the ranges one -cr adds. */
  datatype ValueParsers = ValueParsers(
    tableValue: (bv32, string) -> Option<u32>,
    characterRegion: string -> Option<seq<WcRange>>)

  // ---------------------------------------------------------------------
  // Looking a switch up
  // ---------------------------------------------------------------------

  /** The option a switch names, by exact match in the table. */
  function LookupByName(name: string): (r: Option<bv32>)
    ensures r.None? ==> forall i :: 0 <= i < |OPTION_TABLE| ==> OPTION_TABLE[i].0 != name
    ensures r.Some? ==> 1 <= r.value < OPT_MAX && (name, r.value) in OPTION_TABLE
  {
    FirstMatch(name, 0)
  }

  function FirstMatch(name: string, i: nat): (r: Option<bv32>)
    requires i <= |OPTION_TABLE|
    ensures r.None? ==> forall j :: i <= j < |OPTION_TABLE| ==> OPTION_TABLE[j].0 != name
    ensures r.Some? ==> 1 <= r.value < OPT_MAX && (name, r.value) in OPTION_TABLE
    decreases |OPTION_TABLE| - i
  {
    if i == |OPTION_TABLE| then None
    else if OPTION_TABLE[i].0 == name then Some(OPTION_TABLE[i].1)
    else FirstMatch(name, i + 1)
  }

  /** Whether an argument is a switch: it starts with '-' or '/'. */
  predicate IsSwitch(arg: string)
  {
    |arg| > 0 && (arg[0] == '-' || arg[0] == '/')
  }

  /** Where the first ':' of `s` is, or |s| when there is none. */
  function ColonAt(s: string): (n: nat)
    ensures n <= |s| && (n < |s| ==> s[n] == ':')
    ensures forall i :: 0 <= i < n ==> s[i] != ':'
  {
    if s == [] || s[0] == ':' then 0 else 1 + ColonAt(s[1..])
  }

  /** A switch without its leading character, cut at the first ':' into the
      option name and the inline value. */
  function SplitSwitch(s: string): (r: (string, string))
    ensures ':' !in r.0
    ensures r.0 == s ==> r.1 == []
    ensures r.0 != s ==> s == r.0 + ":" + r.1
  {
    var n := ColonAt(s);
    if n == |s| then (s, [])
    else
      assert s == s[..n] + ":" + s[n + 1..];
      (s[..n], s[n + 1..])
  }

  /** The options that take a value, inline or as the next argument. */
  predicate TakesValue(option: bv32)
  {
    option in {OPT_TYPEFACE, OPT_HEIGHT, OPT_WEIGHT, OPT_CHARSET, OPT_QUALITY, OPT_PITCH,
               OPT_FAMILY, OPT_GGO_DEPTH, OPT_CHARACTER_REGION, OPT_OUTPUT_FILENAME,
               OPT_DEFAULT_GLYPH}
  }

  // ---------------------------------------------------------------------
  // -h: swscanf "%lu"
  // ---------------------------------------------------------------------

  /** The height a -h value gives: its leading digits, stored into an
      unsigned 32-bit variable; none when it starts with no digit. */
  function ScanHeight(value: string): (r: Option<u32>)
    ensures r.Some? <==> |value| > 0 && IsDecimalDigit(value[0])
  {
    var n := DecimalRun(value);
    if n == 0 then None else Some(Wrap32(FromDecimal(value[..n])))
  }

  // ---------------------------------------------------------------------
  // One option and the loop
  // ---------------------------------------------------------------------

  /** The second switch of the loop: what one option does with its value. */
  function ApplyOption(option: bv32, value: string, o: FontOptions, parsers: ValueParsers): (r: Result<FontOptions, UsageError>)
    ensures r.Err? ==> r.error == InvalidValue(option)
    ensures r.Err? ==> option in {OPT_HEIGHT, OPT_WEIGHT, OPT_CHARSET, OPT_QUALITY, OPT_PITCH,
                                  OPT_FAMILY, OPT_GGO_DEPTH, OPT_CHARACTER_REGION, OPT_DEFAULT_GLYPH}
    ensures r.Ok? && option != OPT_CHARACTER_REGION && option != OPT_DEFAULT_GLYPH ==> r.value.regions == o.regions
    ensures r.Ok? && option == OPT_OUTPUT_FILENAME ==> r.value.outputFilename == Some(value)
  {
    if option == OPT_TYPEFACE then Ok(o.(typeFace := Some(value)))
    else if option == OPT_HEIGHT then
      match ScanHeight(value)
      case None => Err(InvalidValue(option))
      case Some(h) => Ok(o.(fontHeight := h))
    else if option in {OPT_WEIGHT, OPT_CHARSET, OPT_QUALITY, OPT_PITCH, OPT_FAMILY, OPT_GGO_DEPTH} then
      match parsers.tableValue(option, value)
      case None => Err(InvalidValue(option))
      case Some(v) =>
        if option == OPT_WEIGHT then Ok(o.(fontWeight := v))
        else if option == OPT_CHARSET then Ok(o.(charset := v))
        else if option == OPT_QUALITY then Ok(o.(quality := v))
        else if option == OPT_PITCH then Ok(o.(pitch := v))
        else if option == OPT_FAMILY then Ok(o.(family := v))
        else Ok(o.(ggoDepth := v))
    else if option == OPT_ITALIC then Ok(o.(useItalic := true))
    else if option == OPT_UNDERLINE then Ok(o.(useUnderline := true))
    else if option == OPT_STRIKEOUT then Ok(o.(useStrikeOut := true))
    else if option == OPT_CHARACTER_REGION then
      match parsers.characterRegion(value)
      case None => Err(InvalidValue(option))
      case Some(rs) => Ok(o.(regions := o.regions + rs))
    else if option == OPT_OUTPUT_FILENAME then Ok(o.(outputFilename := Some(value)))
    else if option == OPT_OVERWRITE then Ok(o.(overwriteOutputFile := true))
    else if option == OPT_DEFAULT_GLYPH then
      match DefaultGlyphCode(value)
      case None => Err(InvalidValue(option))
      case Some(code) => Ok(o.(defaultGlyph := code, regions := o.regions + [WcRange(code, 1)]))
    else Ok(o)
  }

  /** The loop's state: the options so far, the options already given
      (what the bitmask records) and every option taken, in order. */
  datatype ScanState = ScanState(opts: FontOptions, seen: set<bv32>, taken: seq<bv32>)

  /** One pass of the loop at argument `argIdx`: where the next pass
      starts and the new state, or the usage error. */
  function Step(args: seq<string>, argIdx: nat, st: ScanState, parsers: ValueParsers): (r: Result<(nat, ScanState), UsageError>)
    requires argIdx < |args|
    ensures r.Ok? ==> argIdx < r.value.0
  {
    if !IsSwitch(args[argIdx]) then Ok((argIdx + 1, st))
    else
      var (name, inline) := SplitSwitch(args[argIdx][1..]);
      match LookupByName(name)
      case None => Err(UnknownOrRepeated(name))
      case Some(option) =>
        if option in st.seen then Err(UnknownOrRepeated(name))
        else OptionStep(args, argIdx, st, parsers, option, inline)
  }

  /** The rest of a pass once the switch names an option not given before:
      record it, find its value inline or in the next argument, apply it. */
  function OptionStep(args: seq<string>, argIdx: nat, st: ScanState, parsers: ValueParsers,
                      option: bv32, inline: string): (r: Result<(nat, ScanState), UsageError>)
    requires argIdx < |args|
    ensures r.Ok? ==> argIdx < r.value.0 && r.value.1.taken == st.taken + [option]
  {
    var seen := if option != OPT_CHARACTER_REGION then st.seen + {option} else st.seen;
    var fromNext := TakesValue(option) && inline == [];
    if fromNext && argIdx + 1 >= |args| then Err(MissingValue(option))
    else
      var value := if fromNext then args[argIdx + 1] else inline;
      match ApplyOption(option, value, st.opts, parsers)
      case Err(e) => Err(e)
      case Ok(opts) =>
        Ok((if fromNext then argIdx + 2 else argIdx + 1, ScanState(opts, seen, st.taken + [option])))
  }

  /** What is left of the loop from argument `argIdx` on. */
  function Scan(args: seq<string>, argIdx: nat, st: ScanState, parsers: ValueParsers): Result<ScanState, UsageError>
    decreases |args| - argIdx
  {
    if argIdx >= |args| then Ok(st)
    else
      match Step(args, argIdx, st, parsers)
      case Err(e) => Err(e)
      case Ok(next) => Scan(args, next.0, next.1, parsers)
  }

  /** The checks after the loop. */
  function Finish(scanned: Result<ScanState, UsageError>, outputExists: bool): Result<FontOptions, UsageError>
  {
    match scanned
    case Err(e) => Err(e)
    case Ok(st) =>
      if st.opts.fontHeight == 0 then Err(NoHeight)
      else if st.opts.outputFilename.None? then Err(NoOutputFile)
      else if !st.opts.overwriteOutputFile && outputExists then Err(OutputExists)
      else Ok(st.opts)
  }

  function ParseSpec(args: seq<string>, outputExists: bool, parsers: ValueParsers): Result<FontOptions, UsageError>
  {
    Finish(Scan(args, 0, ScanState(DEFAULTS, {}, []), parsers), outputExists)
  }

  /** Bit `k` of a 32-bit mask. */
  predicate Bit(mask: bv32, k: bv32)
    requires k < 32
  {
    mask & (1 << k) != 0
  }

  /** Setting bit `k` sets it and leaves the others. */
  lemma SetBit(mask: bv32, k: bv32, j: bv32)
    requires k < 32 && j < 32
    ensures Bit(mask | (1 << k), j) <==> Bit(mask, j) || j == k
  {
  }

  /** The bitmask records exactly the options in `seen`. */
  ghost predicate MaskHolds(mask: bv32, seen: set<bv32>)
  {
    (forall k :: 1 <= k < OPT_MAX ==> (Bit(mask, k) <==> k in seen))
    && forall k :: k in seen ==> 1 <= k < OPT_MAX
  }

  /** Setting an option's bit records it. */
  lemma MaskAdd(mask: bv32, seen: set<bv32>, option: bv32)
    requires MaskHolds(mask, seen) && 1 <= option < OPT_MAX
    ensures MaskHolds(mask | (1 << option), seen + {option})
  {
    forall k | 1 <= k < OPT_MAX
      ensures Bit(mask | (1 << option), k) <==> Bit(mask, k) || k == option
    {
      SetBit(mask, option, k);
    }
  }

  /** The body of wmain's loop for argument `argIdx`: a switch is looked up,
      checked against and recorded in the bitmask, given its value and
      applied. */
  method TakeArgument(args: seq<string>, argIdx: nat, opts: FontOptions, individualOptions: bv32,
                      ghost st: ScanState, parsers: ValueParsers)
    returns (r: Result<(nat, FontOptions), UsageError>, mask: bv32, ghost st': ScanState)
    requires argIdx < |args| && st.opts == opts && MaskHolds(individualOptions, st.seen)
    ensures r.Err? ==> Step(args, argIdx, st, parsers) == Err(r.error)
    ensures r.Ok? ==> Step(args, argIdx, st, parsers) == Ok((r.value.0, st'))
                      && st'.opts == r.value.1 && MaskHolds(mask, st'.seen)
  {
    mask, st' := individualOptions, st;
    var arg := args[argIdx];
    if !IsSwitch(arg) {
      return Ok((argIdx + 1, opts)), mask, st';
    }
    var (name, inline) := SplitSwitch(arg[1..]);
    var found := LookupByName(name);
    if found.None? || Bit(individualOptions, found.value) {
      return Err(UnknownOrRepeated(name)), mask, st';
    }
    r, mask, st' := TakeOption(args, argIdx, opts, individualOptions, st, parsers, found.value, inline);
  }

  /** The pass once the switch names an option not given before: set its
      bit (except for -cr), take its value and apply it. */
  method TakeOption(args: seq<string>, argIdx: nat, opts: FontOptions, individualOptions: bv32,
                    ghost st: ScanState, parsers: ValueParsers, option: bv32, inline: string)
    returns (r: Result<(nat, FontOptions), UsageError>, mask: bv32, ghost st': ScanState)
    requires argIdx < |args| && st.opts == opts && MaskHolds(individualOptions, st.seen)
    requires 1 <= option < OPT_MAX && option !in st.seen
    ensures r.Err? ==> OptionStep(args, argIdx, st, parsers, option, inline) == Err(r.error)
    ensures r.Ok? ==> OptionStep(args, argIdx, st, parsers, option, inline) == Ok((r.value.0, st'))
                      && st'.opts == r.value.1 && MaskHolds(mask, st'.seen)
  {
    mask, st' := individualOptions, st;
    ghost var seen := st.seen;
    if option != OPT_CHARACTER_REGION {
      MaskAdd(individualOptions, seen, option);
      mask := individualOptions | (1 << option);
      seen := seen + {option};
    }
    var next, value := argIdx + 1, inline;
    if TakesValue(option) && inline == [] {
      if argIdx + 1 >= |args| {
        return Err(MissingValue(option)), mask, st';
      }
      next, value := argIdx + 2, args[argIdx + 1];
    }
    var applied := ApplyOption(option, value, opts, parsers);
    if applied.Err? {
      return Err(applied.error), mask, st';
    }
    st' := ScanState(applied.value, seen, st.taken + [option]);
    return Ok((next, applied.value)), mask, st';
  }

  /** wmain's option loop and the checks after it. `outputExists` stands
      for the file-attribute query on the output file. */
  method ParseCommandLine(args: seq<string>, outputExists: bool, parsers: ValueParsers)
    returns (r: Result<FontOptions, UsageError>)
    ensures r == ParseSpec(args, outputExists, parsers)
  {
    var opts := DEFAULTS;
    var individualOptions: bv32 := 0;
    ghost var st := ScanState(DEFAULTS, {}, []);
    var argIdx := 0;
    while argIdx < |args|
      invariant st.opts == opts && MaskHolds(individualOptions, st.seen)
      invariant Scan(args, argIdx, st, parsers) == Scan(args, 0, ScanState(DEFAULTS, {}, []), parsers)
      decreases |args| - argIdx
    {
      var step;
      step, individualOptions, st := TakeArgument(args, argIdx, opts, individualOptions, st, parsers);
      if step.Err? {
        return Err(step.error);
      }
      argIdx, opts := step.value.0, step.value.1;
    }
    if opts.fontHeight == 0 {
      return Err(NoHeight);
    }
    if opts.outputFilename.None? {
      return Err(NoOutputFile);
    }
    if !opts.overwriteOutputFile && outputExists {
      return Err(OutputExists);
    }
    return Ok(opts);
  }

  // ---------------------------------------------------------------------
  // What the command line guarantees
  // ---------------------------------------------------------------------

  /** An accepted command line has a nonzero height and an output file, and
      never overwrites an existing file unless -ow was given. */
  lemma AcceptedIsComplete(args: seq<string>, outputExists: bool, parsers: ValueParsers)
    requires ParseSpec(args, outputExists, parsers).Ok?
    ensures var o := ParseSpec(args, outputExists, parsers).value;
            o.fontHeight != 0 && o.outputFilename.Some? && (o.overwriteOutputFile || !outputExists)
  {
  }

  /** No option but -cr occurs twice among the options taken. */
  predicate NoRepeats(taken: seq<bv32>)
  {
    forall i, j :: 0 <= i < j < |taken| && taken[i] == taken[j] ==> taken[i] == OPT_CHARACTER_REGION
  }

  /** The options recorded as given are exactly the options other than -cr
      that were taken. */
  ghost predicate SeenIsTaken(st: ScanState)
  {
    forall k :: k in st.seen <==> k in st.taken && k != OPT_CHARACTER_REGION
  }

  /** The loop keeps both: a scan that succeeds took no option but -cr
      twice. */
  lemma {:induction false} ScanNoRepeats(args: seq<string>, argIdx: nat, st: ScanState, parsers: ValueParsers)
    requires NoRepeats(st.taken) && SeenIsTaken(st)
    requires Scan(args, argIdx, st, parsers).Ok?
    ensures var fin := Scan(args, argIdx, st, parsers).value;
            NoRepeats(fin.taken) && SeenIsTaken(fin) && st.taken <= fin.taken
    decreases |args| - argIdx
  {
    if argIdx < |args| {
      if !IsSwitch(args[argIdx]) {
        ScanNoRepeats(args, argIdx + 1, st, parsers);
      } else {
        var (name, inline) := SplitSwitch(args[argIdx][1..]);
        var option := LookupByName(name).value;
        var seen := if option != OPT_CHARACTER_REGION then st.seen + {option} else st.seen;
        var fromNext := TakesValue(option) && inline == [];
        var value := if fromNext then args[argIdx + 1] else inline;
        var opts := ApplyOption(option, value, st.opts, parsers).value;
        var next := ScanState(opts, seen, st.taken + [option]);
        assert NoRepeats(next.taken) by {
          forall i, j | 0 <= i < j < |next.taken| && next.taken[i] == next.taken[j]
            ensures next.taken[i] == OPT_CHARACTER_REGION
          {
            if j == |st.taken| {
              assert st.taken[i] in st.taken;
            }
          }
        }
        ScanNoRepeats(args, if fromNext then argIdx + 2 else argIdx + 1, next, parsers);
      }
    }
  }

  /** A parse that succeeds took every option other than -cr at most
      once. */
  lemma NoRepeatedOption(args: seq<string>, outputExists: bool, parsers: ValueParsers)
    requires ParseSpec(args, outputExists, parsers).Ok?
    ensures var fin := Scan(args, 0, ScanState(DEFAULTS, {}, []), parsers);
            fin.Ok? && NoRepeats(fin.value.taken)
  {
    ScanNoRepeats(args, 0, ScanState(DEFAULTS, {}, []), parsers);
  }

  /** A switch naming an option already given (other than -cr) is
      refused, whatever follows. */
  lemma RepeatRefused(args: seq<string>, argIdx: nat, st: ScanState, parsers: ValueParsers, name: string)
    requires argIdx < |args| && IsSwitch(args[argIdx]) && SplitSwitch(args[argIdx][1..]).0 == name
    requires LookupByName(name).Some? && LookupByName(name).value in st.seen
    ensures Scan(args, argIdx, st, parsers) == Err(UnknownOrRepeated(name))
  {
  }
}
