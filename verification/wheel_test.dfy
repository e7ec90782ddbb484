// The wheel sample's force list: the loader that reads force-feedback
// effects from a text file of "[name:assembly]" groups and "<angle>"
// groups, the per-slot effect state machine, and the button handler that
// drives it. The wheel device calls (creating, starting, stopping
// equations on it) are not modelled; only the slot states they accompany.

module WheelTest {
  import opened Common

  // LoadFromFile's return codes
  const FL_NO_ERROR: byte := 0x00
  const FILE_OPEN_ERROR: byte := 0xFF
  const MISSING_COLON_ERROR: byte := 0xFE

  /** HANDLE values as 64-bit patterns: INVALID_HANDLE_VALUE is -1. */
  const INVALID_HANDLE_VALUE: nat := 0xFFFF_FFFF_FFFF_FFFF
  const NULL_HANDLE: nat := 0

  /** Each ReadFile asks for 128 bytes, that is 64 wide characters, into a
      128-character buffer that starts out zeroed. */
  const READ_CHARS: nat := 64

  const NUL: char := 0 as char

  // Button ID bases
  const ID_CREATEDESTROY_BASE: nat := 0
  const ID_STARTSTOP_BASE: nat := 100
  const ID_PAUSECONTINUE_BASE: nat := 200
  const ID_REQUEST_VENDOR_REPORT: nat := 500
  const ID_DUMP_VENDOR_REPORT: nat := 501

  /** The slots of the force list (std::array of 16). */
  const SLOTS: nat := 16

  // ---------------------------------------------------------------------
  // _wtoi
  // ---------------------------------------------------------------------

  /** The characters _wtoi skips before the number: space, tab, line feed,
      vertical tab, form feed and carriage return. */
  predicate IsWideSpace(c: char)
  {
    c == ' ' || 9 <= c as int <= 13
  }

  /** How many white-space characters `s` starts with. */
  function SpaceRun(s: string): (n: nat)
    ensures n <= |s| && (forall i :: 0 <= i < n ==> IsWideSpace(s[i])) && (n < |s| ==> !IsWideSpace(s[n]))
  {
    if s == [] || !IsWideSpace(s[0]) then 0 else 1 + SpaceRun(s[1..])
  }

  /** _wtoi: leading white space skipped, then an optional sign and the
      decimal digits after it; a value past the int range saturates. */
  function Wtoi(s: string): (v: int)
    ensures -0x8000_0000 <= v <= 0x7FFF_FFFF
  {
    var t := s[SpaceRun(s)..];
    var signed := |t| > 0 && (t[0] == '-' || t[0] == '+');
    var body := if signed then t[1..] else t;
    var n := FromDecimal(body[..DecimalRun(body)]);
    if signed && t[0] == '-' then -Min(n, 0x8000_0000) else Min(n, 0x7FFF_FFFF)
  }

  // ---------------------------------------------------------------------
  // The loader's scanner
  // ---------------------------------------------------------------------

  /** The scanner's variables and what it has filled in so far. Entry i of
      `names` and `assemblies` is effect i; the entry being read, when
      inside brackets, is the last. */
  datatype Parse = Parse(inBracket: bool, inAngleBracket: bool, pastColon: bool,
                         angleString: string, currentIndex: nat,
                         names: seq<string>, assemblies: seq<string>, angle: u16)

  predicate Shaped(p: Parse)
  {
    |p.names| == |p.assemblies| == p.currentIndex + (if p.inBracket then 1 else 0)
  }

  /** `entries` with character `c` appended to its last string. */
  function AppendLast(entries: seq<string>, c: char): (r: seq<string>)
    requires |entries| > 0
    ensures |r| == |entries| && r[..|r| - 1] == entries[..|entries| - 1]
    ensures r[|r| - 1] == entries[|entries| - 1] + [c]
  {
    entries[..|entries| - 1] + [entries[|entries| - 1] + [c]]
  }

  /** One pass of the inner loop at `buf[ptr]`: where the next pass starts
      and the new state, or None for MISSING_COLON_ERROR. A ':' inside
      brackets moves on to the character after it, which is then checked
      for ']' and otherwise appended to the name. */
  function Step(buf: string, ptr: nat, p: Parse): (r: Option<(nat, Parse)>)
    requires ptr < |buf| && buf[|buf| - 1] == NUL && Shaped(p)
    ensures r.Some? ==> ptr < r.value.0 <= |buf| && Shaped(r.value.1)
    ensures r.None? <==> p.inBracket && !p.pastColon && buf[ptr] != NUL
                         && buf[if buf[ptr] == ':' then ptr + 1 else ptr] == ']'
  {
    var c := buf[ptr];
    if c == NUL then Some((ptr + 1, p))
    else if !p.inBracket then
      if !p.inAngleBracket then
        if c == '[' then
          Some((ptr + 1, p.(inBracket := true, pastColon := false,
                            names := p.names + [[]], assemblies := p.assemblies + [[]])))
        else if c == '<' then Some((ptr + 1, p.(inAngleBracket := true)))
        else Some((ptr + 1, p))
      else if c == '>' then Some((ptr + 1, p.(inAngleBracket := false, angle := Wrap16(Wtoi(p.angleString)))))
      else Some((ptr + 1, p.(angleString := p.angleString + [c])))
    else if !p.pastColon then
      var at := if c == ':' then ptr + 1 else ptr;
      if buf[at] == ']' then None
      else Some((at + 1, p.(pastColon := c == ':', names := AppendLast(p.names, buf[at]))))
    else if c == ']' then Some((ptr + 1, p.(inBracket := false, currentIndex := p.currentIndex + 1)))
    else Some((ptr + 1, p.(assemblies := AppendLast(p.assemblies, c))))
  }

  /** The inner loop over one buffer from `ptr`; `failed` when it met a
      ']' before the ':'. */
  datatype Scanned = Scanned(parse: Parse, failed: bool)

  function ScanBuffer(buf: string, ptr: nat, p: Parse): (r: Scanned)
    requires ptr <= |buf| && (|buf| > 0 ==> buf[|buf| - 1] == NUL) && Shaped(p)
    ensures Shaped(r.parse)
    decreases |buf| - ptr
  {
    if ptr == |buf| then Scanned(p, false)
    else
      match Step(buf, ptr, p)
      case None => Scanned(p, true)
      case Some(next) => ScanBuffer(buf, next.0, next.1)
  }

  /** `n` NUL characters. */
  function Nuls(n: nat): (s: string)
    ensures |s| == n && forall i :: 0 <= i < n ==> s[i] == NUL
  {
    seq(n, _ => NUL)
  }

  /** The characters one ReadFile returns from position `pos`. */
  function ReadChunk(data: string, pos: nat): (d: string)
    requires pos <= |data|
    ensures |d| <= READ_CHARS && (pos < |data| ==> |d| > 0) && pos + |d| <= |data|
  {
    data[pos..Min(pos + READ_CHARS, |data|)]
  }

  /** What the inner loop walks for a chunk: it runs to the byte count, so
      past the characters read it meets as many zeroed characters. */
  function ScanArea(d: string): (buf: string)
    ensures |buf| == 2 * |d| && (|buf| > 0 ==> buf[|buf| - 1] == NUL)
  {
    d + Nuls(|d|)
  }

  /** The outer loop: one chunk after another until a read returns nothing. */
  function ScanFile(data: string, pos: nat, p: Parse): (r: Scanned)
    requires pos <= |data| && Shaped(p)
    ensures Shaped(r.parse)
    decreases |data| - pos
  {
    if pos == |data| then Scanned(p, false)
    else
      var d := ReadChunk(data, pos);
      var r := ScanBuffer(ScanArea(d), 0, p);
      if r.failed then r else ScanFile(data, pos + |d|, r.parse)
  }

  /** The handle test of LoadFromFile, as written: one handle cannot be
      both INVALID_HANDLE_VALUE and null. */
  predicate OpenFailedAsWritten(hfile: nat)
  {
    hfile == INVALID_HANDLE_VALUE && hfile == NULL_HANDLE
  }

  /** The handle test as intended: either failure value of CreateFile2. */
  predicate OpenFailed(hfile: nat)
  {
    hfile == INVALID_HANDLE_VALUE || hfile == NULL_HANDLE
  }

  /** The characters reads through the handle deliver: none on a handle
      that does not name an open file, since ReadFile then fails. */
  function Readable(hfile: nat, file: string): string
  {
    if hfile == INVALID_HANDLE_VALUE || hfile == NULL_HANDLE then [] else file
  }

  function InitialParse(angle: u16): (p: Parse)
    ensures Shaped(p)
  {
    Parse(false, false, false, [], 0, [], [], angle)
  }

  /** The scan of a file that was opened: its final scanner state and the
      code LoadFromFile returns for it. */
  function LoadOpened(hfile: nat, file: string, angle: u16): (r: (Scanned, byte))
    ensures r.1 == FL_NO_ERROR || r.1 == MISSING_COLON_ERROR
  {
    var r := ScanFile(Readable(hfile, file), 0, InitialParse(angle));
    (r, if r.failed then MISSING_COLON_ERROR else FL_NO_ERROR)
  }

  /** LoadFromFile's return code and final scanner state for handle
      `hfile` on `file`, with `angle` the angle before, as written. */
  function LoadAsWritten(hfile: nat, file: string, angle: u16): (Scanned, byte)
  {
    if OpenFailedAsWritten(hfile) then (Scanned(InitialParse(angle), false), FILE_OPEN_ERROR)
    else LoadOpened(hfile, file, angle)
  }

  /** The same with the handle test as intended; the loader below uses
      this one. */
  function Load(hfile: nat, file: string, angle: u16): (Scanned, byte)
  {
    if OpenFailed(hfile) then (Scanned(InitialParse(angle), false), FILE_OPEN_ERROR)
    else LoadOpened(hfile, file, angle)
  }

  // ---------------------------------------------------------------------
  // What the loader promises
  // ---------------------------------------------------------------------

  /** The open-error branch cannot be taken: whatever CreateFile2 returns,
      including INVALID_HANDLE_VALUE, the test is false. */
  lemma OpenErrorUnreachable(hfile: nat, file: string, angle: u16)
    ensures !OpenFailedAsWritten(hfile)
    ensures LoadAsWritten(hfile, file, angle).1 != FILE_OPEN_ERROR
  {
  }

  /** A file that cannot be opened therefore loads, as written, as an
      empty list with no error. */
  lemma MissingFileLoadsEmpty(file: string, angle: u16)
    ensures var (r, code) := LoadAsWritten(INVALID_HANDLE_VALUE, file, angle);
            code == FL_NO_ERROR && r.parse.currentIndex == 0 && r.parse.names == []
  {
  }

  /** With the intended test, the open error is reported exactly for the
      two failure values of the handle. */
  lemma OpenErrorReported(hfile: nat, file: string, angle: u16)
    ensures Load(hfile, file, angle).1 == FILE_OPEN_ERROR <==> OpenFailed(hfile)
  {
  }

  /** A NUL is skipped without changing anything; the angle changes only
      at a '>' closing an angle group outside brackets; a ']' met inside
      brackets before the ':' is the missing-colon error. */
  lemma StepFacts(buf: string, ptr: nat, p: Parse)
    requires ptr < |buf| && buf[|buf| - 1] == NUL && Shaped(p)
    ensures buf[ptr] == NUL ==> Step(buf, ptr, p) == Some((ptr + 1, p))
    ensures Step(buf, ptr, p).Some? && Step(buf, ptr, p).value.1.angle != p.angle
            ==> !p.inBracket && p.inAngleBracket && buf[ptr] == '>'
    ensures p.inBracket && !p.pastColon && buf[ptr] == ']' ==> Step(buf, ptr, p).None?
  {
  }

  /** The character right after the ':' goes to the name, whatever it is
      (short of ']'), and the scan goes on after it. */
  lemma ColonTakesNextIntoName(buf: string, ptr: nat, p: Parse)
    requires ptr + 1 < |buf| && buf[|buf| - 1] == NUL && Shaped(p)
    requires p.inBracket && !p.pastColon && buf[ptr] == ':' && buf[ptr + 1] != ']'
    ensures Step(buf, ptr, p).Some?
    ensures var (next, q) := Step(buf, ptr, p).value;
            next == ptr + 2 && q.pastColon && q.names[|q.names| - 1] == p.names[|p.names| - 1] + [buf[ptr + 1]]
            && q.assemblies == p.assemblies
  {
  }

  /** The scan never loses an entry: every entry of the state it starts
      from is still there, and the count of entries only grows. */
  lemma {:induction false} ScanBufferKeeps(buf: string, ptr: nat, p: Parse)
    requires ptr <= |buf| && (|buf| > 0 ==> buf[|buf| - 1] == NUL) && Shaped(p)
    ensures var q := ScanBuffer(buf, ptr, p).parse;
            q.currentIndex >= p.currentIndex && |q.names| >= |p.names|
            && q.names[..p.currentIndex] == p.names[..p.currentIndex]
    decreases |buf| - ptr
  {
    if ptr < |buf| {
      match Step(buf, ptr, p)
      case None =>
      case Some(next) =>
        var q := next.1;
        assert q.currentIndex >= p.currentIndex && q.names[..p.currentIndex] == p.names[..p.currentIndex];
        ScanBufferKeeps(buf, next.0, q);
    }
  }

  // ---------------------------------------------------------------------
  // The force list
  // ---------------------------------------------------------------------

  datatype State = Unloaded | Downloaded | Started | Paused

  /** LoadFromFile's local scanner variables. */
  datatype Vars = Vars(inBracket: bool, inAngleBracket: bool, pastColon: bool,
                       angleString: string, currentIndex: nat)

  datatype Action = Download | Start | Stop | Pause | Continue | Destroy

  /** What each ForceList operation does to one slot's state. */
  function Transition(s: State, a: Action): State
  {
    match a
    case Download => if s == Unloaded then Downloaded else s
    case Start => if s != Unloaded then Started else s
    case Stop => if s != Unloaded then Downloaded else s
    case Pause => if s != Unloaded then Paused else s
    case Continue => if s != Unloaded then Started else s
    case Destroy => Unloaded
  }

  /** Download acts only on an unloaded slot, the other operations but
      Destroy do nothing on one, and Destroy always unloads. */
  lemma TransitionFacts(s: State, a: Action)
    ensures a == Download && s != Unloaded ==> Transition(s, a) == s
    ensures a != Download && a != Destroy && s == Unloaded ==> Transition(s, a) == Unloaded
    ensures Transition(s, Destroy) == Unloaded
    ensures Transition(s, a) == Unloaded <==> a == Destroy || (s == Unloaded && a != Download)
  {
  }

  class ForceList {
    var count: nat
    var names: seq<string>
    var assemblies: seq<string>
    const states: array<State>
    var angle: u16

    ghost predicate Valid()
      reads this
    {
      states.Length == SLOTS
    }

    /** The list as the sample declares it: no entries, angle 0 and every
        slot unloaded. */
    constructor ()
      ensures Valid() && fresh(states)
      ensures count == 0 && names == [] && assemblies == [] && angle == 0
      ensures forall i :: 0 <= i < SLOTS ==> states[i] == Unloaded
    {
      count, names, assemblies, angle := 0, [], [], 0;
      states := new State[SLOTS](_ => Unloaded);
    }

    /** GetName: an entry the file did not fill is empty. */
    function GetName(index: nat): string
      reads this
    {
      if index < |names| then names[index] else []
    }

    /** LoadFromFile's local scanner variables together with the entries
        and angle stored so far. */
    ghost function Now(v: Vars): (p: Parse)
      reads this
    {
      Parse(v.inBracket, v.inAngleBracket, v.pastColon, v.angleString, v.currentIndex, names, assemblies, angle)
    }

    /** One pass of LoadFromFile's inner loop at `buffer[bufferPtr]`; `ok`
        is false when the pass returns MISSING_COLON_ERROR. */
    method StepAt(buffer: string, bufferPtr: nat, v: Vars) returns (ok: bool, next: nat, v': Vars)
      requires bufferPtr < |buffer| && buffer[|buffer| - 1] == NUL && Shaped(Now(v))
      modifies this`names, this`assemblies, this`angle
      ensures var r := Step(buffer, bufferPtr, old(Now(v)));
              ok == r.Some? && (ok ==> r.value == (next, Now(v')))
      ensures !ok ==> names == old(names) && assemblies == old(assemblies) && angle == old(angle)
    {
      var c := buffer[bufferPtr];
      var names', assemblies', angle' := names, assemblies, angle;
      next, v' := bufferPtr + 1, v;
      if c == NUL {
      } else if !v.inBracket {
        if !v.inAngleBracket {
          if c == '[' {
            v' := v.(inBracket := true, pastColon := false);
            names', assemblies' := names + [[]], assemblies + [[]];
          } else if c == '<' {
            v' := v.(inAngleBracket := true);
          }
        } else if c == '>' {
          v' := v.(inAngleBracket := false);
          angle' := Wrap16(Wtoi(v.angleString));
        } else {
          v' := v.(angleString := v.angleString + [c]);
        }
      } else if !v.pastColon {
        var at := bufferPtr;
        if c == ':' {
          at := at + 1;
          v' := v.(pastColon := true);
        }
        if buffer[at] == ']' {
          return false, next, v';
        }
        names' := AppendLast(names, buffer[at]);
        next := at + 1;
      } else if c == ']' {
        v' := v.(inBracket := false, currentIndex := v.currentIndex + 1);
      } else {
        assemblies' := AppendLast(assemblies, c);
      }
      names, assemblies, angle := names', assemblies', angle';
      return true, next, v';
    }

    /** LoadFromFile's inner loop over one buffer. */
    method ScanChunk(buffer: string, v: Vars) returns (failed: bool, v': Vars)
      requires (|buffer| > 0 ==> buffer[|buffer| - 1] == NUL) && Shaped(Now(v))
      modifies this`names, this`assemblies, this`angle
      ensures ScanBuffer(buffer, 0, old(Now(v))) == Scanned(Now(v'), failed)
    {
      v' := v;
      var bufferPtr: nat := 0;
      while bufferPtr < |buffer|
        invariant bufferPtr <= |buffer| && Shaped(Now(v'))
        invariant ScanBuffer(buffer, bufferPtr, Now(v')) == ScanBuffer(buffer, 0, old(Now(v)))
        decreases |buffer| - bufferPtr
      {
        var ok, next, w := StepAt(buffer, bufferPtr, v');
        if !ok {
          return true, v';
        }
        bufferPtr, v' := next, w;
      }
      return false, v';
    }

    /** LoadFromFile on a fresh list: `hfile` is what CreateFile2 returned
        and `file` the file's wide characters. The handle test is the
        intended one, OpenFailed. */
    method LoadFromFile(hfile: nat, file: string) returns (code: byte)
      requires names == [] && assemblies == []
      modifies this
      ensures var (r, c) := Load(hfile, file, old(angle));
              code == c && names == r.parse.names && assemblies == r.parse.assemblies
              && angle == r.parse.angle && count == (if c == FL_NO_ERROR then r.parse.currentIndex else old(count))
    {
      var v := Vars(false, false, false, [], 0);
      ghost var p0 := InitialParse(angle);
      if hfile == INVALID_HANDLE_VALUE || hfile == NULL_HANDLE {
        return FILE_OPEN_ERROR;
      }
      var data := Readable(hfile, file);
      var pos := 0;
      while pos < |data|
        invariant pos <= |data| && count == old(count) && Shaped(Now(v))
        invariant ScanFile(data, pos, Now(v)) == ScanFile(data, 0, p0)
        decreases |data| - pos
      {
        var d := ReadChunk(data, pos);
        var failed;
        failed, v := ScanChunk(ScanArea(d), v);
        if failed {
          return MISSING_COLON_ERROR;
        }
        pos := pos + |d|;
      }
      count := v.currentIndex;
      return FL_NO_ERROR;
    }

    /** Download: loads the effect onto the wheel if the slot is unloaded. */
    method DownloadEffect(index: nat)
      requires Valid() && index < SLOTS
      modifies states
      ensures states[..] == old(states[..])[index := Transition(old(states[index]), Download)]
    {
      if states[index] == Unloaded {
        states[index] := Downloaded;
      }
    }

    /** Start: starts a loaded effect. */
    method StartEffect(index: nat)
      requires Valid() && index < SLOTS
      modifies states
      ensures states[..] == old(states[..])[index := Transition(old(states[index]), Start)]
    {
      if states[index] != Unloaded {
        states[index] := Started;
      }
    }

    /** Stop: stops a loaded effect, leaving it downloaded. */
    method StopEffect(index: nat)
      requires Valid() && index < SLOTS
      modifies states
      ensures states[..] == old(states[..])[index := Transition(old(states[index]), Stop)]
    {
      if states[index] != Unloaded {
        states[index] := Downloaded;
      }
    }

    /** Pause: pauses a loaded effect. */
    method PauseEffect(index: nat)
      requires Valid() && index < SLOTS
      modifies states
      ensures states[..] == old(states[..])[index := Transition(old(states[index]), Pause)]
    {
      if states[index] != Unloaded {
        states[index] := Paused;
      }
    }

    /** Continue: resumes a loaded effect. */
    method ContinueEffect(index: nat)
      requires Valid() && index < SLOTS
      modifies states
      ensures states[..] == old(states[..])[index := Transition(old(states[index]), Continue)]
    {
      if states[index] != Unloaded {
        states[index] := Started;
      }
    }

    /** Destroy: clears the effect from the wheel. */
    method DestroyEffect(index: nat)
      requires Valid() && index < SLOTS
      modifies states
      ensures states[..] == old(states[..])[index := Transition(old(states[index]), Destroy)]
    {
      states[index] := Unloaded;
    }
  }

  /** The button group an 8-bit button ID falls in and the slot it names. */
  function ButtonSlot(id: byte): (r: (Action, nat))
    ensures r.0 in {Download, Start, Pause}
    ensures id < ID_STARTSTOP_BASE ==> r == (Download, id)
    ensures ID_STARTSTOP_BASE <= id < ID_PAUSECONTINUE_BASE ==> r == (Start, id - ID_STARTSTOP_BASE)
    ensures ID_PAUSECONTINUE_BASE <= id ==> r == (Pause, id - ID_PAUSECONTINUE_BASE)
  {
    if id < ID_STARTSTOP_BASE then (Download, id - ID_CREATEDESTROY_BASE)
    else if id < ID_PAUSECONTINUE_BASE then (Start, id - ID_STARTSTOP_BASE)
    else (Pause, id - ID_PAUSECONTINUE_BASE)
  }

  /** What a press does to a slot: each button toggles between its two
      operations according to the slot's state. */
  function Press(group: Action, s: State): (a: Action)
  {
    match group
    case Download => if s == Unloaded then Download else Destroy
    case Start => if s == Started then Stop else Start
    case _ => if s == Paused then Continue else Pause
  }

  /** The label the pressed button gets: the effect's name and the
      operation a further press would do. */
  function Label(name: string, group: Action, s: State): string
  {
    match group
    case Download => name + (if s == Unloaded then " Destroy" else " Create")
    case Start => name + (if s == Started then " Start" else " Stop")
    case _ => name + (if s == Paused then " Pause" else " Continue")
  }

  /** OnButton: the two vendor-report buttons talk to the wheel only;
      any other ID, cut to 8 bits, picks a slot and toggles it. The result
      is the button whose label changes and its new label. */
  method OnButton(list: ForceList, buttonId: nat) returns (relabel: Option<(byte, string)>)
    requires list.Valid()
    requires buttonId != ID_REQUEST_VENDOR_REPORT && buttonId != ID_DUMP_VENDOR_REPORT
             ==> ButtonSlot(buttonId % TWO_8).1 < SLOTS
    modifies list.states
    ensures buttonId == ID_REQUEST_VENDOR_REPORT || buttonId == ID_DUMP_VENDOR_REPORT
            ==> relabel == None && list.states[..] == old(list.states[..])
    ensures buttonId != ID_REQUEST_VENDOR_REPORT && buttonId != ID_DUMP_VENDOR_REPORT
            ==> var id := buttonId % TWO_8;
                var (group, slot) := ButtonSlot(id);
                var s := old(list.states[slot]);
                relabel == Some((id, Label(list.GetName(slot), group, s)))
                && list.states[..] == old(list.states[..])[slot := Transition(s, Press(group, s))]
  {
    if buttonId == ID_REQUEST_VENDOR_REPORT || buttonId == ID_DUMP_VENDOR_REPORT {
      return None;
    }
    var id: byte := buttonId % TWO_8;
    var (group, forceId) := ButtonSlot(id);
    var buttonText := list.GetName(forceId);
    var s := list.states[forceId];
    if group == Download {
      if s == Unloaded {
        list.DownloadEffect(forceId);
        buttonText := buttonText + " Destroy";
      } else {
        list.DestroyEffect(forceId);
        buttonText := buttonText + " Create";
      }
    } else if group == Start {
      if s == Started {
        list.StopEffect(forceId);
        buttonText := buttonText + " Start";
      } else {
        list.StartEffect(forceId);
        buttonText := buttonText + " Stop";
      }
    } else {
      if s == Paused {
        list.ContinueEffect(forceId);
        buttonText := buttonText + " Pause";
      } else {
        list.PauseEffect(forceId);
        buttonText := buttonText + " Continue";
      }
    }
    return Some((id, buttonText));
  }

  /** Two presses of a button put the slot back where it was, except that
      Create then Destroy reloads nothing on a slot that was not unloaded,
      and Start/Stop or Pause/Continue cannot leave the states they cycle
      through. */
  lemma PressTwice(group: Action, s: State)
    requires group in {Download, Start, Pause}
    ensures var s1 := Transition(s, Press(group, s));
            var s2 := Transition(s1, Press(group, s1));
            (group == Download ==> s2 == (if s == Unloaded then Unloaded else Downloaded))
            && (group == Start && s in {Downloaded, Started} ==> s2 == s)
            && (group == Pause && s in {Started, Paused} ==> s2 == s)
            && (s == Unloaded && group != Download ==> s1 == Unloaded && s2 == Unloaded)
  {
  }

  /** The label names the operation a further press performs. */
  lemma LabelNamesNextPress(name: string, group: Action, s: State)
    requires group in {Download, Start, Pause}
    ensures var s1 := Transition(s, Press(group, s));
            var next := Press(group, s1);
            Label(name, group, s) == name + (match next
              case Download => " Create" case Destroy => " Destroy"
              case Start => " Start" case Stop => " Stop"
              case Pause => " Pause" case Continue => " Continue")
            || (s == Unloaded && group != Download)
  {
  }
}
