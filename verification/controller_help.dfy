// The controller help screen: a table of callout templates, one per help
// ID, and the Help object built from a title, a description and the
// button assignments a sample wants to explain. Positions are the anchor
// points of the 1920x1080 layout; colours, fonts and rendering are not
// modelled (a callout only records whether its colours were converted to
// linear space).

module ControllerHelp {
  import opened Common

  datatype HelpId =
    | TitleText | DescriptionText
    | LeftStick | LeftStickClick | RightStick | RightStickClick
    | DpadUp | DpadDown | DpadLeft | DpadRight | DpadAll
    | RightShoulder | RightTrigger | LeftShoulder | LeftTrigger
    | AButton | BButton | XButton | YButton | MenuButton | ViewButton

  /** A callout box, as far as the model follows it: which control it
      explains, where its anchor is, its text, and whether its colours are
      in linear space. */
  datatype Callout = Callout(helpId: HelpId, anchorX: int, anchorY: int, text: Option<string>, linearColors: bool)

  /** One button assignment handed to the Help constructor. */
  datatype Assignment = Assignment(id: HelpId, buttonText: Option<string>)

  datatype HelpError = NullButtons | NoButtons | DpadAllInButtons

  /** The callout templates, in table order. */
  const TEMPLATES: seq<Callout> := [
    Callout(TitleText, 960, 92, None, false),
    Callout(DescriptionText, 960, 990, None, false),
    Callout(LeftStick, 513, 468, None, false),
    Callout(LeftStickClick, 513, 526, None, false),
    Callout(RightStick, 1405, 599, None, false),
    Callout(RightStickClick, 1405, 657, None, false),
    Callout(DpadUp, 513, 605, None, false),
    Callout(DpadDown, 513, 605, None, false),
    Callout(DpadLeft, 513, 605, None, false),
    Callout(DpadRight, 513, 605, None, false),
    Callout(DpadAll, 513, 605, None, false),
    Callout(RightShoulder, 1405, 230, None, false),
    Callout(RightTrigger, 1405, 300, None, false),
    Callout(LeftShoulder, 513, 230, None, false),
    Callout(LeftTrigger, 513, 300, None, false),
    Callout(AButton, 1405, 538, None, false),
    Callout(BButton, 1405, 488, None, false),
    Callout(XButton, 1405, 389, None, false),
    Callout(YButton, 1405, 440, None, false),
    Callout(MenuButton, 1405, 785, None, false),
    Callout(ViewButton, 513, 785, None, false)
  ]

  /** Where each help ID's template sits in the table. */
  function TemplateIndex(id: HelpId): nat
  {
    match id
    case TitleText => 0
    case DescriptionText => 1
    case LeftStick => 2
    case LeftStickClick => 3
    case RightStick => 4
    case RightStickClick => 5
    case DpadUp => 6
    case DpadDown => 7
    case DpadLeft => 8
    case DpadRight => 9
    case DpadAll => 10
    case RightShoulder => 11
    case RightTrigger => 12
    case LeftShoulder => 13
    case LeftTrigger => 14
    case AButton => 15
    case BButton => 16
    case XButton => 17
    case YButton => 18
    case MenuButton => 19
    case ViewButton => 20
  }

  /** Every help ID has a template, and it is the first one with that ID,
      so the template search never runs off the table. */
  lemma TemplateIndexFinds(id: HelpId)
    ensures TemplateIndex(id) < |TEMPLATES| && TEMPLATES[TemplateIndex(id)].helpId == id
    ensures forall k :: 0 <= k < TemplateIndex(id) ==> TEMPLATES[k].helpId != id
  {
  }

  /** The callout CalloutBox::Create produces for `id`. */
  function MakeCallout(id: HelpId, text: Option<string>, linearColors: bool): Callout
  {
    TemplateIndexFinds(id);
    TEMPLATES[TemplateIndex(id)].(text := text, linearColors := linearColors)
  }

  /** CalloutBox::Create: searches the template table for `id` and copies
      the first match, with the given text and colour space. */
  method Create(text: Option<string>, id: HelpId, linearColors: bool) returns (c: Callout)
    ensures c.helpId == id && c.text == text && c.linearColors == linearColors
    ensures c == MakeCallout(id, text, linearColors)
  {
    TemplateIndexFinds(id);
    var j := 0;
    while true
      invariant j <= TemplateIndex(id)
      invariant forall k :: 0 <= k < j ==> TEMPLATES[k].helpId != id
      decreases TemplateIndex(id) - j
    {
      if TEMPLATES[j].helpId == id {
        return TEMPLATES[j].(text := text, linearColors := linearColors);
      }
      j := j + 1;
    }
  }

  /** The d-pad directions a button list uses, and whether the d-pad
      label callout is wanted, after the constructor's first pass. */
  datatype DpadScan = DpadScan(labels: bool, up: bool, down: bool, right: bool, left: bool)

  predicate IsDpadDirection(id: HelpId) { id == DpadUp || id == DpadDown || id == DpadLeft || id == DpadRight }

  function ScanStep(s: DpadScan, id: HelpId): DpadScan
  {
    match id
    case DpadUp => s.(up := true, labels := true)
    case DpadDown => s.(down := true, labels := true)
    case DpadRight => s.(right := true, labels := true)
    case DpadLeft => s.(left := true, labels := true)
    case _ => s
  }

  /** The first pass over `buttons`, starting with the label flag at
      `labels0`. */
  function Scan(labels0: bool, buttons: seq<Assignment>): DpadScan
  {
    if buttons == [] then DpadScan(labels0, false, false, false, false)
    else ScanStep(Scan(labels0, buttons[..|buttons| - 1]), buttons[|buttons| - 1].id)
  }

  predicate Uses(buttons: seq<Assignment>, id: HelpId)
  {
    exists j :: 0 <= j < |buttons| && buttons[j].id == id
  }

  predicate UsesDpad(buttons: seq<Assignment>)
  {
    exists j :: 0 <= j < |buttons| && IsDpadDirection(buttons[j].id)
  }

  /** The first pass finds exactly the directions the buttons use, and
      wants the d-pad label when it started wanting it or a direction is
      used. */
  lemma {:induction false} ScanFinds(labels0: bool, buttons: seq<Assignment>)
    ensures Scan(labels0, buttons).up <==> Uses(buttons, DpadUp)
    ensures Scan(labels0, buttons).down <==> Uses(buttons, DpadDown)
    ensures Scan(labels0, buttons).right <==> Uses(buttons, DpadRight)
    ensures Scan(labels0, buttons).left <==> Uses(buttons, DpadLeft)
    ensures Scan(labels0, buttons).labels <==> labels0 || UsesDpad(buttons)
  {
    if buttons != [] {
      var n := |buttons| - 1;
      var init := buttons[..n];
      ScanFinds(labels0, init);
      assert Scan(labels0, buttons) == ScanStep(Scan(labels0, init), buttons[n].id);
      UsesSnoc(buttons);
    }
  }

  /** What a button list uses is what its prefix uses plus its last ID. */
  lemma UsesSnoc(buttons: seq<Assignment>)
    requires buttons != []
    ensures var n := |buttons| - 1;
      && (forall id :: Uses(buttons, id) <==> Uses(buttons[..n], id) || buttons[n].id == id)
      && (UsesDpad(buttons) <==> UsesDpad(buttons[..n]) || IsDpadDirection(buttons[n].id))
  {
    var n := |buttons| - 1;
    assert forall j :: 0 <= j < n ==> buttons[..n][j] == buttons[j];
  }

  /** The height of one line of the 18-point font, by which the d-pad
      callouts are stacked. */
  const FONT_SIZE_18: real := 31.9218750

  function Offset(used: bool): real { if used then FONT_SIZE_18 else 0.0 }

  /** How far below the d-pad anchor a direction's callout goes: one line
      for every used direction up to and including it, in the order up,
      down, right, left, truncated to whole pixels. */
  function DpadShift(id: HelpId, s: DpadScan): int
  {
    match id
    case DpadUp => Offset(s.up).Floor
    case DpadDown => (Offset(s.up) + Offset(s.down)).Floor
    case DpadRight => (Offset(s.up) + Offset(s.down) + Offset(s.right)).Floor
    case DpadLeft => (Offset(s.up) + Offset(s.down) + Offset(s.right) + Offset(s.left)).Floor
    case _ => 0
  }

  function DpadRank(id: HelpId): nat
  {
    match id
    case DpadUp => 1
    case DpadDown => 2
    case DpadRight => 3
    case DpadLeft => 4
    case _ => 0
  }

  predicate Used(id: HelpId, s: DpadScan)
  {
    match id
    case DpadUp => s.up
    case DpadDown => s.down
    case DpadRight => s.right
    case DpadLeft => s.left
    case _ => false
  }

  /** Used d-pad callouts never overlap: each sits at least a whole line
      (31 pixels) below the d-pad label and below every used direction
      that comes before it. */
  lemma DpadStacked(a: HelpId, b: HelpId, s: DpadScan)
    requires IsDpadDirection(a) && IsDpadDirection(b) && Used(a, s) && Used(b, s)
    ensures DpadShift(a, s) >= 31
    ensures DpadRank(a) < DpadRank(b) ==> DpadShift(b, s) >= DpadShift(a, s) + 31
  {
  }

  /** The callout for one button: its template, with the d-pad directions
      moved down into their place. */
  function Placed(b: Assignment, s: DpadScan, linearColors: bool): Callout
  {
    var c := MakeCallout(b.id, b.buttonText, linearColors);
    c.(anchorY := c.anchorY + DpadShift(b.id, s))
  }

  function Header(title: Option<string>, description: Option<string>, dpadLabel: bool, linearColors: bool): seq<Callout>
  {
    (if title.Some? then [MakeCallout(TitleText, title, linearColors)] else [])
    + (if description.Some? then [MakeCallout(DescriptionText, description, linearColors)] else [])
    + (if dpadLabel then [MakeCallout(DpadAll, None, linearColors)] else [])
  }

  /** The callouts of a Help screen whose first pass starts with the label
      flag at `labels0`: title, description and d-pad label when present,
      then one per button in the given order. */
  function Callouts(labels0: bool, title: Option<string>, description: Option<string>, buttons: seq<Assignment>,
                    linearColors: bool): seq<Callout>
  {
    var s := Scan(labels0, buttons);
    Header(title, description, s.labels, linearColors)
    + seq(|buttons|, i requires 0 <= i < |buttons| => Placed(buttons[i], s, linearColors))
  }

  function CountIf(b: bool): nat { if b then 1 else 0 }

  class Help {
    const linearColors: bool
    const calloutCount: nat
    const callouts: seq<Callout>

    constructor (linearColors: bool, callouts: seq<Callout>)
      ensures this.linearColors == linearColors && this.callouts == callouts && calloutCount == |callouts|
    {
      this.linearColors := linearColors;
      this.calloutCount := |callouts|;
      this.callouts := callouts;
    }
  }

  /** One step of the first pass, keeping its loop invariant. */
  lemma ScanPrefix(labels0: bool, buttons: seq<Assignment>, j: nat)
    requires j < |buttons|
    ensures Scan(labels0, buttons[..j + 1]) == ScanStep(Scan(labels0, buttons[..j]), buttons[j].id)
  {
    assert buttons[..j + 1][..j] == buttons[..j];
  }

  /** The constructor's first pass over the buttons, with the label flag
      starting at `labels0`. */
  method ScanButtons(labels0: bool, bs: seq<Assignment>) returns (s: DpadScan)
    ensures s == Scan(labels0, bs)
  {
    s := DpadScan(labels0, false, false, false, false);
    var j := 0;
    while j < |bs|
      invariant j <= |bs| && s == Scan(labels0, bs[..j])
    {
      ScanPrefix(labels0, bs, j);
      s := ScanStep(s, bs[j].id);
      j := j + 1;
    }
    assert bs[..j] == bs;
  }

  /** The constructor's second pass: one callout per button, appended to
      `callouts`, refusing the d-pad label ID. */
  method PlaceButtons(bs: seq<Assignment>, s: DpadScan, linearColors: bool, header: seq<Callout>)
    returns (r: Result<seq<Callout>, HelpError>)
    ensures r.Err? <==> Uses(bs, DpadAll)
    ensures r.Err? ==> r.error == DpadAllInButtons
    ensures r.Ok? ==> r.value == header + seq(|bs|, i requires 0 <= i < |bs| => Placed(bs[i], s, linearColors))
  {
    var callouts := header;
    var j := 0;
    while j < |bs|
      invariant j <= |bs| && |callouts| == |header| + j
      invariant callouts == header + seq(j, i requires 0 <= i < j => Placed(bs[i], s, linearColors))
      invariant forall k :: 0 <= k < j ==> bs[k].id != DpadAll
    {
      var c := Create(bs[j].buttonText, bs[j].id, linearColors);
      if bs[j].id == DpadAll {
        return Err(DpadAllInButtons);
      }
      c := c.(anchorY := c.anchorY + DpadShift(bs[j].id, s));
      callouts := callouts + [c];
      j := j + 1;
    }
    return Ok(callouts);
  }

  /** The title, description and d-pad label callouts, each created only
      when wanted. */
  method CreateHeader(title: Option<string>, description: Option<string>, dpadLabel: bool, linearColors: bool)
    returns (callouts: seq<Callout>)
    ensures callouts == Header(title, description, dpadLabel, linearColors)
  {
    callouts := [];
    if title.Some? {
      var c := Create(title, TitleText, linearColors);
      callouts := callouts + [c];
    }
    if description.Some? {
      var c := Create(description, DescriptionText, linearColors);
      callouts := callouts + [c];
    }
    if dpadLabel {
      var c := Create(None, DpadAll, linearColors);
      callouts := callouts + [c];
    }
  }

  /** The Help constructor with the d-pad label flag starting at
      `labels0`. A missing or empty button list is refused; the first pass
      finds the d-pad directions in use; then the title, description and
      d-pad label callouts are created, followed by one per button, and a
      d-pad-label ID among the buttons is refused. */
  method ConstructHelp(labels0: bool, title: Option<string>, description: Option<string>,
                       buttons: Option<seq<Assignment>>, linearColors: bool)
    returns (r: Result<Help, HelpError>)
    ensures r.Err? && r.error == NullButtons <==> buttons.None?
    ensures r.Err? && r.error == NoButtons <==> buttons == Some([])
    ensures r.Err? && r.error == DpadAllInButtons <==>
      buttons.Some? && buttons.value != [] && Uses(buttons.value, DpadAll)
    ensures r.Ok? ==> r.value.calloutCount == |buttons.value| + CountIf(title.Some?) + CountIf(description.Some?)
                                              + CountIf(labels0 || UsesDpad(buttons.value))
    ensures r.Ok? ==> r.value.callouts == Callouts(labels0, title, description, buttons.value, linearColors)
    ensures r.Ok? ==> r.value.calloutCount == |r.value.callouts| && r.value.linearColors == linearColors
  {
    if buttons.None? {
      return Err(NullButtons);
    }
    var bs := buttons.value;
    if |bs| == 0 {
      return Err(NoButtons);
    }
    var count := |bs| + CountIf(title.Some?) + CountIf(description.Some?);
    var s := ScanButtons(labels0, bs);
    ScanFinds(labels0, bs);
    if s.labels {
      count := count + 1;
    }

    var callouts := CreateHeader(title, description, s.labels, linearColors);
    var placed := PlaceButtons(bs, s, linearColors, callouts);
    if placed.Err? {
      return Err(placed.error);
    }
    assert |placed.value| == count;
    var help := new Help(linearColors, placed.value);
    r := Ok(help);
  }

  /** The Help constructor with the label flag starting false: the d-pad
      label callout is added exactly when a d-pad direction is among the
      buttons. */
  method NewHelp(title: Option<string>, description: Option<string>, buttons: Option<seq<Assignment>>, linearColors: bool)
    returns (r: Result<Help, HelpError>)
    ensures r.Err? && r.error == NullButtons <==> buttons.None?
    ensures r.Err? && r.error == NoButtons <==> buttons == Some([])
    ensures r.Err? && r.error == DpadAllInButtons <==>
      buttons.Some? && buttons.value != [] && Uses(buttons.value, DpadAll)
    ensures r.Ok? ==>
      r.value.calloutCount == |buttons.value| + CountIf(title.Some?) + CountIf(description.Some?) + CountIf(UsesDpad(buttons.value))
    ensures r.Ok? ==> r.value.callouts == Callouts(false, title, description, buttons.value, linearColors)
    ensures r.Ok? ==> r.value.calloutCount == |r.value.callouts| && r.value.linearColors == linearColors
    ensures r.Ok? && UsesDpad(buttons.value) ==> MakeCallout(DpadAll, None, linearColors) in r.value.callouts
  {
    r := ConstructHelp(false, title, description, buttons, linearColors);
    if r.Ok? && UsesDpad(buttons.value) {
      HeaderLabel(false, title, description, buttons.value, linearColors);
    }
  }

  /** The Help constructor as written: the label flag starts true, so every
      screen it builds carries the d-pad label callout and one callout more
      than its buttons, title and description. */
  method NewHelpAsWritten(title: Option<string>, description: Option<string>, buttons: Option<seq<Assignment>>,
                          linearColors: bool)
    returns (r: Result<Help, HelpError>)
    ensures r.Err? && r.error == NullButtons <==> buttons.None?
    ensures r.Err? && r.error == NoButtons <==> buttons == Some([])
    ensures r.Err? && r.error == DpadAllInButtons <==>
      buttons.Some? && buttons.value != [] && Uses(buttons.value, DpadAll)
    ensures r.Ok? ==> r.value.calloutCount == |buttons.value| + CountIf(title.Some?) + CountIf(description.Some?) + 1
    ensures r.Ok? ==> r.value.callouts == Callouts(true, title, description, buttons.value, linearColors)
    ensures r.Ok? ==> MakeCallout(DpadAll, None, linearColors) in r.value.callouts
  {
    r := ConstructHelp(true, title, description, buttons, linearColors);
    if r.Ok? {
      HeaderLabel(true, title, description, buttons.value, linearColors);
    }
  }

  /** When the first pass wants the d-pad label, the screen carries its
      callout, right after the title and description. */
  lemma HeaderLabel(labels0: bool, title: Option<string>, description: Option<string>, buttons: seq<Assignment>,
                    linearColors: bool)
    requires labels0 || UsesDpad(buttons)
    ensures MakeCallout(DpadAll, None, linearColors) in Callouts(labels0, title, description, buttons, linearColors)
  {
    ScanFinds(labels0, buttons);
    var cs := Callouts(labels0, title, description, buttons, linearColors);
    var hd := Header(title, description, true, linearColors);
    var h := CountIf(title.Some?) + CountIf(description.Some?);
    assert hd[h] == MakeCallout(DpadAll, None, linearColors);
    assert cs[h] == hd[h];
  }

  /** The first pass as the constructor writes it starts with the d-pad
      label already wanted, so it is wanted for every button list. */
  lemma {:induction false} ScanAsWrittenAlwaysLabels(buttons: seq<Assignment>)
    ensures Scan(true, buttons).labels
  {
    if buttons != [] {
      ScanAsWrittenAlwaysLabels(buttons[..|buttons| - 1]);
    }
  }

  /** The callout count as the constructor computes it: one callout more
      than the buttons, title and description, whatever the buttons are. */
  function CalloutCountAsWritten(hasTitle: bool, hasDescription: bool, buttons: seq<Assignment>): (n: nat)
    ensures n == |buttons| + CountIf(hasTitle) + CountIf(hasDescription) + 1
  {
    ScanAsWrittenAlwaysLabels(buttons);
    |buttons| + CountIf(hasTitle) + CountIf(hasDescription) + CountIf(Scan(true, buttons).labels)
  }

  /** A help screen for the A button alone gets a "DPAD" label callout as
      written, though it uses no d-pad direction; the corrected pass does
      not add one. */
  lemma DpadLabelWithoutDpad()
    ensures var buttons := [Assignment(AButton, Some("Jump"))];
      && !UsesDpad(buttons)
      && CalloutCountAsWritten(false, false, buttons) == 2
      && !Scan(false, buttons).labels
      && |Callouts(false, None, None, buttons, false)| == 1
      && |Callouts(true, None, None, buttons, false)| == 2
  {
    var buttons := [Assignment(AButton, Some("Jump"))];
    assert buttons[..0] == [];
  }
}
