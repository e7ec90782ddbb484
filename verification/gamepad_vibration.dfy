// The gamepad-vibration sample: the d-pad selects one of five impulse-
// trigger effects, and every frame the selected effect steps through its
// table of trigger levels and durations (or, for the gun, a small recoil
// state machine) and sends the resulting motor and trigger levels to the
// current gamepad. Time comes in as the performance-counter value `now`
// and the gamepads as a list of identities, most recent first.

module GamepadVibration {
  import opened Common

  // The effects, in the order of the sample's effect-name table.
  const IMPULSE_TEST := 0
  const FLAT_TIRE := 1
  const GUN_WITH_RECOIL := 2
  const HEARTBEAT := 3
  const FOOTSTEPS := 4
  const EFFECTS_MAX := 5

  // Per-effect tables: durations in milliseconds, levels in [0, 1].
  const FLAT_TIRE_LEFT_DURATIONS: seq<nat> := [33, 80, 16]
  const FLAT_TIRE_LEFT_LEVELS: seq<real> := [0.8, 0.0, 0.0]
  const GUN_LEFT_DURATIONS: seq<nat> := [20, 10, 90, 10000]
  const GUN_LEFT_LEVELS: seq<real> := [1.0, 0.0, 0.0, 0.0]
  const HEARTBEAT_LEFT_DURATIONS: seq<nat> := [25, 200, 25, 10, 745]
  const HEARTBEAT_LEFT_LEVELS: seq<real> := [0.2, 0.0, 0.0, 0.0, 0.0]
  const HEARTBEAT_RIGHT_DURATIONS: seq<nat> := [25, 200, 25, 10, 745]
  const HEARTBEAT_RIGHT_LEVELS: seq<real> := [0.0, 0.0, 0.2, 0.02, 0.0]
  const FOOTSTEPS_LEFT_DURATIONS: seq<nat> := [25, 600, 25, 600]
  const FOOTSTEPS_LEFT_LEVELS: seq<real> := [0.3, 0.0, 0.0, 0.0]
  const FOOTSTEPS_RIGHT_DURATIONS: seq<nat> := [25, 600, 25, 600]
  const FOOTSTEPS_RIGHT_LEVELS: seq<real> := [0.0, 0.0, 0.3, 0.0]

  /** The gun counts as released at a trigger position of at most 1/255
      and as fired at one of at least 32/255. */
  predicate Released(trigger: real) { 255.0 * trigger <= 1.0 }
  predicate Fired(trigger: real) { 255.0 * trigger >= 32.0 }

  /** Which effects drive the left trigger from a table, and which the right. */
  predicate UsesLeftTable(effect: nat) { FLAT_TIRE <= effect <= FOOTSTEPS }
  predicate UsesRightTable(effect: nat) { effect == HEARTBEAT || effect == FOOTSTEPS }
  /** The effects whose left trigger runs on the clock from the start. */
  predicate LeftTimed(effect: nat) { effect == FLAT_TIRE || UsesRightTable(effect) }

  function LeftDurations(effect: nat): seq<nat>
  {
    if effect == FLAT_TIRE then FLAT_TIRE_LEFT_DURATIONS
    else if effect == GUN_WITH_RECOIL then GUN_LEFT_DURATIONS
    else if effect == HEARTBEAT then HEARTBEAT_LEFT_DURATIONS
    else if effect == FOOTSTEPS then FOOTSTEPS_LEFT_DURATIONS
    else []
  }

  function LeftLevels(effect: nat): seq<real>
  {
    if effect == FLAT_TIRE then FLAT_TIRE_LEFT_LEVELS
    else if effect == GUN_WITH_RECOIL then GUN_LEFT_LEVELS
    else if effect == HEARTBEAT then HEARTBEAT_LEFT_LEVELS
    else if effect == FOOTSTEPS then FOOTSTEPS_LEFT_LEVELS
    else []
  }

  function RightDurations(effect: nat): seq<nat>
  {
    if effect == HEARTBEAT then HEARTBEAT_RIGHT_DURATIONS
    else if effect == FOOTSTEPS then FOOTSTEPS_RIGHT_DURATIONS
    else []
  }

  function RightLevels(effect: nat): seq<real>
  {
    if effect == HEARTBEAT then HEARTBEAT_RIGHT_LEVELS
    else if effect == FOOTSTEPS then FOOTSTEPS_RIGHT_LEVELS
    else []
  }

  /** Every table-driven effect has a non-empty table, and each trigger's
      durations and levels have the same length. */
  lemma TablesWellFormed(effect: nat)
    ensures UsesLeftTable(effect) ==> 0 < |LeftDurations(effect)| == |LeftLevels(effect)|
    ensures UsesRightTable(effect) ==> 0 < |RightDurations(effect)| == |RightLevels(effect)|
    ensures forall i :: 0 <= i < |LeftLevels(effect)| ==> 0.0 <= LeftLevels(effect)[i] <= 1.0
    ensures forall i :: 0 <= i < |RightLevels(effect)| ==> 0.0 <= RightLevels(effect)[i] <= 1.0
  {
  }

  /** The d-pad selection: right moves to the next effect and left to the
      previous one, both wrapping around the five effects. */
  function NextEffect(effect: nat): nat { (effect + 1) % EFFECTS_MAX }
  function PrevEffect(effect: nat): nat { (effect + EFFECTS_MAX - 1) % EFFECTS_MAX }

  lemma NextPrevInverse(effect: nat)
    requires effect < EFFECTS_MAX
    ensures NextEffect(effect) < EFFECTS_MAX && PrevEffect(effect) < EFFECTS_MAX
    ensures PrevEffect(NextEffect(effect)) == effect && NextEffect(PrevEffect(effect)) == effect
  {
  }

  /** The counter value at which a table entry of `duration` milliseconds
      that starts at `now` ends, on a counter of `frequency` ticks a second. */
  function Deadline(now: int, frequency: nat, duration: nat): int
  {
    now + frequency * duration / 1000
  }

  /** One reading of the gamepad (GetCurrentReading), the parts the sample uses. */
  datatype Reading = Reading(viewPressed: bool, dPadRight: bool, dPadLeft: bool, leftTrigger: real, rightTrigger: real)

  /** What SetVibration is given. */
  datatype Vibration = Vibration(leftMotor: real, rightMotor: real, leftTrigger: real, rightTrigger: real)

  /** What one Update does outside the sample: the gamepad that was sent a
      zero vibration on being replaced, the vibration sent to the current
      gamepad, and whether the View button asked the sample to exit. */
  datatype Frame = Frame(shutdown: Option<nat>, sent: Option<(nat, Vibration)>, exit: bool)

  class Sample {
    /** QueryPerformanceFrequency: counter ticks a second. */
    const frequency: nat

    var gamepad: Option<nat>
    var gamepadNeedsRefresh: bool
    var connected: bool

    var dPadPressed: bool
    var selected: nat
    var effectCounter: nat

    /** The effect whose left-trigger tables the duration and level
        pointers point at; IMPULSE_TEST, which has none, stands for null. */
    var leftTable: nat
    var leftSize: nat
    var leftIndex: nat
    var leftUpdateTime: int
    var rightTable: nat
    var rightSize: nat
    var rightIndex: nat
    var rightUpdateTime: int

    var leftMotor: real
    var rightMotor: real
    var leftLevel: real
    var rightLevel: real

    /** What the table indexing relies on: a table-driven effect has its own
        tables installed and its indices inside them, and the gun waits with
        the first entry until it has fired. */
    ghost predicate Valid()
      reads this`selected, this`effectCounter, this`leftTable, this`leftSize, this`leftIndex
      reads this`rightTable, this`rightSize, this`rightIndex
    {
      && selected < EFFECTS_MAX
      && (UsesLeftTable(selected) ==>
            leftTable == selected && leftSize == |LeftDurations(selected)| && leftIndex < leftSize)
      && (UsesRightTable(selected) ==>
            rightTable == selected && rightSize == |RightDurations(selected)| && rightIndex < rightSize)
      && (selected == GUN_WITH_RECOIL ==> effectCounter <= 2 && (effectCounter < 2 ==> leftIndex == 0))
    }

    constructor (frequency: nat)
      ensures Valid() && this.frequency == frequency
      ensures selected == IMPULSE_TEST && !dPadPressed && effectCounter == 0
      ensures gamepad.None? && !gamepadNeedsRefresh && !connected
      ensures leftSize == 0 && rightSize == 0 && leftIndex == 0 && rightIndex == 0
      ensures leftMotor == rightMotor == leftLevel == rightLevel == 0.0
    {
      this.frequency := frequency;
      gamepad, gamepadNeedsRefresh, connected := None, false, false;
      dPadPressed, selected, effectCounter := false, IMPULSE_TEST, 0;
      leftTable, leftSize, leftIndex, leftUpdateTime := IMPULSE_TEST, 0, 0, 0;
      rightTable, rightSize, rightIndex, rightUpdateTime := IMPULSE_TEST, 0, 0, 0;
      leftMotor, rightMotor, leftLevel, rightLevel := 0.0, 0.0, 0.0, 0.0;
    }

    /** InitializeImpulseTriggerEffects: indices, levels, motor speeds and
        the recoil counter go to zero, and the selected effect's tables are
        installed; the timed effects start their first entry at `now`. An
        effect without a table for a trigger leaves that trigger's table as
        it was. */
    method InitializeImpulseTriggerEffects(now: int)
      requires selected < EFFECTS_MAX
      modifies this`leftIndex, this`rightIndex, this`effectCounter, this`leftMotor, this`rightMotor
      modifies this`leftLevel, this`rightLevel, this`leftTable, this`rightTable, this`leftSize, this`rightSize
      modifies this`leftUpdateTime, this`rightUpdateTime
      ensures Valid()
      ensures leftIndex == 0 && rightIndex == 0 && effectCounter == 0
      ensures leftMotor == rightMotor == leftLevel == rightLevel == 0.0
      ensures UsesLeftTable(selected) ==> leftTable == selected && leftSize == |LeftDurations(selected)|
      ensures UsesRightTable(selected) ==> rightTable == selected && rightSize == |RightDurations(selected)|
      ensures !UsesLeftTable(selected) ==> leftTable == old(leftTable) && leftSize == old(leftSize)
      ensures !UsesRightTable(selected) ==> rightTable == old(rightTable) && rightSize == old(rightSize)
      ensures LeftTimed(selected) ==> leftUpdateTime == Deadline(now, frequency, LeftDurations(selected)[0])
      ensures UsesRightTable(selected) ==> rightUpdateTime == Deadline(now, frequency, RightDurations(selected)[0])
    {
      leftIndex, rightIndex := 0, 0;
      leftMotor, leftLevel, rightMotor, rightLevel := 0.0, 0.0, 0.0, 0.0;
      effectCounter := 0;
      InstallEffect(now);
    }

    /** The switch of InitializeImpulseTriggerEffects, which points the
        triggers at the selected effect's tables, sets their sizes and
        starts the clocks, once the indices are back at zero. */
    method InstallEffect(now: int)
      requires selected < EFFECTS_MAX && leftIndex == 0 && rightIndex == 0
      modifies this`leftTable, this`rightTable, this`leftSize, this`rightSize, this`leftUpdateTime, this`rightUpdateTime
      ensures UsesLeftTable(selected) ==> leftTable == selected && leftSize == |LeftDurations(selected)|
      ensures UsesRightTable(selected) ==> rightTable == selected && rightSize == |RightDurations(selected)|
      ensures !UsesLeftTable(selected) ==> leftTable == old(leftTable) && leftSize == old(leftSize)
      ensures !UsesRightTable(selected) ==> rightTable == old(rightTable) && rightSize == old(rightSize)
      ensures LeftTimed(selected) ==> leftUpdateTime == Deadline(now, frequency, LeftDurations(selected)[0])
      ensures UsesRightTable(selected) ==> rightUpdateTime == Deadline(now, frequency, RightDurations(selected)[0])
    {
      if selected == FLAT_TIRE {
        leftSize := 3;
        leftTable := FLAT_TIRE;
        leftUpdateTime := Deadline(now, frequency, LeftDurations(leftTable)[leftIndex]);
      } else if selected == GUN_WITH_RECOIL {
        leftSize := 4;
        leftTable := GUN_WITH_RECOIL;
      } else if selected == HEARTBEAT {
        leftSize, rightSize := 5, 5;
        leftTable, rightTable := HEARTBEAT, HEARTBEAT;
        leftUpdateTime := Deadline(now, frequency, LeftDurations(leftTable)[leftIndex]);
        rightUpdateTime := Deadline(now, frequency, RightDurations(rightTable)[rightIndex]);
      } else if selected == FOOTSTEPS {
        leftSize, rightSize := 4, 4;
        leftTable, rightTable := FOOTSTEPS, FOOTSTEPS;
        leftUpdateTime := Deadline(now, frequency, LeftDurations(leftTable)[leftIndex]);
        rightUpdateTime := Deadline(now, frequency, RightDurations(rightTable)[rightIndex]);
      }
    }

    /** The d-pad latch: a press of right or left changes the effect once
        and sets the latch; while the latch is set nothing changes until
        both directions are up again. */
    method HandleDPad(reading: Reading, now: int)
      requires Valid()
      modifies this`dPadPressed, this`selected
      modifies this`leftIndex, this`rightIndex, this`effectCounter, this`leftMotor, this`rightMotor
      modifies this`leftLevel, this`rightLevel, this`leftTable, this`rightTable, this`leftSize, this`rightSize
      modifies this`leftUpdateTime, this`rightUpdateTime
      ensures Valid()
      ensures old(dPadPressed) ==> dPadPressed == (reading.dPadRight || reading.dPadLeft)
      ensures !old(dPadPressed) && reading.dPadRight ==> dPadPressed && selected == NextEffect(old(selected))
      ensures !old(dPadPressed) && !reading.dPadRight && reading.dPadLeft ==>
        dPadPressed && selected == PrevEffect(old(selected))
      ensures !old(dPadPressed) && !reading.dPadRight && !reading.dPadLeft ==> !dPadPressed
      ensures selected != old(selected) <==> !old(dPadPressed) && (reading.dPadRight || reading.dPadLeft)
      ensures selected != old(selected) ==> leftIndex == 0 && rightIndex == 0 && effectCounter == 0
      ensures selected == old(selected) ==>
        unchanged(this`leftIndex, this`rightIndex, this`effectCounter, this`leftTable, this`rightTable)
    {
      if !dPadPressed {
        if reading.dPadRight {
          dPadPressed := true;
          selected := NextEffect(selected);
          InitializeImpulseTriggerEffects(now);
        } else if reading.dPadLeft {
          dPadPressed := true;
          selected := PrevEffect(selected);
          InitializeImpulseTriggerEffects(now);
        }
      } else if !reading.dPadRight && !reading.dPadLeft {
        dPadPressed := false;
      }
    }

    /** Moves the left trigger to its next table entry once its current one
        has run out. */
    method AdvanceLeft(now: int)
      requires leftSize == |LeftDurations(leftTable)| && leftIndex < leftSize
      modifies this`leftIndex, this`leftUpdateTime
      ensures leftIndex < leftSize
      ensures now > old(leftUpdateTime) ==>
        leftIndex == (old(leftIndex) + 1) % leftSize && leftUpdateTime == Deadline(now, frequency, LeftDurations(leftTable)[leftIndex])
      ensures now <= old(leftUpdateTime) ==> leftIndex == old(leftIndex) && leftUpdateTime == old(leftUpdateTime)
    {
      if now > leftUpdateTime {
        leftIndex := (leftIndex + 1) % leftSize;
        leftUpdateTime := Deadline(now, frequency, LeftDurations(leftTable)[leftIndex]);
      }
    }

    /** The same for the right trigger. */
    method AdvanceRight(now: int)
      requires rightSize == |RightDurations(rightTable)| && rightIndex < rightSize
      modifies this`rightIndex, this`rightUpdateTime
      ensures rightIndex < rightSize
      ensures now > old(rightUpdateTime) ==>
        rightIndex == (old(rightIndex) + 1) % rightSize && rightUpdateTime == Deadline(now, frequency, RightDurations(rightTable)[rightIndex])
      ensures now <= old(rightUpdateTime) ==> rightIndex == old(rightIndex) && rightUpdateTime == old(rightUpdateTime)
    {
      if now > rightUpdateTime {
        rightIndex := (rightIndex + 1) % rightSize;
        rightUpdateTime := Deadline(now, frequency, RightDurations(rightTable)[rightIndex]);
      }
    }

    /** The gun with recoil: released (0), armed (1), firing (2). The gun
        arms once the trigger is let go, fires once it is pulled far
        enough, shakes the motors only on the third table entry, and goes
        back to waiting for release when it reaches the fourth. */
    method StepRecoil(reading: Reading, now: int)
      requires Valid() && selected == GUN_WITH_RECOIL
      modifies this`effectCounter, this`leftIndex, this`leftUpdateTime, this`leftLevel, this`leftMotor, this`rightMotor
      ensures Valid()
      ensures old(effectCounter) == 0 ==>
        effectCounter == (if Released(reading.leftTrigger) then 1 else 0) && leftIndex == 0
      ensures old(effectCounter) == 1 && Fired(reading.leftTrigger) ==>
        effectCounter == 2 && leftIndex == 0 && leftUpdateTime == Deadline(now, frequency, GUN_LEFT_DURATIONS[0])
      ensures old(effectCounter) == 1 && !Fired(reading.leftTrigger) ==> effectCounter == 1
      ensures old(effectCounter) == 2 ==> leftLevel == GUN_LEFT_LEVELS[old(leftIndex)]
      ensures old(effectCounter) == 2 ==>
        leftMotor == rightMotor == (if old(leftIndex) == 2 then 1.0 else 0.0)
      ensures old(effectCounter) == 2 && old(leftIndex) == 3 ==> effectCounter == 0 && leftIndex == 0
      ensures old(effectCounter) == 2 && old(leftIndex) < 3 ==> effectCounter == 2 && old(leftIndex) <= leftIndex <= old(leftIndex) + 1
      ensures old(effectCounter) != 2 ==>
        leftLevel == old(leftLevel) && leftMotor == old(leftMotor) && rightMotor == old(rightMotor)
    {
      if effectCounter == 0 {
        if Released(reading.leftTrigger) {
          effectCounter := 1;
        }
      } else if effectCounter == 1 {
        if Fired(reading.leftTrigger) {
          leftUpdateTime := Deadline(now, frequency, LeftDurations(leftTable)[leftIndex]);
          effectCounter := 2;
        }
      } else {
        leftLevel := LeftLevels(leftTable)[leftIndex];
        if leftIndex == 2 {
          leftMotor, rightMotor := 1.0, 1.0;
        } else {
          leftMotor, rightMotor := 0.0, 0.0;
        }
        if leftIndex == 3 {
          leftIndex := 0;
          effectCounter := 0;
          return;
        }
        AdvanceLeft(now);
      }
    }

    /** A table-driven trigger's frame: show the current entry, then move
        on if its time has run out. */
    method PlayLeft(now: int)
      requires UsesLeftTable(leftTable) && leftSize == |LeftDurations(leftTable)| && leftIndex < leftSize
      modifies this`leftLevel, this`leftIndex, this`leftUpdateTime
      ensures leftLevel == LeftLevels(leftTable)[old(leftIndex)]
      ensures leftIndex == (if now > old(leftUpdateTime) then (old(leftIndex) + 1) % leftSize else old(leftIndex))
      ensures leftIndex < leftSize
    {
      TablesWellFormed(leftTable);
      leftLevel := LeftLevels(leftTable)[leftIndex];
      AdvanceLeft(now);
    }

    method PlayRight(now: int)
      requires UsesRightTable(rightTable) && rightSize == |RightDurations(rightTable)| && rightIndex < rightSize
      modifies this`rightLevel, this`rightIndex, this`rightUpdateTime
      ensures rightLevel == RightLevels(rightTable)[old(rightIndex)]
      ensures rightIndex == (if now > old(rightUpdateTime) then (old(rightIndex) + 1) % rightSize else old(rightIndex))
      ensures rightIndex < rightSize
    {
      TablesWellFormed(rightTable);
      rightLevel := RightLevels(rightTable)[rightIndex];
      AdvanceRight(now);
    }

    /** One frame of the selected effect. The impulse test mirrors the
        triggers; the table-driven effects show the current entry and
        advance it when its time has run out. */
    method StepEffect(reading: Reading, now: int)
      requires Valid()
      modifies this`effectCounter, this`leftIndex, this`leftUpdateTime, this`rightIndex, this`rightUpdateTime
      modifies this`leftLevel, this`rightLevel, this`leftMotor, this`rightMotor
      ensures Valid()
      ensures selected == IMPULSE_TEST ==>
        leftLevel == leftMotor == reading.leftTrigger && rightLevel == rightMotor == reading.rightTrigger
      ensures LeftTimed(selected) ==> leftLevel == LeftLevels(selected)[old(leftIndex)]
      ensures UsesRightTable(selected) ==> rightLevel == RightLevels(selected)[old(rightIndex)]
      ensures LeftTimed(selected) ==>
        leftIndex == (if now > old(leftUpdateTime) then (old(leftIndex) + 1) % leftSize else old(leftIndex))
      ensures UsesRightTable(selected) ==>
        rightIndex == (if now > old(rightUpdateTime) then (old(rightIndex) + 1) % rightSize else old(rightIndex))
      ensures selected != GUN_WITH_RECOIL ==> effectCounter == old(effectCounter)
      ensures selected != IMPULSE_TEST && selected != GUN_WITH_RECOIL ==>
        leftMotor == old(leftMotor) && rightMotor == old(rightMotor)
    {
      if selected == IMPULSE_TEST {
        leftLevel, rightLevel := reading.leftTrigger, reading.rightTrigger;
        leftMotor, rightMotor := reading.leftTrigger, reading.rightTrigger;
      } else if selected == FLAT_TIRE {
        PlayLeft(now);
      } else if selected == GUN_WITH_RECOIL {
        StepRecoil(reading, now);
      } else {
        PlayLeft(now);
        PlayRight(now);
      }
    }

    /** The gamepad-refresh part of Update: when the gamepad list changed,
        a gamepad that is no longer the most recent one is replaced (and,
        if it is still attached, silenced), and a new gamepad restarts the
        effects with the impulse test (InitializeCurrentGamepad). */
    method RefreshGamepad(gamepads: seq<nat>, now: int) returns (shutdown: Option<nat>)
      requires Valid()
      modifies this`gamepad, this`gamepadNeedsRefresh, this`dPadPressed, this`selected
      modifies this`leftIndex, this`rightIndex, this`effectCounter, this`leftMotor, this`rightMotor
      modifies this`leftLevel, this`rightLevel, this`leftTable, this`rightTable, this`leftSize, this`rightSize
      modifies this`leftUpdateTime, this`rightUpdateTime
      ensures Valid() && !gamepadNeedsRefresh
      ensures old(gamepadNeedsRefresh) ==> gamepad == (if gamepads == [] then None else Some(gamepads[0]))
      ensures !old(gamepadNeedsRefresh) || gamepad == old(gamepad) ==> unchanged(this`selected, this`dPadPressed, this`gamepad)
      ensures shutdown.Some? <==> gamepad != old(gamepad) && old(gamepad).Some? && old(gamepad).value in gamepads
      ensures shutdown.Some? ==> shutdown == old(gamepad)
      ensures gamepad != old(gamepad) && gamepad.Some? ==> selected == IMPULSE_TEST && !dPadPressed
    {
      shutdown := None;
      if gamepadNeedsRefresh {
        var mostRecent := if gamepads == [] then None else Some(gamepads[0]);
        if gamepad != mostRecent {
          if gamepad.Some? && gamepad.value in gamepads {
            shutdown := gamepad;
          }
          gamepad := mostRecent;
          if gamepad.Some? {
            dPadPressed := false;
            selected := IMPULSE_TEST;
            InitializeImpulseTriggerEffects(now);
          }
        }
        gamepadNeedsRefresh := false;
      }
    }

    /** The connected part of Update: the d-pad, then the selected effect,
        and the vibration that results. */
    method Play(reading: Reading, now: int) returns (v: Vibration)
      requires Valid()
      modifies this`dPadPressed, this`selected
      modifies this`leftIndex, this`rightIndex, this`effectCounter, this`leftMotor, this`rightMotor
      modifies this`leftLevel, this`rightLevel, this`leftTable, this`rightTable, this`leftSize, this`rightSize
      modifies this`leftUpdateTime, this`rightUpdateTime
      ensures Valid()
      ensures v == Vibration(leftMotor, rightMotor, leftLevel, rightLevel)
      ensures selected != old(selected) ==> !old(dPadPressed) && dPadPressed
    {
      HandleDPad(reading, now);
      StepEffect(reading, now);
      v := Vibration(leftMotor, rightMotor, leftLevel, rightLevel);
    }

    /** Update: a pending refresh first; without a gamepad nothing else
        happens; otherwise the d-pad, then the effect, run and the vibration
        is sent. */
    method Update(gamepads: seq<nat>, reading: Reading, now: int) returns (f: Frame)
      requires Valid()
      modifies this
      ensures Valid() && !gamepadNeedsRefresh
      ensures old(gamepadNeedsRefresh) ==> gamepad == (if gamepads == [] then None else Some(gamepads[0]))
      ensures !old(gamepadNeedsRefresh) ==> gamepad == old(gamepad)
      ensures f.shutdown.Some? ==> f.shutdown == old(gamepad) && f.shutdown.value in gamepads && gamepad != old(gamepad)
      ensures connected <==> gamepad.Some?
      ensures gamepad.None? ==> f.sent.None? && !f.exit
      ensures gamepad.Some? ==> f.sent == Some((gamepad.value, Vibration(leftMotor, rightMotor, leftLevel, rightLevel)))
      ensures f.exit <==> gamepad.Some? && reading.viewPressed
      ensures gamepad == old(gamepad) && selected != old(selected) ==> !old(dPadPressed) && dPadPressed
    {
      var shutdown := RefreshGamepad(gamepads, now);
      connected := gamepad.Some?;
      if gamepad.None? {
        return Frame(shutdown, None, false);
      }
      var v := Play(reading, now);
      f := Frame(shutdown, Some((gamepad.value, v)), reading.viewPressed);
    }

    /** The GamepadAdded and GamepadRemoved handlers: the next Update
        re-reads the most recent gamepad. */
    method GamepadAddedOrRemoved()
      modifies this`gamepadNeedsRefresh
      ensures gamepadNeedsRefresh
    {
      gamepadNeedsRefresh := true;
    }
  }
}
