// The ambient-occlusion sample's on-screen menu: the keyboard handling
// that toggles the help and FPS overlays, cycles the lighting model,
// moves the selection through the option list, sets the step direction,
// resets every option and steps the selected one; and the label drawn
// for the lighting model. How an option steps is defined with the option
// type, which is not part of this model: the stepped value and whether it
// changed come in as parameters.

module RaytracingMenus {
  import opened Common

  /** The lighting models, AO and SSAO. */
  const AO := 0
  const SSAO := 1
  const LIGHTING_MODEL_COUNT := 2

  const UINT_MAX := TWO_32 - 1

  /** The keyboard tracker's view of one frame: keys newly pressed and
      keys newly released. */
  datatype Keys = Keys(
    f1: bool, tab: bool, f: bool,
    up: bool, down: bool, left: bool, right: bool,
    leftReleased: bool, rightReleased: bool, r: bool)

  /** What the selected option's Increment or Decrement gives: its new
      value and whether the value changed. */
  datatype Step = Step(value: real, changed: bool)

  /** Up: the unsigned selection minus one, wrapping from 0 to the last
      option. */
  function SelectionUp(selection: u32, count: nat): (r: u32)
    requires 0 < count <= UINT_MAX
    ensures selection < count ==> r < count
    ensures selection < count ==> r == (if selection == 0 then count - 1 else selection - 1)
  {
    Wrap32Diff(selection - 1);
    var s := Wrap32(selection - 1);
    if s == UINT_MAX then count - 1 else s
  }

  /** Down: the selection plus one, wrapping past the last option to 0. */
  function SelectionDown(selection: u32, count: nat): (r: u32)
    requires 0 < count <= UINT_MAX
    ensures r < count
    ensures selection < count ==> r == (if selection == count - 1 then 0 else selection + 1)
  {
    Wrap32Below(selection + 1);
    var s := Wrap32(selection + 1);
    if count <= s then 0 else s
  }

  lemma Wrap32Below(x: nat)
    ensures x < TWO_32 ==> Wrap32(x) == x
  {
    if x < TWO_32 {
      Wrap32Small(x);
    }
  }

  /** Up and Down undo each other on a valid selection. */
  lemma SelectionUpDownInverse(selection: u32, count: nat)
    requires 0 < count <= UINT_MAX && selection < count
    ensures SelectionDown(SelectionUp(selection, count), count) == selection
    ensures SelectionUp(SelectionDown(selection, count), count) == selection
  {
  }

  /** Tab: the next lighting model, wrapping at the count. */
  function NextLightingModel(model: u32): (r: u32)
    requires model < LIGHTING_MODEL_COUNT
    ensures r < LIGHTING_MODEL_COUNT && r != model
  {
    if model + 1 == LIGHTING_MODEL_COUNT then 0 else model + 1
  }

  class Menus {
    const optionCount: nat
    const defaults: seq<real>
    var showHelp: bool
    var showFps: bool
    var lightingModel: u32
    var selection: u32
    var delta: real
    var options: seq<real>

    ghost predicate Valid()
      reads this
    {
      && 0 < optionCount <= UINT_MAX
      && |defaults| == optionCount && |options| == optionCount
      && selection < optionCount
      && lightingModel < LIGHTING_MODEL_COUNT
    }

    constructor (defaults: seq<real>)
      requires 0 < |defaults| <= UINT_MAX
      ensures Valid() && this.defaults == defaults && options == defaults
      ensures !showHelp && selection == 0 && lightingModel == AO && delta == 0.0
    {
      optionCount := |defaults|;
      this.defaults := defaults;
      options := defaults;
      showHelp := false;
      showFps := false;
      lightingModel := AO;
      selection := 0;
      delta := 0.0;
    }

    /** The overlay keys: F1 toggles help, otherwise Tab cycles the
        lighting model, otherwise F toggles the FPS counter. */
    method ToggleOverlays(keys: Keys)
      requires Valid()
      modifies this`showHelp, this`lightingModel, this`showFps
      ensures Valid()
      ensures showHelp == (old(showHelp) != keys.f1)
      ensures lightingModel == (if !keys.f1 && keys.tab then NextLightingModel(old(lightingModel)) else old(lightingModel))
      ensures showFps == (old(showFps) != (!keys.f1 && !keys.tab && keys.f))
    {
      if keys.f1 {
        showHelp := !showHelp;
      } else if keys.tab {
        lightingModel := lightingModel + 1;
        if lightingModel == LIGHTING_MODEL_COUNT {
          lightingModel := 0;
        }
      } else if keys.f {
        showFps := !showFps;
      }
    }

    /** The menu keys, taken only while help is shown: Up and Down move
        the selection, Left and Right set the step direction and their
        release clears it, R resets every option. */
    method MenuKeys(keys: Keys) returns (reset: bool)
      requires Valid()
      modifies this`selection, this`delta, this`options
      ensures Valid()
      ensures reset == (!keys.up && !keys.down && !keys.left && !keys.right
                        && !keys.leftReleased && !keys.rightReleased && keys.r)
      ensures selection == (if keys.up then SelectionUp(old(selection), optionCount)
                            else if keys.down then SelectionDown(old(selection), optionCount)
                            else old(selection))
      ensures delta == (if keys.up || keys.down then old(delta)
                        else if keys.left then -1.0
                        else if keys.right then 1.0
                        else if keys.leftReleased || keys.rightReleased then 0.0
                        else old(delta))
      ensures options == (if reset then defaults else old(options))
    {
      reset := false;
      if keys.up {
        selection := Wrap32(selection as int - 1);
        if selection == UINT_MAX {
          selection := optionCount - 1;
        }
      } else if keys.down {
        selection := Wrap32(selection as int + 1);
        if optionCount <= selection as int {
          selection := 0;
        }
      } else if keys.left {
        delta := -1.0;
      } else if keys.right {
        delta := 1.0;
      } else if keys.leftReleased || keys.rightReleased {
        delta := 0.0;
      } else if keys.r {
        options := defaults;
        reset := true;
      }
    }

    /** One frame of keyboard handling. Returns whether an option changed:
        true after a reset, unless a held direction then steps the
        selected option, whose own answer wins. With help hidden nothing
        but the overlays changes and the answer is false. */
    method ProcessKeys(keys: Keys, increment: Step, decrement: Step) returns (update: bool)
      requires Valid()
      modifies this
      ensures Valid()
      ensures showHelp == (old(showHelp) != keys.f1)
      ensures lightingModel == (if !keys.f1 && keys.tab then NextLightingModel(old(lightingModel)) else old(lightingModel))
      ensures showFps == (old(showFps) != (!keys.f1 && !keys.tab && keys.f))
      ensures !showHelp ==> !update && selection == old(selection) && delta == old(delta) && options == old(options)
      ensures showHelp && keys.r && !keys.up && !keys.down && !keys.left && !keys.right
              && !keys.leftReleased && !keys.rightReleased && delta == 0.0
              ==> update && options == defaults
      ensures showHelp && delta > 0.0 ==> update == increment.changed && options[selection] == increment.value
      ensures showHelp && delta < 0.0 ==> update == decrement.changed && options[selection] == decrement.value
      ensures showHelp && delta != 0.0 ==> forall k :: 0 <= k < optionCount && k != selection as int ==>
        options[k] == (if keys.r && !keys.up && !keys.down && !keys.left && !keys.right
                       && !keys.leftReleased && !keys.rightReleased then defaults[k] else old(options)[k])
    {
      update := false;
      ToggleOverlays(keys);
      if !showHelp {
        return;
      }
      update := MenuKeys(keys);
      if 0.0 < delta {
        options := options[selection := increment.value];
        update := increment.changed;
      } else if delta < 0.0 {
        options := options[selection := decrement.value];
        update := decrement.changed;
      }
    }

    /** The lighting-model label; a model out of range is refused. */
    method DrawLabel() returns (text: Result<string, string>)
      ensures lightingModel >= LIGHTING_MODEL_COUNT <==> text.Err?
      ensures Valid() ==> text.Ok?
      ensures lightingModel == AO ==> text == Ok("AO")
      ensures lightingModel == SSAO ==> text == Ok("SSAO")
    {
      if lightingModel >= LIGHTING_MODEL_COUNT {
        return Err("DrawLabel");
      }
      if lightingModel == AO {
        text := Ok("AO");
      } else if lightingModel == SSAO {
        text := Ok("SSAO");
      } else {
        text := Ok("");
      }
    }
  }
}
