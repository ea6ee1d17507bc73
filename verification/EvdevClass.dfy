/** The evdev adapter as an object, proved equal to the functions of Evdev. */
module EvdevClass {
  import opened Keymap
  import opened Evdev

  class EvdevAdapter {
    var modMask: bv32
    var emittedMods: bv32
    var heldPhysical: set<nat>
    var forwardedPress: set<nat>
    /** Everything sent to the adapter's own keyboard. */
    var output: seq<KeyEv>

    function Model(): Adapter
      reads this
    {
      Adapter(modMask, emittedMods, heldPhysical, forwardedPress)
    }

    constructor ()
      ensures Model() == IDLE && output == []
    {
      modMask, emittedMods := 0, 0;
      heldPhysical, forwardedPress, output := {}, {}, [];
    }

    method Passthrough(code: nat, value: nat)
      modifies this`output
      ensures output == old(output) + [KeyEv(code, value)]
    {
      output := output + [KeyEv(code, value)];
    }

    method ForwardPressRaw(code: nat, value: nat)
      modifies this`output, this`forwardedPress
      ensures var (a, events) := Evdev.ForwardPressRaw(old(Model()), code, value);
              Model() == a && output == old(output) + events
    {
      var newlyForwarded := code !in forwardedPress;
      forwardedPress := forwardedPress + {code};
      Passthrough(code, if newlyForwarded && value == 2 then 1 else value);
    }

    method PlaceMod(have: bool, want: bool, key: nat)
      modifies this`output
      ensures output == old(output) + DanceKey(have, want, key)
    {
      if want && !have {
        Passthrough(key, 1);
      } else if !want && have {
        Passthrough(key, 0);
      }
    }

    method SetUinputMods(target: bv32)
      modifies this`output, this`emittedMods
      ensures emittedMods == ModsAfter(old(emittedMods), target)
      ensures output == old(output) + ModEvents(old(emittedMods), target)
    {
      hide Has, ModsAfter, DanceKey;
      var cur := emittedMods;
      PlaceMod(Has(cur, MOD_SHIFT), Has(target, MOD_SHIFT), LEFTSHIFT);
      PlaceMod(Has(cur, MOD_LEVEL3), Has(target, MOD_LEVEL3), RIGHTALT);
      PlaceMod(Has(cur, MOD_LEVEL5), Has(target, MOD_LEVEL5), HENKAN);
      emittedMods := ModsAfter(cur, target);
    }

    method TapKey(code: nat)
      modifies this`output
      ensures output == old(output) + Tap(heldPhysical, code)
    {
      if code in heldPhysical {
        Passthrough(code, 0);
      }
      Passthrough(code, 1);
      Passthrough(code, 0);
    }

    method EmitString(s: string)
      modifies this`output, this`emittedMods
      ensures var (a, events) := Evdev.EmitString(old(Model()), s);
              Model() == a && output == old(output) + events
    {
      hide CharToEmit, ModEvents, ModsAfter, Tap, DANCE_MASK;
      assert s[0..] == s;
      var original := emittedMods & DANCE_MASK;
      ghost var all := EmitChars(heldPhysical, emittedMods, s);
      for i := 0 to |s|
        invariant var rest := EmitChars(heldPhysical, emittedMods, s[i..]);
                  rest.1 == all.1 && output + rest.0 == old(output) + all.0
      {
        assert s[i..][0] == s[i] && s[i..][1..] == s[i + 1..];
        match CharToEmit(s[i]) {
          case None =>
          case Some(spec) =>
            SetUinputMods(spec.mods);
            TapKey(spec.keycode);
        }
      }
      assert s[|s|..] == "";
      assert emittedMods == all.1 && output == old(output) + all.0;
      SetUinputMods(original);
      assert output == old(output) + (all.0 + ModEvents(all.1, original));
    }

    method EmitBackspaces(n: nat)
      modifies this`output
      ensures output == old(output) + Evdev.EmitBackspaces(n)
    {
      for i := 0 to n
        invariant output + Evdev.EmitBackspaces(n - i) == old(output) + Evdev.EmitBackspaces(n)
      {
        Passthrough(KEY_BACKSPACE, 1);
        Passthrough(KEY_BACKSPACE, 0);
      }
    }

    method ProcessModifier(bit: bv32, code: nat, value: nat)
      modifies this`output, this`modMask, this`emittedMods
      ensures var (a, events) := ProcessMod(old(Model()), bit, code, value);
              Model() == a && output == old(output) + events
    {
      hide WithBit, DANCE_MASK;
      modMask := WithBit(modMask, bit, value);
      var danceBit := bit & DANCE_MASK;
      if danceBit != 0 {
        emittedMods := WithBit(emittedMods, danceBit, value);
      }
      Passthrough(code, value);
    }

    method Decide(input: Input)
      modifies this`output, this`emittedMods, this`forwardedPress
      ensures var (a, events) := ApplyDecision(old(Model()), input);
              Model() == a && output == old(output) + events
    {
      hide Evdev.EmitString, Evdev.EmitBackspaces, Evdev.ForwardPressRaw;
      match input.decision {
        case Consumed =>
        case ForwardRaw => ForwardPressRaw(input.code, input.value);
        case Apply(backspaces, commit) =>
          EmitBackspaces(backspaces);
          if input.code != KEY_BACKSPACE && commit != "" {
            EmitString(commit);
          }
      }
    }

    method ProcessEvent(input: Input)
      modifies this
      ensures var (a, events) := Process(old(Model()), input);
              Model() == a && output == old(output) + events
    {
      hide ProcessMod, ApplyDecision, ModBit, ShortcutModsHeld, Evdev.ForwardPressRaw;
      if input.value == 1 {
        heldPhysical := heldPhysical + {input.code};
      } else if input.value == 0 {
        heldPhysical := heldPhysical - {input.code};
      }
      assert Model() == TrackHeld(old(Model()), input.code, input.value);

      var bit := ModBit(input.code);
      if bit.Some? {
        ProcessModifier(bit.value, input.code, input.value);
      } else if input.code == KEY_ESC && input.value == 1 && input.thirdEscape {
        ForwardPressRaw(KEY_ESC, 1);
      } else if input.value == 0 {
        if input.code in forwardedPress {
          Passthrough(input.code, input.value);
          forwardedPress := forwardedPress - {input.code};
        }
      } else if ShortcutModsHeld(Model()) || !input.printable {
        ForwardPressRaw(input.code, input.value);
      } else {
        Decide(input);
      }
    }
  }
}
