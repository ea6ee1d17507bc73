/** Keys that go out as they come in: what the adapter sends for them, and what the client makes of it. */
module EvdevKeys {
  import opened Keymap
  import opened Evdev
  import opened EvdevDecode
  import opened EvdevRuns

  // ---------- which keys go out ----------

  /** The third Escape within a second. */
  predicate IsEmergency(input: Input) {
    input.code == 1 && input.value == 1 && input.thirdEscape
  }

  predicate AtMostShift(mask: bv32) {
    mask == 0 || mask == MOD_SHIFT
  }

  /** A press or repeat that goes out as it is: any key in an emergency or under a modifier other than Shift, a key
  without a symbol, and a key that the handler lets through. */
  predicate GoesOut(a: Adapter, input: Input) {
    && !IsMod(input.code) && (input.value == 1 || input.value == 2)
    && (IsEmergency(input) || !AtMostShift(a.modMask) || !input.printable || input.decision == ForwardRaw)
  }

  lemma ShiftAndRest(mask: bv32)
    ensures mask == (mask & MOD_SHIFT) | (mask & !MOD_SHIFT)
    ensures mask & MOD_SHIFT == 0 || mask & MOD_SHIFT == MOD_SHIFT
  {
  }

  lemma OtherThanShift(mask: bv32)
    ensures mask & !MOD_SHIFT != 0 <==> !AtMostShift(mask)
  {
    if mask & !MOD_SHIFT == 0 {
      ShiftAndRest(mask);
    }
  }

  lemma ShortcutExact(a: Adapter)
    ensures ShortcutModsHeld(a) <==> !AtMostShift(a.modMask)
  {
    hide AtMostShift;
    OtherThanShift(a.modMask);
  }

  /** Such a key sends one event and is recorded as forwarded; its first one is a press, even for a repeat. */
  lemma ForwardedExactly(a: Adapter, input: Input)
    requires GoesOut(a, input)
    ensures var (a', events) := Process(a, input);
            && events == [KeyEv(input.code, if input.code in a.forwarded then input.value else 1)]
            && a'.forwarded == a.forwarded + {input.code}
            && a'.modMask == a.modMask && a'.emitted == a.emitted
  {
    hide Process, ShortcutModsHeld, IsMod, AtMostShift, EmitString, EmitBackspaces;
    ShortcutExact(a);
    if Reaches(a, input) {
      ReachesDecision(a, input);
    } else {
      NotReached(a, input);
    }
  }

  /** Any other press or repeat is the handler's: a key it consumes sends nothing. */
  lemma ConsumedSendsNothing(a: Adapter, input: Input)
    requires !IsMod(input.code) && (input.value == 1 || input.value == 2) && !GoesOut(a, input)
    requires input.decision == Consumed
    ensures Process(a, input) == (TrackHeld(a, input.code, input.value), [])
  {
    hide Process, ShortcutModsHeld, IsMod, AtMostShift, EmitString, EmitBackspaces;
    ShortcutExact(a);
    ReachesDecision(a, input);
  }

  /** A release goes out exactly when the press did. */
  lemma ReleaseExactly(a: Adapter, input: Input)
    requires !IsMod(input.code) && input.value == 0
    ensures var (a', events) := Process(a, input);
            && events == (if input.code in a.forwarded then [KeyEv(input.code, 0)] else [])
            && a'.forwarded == a.forwarded - {input.code}
            && a'.modMask == a.modMask && a'.emitted == a.emitted
  {
    hide IsMod;
  }

  /** A modifier always goes out as it is. */
  lemma ModifierExactly(a: Adapter, input: Input)
    requires IsMod(input.code)
    ensures Process(a, input).1 == [KeyEv(input.code, input.value)] && Process(a, input).0.forwarded == a.forwarded
  {
    hide ModBit;
  }

  // ---------- what the client makes of them ----------

  /** One key read under the modifiers that are down, unless it is a shortcut's. */
  function ReadOnce(k: Kbd, code: nat): seq<EmitSpec> {
    if code !in SHORTCUT_KEYS && k.down !! SHORTCUT_KEYS then [EmitSpec(code, MaskOf(k.down))] else []
  }

  /** A key that was not forwarded before lands as a press and is read once.  One that was repeats where it is still
  down; where emission has lifted it, its repeats mean nothing. */
  lemma ForwardedIsFelt(a: Adapter, k: Kbd, input: Input)
    requires NoStuck(a, k) && WellFormed(a.held, input) && GoesOut(a, input)
    ensures input.value == 1 ==> input.code !in a.forwarded
    ensures var k' := Step(a, k, input).1;
            if input.code in a.forwarded then
              && k'.down == k.down
              && k'.typed == k.typed + (if input.code in k.down then ReadOnce(k, input.code) else [])
            else k'.down == k.down + {input.code} && k'.typed == k.typed + ReadOnce(k, input.code)
  {
    ForwardedExactly(a, input);
    hide Process, MaskOf, FeelAll, IsMod, SHORTCUT_KEYS;
    FeelOne(k, Process(a, input).1[0]);
    assert k.typed + [] == k.typed;
  }

  /** A release leaves the key up at the client, whatever went before. */
  lemma ReleasedIsUp(a: Adapter, k: Kbd, input: Input)
    requires NoStuck(a, k) && !IsMod(input.code) && input.value == 0
    ensures var k' := Step(a, k, input).1; k'.down == k.down - {input.code} && k'.typed == k.typed
  {
    ReleaseExactly(a, input);
    hide Process, MaskOf, FeelAll, IsMod, SHORTCUT_KEYS;
    FeelNone(k);
    FeelOne(k, KeyEv(input.code, 0));
  }

  /** From idle, after any well-formed stream and any decisions: a press that goes out lands on a key that is up, and
  is read once, under the modifiers down at the client, unless one of them makes it a shortcut. */
  lemma EveryPressIsRead(inputs: seq<Input>, input: Input, base: string)
    requires AllWellFormed({}, inputs)
    requires var (a, k) := Run(IDLE, Kbd({}, []), inputs);
             WellFormed(a.held, input) && input.value == 1 && GoesOut(a, input)
    ensures var (a, k) := Run(IDLE, Kbd({}, []), inputs);
            var k' := Step(a, k, input).1;
            && input.code !in k.down && k'.down == k.down + {input.code}
            && k'.typed == k.typed + ReadOnce(k, input.code)
            && (input.code != KEY_BACKSPACE && ReadOnce(k, input.code) != [] ==>
                  TextOf(base, k'.typed) == TextOf(base, k.typed) + Symbol(EmitSpec(input.code, MaskOf(k.down))))
  {
    hide Run, Step, AllWellFormed, WellFormed, GoesOut, TextOf, KeySymbol, MaskOf;
    IdleIsFree();
    NoKeyIsStuck(IDLE, Kbd({}, []), inputs);
    var (a, k) := Run(IDLE, Kbd({}, []), inputs);
    ForwardedIsFelt(a, k, input);
    PressedIsUp(a, k, input);
    TypedOne(base, k.typed, EmitSpec(input.code, MaskOf(k.down)));
    assert TextOf(base, k.typed) + "" == TextOf(base, k.typed);
  }

  lemma IdleIsFree()
    ensures NoStuck(IDLE, Kbd({}, []))
  {
  }

  lemma PressedIsUp(a: Adapter, k: Kbd, input: Input)
    requires NoStuck(a, k) && WellFormed(a.held, input) && GoesOut(a, input) && input.value == 1
    ensures input.code !in k.down
  {
    hide IsMod;
  }
}
