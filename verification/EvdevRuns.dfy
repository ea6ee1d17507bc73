/** Whole runs of the evdev adapter: no key stays down, and every edit is typed as asked. */
module EvdevRuns {
  import opened Keymap
  import opened Evdev
  import opened EvdevDecode

  // ---------- streams ----------

  function HeldAfter(held: set<nat>, input: Input): set<nat> {
    if input.value == 1 then held + {input.code}
    else if input.value == 0 then held - {input.code}
    else held
  }

  /** A keyboard presses keys that are up, and releases or repeats keys that are down. */
  predicate WellFormed(held: set<nat>, input: Input) {
    input.value <= 2 && (input.value == 1 <==> input.code !in held)
  }

  function Step(a: Adapter, k: Kbd, input: Input): (Adapter, Kbd) {
    (Process(a, input).0, FeelAll(k, Process(a, input).1))
  }

  function Run(a: Adapter, k: Kbd, inputs: seq<Input>): (Adapter, Kbd)
    decreases |inputs|
  {
    if inputs == [] then (a, k)
    else
      var (a', k') := Step(a, k, inputs[0]);
      Run(a', k', inputs[1..])
  }

  predicate AllWellFormed(held: set<nat>, inputs: seq<Input>)
    decreases |inputs|
  {
    inputs == [] || (WellFormed(held, inputs[0]) && AllWellFormed(HeldAfter(held, inputs[0]), inputs[1..]))
  }

  // ---------- no stuck keys ----------

  /** Modifiers that pass through as they are, and that emission never touches. */
  const VERBATIM: set<nat> := {LEFTCTRL, RIGHTCTRL, LEFTALT, LEFTMETA, RIGHTMETA, RIGHTSHIFT}

  /** A plain key down at the client was forwarded, and what was forwarded is still held. */
  predicate NoStuck(a: Adapter, k: Kbd) {
    && (forall code <- k.down :: IsMod(code) || code in a.forwarded)
    && (forall code <- a.forwarded :: !IsMod(code) && code in a.held)
    && k.down * VERBATIM == a.held * VERBATIM
  }

  lemma FeelDanceDown(k: Kbd, have: bool, want: bool, key: nat)
    requires key in DANCED
    ensures FeelAll(k, DanceKey(have, want, key)).down - DANCED == k.down - DANCED
    ensures PlainPressesLand(k, DanceKey(have, want, key))
  {
    hide MaskOf, FeelAll;
    var events := DanceKey(have, want, key);
    if events != [] {
      assert events == [events[0]];
      FeelOne(k, events[0]);
      assert events[1..] == [];
    } else {
      FeelNone(k);
    }
  }

  lemma FeelModsDown(k: Kbd, cur: bv32, target: bv32)
    ensures FeelAll(k, ModEvents(cur, target)).down - DANCED == k.down - DANCED
    ensures PlainPressesLand(k, ModEvents(cur, target))
  {
    hide Feel, FeelAll, PressesLand, PlainPressesLand, DanceKey, Has, MaskOf;
    var a := DanceKey(Has(cur, MOD_SHIFT), Has(target, MOD_SHIFT), LEFTSHIFT);
    var b := DanceKey(Has(cur, MOD_LEVEL3), Has(target, MOD_LEVEL3), RIGHTALT);
    var c := DanceKey(Has(cur, MOD_LEVEL5), Has(target, MOD_LEVEL5), HENKAN);
    FeelDanceDown(k, Has(cur, MOD_SHIFT), Has(target, MOD_SHIFT), LEFTSHIFT);
    FeelDanceDown(FeelAll(k, a), Has(cur, MOD_LEVEL3), Has(target, MOD_LEVEL3), RIGHTALT);
    FeelDanceDown(FeelAll(FeelAll(k, a), b), Has(cur, MOD_LEVEL5), Has(target, MOD_LEVEL5), HENKAN);
    FeelConcat(k, a, b);
    FeelConcat(k, a + b, c);
    PlainConcat(k, a, b);
    PlainConcat(k, a + b, c);
  }

  lemma FeelTapDown(k: Kbd, held: set<nat>, code: nat)
    requires code in k.down ==> code in held
    ensures FeelAll(k, Tap(held, code)).down == k.down - {code}
    ensures PlainPressesLand(k, Tap(held, code))
  {
    hide MaskOf, FeelAll, PlainPressesLand, IsMod, IsText;
    var tap := [KeyEv(code, 1), KeyEv(code, 0)];
    var up := k.(down := k.down - {code});
    FeelPair(up, code);
    PairLands(up, code);
    if code in held {
      FeelOne(k, KeyEv(code, 0));
      PlainOne(k, KeyEv(code, 0));
      FeelConcat(k, [KeyEv(code, 0)], tap);
      PlainConcat(k, [KeyEv(code, 0)], tap);
      assert Tap(held, code) == [KeyEv(code, 0)] + tap;
    } else {
      assert up == k;
      assert Tap(held, code) == tap;
    }
  }

  lemma PlainOne(k: Kbd, ev: KeyEv)
    ensures PlainPressesLand(k, [ev]) <==> (ev.value == 1 && !IsMod(ev.code) ==> ev.code !in k.down)
  {
    hide Feel, IsMod;
    assert [ev][1..] == [];
  }

  lemma PairLands(k: Kbd, code: nat)
    requires code !in k.down
    ensures PlainPressesLand(k, [KeyEv(code, 1), KeyEv(code, 0)])
  {
    hide PlainPressesLand;
    PlainOne(k, KeyEv(code, 1));
    PlainOne(FeelAll(k, [KeyEv(code, 1)]), KeyEv(code, 0));
    PlainConcat(k, [KeyEv(code, 1)], [KeyEv(code, 0)]);
    assert [KeyEv(code, 1)] + [KeyEv(code, 0)] == [KeyEv(code, 1), KeyEv(code, 0)];
  }

  lemma FeelCharDown(k: Kbd, cur: bv32, held: set<nat>, c: char)
    requires CharToEmit(c).Some?
    requires forall code <- k.down :: IsMod(code) || code in held
    ensures var spec := CharToEmit(c).value;
            var events := ModEvents(cur, spec.mods) + Tap(held, spec.keycode);
            && FeelAll(k, events).down - DANCED == k.down - DANCED - {spec.keycode}
            && PlainPressesLand(k, events)
  {
    hide CharToEmit, FeelAll, PlainPressesLand, ModEvents, Tap, MaskOf, Has;
    var spec := CharToEmit(c).value;
    EmitsText(c);
    FeelModsDown(k, cur, spec.mods);
    var k1 := FeelAll(k, ModEvents(cur, spec.mods));
    assert spec.keycode in k1.down ==> spec.keycode in k1.down - DANCED;
    FeelTapDown(k1, held, spec.keycode);
    FeelConcat(k, ModEvents(cur, spec.mods), Tap(held, spec.keycode));
    PlainConcat(k, ModEvents(cur, spec.mods), Tap(held, spec.keycode));
    assert (k1.down - {spec.keycode}) - DANCED == (k1.down - DANCED) - {spec.keycode};
  }

  /** Whatever the modifiers, a string leaves down what was down, less its own keys. */
  lemma {:induction false} FeelCharsDown(k: Kbd, cur: bv32, held: set<nat>, s: string)
    requires forall code <- k.down :: IsMod(code) || code in held
    ensures FeelAll(k, EmitChars(held, cur, s).0).down - DANCED == k.down - DANCED - KeysOf(s)
    ensures PlainPressesLand(k, EmitChars(held, cur, s).0)
    decreases |s|
  {
    hide CharToEmit, ModEvents, Tap, ModsAfter, Has, Feel;
    if s == "" {
    } else if CharToEmit(s[0]).None? {
      hide FeelAll, PlainPressesLand;
      FeelCharsDown(k, cur, held, s[1..]);
    } else {
      hide FeelAll, PlainPressesLand;
      var spec := CharToEmit(s[0]).value;
      var first := ModEvents(cur, spec.mods) + Tap(held, spec.keycode);
      var rest := EmitChars(held, ModsAfter(cur, spec.mods), s[1..]).0;
      FeelCharDown(k, cur, held, s[0]);
      var k1 := FeelAll(k, first);
      forall code | code in k1.down
        ensures IsMod(code) || code in held
      {
        assert code in DANCED || code in k1.down - DANCED;
      }
      FeelCharsDown(k1, ModsAfter(cur, spec.mods), held, s[1..]);
      FeelConcat(k, first, rest);
      PlainConcat(k, first, rest);
      assert k.down - DANCED - {spec.keycode} - KeysOf(s[1..]) == k.down - DANCED - KeysOf(s);
    }
  }

  lemma EmitStringDown(a: Adapter, k: Kbd, s: string)
    requires forall code <- k.down :: IsMod(code) || code in a.held
    ensures FeelAll(k, EmitString(a, s).1).down - DANCED == k.down - DANCED - KeysOf(s)
    ensures PlainPressesLand(k, EmitString(a, s).1)
  {
    hide FeelAll, PlainPressesLand, EmitChars, ModEvents, KeysOf, ModsAfter;
    var original := a.emitted & DANCE_MASK;
    var (events, last) := EmitChars(a.held, a.emitted, s);
    FeelCharsDown(k, a.emitted, a.held, s);
    FeelModsDown(FeelAll(k, events), last, original);
    FeelConcat(k, events, ModEvents(last, original));
    PlainConcat(k, events, ModEvents(last, original));
  }

  lemma {:induction false} FeelBackspacesDown(k: Kbd, n: nat)
    ensures FeelAll(k, EmitBackspaces(n)).down == if n == 0 then k.down else k.down - {KEY_BACKSPACE}
    decreases n
  {
    hide MaskOf, IsText;
    if n > 0 {
      var press := KeyEv(KEY_BACKSPACE, 1);
      var release := KeyEv(KEY_BACKSPACE, 0);
      FeelOne(k, press);
      FeelOne(Feel(k, press), release);
      FeelConcat(k, [press], [release]);
      assert [press] + [release] == [press, release];
      FeelConcat(k, [press, release], EmitBackspaces(n - 1));
      FeelBackspacesDown(FeelAll(k, [press, release]), n - 1);
    }
  }

  /** The press or autorepeat gets as far as the handler's decision. */
  predicate Reaches(before: Adapter, input: Input) {
    && !IsMod(input.code) && input.value != 0 && input.printable
    && !(input.code == KEY_ESC && input.value == 1 && input.thirdEscape)
    && !ShortcutModsHeld(before)
  }

  lemma StringKeepsNoStuck(a: Adapter, k: Kbd, s: string)
    requires NoStuck(a, k)
    ensures var (a', events) := EmitString(a, s);
            a'.held == a.held && a'.forwarded == a.forwarded && NoStuck(a', FeelAll(k, events))
  {
    hide FeelAll, EmitString, MaskOf, IsMod, PlainPressesLand;
    EmitStringShape(a, s);
    EmitStringDown(a, k, s);
    KeysArePlain(s);
    var k' := FeelAll(k, EmitString(a, s).1);
    forall code | code in k'.down
      ensures IsMod(code) || code in a.forwarded
    {
      assert code in DANCED || code in k'.down - DANCED;
      DancedIsMod(code);
    }
    assert k'.down * VERBATIM == k.down * VERBATIM by {
      VerbatimIsApart(s);
      assert (k'.down - DANCED) * VERBATIM == k'.down * VERBATIM;
      assert (k.down - DANCED - KeysOf(s)) * VERBATIM == k.down * VERBATIM;
    }
  }

  lemma DancedIsMod(code: nat)
    ensures code in DANCED ==> IsMod(code)
  {
  }

  lemma VerbatimIsApart(s: string)
    ensures VERBATIM !! KeysOf(s) && VERBATIM !! DANCED
  {
    KeysArePlain(s);
    assert forall code <- VERBATIM :: IsMod(code);
  }

  lemma ApplyKeepsNoStuck(a: Adapter, k: Kbd, input: Input)
    requires NoStuck(a, k) && input.decision.Apply?
    ensures var (a', events) := ApplyDecision(a, input);
            && a'.held == a.held && a'.forwarded == a.forwarded
            && NoStuck(a', FeelAll(k, events))
  {
    var back := EmitBackspaces(input.decision.backspaces);
    var k1 := FeelAll(k, back);
    FeelBackspacesDown(k, input.decision.backspaces);
    assert NoStuck(a, k1) by {
      hide FeelAll, EmitBackspaces;
      assert k1.down * VERBATIM == k.down * VERBATIM;
    }
    hide FeelAll, EmitString, EmitBackspaces, NoStuck;
    if input.code != KEY_BACKSPACE && input.decision.commit != "" {
      StringKeepsNoStuck(a, k1, input.decision.commit);
      FeelConcat(k, back, EmitString(a, input.decision.commit).1);
    }
  }

  lemma EmitStringShape(a: Adapter, s: string)
    ensures EmitString(a, s).0 == a.(emitted := EmitString(a, s).0.emitted)
  {
    hide EmitChars, ModEvents, ModsAfter;
  }

  lemma {:induction false} KeysArePlain(s: string)
    ensures forall code <- KeysOf(s) :: !IsMod(code) && code !in SHORTCUT_KEYS
    decreases |s|
  {
    hide CharToEmit;
    if s != "" {
      KeysArePlain(s[1..]);
      if CharToEmit(s[0]).Some? {
        EmitsText(s[0]);
      }
    }
  }

  lemma ForwardKeepsNoStuck(a: Adapter, k: Kbd, code: nat, value: nat)
    requires NoStuck(a, k) && !IsMod(code) && code in a.held && 1 <= value <= 2
    ensures var (a', events) := ForwardPressRaw(a, code, value); NoStuck(a', FeelAll(k, events))
  {
    hide FeelAll, MaskOf, IsMod;
    FeelOne(k, ForwardPressRaw(a, code, value).1[0]);
  }

  lemma ReleaseKeepsNoStuck(a: Adapter, k: Kbd, code: nat)
    requires NoStuck(a.(held := a.held + {code}), k) && !IsMod(code) && code !in a.held
    ensures var (a', events) := ProcessRelease(a, code); NoStuck(a', FeelAll(k, events))
  {
    assert code !in VERBATIM;
    hide FeelAll, MaskOf, IsMod;
    FeelOne(k, KeyEv(code, 0));
    FeelNone(k);
    assert (a.held + {code}) * VERBATIM == a.held * VERBATIM;
    assert (k.down - {code}) * VERBATIM == k.down * VERBATIM;
  }

  lemma ModKeepsNoStuck(before: Adapter, k: Kbd, input: Input)
    requires NoStuck(before, k) && WellFormed(before.held, input) && IsMod(input.code)
    ensures var a := TrackHeld(before, input.code, input.value);
            var (a', events) := ProcessMod(a, ModBit(input.code).value, input.code, input.value);
            NoStuck(a', FeelAll(k, events))
  {
    hide FeelAll, MaskOf, WithBit, ModBit;
    FeelOne(k, KeyEv(input.code, input.value));
    var k' := Feel(k, KeyEv(input.code, input.value));
    forall code | code in VERBATIM
      ensures code in k'.down <==> code in HeldAfter(before.held, input)
    {
      assert code in k.down * VERBATIM <==> code in before.held * VERBATIM;
    }
    assert k'.down * VERBATIM == HeldAfter(before.held, input) * VERBATIM;
  }

  /** One event, well formed, whatever the handler decides. */
  lemma StepKeepsNoStuck(a: Adapter, k: Kbd, input: Input)
    requires NoStuck(a, k) && WellFormed(a.held, input)
    ensures var (a', k') := Step(a, k, input); NoStuck(a', k') && a'.held == HeldAfter(a.held, input)
  {
    hide FeelAll, ProcessMod, ApplyDecision, ForwardPressRaw, ProcessRelease, ModBit, ShortcutModsHeld;
    var tracked := TrackHeld(a, input.code, input.value);
    if IsMod(input.code) {
      ModKeepsNoStuck(a, k, input);
      assert ProcessMod(tracked, ModBit(input.code).value, input.code, input.value).0.held == tracked.held by {
        ModShape(tracked, input);
      }
    } else {
      PlainTracked(a, k, input);
      if input.value == 0 {
        ReleaseKeepsNoStuck(tracked, k, input.code);
        ReleaseShape(tracked, input.code);
      } else if Reaches(a, input) {
        DecisionKeepsNoStuck(tracked, k, input);
        ReachesDecision(a, input);
      } else {
        ForwardKeepsNoStuck(tracked, k, input.code, input.value);
        ForwardShape(tracked, input);
        NotReached(a, input);
      }
    }
  }

  lemma ModShape(a: Adapter, input: Input)
    requires IsMod(input.code)
    ensures ProcessMod(a, ModBit(input.code).value, input.code, input.value).0.held == a.held
  {
  }

  lemma ReleaseShape(a: Adapter, code: nat)
    ensures ProcessRelease(a, code).0.held == a.held
  {
  }

  lemma ForwardShape(a: Adapter, input: Input)
    ensures ForwardPressRaw(a, input.code, input.value).0.held == a.held
  {
  }

  lemma PlainTracked(a: Adapter, k: Kbd, input: Input)
    requires NoStuck(a, k) && WellFormed(a.held, input) && !IsMod(input.code)
    ensures var tracked := TrackHeld(a, input.code, input.value);
            if input.value == 0 then NoStuck(tracked.(held := tracked.held + {input.code}), k) && input.code !in tracked.held
            else NoStuck(tracked, k) && input.code in tracked.held
  {
    assert input.code !in VERBATIM;
    hide ModBit;
    var tracked := TrackHeld(a, input.code, input.value);
    if input.value == 0 {
      assert tracked.held + {input.code} == a.held;
    } else if input.value == 1 {
      assert tracked.held * VERBATIM == a.held * VERBATIM;
    }
  }

  lemma DecisionKeepsNoStuck(a: Adapter, k: Kbd, input: Input)
    requires NoStuck(a, k) && !IsMod(input.code) && input.code in a.held && 1 <= input.value <= 2
    ensures var (a', events) := ApplyDecision(a, input); NoStuck(a', FeelAll(k, events)) && a'.held == a.held
  {
    hide FeelAll, EmitString, EmitBackspaces, NoStuck, IsMod;
    match input.decision
    case Consumed => FeelNone(k);
    case ForwardRaw => ForwardKeepsNoStuck(a, k, input.code, input.value);
    case Apply(n, s) => ApplyKeepsNoStuck(a, k, input);
  }

  lemma ReachesDecision(a: Adapter, input: Input)
    requires Reaches(a, input)
    ensures Process(a, input) == ApplyDecision(TrackHeld(a, input.code, input.value), input)
  {
    hide ApplyDecision;
  }

  lemma NotReached(a: Adapter, input: Input)
    requires !IsMod(input.code) && input.value != 0 && !Reaches(a, input)
    ensures Process(a, input) == ForwardPressRaw(TrackHeld(a, input.code, input.value), input.code, input.value)
  {
    hide ApplyDecision;
  }

  /** Over every well-formed stream and every sequence of decisions, the plain keys down at the client
  were forwarded and are still held. */
  lemma {:induction false} NoKeyIsStuck(a: Adapter, k: Kbd, inputs: seq<Input>)
    requires NoStuck(a, k) && AllWellFormed(a.held, inputs)
    ensures var (a', k') := Run(a, k, inputs);
            NoStuck(a', k') && (a'.held == {} ==> forall code <- k'.down :: IsMod(code) && code !in VERBATIM)
    decreases |inputs|
  {
    hide Step, ModBit;
    if inputs == [] {
      assert a.held == {} ==> k.down * VERBATIM == {};
    } else {
      StepKeepsNoStuck(a, k, inputs[0]);
      NoKeyIsStuck(Step(a, k, inputs[0]).0, Step(a, k, inputs[0]).1, inputs[1..]);
    }
  }

  // ---------- autorepeat ----------

  lemma {:induction false} NoRepeatInChars(held: set<nat>, cur: bv32, s: string)
    ensures forall ev <- EmitChars(held, cur, s).0 :: ev.value < 2
    decreases |s|
  {
    hide CharToEmit, ModsAfter, Has;
    if s != "" {
      match CharToEmit(s[0])
      case None => NoRepeatInChars(held, cur, s[1..]);
      case Some(spec) => NoRepeatInChars(held, ModsAfter(cur, spec.mods), s[1..]);
    }
  }

  lemma {:induction false} NoRepeatInBackspaces(n: nat)
    ensures forall ev <- EmitBackspaces(n) :: ev.value < 2
    decreases n
  {
    if n > 0 {
      NoRepeatInBackspaces(n - 1);
    }
  }

  /** A repeat goes out only for the key just repeated, and only when its press went out before. */
  lemma RepeatsWereForwarded(a: Adapter, input: Input)
    requires input.value <= 2
    ensures forall ev <- Process(a, input).1 ::
              ev.value == 2 ==> ev == KeyEv(input.code, input.value) && (IsMod(input.code) || input.code in a.forwarded)
  {
    hide ModBit, Has, ModsAfter, WithBit, ShortcutModsHeld;
    if input.decision.Apply? {
      NoRepeatInBackspaces(input.decision.backspaces);
      NoRepeatInString(TrackHeld(a, input.code, input.value), input.decision.commit);
      hide EmitString, EmitBackspaces;
    }
  }

  lemma NoRepeatInString(a: Adapter, s: string)
    ensures forall ev <- EmitString(a, s).1 :: ev.value < 2
  {
    hide EmitChars, Has, ModsAfter;
    NoRepeatInChars(a.held, a.emitted, s);
  }
}
