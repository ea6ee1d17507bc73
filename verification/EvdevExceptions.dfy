/** Where the evdev adapter leaves the client with a key or a mask that the user does not hold. */
module EvdevExceptions {
  import opened Keymap
  import opened Evdev
  import opened EvdevDecode
  import opened EvdevRuns
  import opened EvdevEdits

  // ---------- right Shift ----------

  /** The user holds right Shift alone.  Both Shifts share one bit, but only the left key is danced: a
  string leaves left Shift down at the client exactly when some character of it is unshifted. */
  lemma RightShiftSticks(a: Adapter, k: Kbd, s: string)
    requires Has(a.emitted, MOD_SHIFT) && LEFTSHIFT !in k.down
    ensures LEFTSHIFT in FeelAll(k, EmitString(a, s).1).down <==> HasUnshifted(s)
  {
    hide EmitChars, EmitString, ModEvents, FeelAll, HasUnshifted, Has, DANCE_MASK;
    EmitStringEvents(a, s);
    var (events, last) := EmitChars(a.held, a.emitted, s);
    ShiftAfterChars(k, a.emitted, a.held, s);
    DancedBits(a.emitted);
    FeelMods(FeelAll(k, events), last, a.emitted & DANCE_MASK);
    FeelConcat(k, events, ModEvents(last, a.emitted & DANCE_MASK));
  }

  lemma EmitStringEvents(a: Adapter, s: string)
    ensures var (events, last) := EmitChars(a.held, a.emitted, s);
            EmitString(a, s).1 == events + ModEvents(last, a.emitted & DANCE_MASK)
  {
    hide EmitChars, ModEvents, ModsAfter, DANCE_MASK;
  }

  /** Letting go of right Shift does not lift it: the user then holds no Shift, and the client has one. */
  lemma StuckShiftStays(a: Adapter, k: Kbd, input: Input)
    requires LEFTSHIFT in k.down && input.code == RIGHTSHIFT && input.value == 0
    ensures var (a', k') := Step(a, k, input);
            LEFTSHIFT in k'.down && !Has(a'.emitted, MOD_SHIFT) && RIGHTSHIFT !in a'.held
  {
    hide FeelAll, MaskOf, ShortcutModsHeld;
    FeelOne(k, KeyEv(RIGHTSHIFT, 0));
    var bit := MOD_SHIFT & DANCE_MASK;
    ShiftIsDanced();
    hide DANCE_MASK;
    BitCleared(a.emitted, MOD_SHIFT, MOD_SHIFT);
  }

  const PRESS_RIGHT := Input(RIGHTSHIFT, 1, false, false, Consumed)

  const RELEASE_RIGHT := Input(RIGHTSHIFT, 0, false, false, Consumed)

  lemma RightShiftDown()
    ensures var (a, k) := Step(IDLE, Kbd({}, []), PRESS_RIGHT);
            && Sound(a, k) && a.held == {RIGHTSHIFT} && LEFTSHIFT !in k.down
            && Has(a.emitted, MOD_SHIFT) && !ShortcutModsHeld(a)
  {
    IdleIsSound();
    ModEvent(IDLE, Kbd({}, []), PRESS_RIGHT);
    EmittedBits(0, RIGHTSHIFT, 1);
    hide Sound, EmittedAfter, FeelAll;
    ModStep(IDLE, Kbd({}, []), PRESS_RIGHT);
    assert WithBit(0, MOD_SHIFT, 1) & !MOD_SHIFT == 0;
  }

  /** The key whose edit clears the bit, pressed and released. */
  lemma EditLeavesShift(a: Adapter, k: Kbd, code: nat, s: string)
    requires Sound(a, k) && a.held == {RIGHTSHIFT} && Has(a.emitted, MOD_SHIFT) && !ShortcutModsHeld(a)
    requires HasUnshifted(s) && !IsMod(code) && code != KEY_BACKSPACE
    ensures var (a1, k1) := Step(a, k, Input(code, 1, false, true, Apply(0, s)));
            var (a2, k2) := Step(a1, k1, Input(code, 0, false, false, Consumed));
            && a1.held == {RIGHTSHIFT, code} && a2.held == {RIGHTSHIFT} && LEFTSHIFT in k2.down
  {
    var press, release := Input(code, 1, false, true, Apply(0, s)), Input(code, 0, false, false, Consumed);
    var (a1, k1) := Step(a, k, press);
    var (a2, k2) := Step(a1, k1, release);
    assert code != RIGHTSHIFT;
    assert Answers(a, press) && !Answers(a1, release) && LeftOnceAnswered(a, k, press);
    assert a1.held == {RIGHTSHIFT, code} by {
      SoundHeld(a, k, press);
      assert a.held + {code} == {RIGHTSHIFT, code};
    }
    hide Step, Sound, Has, HasUnshifted, ShortcutModsHeld, IsMod, Answers, LeftOnceAnswered;
    PlainStep(a, k, press);
    SoundHeld(a1, k1, release);
    PlainStep(a1, k1, release);
  }

  /** From an idle adapter: right Shift goes down, a key is answered by a text with an unshifted character,
  and both go up.  The user then holds nothing, and left Shift is down at the client. */
  lemma ShiftIsLeftBehind(code: nat, s: string)
    requires HasUnshifted(s) && !IsMod(code) && code != KEY_BACKSPACE
    ensures var evs := [PRESS_RIGHT, Input(code, 1, false, true, Apply(0, s)), Input(code, 0, false, false, Consumed),
                        RELEASE_RIGHT];
            var (a, k) := Run(IDLE, Kbd({}, []), evs);
            AllWellFormed({}, evs) && a.held == {} && LEFTSHIFT in k.down
  {
    var press, release := Input(code, 1, false, true, Apply(0, s)), Input(code, 0, false, false, Consumed);
    var (a0, k0) := Step(IDLE, Kbd({}, []), PRESS_RIGHT);
    var (a1, k1) := Step(a0, k0, press);
    var (a2, k2) := Step(a1, k1, release);
    var (a3, k3) := Step(a2, k2, RELEASE_RIGHT);
    assert code != RIGHTSHIFT;
    assert a3.held == a2.held - {RIGHTSHIFT} by {
      ModShape(TrackHeld(a2, RIGHTSHIFT, 0), RELEASE_RIGHT);
    }
    hide Step, Sound, Has, HasUnshifted, ShortcutModsHeld, IsMod;
    RightShiftDown();
    EditLeavesShift(a0, k0, code, s);
    StuckShiftStays(a2, k2, RELEASE_RIGHT);
    RunFour(IDLE, Kbd({}, []), [PRESS_RIGHT, press, release, RELEASE_RIGHT]);
    FourWellFormed(code, press, release);
  }

  lemma FourWellFormed(code: nat, press: Input, release: Input)
    requires code != RIGHTSHIFT && press.code == release.code == code && press.value == 1 && release.value == 0
    ensures AllWellFormed({}, [PRESS_RIGHT, press, release, RELEASE_RIGHT])
  {
    var evs := [PRESS_RIGHT, press, release, RELEASE_RIGHT];
    assert evs[1..] == [press, release, RELEASE_RIGHT] && evs[2..] == [release, RELEASE_RIGHT] && evs[3..] == [RELEASE_RIGHT];
    assert evs[1..][1..] == evs[2..] && evs[2..][1..] == evs[3..] && evs[3..][1..] == [];
    assert AllWellFormed({RIGHTSHIFT}, evs[3..]);
    assert {RIGHTSHIFT, code} - {code} == {RIGHTSHIFT} && {RIGHTSHIFT} + {code} == {RIGHTSHIFT, code};
    assert AllWellFormed({RIGHTSHIFT, code}, evs[2..]);
    assert AllWellFormed({RIGHTSHIFT}, evs[1..]);
    assert {} + {RIGHTSHIFT} == {RIGHTSHIFT};
  }

  lemma RunFour(a: Adapter, k: Kbd, evs: seq<Input>)
    requires |evs| == 4
    ensures var (a0, k0) := Step(a, k, evs[0]);
            var (a1, k1) := Step(a0, k0, evs[1]);
            var (a2, k2) := Step(a1, k1, evs[2]);
            Run(a, k, evs) == Step(a2, k2, evs[3])
  {
    hide Step;
    assert evs[1..][1..] == evs[2..] && evs[2..][1..] == evs[3..] && evs[3..][1..] == [];
    var (a0, k0) := Step(a, k, evs[0]);
    var (a1, k1) := Step(a0, k0, evs[1]);
    var (a2, k2) := Step(a1, k1, evs[2]);
    assert Run(a2, k2, evs[3..]) == Step(a2, k2, evs[3]);
    assert Run(a1, k1, evs[2..]) == Run(a2, k2, evs[3..]);
    assert Run(a0, k0, evs[1..]) == Run(a1, k1, evs[2..]);
  }

  // ---------- two keys, one bit ----------

  /** A mask that says what is held survives the release of a modifier key exactly when the key that shares
  its bit is not held. */
  lemma TwinReleaseExact(a: Adapter, k: Kbd, input: Input)
    requires MaskTracks(a.modMask, a.held) && WellFormed(a.held, input)
    requires input.value == 0 && IsMod(input.code)
    ensures var a' := Step(a, k, input).0;
            MaskTracks(a'.modMask, a'.held) <==> Twin(input.code) == input.code || Twin(input.code) !in a.held
  {
    hide MaskTracks, WithBit, ModBit, Twin, FeelAll;
    MaskStep(a.modMask, a.held, input);
  }

  /** Under a shortcut modifier that the mask has lost, or right Super, which the mask does not know,
  the client reads no key as text. */
  lemma {:induction false} ShortcutsReadNothing(k: Kbd, evs: seq<KeyEv>, shortcut: nat)
    requires shortcut in k.down && shortcut in SHORTCUT_KEYS
    requires forall ev <- evs :: ev.code != shortcut
    ensures FeelAll(k, evs).typed == k.typed
    decreases |evs|
  {
    hide Read, SHORTCUT_KEYS;
    if evs != [] {
      var k1 := Feel(k, evs[0]);
      assert evs[0] in evs && evs[0].code != shortcut;
      ReadShortcutOf(k, evs[0].code, shortcut);
      assert forall ev <- evs[1..] :: ev in evs;
      ShortcutsReadNothing(k1, evs[1..], shortcut);
    }
  }

  lemma ReadShortcutOf(k: Kbd, code: nat, shortcut: nat)
    requires shortcut in k.down && shortcut in SHORTCUT_KEYS
    ensures Read(k, code) == k
  {
    assert !(k.down !! SHORTCUT_KEYS);
  }

  lemma RightSuperIsNoModifier()
    ensures !IsMod(RIGHT_SUPER) && RIGHT_SUPER in SHORTCUT_KEYS
    ensures IsMod(RIGHTMETA) && RIGHTMETA !in SHORTCUT_KEYS
  {
  }
}
