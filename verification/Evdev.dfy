/** The evdev adapter: physical key events in, key events on the adapter's own keyboard out. */
module Evdev {
  import opened Texts
  import opened Keymap

  /** Value 1 is a press, 0 a release, 2 an autorepeat. */
  datatype KeyEv = KeyEv(code: nat, value: nat)

  /** What the handler makes of a key. */
  datatype KeyDecision = Consumed | ForwardRaw | Apply(backspaces: nat, commit: string)

  const KEY_ESC: nat := 1

  const LEFTCTRL: nat := 29
  const LEFTSHIFT: nat := 42
  const RIGHTSHIFT: nat := 54
  const LEFTALT: nat := 56
  const HENKAN: nat := 92
  const RIGHTCTRL: nat := 97
  const RIGHTALT: nat := 100
  const LEFTMETA: nat := 125
  const RIGHTMETA: nat := 127

  const CONTROL_BIT: bv32 := 0x04
  const MOD1_BIT: bv32 := 0x08
  const MOD4_BIT: bv32 := 0x40

  function ModBit(code: nat): Option<bv32> {
    if code == LEFTSHIFT || code == RIGHTSHIFT then Some(MOD_SHIFT)
    else if code == LEFTCTRL || code == RIGHTCTRL then Some(CONTROL_BIT)
    else if code == LEFTALT then Some(MOD1_BIT)
    else if code == LEFTMETA || code == RIGHTMETA then Some(MOD4_BIT)
    else if code == RIGHTALT then Some(MOD_LEVEL3)
    else if code == HENKAN then Some(MOD_LEVEL5)
    else None
  }

  predicate IsMod(code: nat) {
    ModBit(code).Some?
  }

  /** The bits that emission navigates by. */
  const DANCE_MASK: bv32 := MOD_SHIFT | MOD_LEVEL3 | MOD_LEVEL5

  function WithBit(mask: bv32, bit: bv32, value: nat): bv32 {
    if value == 1 then mask | bit else if value == 0 then mask & !bit else mask
  }

  datatype Adapter = Adapter(modMask: bv32, emitted: bv32, held: set<nat>, forwarded: set<nat>)

  const IDLE := Adapter(0, 0, {}, {})

  /** A physical event, with what the adapter learns about it: whether this Escape press is the third
  within a second, whether the key has a printable symbol, and the handler's decision. */
  datatype Input = Input(code: nat, value: nat, thirdEscape: bool, printable: bool, decision: KeyDecision)

  // ---------- emission ----------

  function DanceKey(have: bool, want: bool, key: nat): seq<KeyEv> {
    if want && !have then [KeyEv(key, 1)]
    else if !want && have then [KeyEv(key, 0)]
    else []
  }

  /** From the emitted modifiers `cur` to `target`. */
  function ModEvents(cur: bv32, target: bv32): seq<KeyEv> {
    DanceKey(Has(cur, MOD_SHIFT), Has(target, MOD_SHIFT), LEFTSHIFT)
    + DanceKey(Has(cur, MOD_LEVEL3), Has(target, MOD_LEVEL3), RIGHTALT)
    + DanceKey(Has(cur, MOD_LEVEL5), Has(target, MOD_LEVEL5), HENKAN)
  }

  function ModsAfter(cur: bv32, target: bv32): bv32 {
    (cur & !DANCE_MASK) | (target & DANCE_MASK)
  }

  /** A press and release, behind a release if the user still holds the key. */
  function Tap(held: set<nat>, code: nat): seq<KeyEv> {
    (if code in held then [KeyEv(code, 0)] else []) + [KeyEv(code, 1), KeyEv(code, 0)]
  }

  /** Events and emitted modifiers after the characters of `s`; those outside the inventory are dropped. */
  function EmitChars(held: set<nat>, cur: bv32, s: string): (seq<KeyEv>, bv32)
    decreases |s|
  {
    if s == "" then ([], cur)
    else
      match CharToEmit(s[0])
      case None => EmitChars(held, cur, s[1..])
      case Some(spec) =>
        var (events, last) := EmitChars(held, ModsAfter(cur, spec.mods), s[1..]);
        (ModEvents(cur, spec.mods) + Tap(held, spec.keycode) + events, last)
  }

  function EmitString(a: Adapter, s: string): (Adapter, seq<KeyEv>) {
    var original := a.emitted & DANCE_MASK;
    var (events, last) := EmitChars(a.held, a.emitted, s);
    (a.(emitted := ModsAfter(last, original)), events + ModEvents(last, original))
  }

  function EmitBackspaces(n: nat): seq<KeyEv> {
    if n == 0 then [] else [KeyEv(KEY_BACKSPACE, 1), KeyEv(KEY_BACKSPACE, 0)] + EmitBackspaces(n - 1)
  }

  // ---------- one physical event ----------

  /** A raw press; the first forward of a key is a press even when an autorepeat triggers it. */
  function ForwardPressRaw(a: Adapter, code: nat, value: nat): (Adapter, seq<KeyEv>) {
    (a.(forwarded := a.forwarded + {code}),
     [KeyEv(code, if code !in a.forwarded && value == 2 then 1 else value)])
  }

  function TrackHeld(a: Adapter, code: nat, value: nat): Adapter {
    if value == 1 then a.(held := a.held + {code})
    else if value == 0 then a.(held := a.held - {code})
    else a
  }

  function ProcessMod(a: Adapter, bit: bv32, code: nat, value: nat): (Adapter, seq<KeyEv>) {
    (a.(modMask := WithBit(a.modMask, bit, value),
        emitted := if bit & DANCE_MASK != 0 then WithBit(a.emitted, bit & DANCE_MASK, value) else a.emitted),
     [KeyEv(code, value)])
  }

  function ProcessRelease(a: Adapter, code: nat): (Adapter, seq<KeyEv>) {
    if code in a.forwarded then (a.(forwarded := a.forwarded - {code}), [KeyEv(code, 0)]) else (a, [])
  }

  function ApplyDecision(a: Adapter, input: Input): (Adapter, seq<KeyEv>) {
    match input.decision
    case Consumed => (a, [])
    case ForwardRaw => ForwardPressRaw(a, input.code, input.value)
    case Apply(backspaces, commit) =>
      if input.code == KEY_BACKSPACE || commit == "" then (a, EmitBackspaces(backspaces))
      else
        var (a', events) := EmitString(a, commit);
        (a', EmitBackspaces(backspaces) + events)
  }

  /** Any modifier but Shift. */
  predicate ShortcutModsHeld(a: Adapter) {
    a.modMask & !MOD_SHIFT != 0
  }

  function Process(before: Adapter, input: Input): (Adapter, seq<KeyEv>) {
    var a := TrackHeld(before, input.code, input.value);
    if IsMod(input.code) then ProcessMod(a, ModBit(input.code).value, input.code, input.value)
    else if input.code == KEY_ESC && input.value == 1 && input.thirdEscape then ForwardPressRaw(a, KEY_ESC, 1)
    else if input.value == 0 then ProcessRelease(a, input.code)
    else if ShortcutModsHeld(a) || !input.printable then ForwardPressRaw(a, input.code, input.value)
    else ApplyDecision(a, input)
  }

  // ---------- the client ----------

  /** Modifier keys that turn a key into a shortcut. */
  const SHORTCUT_KEYS: set<nat> := {LEFTCTRL, RIGHTCTRL, LEFTALT, LEFTMETA, 126}

  /** Keys down at the client, and what the other keys were read as: key and level bits, in order. */
  datatype Kbd = Kbd(down: set<nat>, typed: seq<EmitSpec>)

  function Mask(shift: bool, level3: bool, level5: bool): bv32 {
    (if shift then MOD_SHIFT else 0) | (if level3 then MOD_LEVEL3 else 0) | (if level5 then MOD_LEVEL5 else 0)
  }

  /** The level bits that the keys down select. */
  function MaskOf(down: set<nat>): bv32 {
    Mask(LEFTSHIFT in down || RIGHTSHIFT in down, RIGHTALT in down, HENKAN in down)
  }

  predicate IsText(down: set<nat>, code: nat) {
    !IsMod(code) && code !in SHORTCUT_KEYS && down !! SHORTCUT_KEYS
  }

  function Read(k: Kbd, code: nat): Kbd {
    if IsText(k.down, code) then k.(typed := k.typed + [EmitSpec(code, MaskOf(k.down))]) else k
  }

  /** A press of a key that is down, and a repeat of one that is up, mean nothing. */
  function Feel(k: Kbd, ev: KeyEv): Kbd {
    if ev.value == 0 then k.(down := k.down - {ev.code})
    else if ev.value == 1 then
      if ev.code in k.down then k
      else
        var k' := Read(k, ev.code);
        k'.(down := k'.down + {ev.code})
    else if ev.code in k.down then Read(k, ev.code)
    else k
  }

  function FeelAll(k: Kbd, evs: seq<KeyEv>): Kbd
    decreases |evs|
  {
    if evs == [] then k else FeelAll(Feel(k, evs[0]), evs[1..])
  }

  /** Every press lands on a key that is up. */
  predicate PressesLand(k: Kbd, evs: seq<KeyEv>)
    decreases |evs|
  {
    evs == [] ||
    ((evs[0].value == 1 ==> evs[0].code !in k.down) && PressesLand(Feel(k, evs[0]), evs[1..]))
  }

  /** Every press of a key that is no modifier lands on a key that is up. */
  predicate PlainPressesLand(k: Kbd, evs: seq<KeyEv>)
    decreases |evs|
  {
    evs == [] ||
    ((evs[0].value == 1 && !IsMod(evs[0].code) ==> evs[0].code !in k.down) && PlainPressesLand(Feel(k, evs[0]), evs[1..]))
  }

  lemma {:induction false} PlainConcat(k: Kbd, a: seq<KeyEv>, b: seq<KeyEv>)
    ensures PlainPressesLand(k, a + b) <==> PlainPressesLand(k, a) && PlainPressesLand(FeelAll(k, a), b)
    decreases |a|
  {
    hide Feel;
    if a == [] {
      assert a + b == b;
    } else {
      assert (a + b)[1..] == a[1..] + b;
      PlainConcat(Feel(k, a[0]), a[1..], b);
    }
  }

  lemma {:induction false} FeelConcat(k: Kbd, a: seq<KeyEv>, b: seq<KeyEv>)
    ensures FeelAll(k, a + b) == FeelAll(FeelAll(k, a), b)
    ensures PressesLand(k, a + b) <==> PressesLand(k, a) && PressesLand(FeelAll(k, a), b)
    decreases |a|
  {
    hide Feel;
    if a == [] {
      assert a + b == b;
    } else {
      assert (a + b)[1..] == a[1..] + b;
      FeelConcat(Feel(k, a[0]), a[1..], b);
    }
  }

  // ---------- what the read keys come to ----------

  /** The text that `base` becomes: Backspace drops a character, any other key adds its symbol. */
  function TextOf(base: string, typed: seq<EmitSpec>): string
    decreases |typed|
  {
    if typed == [] then base
    else
      var text := TextOf(base, typed[..|typed| - 1]);
      var key := typed[|typed| - 1];
      if key.keycode == KEY_BACKSPACE then Drop(text, 1)
      else
        match KeySymbol(key.keycode, key.mods)
        case None => text
        case Some(c) => text + [c]
  }

  /** The characters of `s` that have a key. */
  function Inventory(s: string): string {
    if s == "" then ""
    else (if CharToEmit(s[0]).Some? then [s[0]] else []) + Inventory(s[1..])
  }

  function Times(n: nat, spec: EmitSpec): seq<EmitSpec> {
    seq(n, _ => spec)
  }
}
