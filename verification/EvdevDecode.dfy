/** Emitting and reading are inverse: the key events of an edit, felt by a client with the generated
map, delete and type exactly what was asked. */
module EvdevDecode {
  import opened Texts
  import opened Keymap
  import opened Levels
  import opened Evdev

  // ---------- modifiers ----------

  const DANCED: set<nat> := {LEFTSHIFT, RIGHTALT, HENKAN}

  /** The emitted bits follow the client.  Level3 and Level5 are the keys that are down; the Shift bit is set only
  while one of the two Shifts is down, of which the right one is never danced. */
  predicate Follows(cur: bv32, down: set<nat>) {
    && (Has(cur, MOD_SHIFT) ==> LEFTSHIFT in down || RIGHTSHIFT in down)
    && (Has(cur, MOD_LEVEL3) <==> RIGHTALT in down)
    && (Has(cur, MOD_LEVEL5) <==> HENKAN in down)
  }

  /** Left Shift is down only while the bit is set. */
  predicate Synced(cur: bv32, down: set<nat>) {
    LEFTSHIFT in down ==> Has(cur, MOD_SHIFT)
  }

  function Placed(down: set<nat>, key: nat, want: bool): set<nat> {
    if want then down + {key} else down - {key}
  }

  function Moved(down: set<nat>, have: bool, want: bool, key: nat): set<nat> {
    if have == want then down else Placed(down, key, want)
  }

  function Navigated(down: set<nat>, cur: bv32, target: bv32): set<nat> {
    Moved(Moved(Moved(down, Has(cur, MOD_SHIFT), Has(target, MOD_SHIFT), LEFTSHIFT),
                Has(cur, MOD_LEVEL3), Has(target, MOD_LEVEL3), RIGHTALT),
          Has(cur, MOD_LEVEL5), Has(target, MOD_LEVEL5), HENKAN)
  }

  lemma FeelDance(k: Kbd, have: bool, want: bool, key: nat)
    requires key in DANCED
    ensures var events := DanceKey(have, want, key);
            && FeelAll(k, events) == k.(down := Moved(k.down, have, want, key))
            && ((key in k.down ==> have) ==> PressesLand(k, events))
  {
    hide MaskOf, Has;
    var events := DanceKey(have, want, key);
    if events != [] {
      assert events[1..] == [];
      assert FeelAll(k, events) == Feel(k, events[0]);
      assert key in k.down ==> k.down + {key} == k.down;
    }
  }

  /** Whatever the client makes of them, the events move each danced key as the bits say; every press lands if
  left Shift is down only while its bit is set. */
  lemma FeelMods(k: Kbd, cur: bv32, target: bv32)
    ensures FeelAll(k, ModEvents(cur, target)) == k.(down := Navigated(k.down, cur, target))
    ensures Follows(cur, k.down) && Synced(cur, k.down) ==> PressesLand(k, ModEvents(cur, target))
  {
    hide Feel, FeelAll, PressesLand, DanceKey, Has, MaskOf;
    var a := DanceKey(Has(cur, MOD_SHIFT), Has(target, MOD_SHIFT), LEFTSHIFT);
    var b := DanceKey(Has(cur, MOD_LEVEL3), Has(target, MOD_LEVEL3), RIGHTALT);
    var c := DanceKey(Has(cur, MOD_LEVEL5), Has(target, MOD_LEVEL5), HENKAN);
    FeelDance(k, Has(cur, MOD_SHIFT), Has(target, MOD_SHIFT), LEFTSHIFT);
    var k1 := FeelAll(k, a);
    FeelDance(k1, Has(cur, MOD_LEVEL3), Has(target, MOD_LEVEL3), RIGHTALT);
    var k2 := FeelAll(k1, b);
    FeelDance(k2, Has(cur, MOD_LEVEL5), Has(target, MOD_LEVEL5), HENKAN);
    FeelConcat(k, a, b);
    FeelConcat(k, a + b, c);
  }

  function OtherBits(mask: bv32): bv32 {
    mask & !DANCE_MASK
  }

  lemma ModsAfterBits(cur: bv32, target: bv32)
    ensures Has(ModsAfter(cur, target), MOD_SHIFT) == Has(target, MOD_SHIFT)
    ensures Has(ModsAfter(cur, target), MOD_LEVEL3) == Has(target, MOD_LEVEL3)
    ensures Has(ModsAfter(cur, target), MOD_LEVEL5) == Has(target, MOD_LEVEL5)
  {
  }

  lemma OtherBitsKept(cur: bv32, target: bv32)
    ensures OtherBits(ModsAfter(cur, target)) == OtherBits(cur)
  {
    assert ((cur & !DANCE_MASK) | (target & DANCE_MASK)) & !DANCE_MASK == cur & !DANCE_MASK;
  }

  /** Left Shift at the client once the bit has gone from `bit` to what `mods` asks for. */
  function LeftAfter(left: bool, bit: bool, mods: bv32): bool {
    if bit == Has(mods, MOD_SHIFT) then left else Has(mods, MOD_SHIFT)
  }

  lemma NavigatedFollows(cur: bv32, down: set<nat>, target: bv32)
    requires Follows(cur, down)
    ensures Follows(ModsAfter(cur, target), Navigated(down, cur, target))
    ensures LEFTSHIFT in Navigated(down, cur, target) <==> LeftAfter(LEFTSHIFT in down, Has(cur, MOD_SHIFT), target)
    ensures Has(ModsAfter(cur, target), MOD_SHIFT) == Has(target, MOD_SHIFT)
    ensures Synced(cur, down) ==> Synced(ModsAfter(cur, target), Navigated(down, cur, target))
  {
    hide Has, ModsAfter;
    ModsAfterBits(cur, target);
  }

  /** What a key is read under: the modifiers asked for, and Shift besides while one is down. */
  function Felt(shift: bool, spec: EmitSpec): EmitSpec {
    if shift then spec.(mods := Joined(MOD_SHIFT, spec.mods)) else spec
  }

  lemma NavigatedMask(cur: bv32, down: set<nat>, spec: EmitSpec)
    requires Follows(cur, down) && OnlyDanced(spec.mods)
    ensures var d := Navigated(down, cur, spec.mods);
            MaskOf(d) == Felt(LEFTSHIFT in d || RIGHTSHIFT in d, spec).mods
  {
    var target := spec.mods;
    JoinedIsDanced(target);
    hide Mask, Has, Joined, OnlyDanced;
    var d := Navigated(down, cur, target);
    assert Has(target, MOD_SHIFT) ==> LEFTSHIFT in d || RIGHTSHIFT in d;
    assert RIGHTALT in d <==> Has(target, MOD_LEVEL3);
    assert HENKAN in d <==> Has(target, MOD_LEVEL5);
    UnionOfMasks(MOD_SHIFT, target);
    BitsMakeMask(target);
    BitsMakeMask(Joined(MOD_SHIFT, target));
  }

  lemma JoinedIsDanced(mods: bv32)
    requires OnlyDanced(mods)
    ensures Joined(MOD_SHIFT, mods) & DANCE_MASK == Joined(MOD_SHIFT, mods) && mods & DANCE_MASK == mods
    ensures Has(MOD_SHIFT, MOD_SHIFT) && !Has(MOD_SHIFT, MOD_LEVEL3) && !Has(MOD_SHIFT, MOD_LEVEL5)
  {
  }

  lemma BitsMakeMask(m: bv32)
    ensures Mask(Has(m, MOD_SHIFT), Has(m, MOD_LEVEL3), Has(m, MOD_LEVEL5)) == m & DANCE_MASK
  {
  }

  lemma LevelBitsOnly(level: nat)
    ensures LevelMods(level) & DANCE_MASK == LevelMods(level)
  {
  }

  predicate OnlyDanced(mods: bv32) {
    mods & DANCE_MASK == mods
  }

  /** What a character asks for lies within the danced bits. */
  lemma SpecIsDanced(c: char)
    requires CharToEmit(c).Some?
    ensures OnlyDanced(CharToEmit(c).value.mods)
  {
    hide VN_LOWER, VN_UPPER, SAFE_KEYCODES, LevelMods, LocateVn, AsciiKey, AsciiShift, DANCE_MASK;
    match LocateVn(c)
    case Some((slot, level)) => LevelBitsOnly(level);
    case None =>
      assert AsciiEvdev(c).value.1 in {0, MOD_SHIFT};
      ShiftIsDanced();
  }

  lemma ShiftIsDanced()
    ensures 0 & DANCE_MASK == 0 && MOD_SHIFT & DANCE_MASK == MOD_SHIFT
  {
  }

  // ---------- keys ----------

  lemma FeelOne(k: Kbd, ev: KeyEv)
    ensures FeelAll(k, [ev]) == Feel(k, ev)
    ensures PressesLand(k, [ev]) <==> (ev.value == 1 ==> ev.code !in k.down)
  {
    hide Feel;
    assert [ev][1..] == [];
  }

  lemma FeelNone(k: Kbd)
    ensures FeelAll(k, []) == k
  {
  }

  /** A tap of a key that is up. */
  lemma FeelPair(k: Kbd, code: nat)
    requires code !in k.down
    ensures var pair := [KeyEv(code, 1), KeyEv(code, 0)];
            FeelAll(k, pair) == Read(k, code) && PressesLand(k, pair)
  {
    hide MaskOf;
    FeelConcat(k, [KeyEv(code, 1)], [KeyEv(code, 0)]);
    FeelOne(k, KeyEv(code, 1));
    FeelOne(Feel(k, KeyEv(code, 1)), KeyEv(code, 0));
    assert k.down + {code} - {code} == k.down;
  }

  lemma MaskIgnoresText(down: set<nat>, code: nat)
    requires !IsMod(code)
    ensures MaskOf(down - {code}) == MaskOf(down)
  {
    hide Mask;
    assert code !in {LEFTSHIFT, RIGHTSHIFT, RIGHTALT, HENKAN};
  }

  /** Keys are read as text only while no shortcut modifier is down. */
  function Seen(down: set<nat>, specs: seq<EmitSpec>): seq<EmitSpec> {
    if down !! SHORTCUT_KEYS then specs else []
  }

  predicate IsPlain(code: nat) {
    !IsMod(code) && code !in SHORTCUT_KEYS
  }

  lemma ReadPlain(k: Kbd, code: nat)
    requires IsPlain(code)
    ensures Read(k, code) == k.(typed := k.typed + Seen(k.down, [EmitSpec(code, MaskOf(k.down))]))
  {
    hide MaskOf;
    assert k.typed + [] == k.typed;
  }

  lemma FeelTap(k: Kbd, held: set<nat>, code: nat)
    requires IsPlain(code) && (code in k.down ==> code in held)
    ensures FeelAll(k, Tap(held, code))
         == Kbd(k.down - {code}, k.typed + Seen(k.down, [EmitSpec(code, MaskOf(k.down))]))
    ensures PressesLand(k, Tap(held, code))
  {
    MaskIgnoresText(k.down, code);
    assert k.down - {code} !! SHORTCUT_KEYS <==> k.down !! SHORTCUT_KEYS;
    hide MaskOf, FeelAll, PressesLand, IsPlain, SHORTCUT_KEYS, Read;
    var tap := [KeyEv(code, 1), KeyEv(code, 0)];
    var up := k.(down := k.down - {code});
    FeelPair(up, code);
    ReadPlain(up, code);
    if code in held {
      FeelOne(k, KeyEv(code, 0));
      FeelConcat(k, [KeyEv(code, 0)], tap);
    } else {
      assert up == k && [] + tap == tap;
    }
  }

  // ---------- Shift ----------

  predicate HasUnshifted(s: string) {
    s != "" && ((CharToEmit(s[0]).Some? && !Has(CharToEmit(s[0]).value.mods, MOD_SHIFT)) || HasUnshifted(s[1..]))
  }

  predicate HasShifted(s: string) {
    s != "" && ((CharToEmit(s[0]).Some? && Has(CharToEmit(s[0]).value.mods, MOD_SHIFT)) || HasShifted(s[1..]))
  }

  /** Some character of the string asks for the other value of the Shift bit. */
  predicate DancesShift(bit: bool, s: string) {
    if bit then HasUnshifted(s) else HasShifted(s)
  }

  /** Once the bit has changed it is left Shift's; until then neither changes. */
  lemma {:induction false} ShiftAfterChars(k: Kbd, cur: bv32, held: set<nat>, s: string)
    ensures var (events, last) := EmitChars(held, cur, s);
            var bit, left := Has(last, MOD_SHIFT), LEFTSHIFT in FeelAll(k, events).down;
            if DancesShift(Has(cur, MOD_SHIFT), s) then left == bit
            else left == (LEFTSHIFT in k.down) && bit == Has(cur, MOD_SHIFT)
    decreases |s|
  {
    hide CharToEmit, ModEvents, Tap, ModsAfter, Has, Feel, MaskOf;
    if s == "" {
    } else if CharToEmit(s[0]).None? {
      hide FeelAll;
      ShiftAfterChars(k, cur, held, s[1..]);
    } else {
      hide FeelAll;
      var spec := CharToEmit(s[0]).value;
      var first := ModEvents(cur, spec.mods) + Tap(held, spec.keycode);
      ShiftAfterChar(k, cur, held, s[0]);
      ShiftAfterChars(FeelAll(k, first), ModsAfter(cur, spec.mods), held, s[1..]);
      FeelConcat(k, first, EmitChars(held, ModsAfter(cur, spec.mods), s[1..]).0);
    }
  }

  lemma ShiftAfterChar(k: Kbd, cur: bv32, held: set<nat>, c: char)
    requires CharToEmit(c).Some?
    ensures var spec := CharToEmit(c).value;
            var k' := FeelAll(k, ModEvents(cur, spec.mods) + Tap(held, spec.keycode));
            && Has(ModsAfter(cur, spec.mods), MOD_SHIFT) == Has(spec.mods, MOD_SHIFT)
            && (LEFTSHIFT in k'.down <==> LeftAfter(LEFTSHIFT in k.down, Has(cur, MOD_SHIFT), spec.mods))
  {
    hide CharToEmit, FeelAll, PressesLand, ModEvents, Tap, MaskOf, Has, ModsAfter;
    var spec := CharToEmit(c).value;
    EmitsPlainKey(c);
    ModsAfterBits(cur, spec.mods);
    FeelMods(k, cur, spec.mods);
    ShiftAfterTap(FeelAll(k, ModEvents(cur, spec.mods)), held, spec.keycode);
    FeelConcat(k, ModEvents(cur, spec.mods), Tap(held, spec.keycode));
  }

  lemma ShiftAfterTap(k: Kbd, held: set<nat>, code: nat)
    requires code != LEFTSHIFT
    ensures LEFTSHIFT in FeelAll(k, Tap(held, code)).down <==> LEFTSHIFT in k.down
  {
    hide FeelAll, MaskOf, PressesLand;
    var prelude := if code in held then [KeyEv(code, 0)] else [];
    var k1 := FeelAll(k, prelude);
    FeelOne(k, KeyEv(code, 0));
    FeelNone(k);
    FeelOne(k1, KeyEv(code, 1));
    FeelOne(FeelAll(k1, [KeyEv(code, 1)]), KeyEv(code, 0));
    FeelConcat(k1, [KeyEv(code, 1)], [KeyEv(code, 0)]);
    assert [KeyEv(code, 1)] + [KeyEv(code, 0)] == [KeyEv(code, 1), KeyEv(code, 0)];
    FeelConcat(k, prelude, [KeyEv(code, 1), KeyEv(code, 0)]);
  }

  // ---------- a string ----------

  /** What emission needs of the client: modifiers followed, and no key down that the user does not hold. */
  predicate Ready(k: Kbd, cur: bv32, held: set<nat>) {
    && Follows(cur, k.down)
    && forall code <- k.down :: code in DANCED || code in held
  }

  function KeysOf(s: string): set<nat> {
    if s == "" then {}
    else (if CharToEmit(s[0]).Some? then {CharToEmit(s[0]).value.keycode} else {}) + KeysOf(s[1..])
  }

  /** How the keys of a string are read: with right Shift down or up, left Shift down or up, and the bit set or
  not, at the start. */
  function FeltAll(right: bool, left: bool, bit: bool, s: string): seq<EmitSpec>
    decreases |s|
  {
    if s == "" then []
    else
      match CharToEmit(s[0])
      case None => FeltAll(right, left, bit, s[1..])
      case Some(spec) =>
        var left' := LeftAfter(left, bit, spec.mods);
        [Felt(right || left', spec)] + FeltAll(right, left', Has(spec.mods, MOD_SHIFT), s[1..])
  }

  lemma EmitsText(c: char)
    requires CharToEmit(c).Some?
    ensures IsPlain(CharToEmit(c).value.keycode)
    ensures CharToEmit(c).value.keycode !in DANCED
  {
    hide CharToEmit;
    EmitsPlainKey(c);
  }

  lemma NavigatedShape(down: set<nat>, cur: bv32, target: bv32)
    ensures Navigated(down, cur, target) - DANCED == down - DANCED
    ensures RIGHTSHIFT in Navigated(down, cur, target) <==> RIGHTSHIFT in down
    ensures Navigated(down, cur, target) !! SHORTCUT_KEYS <==> down !! SHORTCUT_KEYS
  {
    hide Has;
    var d := Navigated(down, cur, target);
    assert forall code <- SHORTCUT_KEYS :: code in d <==> code in down;
  }

  lemma DropsPlain(down: set<nat>, code: nat)
    requires IsPlain(code)
    ensures RIGHTSHIFT in down - {code} <==> RIGHTSHIFT in down
    ensures LEFTSHIFT in down - {code} <==> LEFTSHIFT in down
    ensures down - {code} !! SHORTCUT_KEYS <==> down !! SHORTCUT_KEYS
  {
  }

  /** One character: its key is read under the modifiers it asks for, with Shift added if one is down. */
  lemma FeelChar(k: Kbd, cur: bv32, held: set<nat>, c: char)
    requires Ready(k, cur, held) && CharToEmit(c).Some?
    ensures var spec := CharToEmit(c).value;
            var events := ModEvents(cur, spec.mods) + Tap(held, spec.keycode);
            var k' := FeelAll(k, events);
            var left := LeftAfter(LEFTSHIFT in k.down, Has(cur, MOD_SHIFT), spec.mods);
            && k'.typed == k.typed + Seen(k.down, [Felt(RIGHTSHIFT in k.down || left, spec)])
            && (LEFTSHIFT in k'.down <==> left)
            && k'.down - DANCED == k.down - DANCED - {spec.keycode}
            && (RIGHTSHIFT in k'.down <==> RIGHTSHIFT in k.down)
            && (k'.down !! SHORTCUT_KEYS <==> k.down !! SHORTCUT_KEYS)
            && (Synced(cur, k.down) ==> PressesLand(k, events) && Synced(ModsAfter(cur, spec.mods), k'.down))
            && Ready(k', ModsAfter(cur, spec.mods), held)
            && Has(ModsAfter(cur, spec.mods), MOD_SHIFT) == Has(spec.mods, MOD_SHIFT)
  {
    hide CharToEmit, FeelAll, PressesLand, ModEvents, Tap, MaskOf, ModsAfter, Has, IsPlain, Navigated, SHORTCUT_KEYS, OnlyDanced;
    var spec := CharToEmit(c).value;
    FeelMods(k, cur, spec.mods);
    NavigatedShape(k.down, cur, spec.mods);
    NavigatedFollows(cur, k.down, spec.mods);
    SpecIsDanced(c);
    NavigatedMask(cur, k.down, spec);
    var d := Navigated(k.down, cur, spec.mods);
    EmitsText(c);
    DropsPlain(d, spec.keycode);
    assert spec.keycode in d ==> spec.keycode in d - DANCED;
    FeelTap(k.(down := d), held, spec.keycode);
    FeelConcat(k, ModEvents(cur, spec.mods), Tap(held, spec.keycode));
    DroppedFollows(ModsAfter(cur, spec.mods), d, spec.keycode);
    forall code | code in d - {spec.keycode}
      ensures code in DANCED || code in held
    {
      assert code in DANCED || code in d - DANCED;
    }
    assert (d - {spec.keycode}) - DANCED == (d - DANCED) - {spec.keycode};
  }

  lemma DroppedFollows(cur: bv32, down: set<nat>, code: nat)
    requires Follows(cur, down) && IsPlain(code)
    ensures Follows(cur, down - {code})
  {
    hide Has;
    assert code !in {LEFTSHIFT, RIGHTSHIFT, RIGHTALT, HENKAN};
  }

  lemma {:induction false} OtherBitsStay(held: set<nat>, cur: bv32, s: string)
    ensures OtherBits(EmitChars(held, cur, s).1) == OtherBits(cur)
    decreases |s|
  {
    hide CharToEmit, ModEvents, Tap, ModsAfter, OtherBits;
    if s != "" {
      match CharToEmit(s[0])
      case None => OtherBitsStay(held, cur, s[1..]);
      case Some(spec) =>
        OtherBitsKept(cur, spec.mods);
        OtherBitsStay(held, ModsAfter(cur, spec.mods), s[1..]);
    }
  }

  predicate Spells(k: Kbd, cur: bv32, held: set<nat>, s: string) {
    var (events, last) := EmitChars(held, cur, s);
    var k' := FeelAll(k, events);
    && k'.typed == k.typed + Seen(k.down, FeltAll(RIGHTSHIFT in k.down, LEFTSHIFT in k.down, Has(cur, MOD_SHIFT), s))
    && k'.down - DANCED == k.down - DANCED - KeysOf(s)
    && (Synced(cur, k.down) ==> PressesLand(k, events) && Synced(last, k'.down))
    && Ready(k', last, held)
  }

  lemma SpellsOn(k: Kbd, cur: bv32, held: set<nat>, s: string)
    requires s != "" && CharToEmit(s[0]).Some? && Ready(k, cur, held)
    requires var spec := CharToEmit(s[0]).value;
             Spells(FeelAll(k, ModEvents(cur, spec.mods) + Tap(held, spec.keycode)), ModsAfter(cur, spec.mods), held, s[1..])
    ensures Spells(k, cur, held, s)
  {
    hide CharToEmit, ModEvents, Tap, ModsAfter, Ready, FeelAll, PressesLand, Feel, MaskOf, IsText, Felt, SHORTCUT_KEYS,
         Has, LeftAfter, Synced;
    var spec := CharToEmit(s[0]).value;
    var right, left := RIGHTSHIFT in k.down, LeftAfter(LEFTSHIFT in k.down, Has(cur, MOD_SHIFT), spec.mods);
    var first := ModEvents(cur, spec.mods) + Tap(held, spec.keycode);
    var (rest, last) := EmitChars(held, ModsAfter(cur, spec.mods), s[1..]);
    var felt, more := Felt(right || left, spec), FeltAll(right, left, Has(spec.mods, MOD_SHIFT), s[1..]);
    FeelChar(k, cur, held, s[0]);
    FeelConcat(k, first, rest);
    assert k.typed + [felt] + more == k.typed + ([felt] + more);
    assert k.typed + [] + [] == k.typed + [];
  }

  lemma SpellsNothing(k: Kbd, cur: bv32, held: set<nat>)
    requires Ready(k, cur, held)
    ensures Spells(k, cur, held, "")
  {
    hide Ready, MaskOf, CharToEmit, Feel;
    assert k.typed + [] == k.typed;
  }

  lemma SpellsPast(k: Kbd, cur: bv32, held: set<nat>, s: string)
    requires s != "" && CharToEmit(s[0]).None? && Spells(k, cur, held, s[1..])
    ensures Spells(k, cur, held, s)
  {
    hide CharToEmit, Ready, FeelAll, PressesLand, Feel, MaskOf;
    assert KeysOf(s) == KeysOf(s[1..]);
  }

  lemma {:induction false} FeelChars(k: Kbd, cur: bv32, held: set<nat>, s: string)
    requires Ready(k, cur, held)
    ensures Spells(k, cur, held, s)
    decreases |s|
  {
    hide CharToEmit, Ready, FeelAll, PressesLand, Feel, MaskOf, Spells, ModEvents, Tap, ModsAfter;
    if s == "" {
      SpellsNothing(k, cur, held);
    } else if CharToEmit(s[0]).None? {
      FeelChars(k, cur, held, s[1..]);
      SpellsPast(k, cur, held, s);
    } else {
      FeelChar(k, cur, held, s[0]);
      var spec := CharToEmit(s[0]).value;
      FeelChars(FeelAll(k, ModEvents(cur, spec.mods) + Tap(held, spec.keycode)), ModsAfter(cur, spec.mods), held, s[1..]);
      SpellsOn(k, cur, held, s);
    }
  }

  /** Left Shift at the client after a string: the bit's, if some character changed the bit. */
  function LeftAtEnd(left: bool, bit: bool, s: string): bool {
    if DancesShift(bit, s) then bit else left
  }

  function WithLeft(down: set<nat>, left: bool): set<nat> {
    Placed(down, LEFTSHIFT, left)
  }

  /** A whole string: every character of the inventory is read once, in order, under its own modifiers and
  whatever Shift is down; each press lands on a key that is up, if left Shift goes with its bit; the danced
  modifiers end as they began, but for left Shift as `LeftAtEnd` says.  Under a shortcut modifier nothing
  is read. */
  lemma EmitStringDecodes(a: Adapter, k: Kbd, s: string)
    requires Ready(k, a.emitted, a.held)
    ensures var (a', events) := EmitString(a, s);
            var k' := FeelAll(k, events);
            var left, bit := LEFTSHIFT in k.down, Has(a.emitted, MOD_SHIFT);
            && a' == a
            && k'.typed == k.typed + Seen(k.down, FeltAll(RIGHTSHIFT in k.down, left, bit, s))
            && k'.down == WithLeft(k.down - KeysOf(s), LeftAtEnd(left, bit, s))
            && (Synced(a.emitted, k.down) ==> PressesLand(k, events))
  {
    hide CharToEmit, ModEvents, Has, EmitChars, FeelAll, PressesLand, KeysOf, FeltAll, ModsAfter, DancesShift, Ready,
         Synced, DANCE_MASK, SHORTCUT_KEYS;
    OtherBitsStay(a.held, a.emitted, s);
    RestoresMask(a.emitted, EmitChars(a.held, a.emitted, s).1);
    StringDecodes(a.held, a.emitted, k, s, a.emitted & DANCE_MASK);
  }

  lemma StringDecodes(held: set<nat>, cur: bv32, k: Kbd, s: string, original: bv32)
    requires Ready(k, cur, held)
    requires Has(original, MOD_SHIFT) == Has(cur, MOD_SHIFT)
    requires Has(original, MOD_LEVEL3) == Has(cur, MOD_LEVEL3)
    requires Has(original, MOD_LEVEL5) == Has(cur, MOD_LEVEL5)
    ensures var (events, last) := EmitChars(held, cur, s);
            var all := events + ModEvents(last, original);
            var k' := FeelAll(k, all);
            var left, bit := LEFTSHIFT in k.down, Has(cur, MOD_SHIFT);
            && k'.typed == k.typed + Seen(k.down, FeltAll(RIGHTSHIFT in k.down, left, bit, s))
            && k'.down == WithLeft(k.down - KeysOf(s), LeftAtEnd(left, bit, s))
            && (Synced(cur, k.down) ==> PressesLand(k, all))
  {
    hide CharToEmit, ModEvents, Has, EmitChars, FeelAll, PressesLand, KeysOf, FeltAll, Navigated, DancesShift, SHORTCUT_KEYS,
         Synced, Follows;
    var (events, last) := EmitChars(held, cur, s);
    FeelChars(k, cur, held, s);
    ShiftAfterChars(k, cur, held, s);
    var mid := FeelAll(k, events);
    FeelMods(mid, last, original);
    FeelConcat(k, events, ModEvents(last, original));
    KeysAreNotDanced(s);
    RestoresDown(k.down, mid.down, cur, last, original, KeysOf(s), DancesShift(Has(cur, MOD_SHIFT), s));
  }

  lemma RestoresMask(cur: bv32, last: bv32)
    requires OtherBits(last) == OtherBits(cur)
    ensures ModsAfter(last, cur & DANCE_MASK) == cur
    ensures Has(cur & DANCE_MASK, MOD_SHIFT) == Has(cur, MOD_SHIFT)
    ensures Has(cur & DANCE_MASK, MOD_LEVEL3) == Has(cur, MOD_LEVEL3)
    ensures Has(cur & DANCE_MASK, MOD_LEVEL5) == Has(cur, MOD_LEVEL5)
  {
  }

  lemma {:induction false} KeysAreNotDanced(s: string)
    ensures KeysOf(s) !! DANCED
    decreases |s|
  {
    hide CharToEmit;
    if s != "" {
      KeysAreNotDanced(s[1..]);
      if CharToEmit(s[0]).Some? {
        EmitsText(s[0]);
      }
    }
  }

  lemma RestoresDown(down: set<nat>, mid: set<nat>, cur: bv32, last: bv32, original: bv32, keys: set<nat>,
                     danced: bool)
    requires Follows(cur, down) && Follows(last, mid) && keys !! DANCED
    requires mid - DANCED == down - DANCED - keys
    requires if danced then (LEFTSHIFT in mid) == Has(last, MOD_SHIFT)
             else (LEFTSHIFT in mid) == (LEFTSHIFT in down) && Has(last, MOD_SHIFT) == Has(cur, MOD_SHIFT)
    requires Has(original, MOD_SHIFT) == Has(cur, MOD_SHIFT)
    requires Has(original, MOD_LEVEL3) == Has(cur, MOD_LEVEL3)
    requires Has(original, MOD_LEVEL5) == Has(cur, MOD_LEVEL5)
    ensures Navigated(mid, last, original)
         == WithLeft(down - keys, if danced then Has(cur, MOD_SHIFT) else LEFTSHIFT in down)
  {
    hide Has;
    var d := Navigated(mid, last, original);
    var left := if danced then Has(cur, MOD_SHIFT) else LEFTSHIFT in down;
    forall code
      ensures code in d <==> code in WithLeft(down - keys, left)
    {
      if code !in DANCED {
        assert code in d <==> code in mid - DANCED;
      }
    }
  }

  // ---------- Backspaces ----------

  lemma {:induction false} FeelBackspaces(k: Kbd, n: nat)
    requires KEY_BACKSPACE !in k.down
    ensures var k' := FeelAll(k, EmitBackspaces(n));
            && k' == k.(typed := k.typed + Seen(k.down, Times(n, EmitSpec(KEY_BACKSPACE, MaskOf(k.down)))))
            && PressesLand(k, EmitBackspaces(n))
    decreases n
  {
    assert IsPlain(KEY_BACKSPACE);
    hide MaskOf, IsPlain, SHORTCUT_KEYS, Read;
    if n == 0 {
      assert k.typed + [] == k.typed;
    } else {
      FeelPair(k, KEY_BACKSPACE);
      ReadPlain(k, KEY_BACKSPACE);
      FeelBackspaces(Read(k, KEY_BACKSPACE), n - 1);
      FeelConcat(k, [KeyEv(KEY_BACKSPACE, 1), KeyEv(KEY_BACKSPACE, 0)], EmitBackspaces(n - 1));
      var spec := EmitSpec(KEY_BACKSPACE, MaskOf(k.down));
      assert k.typed + [spec] + Times(n - 1, spec) == k.typed + Times(n, spec);
      assert k.typed + [] + [] == k.typed + [];
    }
  }

  /** There is no release before a Backspace: when that key is down already, its first press means
  nothing and one deletion is lost. */
  lemma FeelBackspacesHeld(k: Kbd, n: nat)
    requires KEY_BACKSPACE in k.down && n > 0
    ensures var k' := FeelAll(k, EmitBackspaces(n));
            && k'.typed == k.typed + Seen(k.down, Times(n - 1, EmitSpec(KEY_BACKSPACE, MaskOf(k.down))))
            && k'.down == k.down - {KEY_BACKSPACE}
            && !PressesLand(k, EmitBackspaces(n))
  {
    MaskIgnoresText(k.down, KEY_BACKSPACE);
    DropsPlain(k.down, KEY_BACKSPACE);
    hide MaskOf, FeelAll, PressesLand, SHORTCUT_KEYS;
    var press := KeyEv(KEY_BACKSPACE, 1);
    var release := KeyEv(KEY_BACKSPACE, 0);
    FeelOne(k, press);
    FeelOne(k, release);
    FeelConcat(k, [press], [release]);
    assert [press] + [release] == [press, release];
    FeelConcat(k, [press, release], EmitBackspaces(n - 1));
    FeelBackspaces(k.(down := k.down - {KEY_BACKSPACE}), n - 1);
  }

  // ---------- the text ----------

  lemma TypedOne(base: string, typed: seq<EmitSpec>, key: EmitSpec)
    ensures TextOf(base, typed + [key])
         == if key.keycode == KEY_BACKSPACE then Drop(TextOf(base, typed), 1)
            else match KeySymbol(key.keycode, key.mods)
                 case None => TextOf(base, typed)
                 case Some(c) => TextOf(base, typed) + [c]
  {
    hide KeySymbol;
    assert (typed + [key])[..|typed|] == typed;
  }

  /** The symbol of a key, if it has one. */
  function Symbol(spec: EmitSpec): string {
    match KeySymbol(spec.keycode, spec.mods)
    case None => ""
    case Some(c) => [c]
  }

  /** What the keys of the inventory characters of `s` come to. */
  function TextRead(right: bool, left: bool, bit: bool, s: string): string
    decreases |s|
  {
    if s == "" then ""
    else
      match CharToEmit(s[0])
      case None => TextRead(right, left, bit, s[1..])
      case Some(spec) =>
        var left' := LeftAfter(left, bit, spec.mods);
        Symbol(Felt(right || left', spec)) + TextRead(right, left', Has(spec.mods, MOD_SHIFT), s[1..])
  }

  lemma {:induction false} TextOfFelt(base: string, typed: seq<EmitSpec>, right: bool, left: bool, bit: bool, s: string)
    ensures TextOf(base, typed + FeltAll(right, left, bit, s)) == TextOf(base, typed) + TextRead(right, left, bit, s)
    decreases |s|
  {
    hide CharToEmit, KeySymbol, TextOf, Felt, Has, LeftAfter, Symbol;
    if s == "" {
      assert typed + [] == typed && TextOf(base, typed) + "" == TextOf(base, typed);
    } else if CharToEmit(s[0]).None? {
      TextOfFelt(base, typed, right, left, bit, s[1..]);
    } else {
      var spec := CharToEmit(s[0]).value;
      var left', bit' := LeftAfter(left, bit, spec.mods), Has(spec.mods, MOD_SHIFT);
      var felt := Felt(right || left', spec);
      assert typed + ([felt] + FeltAll(right, left', bit', s[1..])) == (typed + [felt]) + FeltAll(right, left', bit', s[1..]);
      FeltKey(right || left', spec);
      EmitsPlainKey(s[0]);
      TypedSymbol(base, typed, felt);
      TextOfFelt(base, typed + [felt], right, left', bit', s[1..]);
      assert TextOf(base, typed) + Symbol(felt) + TextRead(right, left', bit', s[1..])
          == TextOf(base, typed) + (Symbol(felt) + TextRead(right, left', bit', s[1..]));
    }
  }

  lemma TypedSymbol(base: string, typed: seq<EmitSpec>, key: EmitSpec)
    requires key.keycode != KEY_BACKSPACE
    ensures TextOf(base, typed + [key]) == TextOf(base, typed) + Symbol(key)
  {
    hide KeySymbol, TextOf;
    TypedOne(base, typed, key);
    assert TextOf(base, typed) + "" == TextOf(base, typed);
  }

  lemma FeltKey(shift: bool, spec: EmitSpec)
    ensures Felt(shift, spec).keycode == spec.keycode
  {
  }

  /** The character survives a Shift that is down. */
  predicate Survives(shift: bool, c: char) {
    CharToEmit(c).Some? && shift ==> ReadsUnder(c, MOD_SHIFT)
  }

  /** Every character survives the Shift that is down when its key is pressed. */
  predicate AllSurvive(right: bool, left: bool, bit: bool, s: string)
    decreases |s|
  {
    s == "" ||
    match CharToEmit(s[0])
    case None => AllSurvive(right, left, bit, s[1..])
    case Some(spec) =>
      var left' := LeftAfter(left, bit, spec.mods);
      Survives(right || left', s[0]) && AllSurvive(right, left', Has(spec.mods, MOD_SHIFT), s[1..])
  }

  lemma SymbolExact(shift: bool, c: char)
    requires CharToEmit(c).Some?
    ensures var read := Symbol(Felt(shift, CharToEmit(c).value));
            |read| <= 1 && (read == [c] <==> Survives(shift, c))
  {
    hide CharToEmit, KeySymbol, ReadsUnder, Joined;
    EmitDecodes(c);
    EmitDecodesHeldIff(c, MOD_SHIFT);
  }

  /** A string is read as its inventory characters exactly when each of them survives the Shift that is down. */
  lemma {:induction false} TextReadExact(right: bool, left: bool, bit: bool, s: string)
    ensures |TextRead(right, left, bit, s)| <= |Inventory(s)|
    ensures TextRead(right, left, bit, s) == Inventory(s) <==> AllSurvive(right, left, bit, s)
    decreases |s|
  {
    hide CharToEmit, Symbol, Felt, ReadsUnder, Survives, LeftAfter, Has;
    if s != "" {
      var rest := s[1..];
      if CharToEmit(s[0]).None? {
        TextReadExact(right, left, bit, rest);
        assert Inventory(s) == Inventory(rest);
      } else {
        var spec := CharToEmit(s[0]).value;
        var left', bit' := LeftAfter(left, bit, spec.mods), Has(spec.mods, MOD_SHIFT);
        TextReadExact(right, left', bit', rest);
        SymbolExact(right || left', s[0]);
        HeadAndTail(Symbol(Felt(right || left', spec)), TextRead(right, left', bit', rest), s[0], Inventory(rest));
      }
    }
  }

  /** A text of at most one character and one of at most `|tail|` make up `c` and `tail` only each for itself. */
  lemma HeadAndTail(first: string, rest: string, c: char, tail: string)
    requires |first| <= 1 && |rest| <= |tail|
    ensures first + rest == [c] + tail <==> first == [c] && rest == tail
  {
    if first + rest == [c] + tail {
      assert |first| == 1 && first == (first + rest)[..1] && rest == (first + rest)[1..];
      assert [c] == ([c] + tail)[..1] && tail == ([c] + tail)[1..];
    }
  }

  /** A shifted character survives Shift. */
  lemma ShiftedSurvives(c: char)
    requires CharToEmit(c).Some? && Has(CharToEmit(c).value.mods, MOD_SHIFT)
    ensures Survives(true, c)
  {
    ShiftBits();
    hide CharToEmit, Has, LocateVn;
  }

  /** With right Shift up and left Shift as its bit, every character survives. */
  lemma {:induction false} SyncedSurvives(bit: bool, s: string)
    ensures AllSurvive(false, bit, bit, s)
    decreases |s|
  {
    hide CharToEmit, Has, ReadsUnder;
    if s != "" {
      if CharToEmit(s[0]).None? {
        SyncedSurvives(bit, s[1..]);
      } else {
        if Has(CharToEmit(s[0]).value.mods, MOD_SHIFT) {
          ShiftedSurvives(s[0]);
        }
        SyncedSurvives(Has(CharToEmit(s[0]).value.mods, MOD_SHIFT), s[1..]);
      }
    }
  }

  /** With right Shift down, whatever left Shift does, each character must survive for itself. */
  lemma {:induction false} RightSurvives(left: bool, bit: bool, s: string)
    ensures AllSurvive(true, left, bit, s) <==> forall c <- s :: Survives(true, c)
    decreases |s|
  {
    hide CharToEmit, Has, ReadsUnder, LeftAfter;
    if s != "" {
      assert forall c <- s :: c == s[0] || c in s[1..];
      assert s[0] in s && forall c <- s[1..] :: c in s;
      if CharToEmit(s[0]).None? {
        RightSurvives(left, bit, s[1..]);
      } else {
        var mods := CharToEmit(s[0]).value.mods;
        RightSurvives(LeftAfter(left, bit, mods), Has(mods, MOD_SHIFT), s[1..]);
      }
    }
  }

  lemma DropTwice(text: string, n: nat)
    ensures Drop(Drop(text, n), 1) == Drop(text, n + 1)
  {
  }

  lemma {:induction false} TextOfBackspaces(base: string, typed: seq<EmitSpec>, n: nat, mods: bv32)
    ensures TextOf(base, typed + Times(n, EmitSpec(KEY_BACKSPACE, mods))) == Drop(TextOf(base, typed), n)
    decreases n
  {
    hide KeySymbol, TextOf;
    var key := EmitSpec(KEY_BACKSPACE, mods);
    if n == 0 {
      assert typed + Times(0, key) == typed;
      assert Drop(TextOf(base, typed), 0) == TextOf(base, typed);
    } else {
      assert typed + Times(n, key) == (typed + Times(n - 1, key)) + [key];
      TypedOne(base, typed + Times(n - 1, key), key);
      TextOfBackspaces(base, typed, n - 1, mods);
      DropTwice(TextOf(base, typed), n - 1);
    }
  }
}
