/** Edits over whole runs: what the client's text undergoes for every edit the handler decides, and what
the adapter leaves down. */
module EvdevEdits {
  import opened Texts
  import opened Keymap
  import opened Evdev
  import opened EvdevDecode
  import opened EvdevRuns

  const RIGHT_SUPER: nat := 126

  // ---------- the mask ----------

  /** The mask is what the held keys say. */
  predicate MaskTracks(mask: bv32, held: set<nat>) {
    && (Has(mask, MOD_SHIFT) <==> LEFTSHIFT in held || RIGHTSHIFT in held)
    && (Has(mask, CONTROL_BIT) <==> LEFTCTRL in held || RIGHTCTRL in held)
    && (Has(mask, MOD1_BIT) <==> LEFTALT in held)
    && (Has(mask, MOD4_BIT) <==> LEFTMETA in held || RIGHTMETA in held)
    && (Has(mask, MOD_LEVEL3) <==> RIGHTALT in held)
    && (Has(mask, MOD_LEVEL5) <==> HENKAN in held)
  }

  predicate IsBit(bit: bv32) {
    bit == MOD_SHIFT || bit == CONTROL_BIT || bit == MOD1_BIT || bit == MOD4_BIT || bit == MOD_LEVEL3 || bit == MOD_LEVEL5
  }

  lemma BitSet(mask: bv32, bit: bv32, other: bv32)
    requires IsBit(bit) && IsBit(other)
    ensures Has(mask | bit, other) <==> (bit == other || Has(mask, other))
  {
  }

  lemma BitCleared(mask: bv32, bit: bv32, other: bv32)
    requires IsBit(bit) && IsBit(other)
    ensures Has(mask & !bit, other) <==> (bit != other && Has(mask, other))
  {
  }

  lemma WithBitHas(mask: bv32, bit: bv32, value: nat, other: bv32)
    requires IsBit(bit) && IsBit(other)
    ensures Has(WithBit(mask, bit, value), other)
       <==> if value == 1 then bit == other || Has(mask, other)
            else if value == 0 then bit != other && Has(mask, other)
            else Has(mask, other)
  {
    hide Has, IsBit;
    if value == 1 {
      BitSet(mask, bit, other);
    } else if value == 0 {
      BitCleared(mask, bit, other);
    }
  }

  predicate Carries(bit: bv32, code: nat) {
    && IsBit(bit)
    && (bit == MOD_SHIFT <==> code == LEFTSHIFT || code == RIGHTSHIFT)
    && (bit == CONTROL_BIT <==> code == LEFTCTRL || code == RIGHTCTRL)
    && (bit == MOD1_BIT <==> code == LEFTALT)
    && (bit == MOD4_BIT <==> code == LEFTMETA || code == RIGHTMETA)
    && (bit == MOD_LEVEL3 <==> code == RIGHTALT)
    && (bit == MOD_LEVEL5 <==> code == HENKAN)
  }

  lemma ModBits(code: nat)
    requires IsMod(code)
    ensures Carries(ModBit(code).value, code)
  {
  }

  lemma AllAreBits()
    ensures IsBit(MOD_SHIFT) && IsBit(CONTROL_BIT) && IsBit(MOD1_BIT)
    ensures IsBit(MOD4_BIT) && IsBit(MOD_LEVEL3) && IsBit(MOD_LEVEL5)
  {
  }

  /** One of two held keys goes up. */
  predicate Loses(held: set<nat>, input: Input, x: nat, y: nat) {
    (input.code == x || input.code == y) && input.value == 0 && x != y && x in held && y in held
  }

  /** One bit, carried by the keys `x` and `y`: only the release of one of two held keys leaves it wrong. */
  lemma BitStep(mask: bv32, bit: bv32, held: set<nat>, input: Input, other: bv32, x: nat, y: nat)
    requires IsBit(bit) && IsBit(other) && WellFormed(held, input)
    requires bit == other <==> input.code == x || input.code == y
    requires Has(mask, other) <==> x in held || y in held
    ensures (Has(WithBit(mask, bit, input.value), other) <==> x in HeldAfter(held, input) || y in HeldAfter(held, input))
       <==> !Loses(held, input, x, y)
  {
    WithBitHas(mask, bit, input.value, other);
    hide Has, WithBit, IsBit;
  }

  /** The other key of a pair that shares a bit, or the key itself. */
  function Twin(code: nat): nat {
    match code
    case 29 => RIGHTCTRL case 97 => LEFTCTRL
    case 42 => RIGHTSHIFT case 54 => LEFTSHIFT
    case 125 => RIGHTMETA case 127 => LEFTMETA
    case _ => code
  }

  lemma TwinLoses(held: set<nat>, input: Input)
    requires WellFormed(held, input)
    ensures Loses(held, input, LEFTSHIFT, RIGHTSHIFT) || Loses(held, input, LEFTCTRL, RIGHTCTRL)
              || Loses(held, input, LEFTMETA, RIGHTMETA)
       <==> input.value == 0 && Twin(input.code) != input.code && Twin(input.code) in held
  {
  }

  lemma CarriedStep(mask: bv32, bit: bv32, held: set<nat>, input: Input)
    requires MaskTracks(mask, held) && WellFormed(held, input) && Carries(bit, input.code)
    ensures MaskTracks(WithBit(mask, bit, input.value), HeldAfter(held, input))
       <==> !(input.value == 0 && Twin(input.code) != input.code && Twin(input.code) in held)
  {
    hide Has, WithBit, IsBit, HeldAfter, Twin, MOD_SHIFT, CONTROL_BIT, MOD1_BIT, MOD4_BIT, MOD_LEVEL3, MOD_LEVEL5;
    AllAreBits();
    TwinLoses(held, input);
    assert !Loses(held, input, LEFTALT, LEFTALT) && !Loses(held, input, RIGHTALT, RIGHTALT) && !Loses(held, input, HENKAN, HENKAN);
    hide Loses, WellFormed;
    BitStep(mask, bit, held, input, MOD_SHIFT, LEFTSHIFT, RIGHTSHIFT);
    BitStep(mask, bit, held, input, CONTROL_BIT, LEFTCTRL, RIGHTCTRL);
    BitStep(mask, bit, held, input, MOD1_BIT, LEFTALT, LEFTALT);
    BitStep(mask, bit, held, input, MOD4_BIT, LEFTMETA, RIGHTMETA);
    BitStep(mask, bit, held, input, MOD_LEVEL3, RIGHTALT, RIGHTALT);
    BitStep(mask, bit, held, input, MOD_LEVEL5, HENKAN, HENKAN);
  }

  /** A mask that says what is held goes on doing so, unless the key released shares its bit with one still
  held. */
  lemma MaskStep(mask: bv32, held: set<nat>, input: Input)
    requires MaskTracks(mask, held) && WellFormed(held, input) && IsMod(input.code)
    ensures MaskTracks(WithBit(mask, ModBit(input.code).value, input.value), HeldAfter(held, input))
       <==> !(input.value == 0 && Twin(input.code) != input.code && Twin(input.code) in held)
  {
    ModBits(input.code);
    hide MaskTracks, Carries, HeldAfter, WellFormed, WithBit, Twin;
    CarriedStep(mask, ModBit(input.code).value, held, input);
  }

  // ---------- soundness ----------

  /** No plain key is stuck, the emitted bits follow the client, and Level3 and Level5 are down there when the
  user holds them. */
  predicate Sound(a: Adapter, k: Kbd) {
    && NoStuck(a, k)
    && Follows(a.emitted, k.down)
    && (RIGHTALT in k.down <==> RIGHTALT in a.held)
    && (HENKAN in k.down <==> HENKAN in a.held)
  }

  lemma DancedBits(mask: bv32)
    ensures Has(mask & DANCE_MASK, MOD_SHIFT) == Has(mask, MOD_SHIFT)
    ensures Has(mask & DANCE_MASK, MOD_LEVEL3) == Has(mask, MOD_LEVEL3)
    ensures Has(mask & DANCE_MASK, MOD_LEVEL5) == Has(mask, MOD_LEVEL5)
  {
  }

  lemma PlainOrKnown(code: nat)
    ensures IsMod(code) <==> code in DANCED || code in VERBATIM
  {
  }

  /** Everything down at the client is held by the user, but for left Shift. */
  lemma DownIsHeld(a: Adapter, k: Kbd)
    requires Sound(a, k)
    ensures k.down <= a.held + {LEFTSHIFT}
  {
    hide Follows, ModBit;
    forall code | code in k.down
      ensures code in a.held + {LEFTSHIFT}
    {
      PlainOrKnown(code);
      assert code in VERBATIM ==> code in k.down * VERBATIM;
    }
  }

  lemma SoundIsReady(a: Adapter, k: Kbd)
    requires Sound(a, k)
    ensures Ready(k, a.emitted, a.held)
  {
    hide Follows, NoStuck;
    DownIsHeld(a, k);
  }

  /** The client and the user agree on right Shift, and so on shortcuts but for what the handler kept back. */
  lemma VerbatimIsHeld(a: Adapter, k: Kbd)
    requires NoStuck(a, k)
    ensures RIGHTSHIFT in k.down <==> RIGHTSHIFT in a.held
    ensures a.held !! SHORTCUT_KEYS ==> k.down !! SHORTCUT_KEYS
  {
    hide ModBit;
    assert RIGHTSHIFT in k.down * VERBATIM <==> RIGHTSHIFT in a.held * VERBATIM;
    forall code | code in k.down && code in SHORTCUT_KEYS
      ensures code in a.held
    {
      PlainOrKnown(code);
      assert code in VERBATIM ==> code in k.down * VERBATIM;
    }
  }

  // ---------- modifiers ----------

  function DancedPart(bit: bv32): bv32 {
    bit & DANCE_MASK
  }

  function EmittedAfter(emitted: bv32, bit: bv32, value: nat): bv32 {
    if DancedPart(bit) != 0 then WithBit(emitted, DancedPart(bit), value) else emitted
  }

  lemma DancedBit(bit: bv32)
    requires IsBit(bit)
    ensures DancedPart(bit) == if bit == MOD_SHIFT || bit == MOD_LEVEL3 || bit == MOD_LEVEL5 then bit else 0
    ensures bit != 0
  {
  }

  function BitAfter(was: bool, carries: bool, value: nat): bool {
    if !carries || value > 1 then was else value == 1
  }

  lemma EmittedBit(emitted: bv32, bit: bv32, value: nat, other: bv32)
    requires IsBit(bit) && IsBit(other) && (other == MOD_SHIFT || other == MOD_LEVEL3 || other == MOD_LEVEL5)
    ensures Has(EmittedAfter(emitted, bit, value), other) == BitAfter(Has(emitted, other), bit == other, value)
  {
    DancedBit(bit);
    WithBitHas(emitted, bit, value, other);
    hide Has, WithBit, DancedPart, IsBit;
  }

  lemma EmittedBits(emitted: bv32, code: nat, value: nat)
    requires IsMod(code)
    ensures var after := EmittedAfter(emitted, ModBit(code).value, value);
            && Has(after, MOD_SHIFT) == BitAfter(Has(emitted, MOD_SHIFT), code == LEFTSHIFT || code == RIGHTSHIFT, value)
            && Has(after, MOD_LEVEL3) == BitAfter(Has(emitted, MOD_LEVEL3), code == RIGHTALT, value)
            && Has(after, MOD_LEVEL5) == BitAfter(Has(emitted, MOD_LEVEL5), code == HENKAN, value)
  {
    hide Has, ModBit, IsBit, EmittedAfter;
    var bit := ModBit(code).value;
    ModBits(code);
    AllAreBits();
    EmittedBit(emitted, bit, value, MOD_SHIFT);
    EmittedBit(emitted, bit, value, MOD_LEVEL3);
    EmittedBit(emitted, bit, value, MOD_LEVEL5);
  }

  lemma ModEvent(a: Adapter, k: Kbd, input: Input)
    requires IsMod(input.code)
    ensures var (a', k') := Step(a, k, input);
            && a'.emitted == EmittedAfter(a.emitted, ModBit(input.code).value, input.value)
            && k'.down == if input.value == 0 then k.down - {input.code}
                          else if input.value == 1 then k.down + {input.code} else k.down
  {
    hide FeelAll, WithBit, ModBit, MaskOf;
    FeelOne(k, KeyEv(input.code, input.value));
    if input.code in k.down {
      assert k.down + {input.code} == k.down;
    }
  }

  /** A Shift key that goes down or up leaves left Shift and its bit together, unless it is right Shift going up,
  and taking the bit with it, while left Shift is down at the client. */
  predicate PartsShift(k: Kbd, input: Input) {
    input.code == RIGHTSHIFT && input.value == 0 && LEFTSHIFT in k.down
  }

  predicate MovesShift(input: Input) {
    (input.code == LEFTSHIFT || input.code == RIGHTSHIFT) && input.value <= 1
  }

  /** The bits and the keys of a modifier move together. */
  predicate Moves(cur: bv32, down: set<nat>, cur': bv32, down': set<nat>, code: nat, value: nat) {
    && down' == (if value == 0 then down - {code} else if value == 1 then down + {code} else down)
    && Has(cur', MOD_SHIFT) == BitAfter(Has(cur, MOD_SHIFT), code == LEFTSHIFT || code == RIGHTSHIFT, value)
    && Has(cur', MOD_LEVEL3) == BitAfter(Has(cur, MOD_LEVEL3), code == RIGHTALT, value)
    && Has(cur', MOD_LEVEL5) == BitAfter(Has(cur, MOD_LEVEL5), code == HENKAN, value)
  }

  lemma MovesFollows(cur: bv32, down: set<nat>, cur': bv32, down': set<nat>, code: nat, value: nat)
    requires Follows(cur, down) && Moves(cur, down, cur', down', code, value)
    ensures Follows(cur', down')
  {
    hide Has;
  }

  lemma MovesSynced(cur: bv32, down: set<nat>, cur': bv32, down': set<nat>, input: Input)
    requires Moves(cur, down, cur', down', input.code, input.value)
    ensures Synced(cur', down')
       <==> if MovesShift(input) then input.code != RIGHTSHIFT || input.value != 0 || LEFTSHIFT !in down
            else Synced(cur, down)
  {
    hide Has;
  }

  lemma MovesHeld(held: set<nat>, down: set<nat>, input: Input, cur: bv32, cur': bv32, down': set<nat>)
    requires WellFormed(held, input) && Moves(cur, down, cur', down', input.code, input.value)
    requires (RIGHTALT in down <==> RIGHTALT in held) && (HENKAN in down <==> HENKAN in held)
    ensures RIGHTALT in down' <==> RIGHTALT in HeldAfter(held, input)
    ensures HENKAN in down' <==> HENKAN in HeldAfter(held, input)
  {
    hide Has, BitAfter;
  }

  lemma ModMoves(a: Adapter, k: Kbd, input: Input)
    requires IsMod(input.code)
    ensures var (a', k') := Step(a, k, input); Moves(a.emitted, k.down, a'.emitted, k'.down, input.code, input.value)
  {
    hide Step, ModBit, Has, EmittedAfter, BitAfter, IsMod;
    ModEvent(a, k, input);
    EmittedBits(a.emitted, input.code, input.value);
  }

  lemma ModStep(a: Adapter, k: Kbd, input: Input)
    requires Sound(a, k) && WellFormed(a.held, input) && IsMod(input.code)
    ensures var (a', k') := Step(a, k, input);
            && Sound(a', k')
            && (Synced(a'.emitted, k'.down) <==>
                  if MovesShift(input) then !PartsShift(k, input) else Synced(a.emitted, k.down))
  {
    hide Step, NoStuck, Has, MovesShift, IsMod, Follows, Synced, Moves;
    StepKeepsNoStuck(a, k, input);
    ModMoves(a, k, input);
    var (a', k') := Step(a, k, input);
    MovesSynced(a.emitted, k.down, a'.emitted, k'.down, input);
    MovesFollows(a.emitted, k.down, a'.emitted, k'.down, input.code, input.value);
    MovesHeld(a.held, k.down, input, a.emitted, a'.emitted, k'.down);
  }

  // ---------- edits ----------

  /** Deletions that a run of Backspaces comes to: one is lost when that key is down already. */
  function Deleted(k: Kbd, n: nat): nat {
    if KEY_BACKSPACE in k.down && n > 0 then n - 1 else n
  }

  /** On a Backspace key the commit text of an edit is not emitted. */
  function Committed(input: Input): string
    requires input.decision.Apply?
  {
    if input.code == KEY_BACKSPACE then "" else input.decision.commit
  }

  lemma NoBackspaces(k: Kbd)
    ensures FeelAll(k, EmitBackspaces(0)) == k
  {
  }

  predicate ReadsText(k: Kbd) {
    k.down !! SHORTCUT_KEYS
  }

  lemma SameStatus(down: set<nat>, down': set<nat>)
    requires down' - DANCED == down - DANCED || down' == down - {KEY_BACKSPACE}
    ensures RIGHTSHIFT in down' <==> RIGHTSHIFT in down
    ensures down' !! SHORTCUT_KEYS <==> down !! SHORTCUT_KEYS
    ensures down' == down - {KEY_BACKSPACE} ==> down' * DANCED == down * DANCED && (LEFTSHIFT in down' <==> LEFTSHIFT in down)
  {
    assert forall code <- SHORTCUT_KEYS + {RIGHTSHIFT} :: code in down <==> code in down - DANCED;
    assert forall code <- SHORTCUT_KEYS + {RIGHTSHIFT} :: code in down' <==> code in down' - DANCED;
  }

  /** Backspaces delete as many characters as there are, less the one that is lost, or none under a shortcut. */
  lemma BackspacesRead(a: Adapter, k: Kbd, n: nat, base: string)
    requires Ready(k, a.emitted, a.held)
    ensures var k' := FeelAll(k, EmitBackspaces(n));
            && TextOf(base, k'.typed) == (if ReadsText(k) then Drop(TextOf(base, k.typed), Deleted(k, n)) else TextOf(base, k.typed))
            && k'.down == (if n == 0 then k.down else k.down - {KEY_BACKSPACE})
            && Ready(k', a.emitted, a.held)
            && (RIGHTSHIFT in k'.down <==> RIGHTSHIFT in k.down) && (LEFTSHIFT in k'.down <==> LEFTSHIFT in k.down)
            && ReadsText(k') == ReadsText(k) && k'.down * DANCED == k.down * DANCED
  {
    hide TextOf, FeelAll, EmitBackspaces, MaskOf, Has, SHORTCUT_KEYS;
    FeelBackspacesDown(k, n);
    var mods := MaskOf(k.down);
    SameStatus(k.down, FeelAll(k, EmitBackspaces(n)).down);
    assert k.typed + [] == k.typed;
    if KEY_BACKSPACE in k.down && n > 0 {
      FeelBackspacesHeld(k, n);
      TextOfBackspaces(base, k.typed, n - 1, mods);
    } else if n > 0 {
      FeelBackspaces(k, n);
      TextOfBackspaces(base, k.typed, n, mods);
    } else {
      NoBackspaces(k);
      assert Drop(TextOf(base, k.typed), 0) == TextOf(base, k.typed);
    }
  }

  lemma StringRead(a: Adapter, k: Kbd, s: string, base: string)
    requires Ready(k, a.emitted, a.held)
    ensures var (a', events) := EmitString(a, s);
            var k' := FeelAll(k, events);
            var left, bit := LEFTSHIFT in k.down, Has(a.emitted, MOD_SHIFT);
            && a' == a
            && TextOf(base, k'.typed)
               == TextOf(base, k.typed) + (if ReadsText(k) then TextRead(RIGHTSHIFT in k.down, left, bit, s) else "")
            && k'.down * DANCED == WithLeft(k.down * DANCED, LeftAtEnd(left, bit, s))
  {
    hide EmitString, FeelAll, PressesLand, Ready, TextOf, TextRead, FeltAll, KeysOf, SHORTCUT_KEYS, LeftAtEnd, Has, Synced;
    var left, bit := LEFTSHIFT in k.down, Has(a.emitted, MOD_SHIFT);
    EmitStringDecodes(a, k, s);
    TextOfFelt(base, k.typed, RIGHTSHIFT in k.down, left, bit, s);
    KeysAreNotDanced(s);
    assert k.typed + [] == k.typed;
    assert (k.down - KeysOf(s)) * DANCED == k.down * DANCED;
    assert WithLeft(k.down - KeysOf(s), LeftAtEnd(left, bit, s)) * DANCED
        == WithLeft((k.down - KeysOf(s)) * DANCED, LeftAtEnd(left, bit, s));
  }

  /** What an edit makes of the client's text. */
  function Answered(a: Adapter, k: Kbd, input: Input, text: string): string
    requires input.decision.Apply?
  {
    if ReadsText(k) then
      Drop(text, Deleted(k, input.decision.backspaces))
      + TextRead(RIGHTSHIFT in k.down, LEFTSHIFT in k.down, Has(a.emitted, MOD_SHIFT), Committed(input))
    else text
  }

  /** Left Shift at the client after an edit. */
  function LeftOnceAnswered(a: Adapter, k: Kbd, input: Input): bool
    requires input.decision.Apply?
  {
    LeftAtEnd(LEFTSHIFT in k.down, Has(a.emitted, MOD_SHIFT), Committed(input))
  }

  lemma NothingEmitted(right: bool, left: bool, bit: bool)
    ensures LeftAtEnd(left, bit, "") == left && TextRead(right, left, bit, "") == ""
  {
  }

  lemma ApplyReads(a: Adapter, k: Kbd, input: Input, base: string)
    requires Ready(k, a.emitted, a.held) && input.decision.Apply?
    ensures var (a', events) := ApplyDecision(a, input);
            var k' := FeelAll(k, events);
            && a' == a
            && TextOf(base, k'.typed) == Answered(a, k, input, TextOf(base, k.typed))
            && k'.down * DANCED == WithLeft(k.down * DANCED, LeftOnceAnswered(a, k, input))
  {
    hide EmitString, FeelAll, PressesLand, Ready, TextOf, EmitBackspaces, Deleted, ReadsText, TextRead, LeftAtEnd, Has;
    var back := EmitBackspaces(input.decision.backspaces);
    var k1 := FeelAll(k, back);
    BackspacesRead(a, k, input.decision.backspaces, base);
    if input.code == KEY_BACKSPACE || input.decision.commit == "" {
      NothingEmitted(RIGHTSHIFT in k.down, LEFTSHIFT in k.down, Has(a.emitted, MOD_SHIFT));
      assert TextOf(base, k1.typed) + "" == TextOf(base, k1.typed);
      assert WithLeft(k.down * DANCED, LEFTSHIFT in k.down) == k.down * DANCED;
    } else {
      StringRead(a, k1, input.decision.commit, base);
      FeelConcat(k, back, EmitString(a, input.decision.commit).1);
      assert TextOf(base, k1.typed) + "" == TextOf(base, k1.typed);
    }
  }

  lemma TrackedIsSound(a: Adapter, k: Kbd, input: Input)
    requires Sound(a, k) && WellFormed(a.held, input) && !IsMod(input.code) && input.value != 0
    ensures Sound(TrackHeld(a, input.code, input.value), k)
  {
    PlainOrKnown(input.code);
    PlainTracked(a, k, input);
    hide NoStuck, ModBit, Follows;
  }

  /** What the handler decides for a key, to the character: under a shortcut modifier the client reads none of
  it, and under a Shift that emission does not lift it reads the shifted symbols.  The adapter and the client's
  modifiers are as before, but for left Shift. */
  lemma EditReads(a: Adapter, k: Kbd, input: Input, base: string)
    requires Sound(a, k) && WellFormed(a.held, input) && Reaches(a, input) && input.decision.Apply?
    ensures var (a', k') := Step(a, k, input);
            && TextOf(base, k'.typed) == Answered(a, k, input, TextOf(base, k.typed))
            && a' == TrackHeld(a, input.code, input.value)
            && k'.down * DANCED == WithLeft(k.down * DANCED, LeftOnceAnswered(a, k, input))
  {
    var tracked := TrackHeld(a, input.code, input.value);
    TrackedIsSound(a, k, input);
    hide Sound, Ready, ApplyDecision, Process, TextOf, FeelAll, LeftAtEnd, TextRead, ReadsText;
    SoundIsReady(tracked, k);
    ApplyReads(tracked, k, input, base);
    ReachesDecision(a, input);
  }

  lemma SameTail(head: string, a: string, b: string)
    ensures head + a == head + b <==> a == b
  {
    if head + a == head + b {
      assert a == (head + a)[|head|..] && b == (head + b)[|head|..];
    }
  }

  /** Every character of the commit survives the Shift that is down as its key is pressed. */
  predicate CommitSurvives(a: Adapter, k: Kbd, input: Input)
    requires input.decision.Apply?
  {
    AllSurvive(RIGHTSHIFT in k.down, LEFTSHIFT in k.down, Has(a.emitted, MOD_SHIFT), Committed(input))
  }

  /** With no shortcut modifier down, the edit is typed as decided exactly when its commit survives; left Shift
  then is down exactly as `LeftOnceAnswered` says. */
  lemma EditIsTyped(a: Adapter, k: Kbd, input: Input, base: string)
    requires Sound(a, k) && WellFormed(a.held, input) && Reaches(a, input) && input.decision.Apply? && ReadsText(k)
    ensures var (a', k') := Step(a, k, input);
            && (TextOf(base, k'.typed)
                == Drop(TextOf(base, k.typed), Deleted(k, input.decision.backspaces)) + Inventory(Committed(input))
                <==> CommitSurvives(a, k, input))
            && (LEFTSHIFT in k'.down <==> LeftOnceAnswered(a, k, input))
  {
    EditReads(a, k, input, base);
    hide Sound, Ready, ApplyDecision, Process, TextOf, FeelAll, Reaches, Step, Deleted, Drop, TextRead, Has, AllSurvive,
         Inventory, Committed, WellFormed, LeftAtEnd;
    TextReadExact(RIGHTSHIFT in k.down, LEFTSHIFT in k.down, Has(a.emitted, MOD_SHIFT), Committed(input));
    SameTail(Drop(TextOf(base, k.typed), Deleted(k, input.decision.backspaces)),
             TextRead(RIGHTSHIFT in k.down, LEFTSHIFT in k.down, Has(a.emitted, MOD_SHIFT), Committed(input)),
             Inventory(Committed(input)));
    var k' := Step(a, k, input).1;
    assert LEFTSHIFT in k'.down <==> LEFTSHIFT in k'.down * DANCED;
  }

  lemma ForwardKeepsDanced(a: Adapter, k: Kbd, code: nat, value: nat)
    requires !IsMod(code) && value <= 2
    ensures FeelAll(k, ForwardPressRaw(a, code, value).1).down * DANCED == k.down * DANCED
    ensures FeelAll(k, ProcessRelease(a, code).1).down * DANCED == k.down * DANCED
  {
    hide FeelAll, MaskOf, ModBit;
    PlainOrKnown(code);
    FeelOne(k, ForwardPressRaw(a, code, value).1[0]);
    FeelOne(k, KeyEv(code, 0));
    FeelNone(k);
  }

  // ---------- steps ----------

  predicate Answers(a: Adapter, input: Input) {
    Reaches(a, input) && input.decision.Apply?
  }

  /** A key that is no modifier changes nothing of the danced keys, but for left Shift in an edit. */
  lemma PlainStepDanced(a: Adapter, k: Kbd, input: Input)
    requires Sound(a, k) && WellFormed(a.held, input) && !IsMod(input.code)
    ensures var (a', k') := Step(a, k, input);
            && a'.emitted == a.emitted
            && k'.down * DANCED
               == WithLeft(k.down * DANCED, if Answers(a, input) then LeftOnceAnswered(a, k, input) else LEFTSHIFT in k.down)
  {
    hide FeelAll, Sound, ModBit, Reaches, EmitString, EmitBackspaces, ShortcutModsHeld, LeftAtEnd, Has;
    var tracked := TrackHeld(a, input.code, input.value);
    ForwardKeepsDanced(tracked, k, input.code, input.value);
    assert WithLeft(k.down * DANCED, LEFTSHIFT in k.down) == k.down * DANCED;
    if input.value == 0 {
      ReleaseIsNotReached(a, input);
    } else if !Reaches(a, input) {
      NotReached(a, input);
    } else {
      ReachesDecision(a, input);
      if input.decision.Apply? {
        hide ApplyDecision, Process;
        EditReads(a, k, input, "");
      } else {
        FeelNone(k);
      }
    }
  }

  lemma ReleaseIsNotReached(a: Adapter, input: Input)
    requires input.value == 0
    ensures !Reaches(a, input)
  {
  }

  lemma PlainStep(a: Adapter, k: Kbd, input: Input)
    requires Sound(a, k) && WellFormed(a.held, input) && !IsMod(input.code)
    ensures var (a', k') := Step(a, k, input);
            && Sound(a', k')
            && (LEFTSHIFT in k'.down <==>
                  if Answers(a, input) then LeftOnceAnswered(a, k, input) else LEFTSHIFT in k.down)
  {
    StepKeepsNoStuck(a, k, input);
    PlainStepDanced(a, k, input);
    var (a', k') := Step(a, k, input);
    VerbatimIsHeld(a, k);
    VerbatimIsHeld(a', k');
    LeftIsCovered(a, k, input);
    hide Step, NoStuck, ModBit, Has, WellFormed, LeftAtEnd, Answers;
    forall code | code in DANCED
      ensures code in k'.down <==> code in k'.down * DANCED
      ensures code in k.down <==> code in k.down * DANCED
    {
    }
    assert input.code !in DANCED + VERBATIM by {
      PlainOrKnown(input.code);
    }
  }

  /** The Shift bit stays covered by a Shift that is down. */
  lemma LeftIsCovered(a: Adapter, k: Kbd, input: Input)
    requires Follows(a.emitted, k.down)
    ensures input.decision.Apply? && Has(a.emitted, MOD_SHIFT) ==>
              LeftOnceAnswered(a, k, input) || RIGHTSHIFT in k.down
  {
    hide DancesShift, Has;
  }

  /** An edit that changes the Shift bit. */
  predicate DancesInEdit(a: Adapter, input: Input) {
    Answers(a, input) && DancesShift(Has(a.emitted, MOD_SHIFT), Committed(input))
  }

  /** One event, whatever the handler decides, keeps soundness.  Left Shift is with its bit afterwards exactly when
  a Shift key moved, other than right Shift up over left Shift, or an edit changed the bit, or it was before. */
  lemma StepSyncedIff(a: Adapter, k: Kbd, input: Input)
    requires Sound(a, k) && WellFormed(a.held, input)
    ensures var (a', k') := Step(a, k, input);
            && Sound(a', k')
            && (Synced(a'.emitted, k'.down) <==>
                  if MovesShift(input) then !PartsShift(k, input)
                  else DancesInEdit(a, input) || Synced(a.emitted, k.down))
  {
    hide Step, Sound, ModBit, Has, DancesShift, Committed;
    if IsMod(input.code) {
      ModStep(a, k, input);
      assert !Answers(a, input) by {
        ModIsNotReached(a, input);
      }
    } else {
      PlainStep(a, k, input);
      SameEmitted(a, k, input);
      assert !MovesShift(input) by {
        PlainOrKnown(input.code);
      }
    }
  }

  lemma ModIsNotReached(a: Adapter, input: Input)
    requires IsMod(input.code)
    ensures !Reaches(a, input)
  {
  }

  lemma SameEmitted(a: Adapter, k: Kbd, input: Input)
    requires Sound(a, k) && WellFormed(a.held, input) && !IsMod(input.code)
    ensures Step(a, k, input).0.emitted == a.emitted
  {
    hide Step, Sound, IsMod, WellFormed, Answers, LeftAtEnd;
    PlainStepDanced(a, k, input);
  }

  lemma SoundHeld(a: Adapter, k: Kbd, input: Input)
    requires Sound(a, k) && WellFormed(a.held, input)
    ensures Step(a, k, input).0.held == HeldAfter(a.held, input)
  {
    hide Step, NoStuck;
    StepKeepsNoStuck(a, k, input);
  }

  lemma {:induction false} RunKeepsSound(a: Adapter, k: Kbd, inputs: seq<Input>)
    requires Sound(a, k) && AllWellFormed(a.held, inputs)
    ensures var (a', k') := Run(a, k, inputs); Sound(a', k') && k'.down <= a'.held + {LEFTSHIFT}
    decreases |inputs|
  {
    hide Step, Sound, WellFormed, MovesShift, PartsShift, DancesInEdit, Synced;
    if inputs == [] {
      DownIsHeld(a, k);
    } else {
      StepSyncedIff(a, k, inputs[0]);
      SoundHeld(a, k, inputs[0]);
      RunKeepsSound(Step(a, k, inputs[0]).0, Step(a, k, inputs[0]).1, inputs[1..]);
    }
  }

  lemma IdleIsSound()
    ensures Sound(IDLE, Kbd({}, [])) && Synced(IDLE.emitted, {})
  {
  }

  /** From an idle adapter, after any well-formed stream and any decisions: nothing but left Shift is down at the
  client that the user does not hold, and what the next edit makes of the text is known to the character; if no
  shortcut modifier is held, it is typed as decided exactly when its commit survives the Shift that is down. */
  lemma EveryEditIsTyped(inputs: seq<Input>, input: Input, base: string)
    requires AllWellFormed({}, inputs)
    requires var (a, k) := Run(IDLE, Kbd({}, []), inputs); WellFormed(a.held, input) && Answers(a, input)
    ensures var (a, k) := Run(IDLE, Kbd({}, []), inputs);
            var (a', k') := Step(a, k, input);
            && k.down <= a.held + {LEFTSHIFT} && k'.down <= a'.held + {LEFTSHIFT}
            && TextOf(base, k'.typed) == Answered(a, k, input, TextOf(base, k.typed))
            && (a.held !! SHORTCUT_KEYS ==>
                  (TextOf(base, k'.typed)
                   == Drop(TextOf(base, k.typed), Deleted(k, input.decision.backspaces)) + Inventory(Committed(input))
                   <==> CommitSurvives(a, k, input)))
  {
    IdleIsSound();
    hide Run, Step, Sound, WellFormed, Reaches, TextOf, Drop, Inventory, AllWellFormed, Deleted, Answered, CommitSurvives;
    RunKeepsSound(IDLE, Kbd({}, []), inputs);
    var (a, k) := Run(IDLE, Kbd({}, []), inputs);
    NextEdit(a, k, input, base);
  }

  lemma NextEdit(a: Adapter, k: Kbd, input: Input, base: string)
    requires Sound(a, k) && WellFormed(a.held, input) && Answers(a, input)
    ensures var (a', k') := Step(a, k, input);
            && k'.down <= a'.held + {LEFTSHIFT}
            && TextOf(base, k'.typed) == Answered(a, k, input, TextOf(base, k.typed))
            && (a.held !! SHORTCUT_KEYS ==>
                  (TextOf(base, k'.typed)
                   == Drop(TextOf(base, k.typed), Deleted(k, input.decision.backspaces)) + Inventory(Committed(input))
                   <==> CommitSurvives(a, k, input)))
  {
    VerbatimIsHeld(a, k);
    StepSyncedIff(a, k, input);
    hide Step, Sound, WellFormed, TextOf, Drop, Inventory, Deleted, Answered, SHORTCUT_KEYS, ModBit, CommitSurvives, Synced;
    EditReads(a, k, input, base);
    DownIsHeld(Step(a, k, input).0, Step(a, k, input).1);
    if a.held !! SHORTCUT_KEYS {
      EditIsTyped(a, k, input, base);
    }
  }

  // ---------- without right Shift ----------

  predicate NoRightShift(inputs: seq<Input>) {
    forall input <- inputs :: input.code != RIGHTSHIFT
  }

  /** Nothing is left behind. */
  predicate Clean(a: Adapter, k: Kbd) {
    && Sound(a, k) && Synced(a.emitted, k.down)
    && RIGHTSHIFT !in a.held && (LEFTSHIFT in k.down ==> LEFTSHIFT in a.held)
  }

  lemma CleanStep(a: Adapter, k: Kbd, input: Input)
    requires Clean(a, k) && WellFormed(a.held, input) && input.code != RIGHTSHIFT
    ensures var (a', k') := Step(a, k, input); Clean(a', k')
  {
    StepSyncedIff(a, k, input);
    SoundHeld(a, k, input);
    VerbatimIsHeld(a, k);
    if IsMod(input.code) {
      ModEvent(a, k, input);
      hide Step, NoStuck, ModBit, Has, DancesInEdit;
    } else {
      PlainStep(a, k, input);
      PlainOrKnown(input.code);
      hide Step, NoStuck, ModBit, Has, DancesShift, Answers, DancesInEdit;
    }
  }

  /** Without right Shift, along every well-formed stream nothing is left behind: everything down at the client is
  held by the user, whatever pairs of keys were held together. */
  lemma {:induction false} CleanWithoutRightShift(a: Adapter, k: Kbd, inputs: seq<Input>)
    requires Clean(a, k) && AllWellFormed(a.held, inputs) && NoRightShift(inputs)
    ensures var (a', k') := Run(a, k, inputs); Clean(a', k') && k'.down <= a'.held
    decreases |inputs|
  {
    hide Step, Sound, WellFormed, Synced;
    if inputs == [] {
      DownIsHeld(a, k);
    } else {
      assert inputs[0] in inputs && forall input <- inputs[1..] :: input in inputs;
      CleanStep(a, k, inputs[0]);
      SoundHeld(a, k, inputs[0]);
      CleanWithoutRightShift(Step(a, k, inputs[0]).0, Step(a, k, inputs[0]).1, inputs[1..]);
    }
  }

  /** And every commit survives: without right Shift and with no shortcut modifier held, the next edit is typed
  exactly as decided. */
  lemma TypedWithoutRightShift(inputs: seq<Input>, input: Input, base: string)
    requires AllWellFormed({}, inputs) && NoRightShift(inputs)
    requires var (a, k) := Run(IDLE, Kbd({}, []), inputs);
             WellFormed(a.held, input) && Answers(a, input) && a.held !! SHORTCUT_KEYS
    ensures var (a, k) := Run(IDLE, Kbd({}, []), inputs);
            TextOf(base, Step(a, k, input).1.typed)
            == Drop(TextOf(base, k.typed), Deleted(k, input.decision.backspaces)) + Inventory(Committed(input))
  {
    IdleIsSound();
    hide Run, Step, WellFormed, Reaches, TextOf, Drop, Inventory, AllWellFormed, Deleted, Answered, CommitSurvives,
         SHORTCUT_KEYS, Sound, Synced;
    CleanWithoutRightShift(IDLE, Kbd({}, []), inputs);
    var (a, k) := Run(IDLE, Kbd({}, []), inputs);
    CleanSurvives(a, k, input);
    NextEdit(a, k, input, base);
  }

  lemma CleanSurvives(a: Adapter, k: Kbd, input: Input)
    requires Clean(a, k) && input.decision.Apply?
    ensures CommitSurvives(a, k, input)
  {
    hide AllSurvive, Has, Committed, NoStuck;
    VerbatimIsHeld(a, k);
    SyncedSurvives(Has(a.emitted, MOD_SHIFT), Committed(input));
  }
}
