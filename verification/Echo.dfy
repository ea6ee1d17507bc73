/** Synthetic modifiers on the virtual keyboard, and the filter that keeps their echoes from being
taken for the user's own modifier events. */
module Echo {
  import opened Texts
  import opened Keymap

  datatype Snapshot = Snapshot(depressed: bv32, latched: bv32, locked: bv32, group: nat)

  datatype Wire = Key(code: nat, pressed: bool) | Mods(mods: Snapshot)

  // ---------- emission ----------

  function PressRelease(code: nat): seq<Wire> {
    [Key(code, true), Key(code, false)]
  }

  function Under(raw: Snapshot, mods: bv32): Snapshot {
    raw.(depressed := raw.depressed | mods)
  }

  /** What one character puts on the wire, for the user's modifiers and the key the user holds. */
  function CharWire(raw: Snapshot, heldKey: Option<nat>, spec: EmitSpec): seq<Wire> {
    (if heldKey == Some(spec.keycode) then [Key(spec.keycode, false)] else [])
    + match PlanModDance(raw.depressed, spec.mods)
      case None => PressRelease(spec.keycode)
      case Some((emit, restore)) =>
        [Mods(raw.(depressed := emit))] + PressRelease(spec.keycode) + [Mods(raw.(depressed := restore))]
  }

  function ModsOf(wire: seq<Wire>): seq<Snapshot>
    decreases |wire|
  {
    if wire == [] then []
    else (if wire[0].Mods? then [wire[0].mods] else []) + ModsOf(wire[1..])
  }

  /** The echoes that `CharWire` makes the filter expect. */
  function CharEchoes(raw: Snapshot, spec: EmitSpec): seq<Snapshot> {
    match PlanModDance(raw.depressed, spec.mods)
    case None => []
    case Some((emit, restore)) => [raw.(depressed := emit), raw.(depressed := restore)]
  }

  /** A character that asks for no modifier sends none, whatever is held; any other adds its own to those held, and
  puts those held back. */
  lemma CharEchoesExact(raw: Snapshot, spec: EmitSpec)
    ensures CharEchoes(raw, spec) == if spec.mods == 0 then [] else [Under(raw, spec.mods), raw]
  {
  }

  /** A forwarded Backspace clears the modifiers around itself, and the filter is not told. */
  predicate NeedsGuard(raw: Snapshot) {
    raw.depressed | raw.latched | raw.locked != 0
  }

  /** `vk_key`. */
  function VkKeyWire(raw: Snapshot, code: nat, pressed: bool): seq<Wire> {
    var guarded := code == KEY_BACKSPACE && NeedsGuard(raw);
    (if guarded && pressed then [Mods(Snapshot(0, 0, 0, raw.group))] else [])
    + [Key(code, pressed)]
    + if guarded && !pressed then [Mods(raw)] else []
  }

  function BackspaceWire(raw: Snapshot): seq<Wire> {
    VkKeyWire(raw, KEY_BACKSPACE, true) + VkKeyWire(raw, KEY_BACKSPACE, false)
  }

  lemma BackspaceWireShape(raw: Snapshot)
    ensures BackspaceWire(raw)
         == if NeedsGuard(raw) then [Mods(Snapshot(0, 0, 0, raw.group))] + PressRelease(KEY_BACKSPACE) + [Mods(raw)]
            else PressRelease(KEY_BACKSPACE)
  {
    hide NeedsGuard;
  }

  // ---------- the filter ----------

  /** Expected echoes, their count and whether a time of emission is set; the modifiers last adopted,
  and all adopted so far. */
  datatype Filter = Filter(expected: seq<Snapshot>, pending: nat, stamped: bool, raw: Snapshot, adopted: seq<Snapshot>)

  function Emitted(f: Filter, spec: EmitSpec): Filter {
    var echoes := CharEchoes(f.raw, spec);
    if echoes == [] then f
    else f.(expected := f.expected + echoes, pending := |f.expected + echoes|, stamped := true)
  }

  function Expire(f: Filter, expired: bool): Filter {
    if f.pending > 0 && f.stamped && expired then f.(expected := [], pending := 0, stamped := false) else f
  }

  function Match(f: Filter, incoming: Snapshot): Filter {
    if f.expected != [] && f.expected[0] == incoming then
      var rest := f.expected[1..];
      f.(expected := rest, pending := |rest|, stamped := f.stamped && rest != [])
    else f.(raw := incoming, adopted := f.adopted + [incoming])
  }

  /** One modifiers event; `expired` tells whether the last emission is older than the time allowed. */
  function Handle(f: Filter, incoming: Snapshot, expired: bool): Filter {
    Match(Expire(f, expired), incoming)
  }

  lemma EchoesAreTheMods(raw: Snapshot, heldKey: Option<nat>, spec: EmitSpec)
    ensures ModsOf(CharWire(raw, heldKey, spec)) == CharEchoes(raw, spec)
  {
    var prelude := if heldKey == Some(spec.keycode) then [Key(spec.keycode, false)] else [];
    var tap := PressRelease(spec.keycode);
    KeysHaveNoMods(prelude);
    KeysHaveNoMods(tap);
    match PlanModDance(raw.depressed, spec.mods)
    case None => ModsOfConcat(prelude, tap);
    case Some((emit, restore)) =>
      var first, last := [Mods(raw.(depressed := emit))], [Mods(raw.(depressed := restore))];
      ModsOfConcat(first, tap);
      ModsOfConcat(first + tap, last);
      ModsOfConcat(prelude, first + tap + last);
      ModsOfOne(raw.(depressed := emit));
      ModsOfOne(raw.(depressed := restore));
  }

  lemma ModsOfOne(m: Snapshot)
    ensures ModsOf([Mods(m)]) == [m]
  {
    assert [Mods(m)][1..] == [];
  }

  lemma {:induction false} KeysHaveNoMods(wire: seq<Wire>)
    requires forall w <- wire :: w.Key?
    ensures ModsOf(wire) == []
    decreases |wire|
  {
    if wire != [] {
      assert wire[0] in wire && forall w <- wire[1..] :: w in wire;
      KeysHaveNoMods(wire[1..]);
    }
  }

  lemma {:induction false} ModsOfConcat(a: seq<Wire>, b: seq<Wire>)
    ensures ModsOf(a + b) == ModsOf(a) + ModsOf(b)
    decreases |a|
  {
    if a == [] {
      assert a + b == b;
    } else {
      assert (a + b)[1..] == a[1..] + b;
      ModsOfConcat(a[1..], b);
      var first := if a[0].Mods? then [a[0].mods] else [];
      assert first + (ModsOf(a[1..]) + ModsOf(b)) == (first + ModsOf(a[1..])) + ModsOf(b);
    }
  }

  // ---------- the adapter's fields ----------

  class SyntheticMods {
    var expected: seq<Snapshot>
    var pending: nat
    var stamped: bool
    var rawMods: Snapshot
    /** Modifiers events that reached the adapter's own state. */
    ghost var adopted: seq<Snapshot>
    /** Everything sent to the virtual keyboard. */
    var wire: seq<Wire>

    ghost function Model(): Filter
      reads this
    {
      Filter(expected, pending, stamped, rawMods, adopted)
    }

    constructor (rawMods: Snapshot)
      ensures Model() == Filter([], 0, false, rawMods, []) && wire == []
    {
      expected, pending, stamped, wire := [], 0, false, [];
      this.rawMods, adopted := rawMods, [];
    }

    /** A key on the forward channel. */
    method VkKey(code: nat, pressed: bool)
      modifies this`wire
      ensures wire == old(wire) + VkKeyWire(rawMods, code, pressed)
    {
      hide NeedsGuard;
      var guarded := code == KEY_BACKSPACE && NeedsGuard(rawMods);
      if guarded && pressed {
        Send(Mods(Snapshot(0, 0, 0, rawMods.group)));
      }
      Send(Key(code, pressed));
      if guarded && !pressed {
        Send(Mods(rawMods));
      }
    }

    method Send(w: Wire)
      modifies this`wire
      ensures wire == old(wire) + [w]
    {
      wire := wire + [w];
    }

    method SendAndExpect(m: Snapshot)
      modifies this`wire, this`expected, this`pending, this`stamped
      ensures wire == old(wire) + [Mods(m)]
      ensures expected == old(expected) + [m] && pending == |expected| && stamped
    {
      Send(Mods(m));
      expected := expected + [m];
      pending := |expected|;
      stamped := true;
    }

    method EmitPlanned(heldKey: Option<nat>, spec: EmitSpec)
      modifies this`wire, this`expected, this`pending, this`stamped
      ensures Model() == Emitted(old(Model()), spec)
      ensures wire == old(wire) + CharWire(rawMods, heldKey, spec)
    {
      hide PlanModDance;
      var dance := PlanModDance(rawMods.depressed, spec.mods);
      if heldKey == Some(spec.keycode) {
        Send(Key(spec.keycode, false));
      }
      if dance.Some? {
        SendAndExpect(rawMods.(depressed := dance.value.0));
      }
      Send(Key(spec.keycode, true));
      Send(Key(spec.keycode, false));
      if dance.Some? {
        SendAndExpect(rawMods.(depressed := dance.value.1));
      }
    }

    /** `emit_char` on a backend whose modifiers echo through the grab. */
    method EmitChar(heldKey: Option<nat>, c: char) returns (emitted: bool)
      modifies this`wire, this`expected, this`pending, this`stamped
      ensures emitted <==> CharToEmit(c).Some?
      ensures !emitted ==> Model() == old(Model()) && wire == old(wire)
      ensures emitted ==>
        var spec := CharToEmit(c).value;
        && Model() == Emitted(old(Model()), spec)
        && wire == old(wire) + CharWire(rawMods, heldKey, spec)
    {
      hide CharToEmit, CharWire, Emitted;
      var plan := CharToEmit(c);
      if plan.Some? {
        EmitPlanned(heldKey, plan.value);
      }
      return plan.Some?;
    }

    /** `handle_modifiers` on input-method version 2, which passes the user's own modifiers on. */
    method HandleModifiers(incoming: Snapshot, expired: bool)
      modifies this
      ensures Model() == Handle(old(Model()), incoming, expired)
      ensures wire == old(wire) + if |adopted| > |old(adopted)| then [Mods(incoming)] else []
    {
      if pending > 0 && stamped && expired {
        pending, expected, stamped := 0, [], false;
      }
      if expected != [] && expected[0] == incoming {
        expected := expected[1..];
        pending := |expected|;
        if pending == 0 {
          stamped := false;
        }
        return;
      }
      rawMods := incoming;
      adopted := adopted + [incoming];
      Send(Mods(incoming));
    }
  }
}
