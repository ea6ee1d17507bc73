/** A whole edit through the virtual keyboard: guarded Backspaces, then every character as a key, read
back by a client that has the generated map. */
module KeyChannel {
  import opened Texts
  import opened Keymap
  import opened Levels
  import E = Evdev
  import D = EvdevDecode
  import S = Strategies
  import C = Clients
  import opened Echo

  /** Keys down at the client, its modifiers, and the keys it has read as text. */
  datatype Client = Client(down: set<nat>, mods: Snapshot, typed: seq<EmitSpec>)

  function Effective(m: Snapshot): bv32 {
    m.depressed | m.latched | m.locked
  }

  /** No shortcut modifier: Control, Alt (Mod1) and Super (Mod4). */
  predicate ReadsText(mask: bv32) {
    mask & 0x4C == 0
  }

  /** A key read as text, under what Lock makes of the modifiers. */
  function Read(code: nat, mask: bv32): seq<EmitSpec> {
    if ReadsText(mask) then [EmitSpec(code, LockedMask(code, mask))] else []
  }

  /** A press of a key that is down means nothing. */
  function Feel(k: Client, w: Wire): Client {
    match w
    case Mods(m) => k.(mods := m)
    case Key(code, pressed) =>
      if !pressed then k.(down := k.down - {code})
      else if code in k.down then k
      else
        k.(down := k.down + {code}, typed := k.typed + Read(code, Effective(k.mods)))
  }

  function FeelAll(k: Client, wire: seq<Wire>): Client
    decreases |wire|
  {
    if wire == [] then k else FeelAll(Feel(k, wire[0]), wire[1..])
  }

  lemma {:induction false} FeelConcat(k: Client, a: seq<Wire>, b: seq<Wire>)
    ensures FeelAll(k, a + b) == FeelAll(FeelAll(k, a), b)
    decreases |a|
  {
    hide Feel;
    if a == [] {
      assert a + b == b;
    } else {
      assert (a + b)[1..] == a[1..] + b;
      FeelConcat(Feel(k, a[0]), a[1..], b);
    }
  }

  lemma FeelOne(k: Client, w: Wire)
    ensures FeelAll(k, [w]) == Feel(k, w)
  {
    hide Feel;
    assert [w][1..] == [];
  }

  lemma FeelTap(k: Client, code: nat)
    requires code !in k.down
    ensures FeelAll(k, PressRelease(code)) == k.(typed := k.typed + Read(code, Effective(k.mods)))
  {
    hide Effective, Read, FeelAll;
    FeelConcat(k, [Key(code, true)], [Key(code, false)]);
    FeelOne(k, Key(code, true));
    FeelOne(Feel(k, Key(code, true)), Key(code, false));
    assert [Key(code, true)] + [Key(code, false)] == PressRelease(code);
    assert k.down + {code} - {code} == k.down;
  }

  // ---------- one character ----------

  lemma UnderMask(raw: Snapshot, mods: bv32)
    ensures Effective(Under(raw, mods)) == Joined(Effective(raw), mods)
    ensures mods == 0 ==> Under(raw, mods) == raw
  {
  }

  lemma LevelsReadText(raw: Snapshot, mods: bv32)
    requires D.OnlyDanced(mods)
    ensures ReadsText(Effective(Under(raw, mods))) == ReadsText(Effective(raw))
  {
  }

  lemma CharWireShape(raw: Snapshot, heldKey: Option<nat>, spec: EmitSpec)
    ensures CharWire(raw, heldKey, spec)
         == (if heldKey == Some(spec.keycode) then [Key(spec.keycode, false)] else [])
            + if spec.mods == 0 then PressRelease(spec.keycode)
              else [Mods(Under(raw, spec.mods))] + PressRelease(spec.keycode) + [Mods(raw)]
  {
    hide PressRelease;
  }

  /** A tap between a change of modifiers and their restoration. */
  lemma FeelDanced(k: Client, emit: Snapshot, code: nat)
    requires code !in k.down
    ensures FeelAll(k, [Mods(emit)] + PressRelease(code) + [Mods(k.mods)])
         == k.(typed := k.typed + Read(code, Effective(emit)))
  {
    hide Effective, Read, FeelAll;
    var k1 := k.(mods := emit);
    FeelOne(k, Mods(emit));
    FeelTap(k1, code);
    FeelOne(FeelAll(k1, PressRelease(code)), Mods(k.mods));
    FeelConcat(k, [Mods(emit)], PressRelease(code));
    FeelConcat(k, [Mods(emit)] + PressRelease(code), [Mods(k.mods)]);
  }

  lemma FeelPrelude(k: Client, heldKey: Option<nat>, code: nat)
    requires code in k.down ==> heldKey == Some(code)
    ensures FeelAll(k, if heldKey == Some(code) then [Key(code, false)] else []) == k.(down := k.down - {code})
  {
    hide FeelAll;
    FeelOne(k, Key(code, false));
    FeelNone(k);
    if code !in k.down {
      assert k.down - {code} == k.down;
    }
  }

  lemma FeelChar(k: Client, raw: Snapshot, heldKey: Option<nat>, spec: EmitSpec)
    requires k.mods == raw
    requires spec.keycode in k.down ==> heldKey == Some(spec.keycode)
    ensures FeelAll(k, CharWire(raw, heldKey, spec))
         == k.(down := k.down - {spec.keycode},
               typed := k.typed + Read(spec.keycode, Effective(Under(raw, spec.mods))))
  {
    UnderMask(raw, spec.mods);
    CharWireShape(raw, heldKey, spec);
    hide CharWire, Under, Effective, Read, FeelAll, PressRelease;
    var code := spec.keycode;
    var prelude := if heldKey == Some(code) then [Key(code, false)] else [];
    var k1 := k.(down := k.down - {code});
    FeelPrelude(k, heldKey, code);
    if spec.mods == 0 {
      FeelTap(k1, code);
      FeelConcat(k, prelude, PressRelease(code));
    } else {
      FeelDanced(k1, Under(raw, spec.mods), code);
      FeelConcat(k, prelude, [Mods(Under(raw, spec.mods))] + PressRelease(code) + [Mods(raw)]);
    }
  }

  function Symbol(code: nat, mask: bv32): string {
    match KeySymbol(code, LockedMask(code, mask))
    case None => ""
    case Some(x) => [x]
  }

  /** What the keys of one character come to: one character at most. */
  function CharRead(raw: Snapshot, c: char): string
    requires CharToEmit(c).Some?
  {
    var spec := CharToEmit(c).value;
    if ReadsText(Effective(raw)) then Symbol(spec.keycode, Joined(Effective(raw), spec.mods)) else ""
  }

  /** A character comes out as itself exactly when the held modifiers leave keys text and leave this key its
  character. */
  predicate Survives(raw: Snapshot, c: char)
    requires CharToEmit(c).Some?
  {
    ReadsText(Effective(raw)) && ReadsLocked(c, Effective(raw))
  }

  lemma CharReadExact(raw: Snapshot, c: char)
    requires CharToEmit(c).Some?
    ensures |CharRead(raw, c)| <= 1
    ensures CharRead(raw, c) == [c] <==> Survives(raw, c)
  {
    hide CharToEmit, KeySymbol, ReadsLocked, ReadsText, Effective, Joined, LockedMask;
    EmitDecodesLockedIff(c, Effective(raw));
  }

  lemma ReadAdds(base: string, typed: seq<EmitSpec>, code: nat, mask: bv32)
    requires code != KEY_BACKSPACE
    ensures E.TextOf(base, typed + Read(code, mask))
         == E.TextOf(base, typed) + if ReadsText(mask) then Symbol(code, mask) else ""
  {
    hide KeySymbol, E.TextOf, ReadsText, LockedMask;
    D.TypedOne(base, typed, EmitSpec(code, LockedMask(code, mask)));
    assert typed + [] == typed;
  }

  lemma ReadCharSpec(raw: Snapshot, c: char, base: string, typed: seq<EmitSpec>)
    requires CharToEmit(c).Some?
    ensures var spec := CharToEmit(c).value;
            E.TextOf(base, typed + Read(spec.keycode, Effective(Under(raw, spec.mods))))
            == E.TextOf(base, typed) + CharRead(raw, c)
  {
    hide CharToEmit, KeySymbol, E.TextOf, Effective, ReadsText, Under, Read, Joined, LockedMask, D.OnlyDanced;
    var spec := CharToEmit(c).value;
    D.SpecIsDanced(c);
    LevelsReadText(raw, spec.mods);
    UnderMask(raw, spec.mods);
    EmitsPlainKey(c);
    ReadAdds(base, typed, spec.keycode, Effective(Under(raw, spec.mods)));
  }

  /** One character of a text. */
  lemma CharDecodes(k: Client, raw: Snapshot, heldKey: Option<nat>, c: char, base: string)
    requires k.mods == raw && CharToEmit(c).Some?
    requires var code := CharToEmit(c).value.keycode; code in k.down ==> heldKey == Some(code)
    ensures var k' := FeelAll(k, CharWire(raw, heldKey, CharToEmit(c).value));
            && E.TextOf(base, k'.typed) == E.TextOf(base, k.typed) + CharRead(raw, c)
            && k'.mods == raw && k'.down <= k.down
  {
    hide CharToEmit, KeySymbol, E.TextOf, FeelAll, CharWire, Effective, Read, CharRead, Under;
    FeelChar(k, raw, heldKey, CharToEmit(c).value);
    ReadCharSpec(raw, c, base, k.typed);
  }

  lemma FeelNone(k: Client)
    ensures FeelAll(k, []) == k
  {
  }

  // ---------- a text ----------

  predicate AllEmittable(text: string) {
    forall c <- text :: CharToEmit(c).Some?
  }

  function TextWire(raw: Snapshot, heldKey: Option<nat>, text: string): seq<Wire>
    requires AllEmittable(text)
  {
    if text == "" then []
    else TextWire(raw, heldKey, text[..|text| - 1]) + CharWire(raw, heldKey, CharToEmit(text[|text| - 1]).value)
  }

  function TextEchoes(raw: Snapshot, text: string): seq<Snapshot>
    requires AllEmittable(text)
  {
    if text == "" then []
    else TextEchoes(raw, text[..|text| - 1]) + CharEchoes(raw, CharToEmit(text[|text| - 1]).value)
  }

  /** What the keys of a text come to. */
  function TextRead(raw: Snapshot, text: string): string
    requires AllEmittable(text)
  {
    if text == "" then "" else TextRead(raw, text[..|text| - 1]) + CharRead(raw, text[|text| - 1])
  }

  /** A text comes out whole exactly when each of its characters does: none can make up for another. */
  lemma {:induction false} TextReadExact(raw: Snapshot, text: string)
    requires AllEmittable(text)
    ensures |TextRead(raw, text)| <= |text|
    ensures TextRead(raw, text) == text <==> forall c <- text :: Survives(raw, c)
    decreases |text|
  {
    hide CharToEmit, CharRead, Survives;
    if text != "" {
      var c, init := text[|text| - 1], text[..|text| - 1];
      assert text == init + [c];
      TextReadExact(raw, init);
      CharReadExact(raw, c);
      var lead, last := TextRead(raw, init), CharRead(raw, c);
      if lead + last == text {
        assert |last| == 1 && lead == (lead + last)[..|init|] && last == (lead + last)[|init|..];
      }
    }
  }

  /** The client's modifiers are the user's, every character has a key, and the one key of the text that
  may be down at the client is the one to be released first. */
  predicate Sendable(k: Client, raw: Snapshot, heldKey: Option<nat>, text: string) {
    && k.mods == raw && AllEmittable(text)
    && forall c <- text :: CharToEmit(c).value.keycode in k.down ==> heldKey == Some(CharToEmit(c).value.keycode)
  }

  /** Every character comes out as itself over the modifiers the user holds. */
  predicate Typable(raw: Snapshot, text: string)
    requires AllEmittable(text)
  {
    forall c <- text :: Survives(raw, c)
  }

  /** The client reads `TextRead`, and its modifiers end as the user's. */
  lemma {:induction false} TextReadIs(k: Client, raw: Snapshot, heldKey: Option<nat>, text: string, base: string)
    requires Sendable(k, raw, heldKey, text)
    ensures var k' := FeelAll(k, TextWire(raw, heldKey, text));
            && E.TextOf(base, k'.typed) == E.TextOf(base, k.typed) + TextRead(raw, text)
            && k'.mods == raw && k'.down <= k.down
    decreases |text|
  {
    hide CharToEmit, E.TextOf, CharWire, CharRead;
    if text == "" {
      assert E.TextOf(base, k.typed) + "" == E.TextOf(base, k.typed);
    } else {
      hide FeelAll;
      var c, init := text[|text| - 1], text[..|text| - 1];
      assert c in text && forall x <- init :: x in text;
      TextReadIs(k, raw, heldKey, init, base);
      var k1 := FeelAll(k, TextWire(raw, heldKey, init));
      CharDecodes(k1, raw, heldKey, c, base);
      FeelConcat(k, TextWire(raw, heldKey, init), CharWire(raw, heldKey, CharToEmit(c).value));
      assert E.TextOf(base, k.typed) + TextRead(raw, init) + CharRead(raw, c)
          == E.TextOf(base, k.typed) + TextRead(raw, text);
    }
  }

  lemma SameTail(base: string, a: string, b: string)
    ensures base + a == base + b <==> a == b
  {
    if base + a == base + b {
      assert a == (base + a)[|base|..] && b == (base + b)[|base|..];
    }
  }

  /** The client reads the text exactly when it is typable over what the user holds. */
  lemma TextDecodesIff(k: Client, raw: Snapshot, heldKey: Option<nat>, text: string, base: string)
    requires Sendable(k, raw, heldKey, text)
    ensures var k' := FeelAll(k, TextWire(raw, heldKey, text));
            && (E.TextOf(base, k'.typed) == E.TextOf(base, k.typed) + text <==> Typable(raw, text))
            && k'.mods == raw && k'.down <= k.down
  {
    hide CharToEmit, E.TextOf, FeelAll, TextWire, TextRead, Survives;
    TextReadIs(k, raw, heldKey, text, base);
    TextReadExact(raw, text);
    SameTail(E.TextOf(base, k.typed), TextRead(raw, text), text);
  }

  // ---------- Backspaces ----------

  function BackspacesWire(raw: Snapshot, n: nat): seq<Wire> {
    if n == 0 then [] else BackspacesWire(raw, n - 1) + BackspaceWire(raw)
  }

  lemma ClearReadsText(raw: Snapshot)
    ensures ReadsText(Effective(Snapshot(0, 0, 0, raw.group)))
    ensures !NeedsGuard(raw) ==> ReadsText(Effective(raw))
  {
  }

  lemma ReadIsOne(code: nat, mask: bv32)
    requires ReadsText(mask)
    ensures Read(code, mask) == [EmitSpec(code, LockedMask(code, mask))]
  {
    hide ReadsText, LockedMask;
  }

  lemma FeelBackspace(k: Client, raw: Snapshot)
    requires k.mods == raw && KEY_BACKSPACE !in k.down
    ensures exists mods :: FeelAll(k, BackspaceWire(raw)) == k.(typed := k.typed + [EmitSpec(KEY_BACKSPACE, mods)])
  {
    ClearReadsText(raw);
    BackspaceWireShape(raw);
    hide Effective, ReadsText, FeelAll, NeedsGuard, BackspaceWire, Read, LockedMask;
    var mask := Effective(if NeedsGuard(raw) then Snapshot(0, 0, 0, raw.group) else raw);
    ReadIsOne(KEY_BACKSPACE, mask);
    if NeedsGuard(raw) {
      FeelDanced(k, Snapshot(0, 0, 0, raw.group), KEY_BACKSPACE);
    } else {
      FeelTap(k, KEY_BACKSPACE);
    }
    assert FeelAll(k, BackspaceWire(raw)) == k.(typed := k.typed + [EmitSpec(KEY_BACKSPACE, LockedMask(KEY_BACKSPACE, mask))]);
  }

  /** Whatever the user holds, each Backspace deletes one character. */
  lemma {:induction false} BackspacesDecode(k: Client, raw: Snapshot, n: nat, base: string)
    requires k.mods == raw && KEY_BACKSPACE !in k.down
    ensures var k' := FeelAll(k, BackspacesWire(raw, n));
            && E.TextOf(base, k'.typed) == Drop(E.TextOf(base, k.typed), n)
            && k'.mods == raw && k'.down == k.down
    decreases n
  {
    hide KeySymbol, E.TextOf, BackspaceWire;
    if n == 0 {
      assert Drop(E.TextOf(base, k.typed), 0) == E.TextOf(base, k.typed);
    } else {
      hide FeelAll;
      BackspacesDecode(k, raw, n - 1, base);
      var k1 := FeelAll(k, BackspacesWire(raw, n - 1));
      FeelBackspace(k1, raw);
      var mods :| FeelAll(k1, BackspaceWire(raw)) == k1.(typed := k1.typed + [EmitSpec(KEY_BACKSPACE, mods)]);
      FeelConcat(k, BackspacesWire(raw, n - 1), BackspaceWire(raw));
      D.TypedOne(base, k1.typed, EmitSpec(KEY_BACKSPACE, mods));
      D.DropTwice(E.TextOf(base, k.typed), n - 1);
    }
  }

  /** A whole edit on the virtual keyboard: the last `n` characters go, the text comes exactly when it is
  typable, and the modifiers are the user's again. */
  lemma EditDecodes(k: Client, raw: Snapshot, heldKey: Option<nat>, n: nat, text: string, base: string)
    requires Sendable(k, raw, heldKey, text) && KEY_BACKSPACE !in k.down
    ensures var k' := FeelAll(k, BackspacesWire(raw, n) + TextWire(raw, heldKey, text));
            && (E.TextOf(base, k'.typed) == Drop(E.TextOf(base, k.typed), n) + text <==> Typable(raw, text))
            && k'.mods == raw
  {
    hide E.TextOf, FeelAll, TextWire, BackspacesWire, CharToEmit, Typable;
    FeelConcat(k, BackspacesWire(raw, n), TextWire(raw, heldKey, text));
    BackspacesDecode(k, raw, n, base);
    TextDecodesIff(FeelAll(k, BackspacesWire(raw, n)), raw, heldKey, text, base);
  }

  // ---------- the edit strategy on this wire ----------

  /** The channels of input-method version 2 with a virtual keyboard: whole texts of the inventory. */
  const V2: S.Channels := S.Channels(text => AllEmittable(text), text => false)

  /** What an operation of the edit strategy puts on this wire; the others go through text input. */
  function OpWire(raw: Snapshot, heldKey: Option<nat>, op: S.SinkOp): seq<Wire> {
    match op
    case VkKey(code, pressed) => VkKeyWire(raw, code, pressed)
    case KeyChannelText(text) => if AllEmittable(text) then TextWire(raw, heldKey, text) else []
    case _ => []
  }

  function OpsWire(raw: Snapshot, heldKey: Option<nat>, ops: seq<S.SinkOp>): seq<Wire> {
    if ops == [] then [] else OpsWire(raw, heldKey, ops[..|ops| - 1]) + OpWire(raw, heldKey, ops[|ops| - 1])
  }

  lemma OpsWireOn(raw: Snapshot, heldKey: Option<nat>, ops: seq<S.SinkOp>, op: S.SinkOp)
    ensures OpsWire(raw, heldKey, ops + [op]) == OpsWire(raw, heldKey, ops) + OpWire(raw, heldKey, op)
  {
    hide OpWire;
    assert (ops + [op])[..|ops|] == ops;
  }

  lemma {:induction false} BackspaceKeysWire(raw: Snapshot, heldKey: Option<nat>, n: nat)
    ensures OpsWire(raw, heldKey, S.BackspaceKeys(n)) == BackspacesWire(raw, n)
    decreases n
  {
    hide VkKeyWire;
    if n > 0 {
      var press, release := S.VkKey(KEY_BACKSPACE, true), S.VkKey(KEY_BACKSPACE, false);
      BackspaceKeysWire(raw, heldKey, n - 1);
      OpsWireOn(raw, heldKey, S.BackspaceKeys(n - 1), press);
      OpsWireOn(raw, heldKey, S.BackspaceKeys(n - 1) + [press], release);
      assert S.BackspaceKeys(n) == S.BackspaceKeys(n - 1) + [press] + [release];
    }
  }

  /** A replacement goes whole through one channel: all of it by keys, or none of it. */
  lemma ReplacementIsWhole(raw: Snapshot, heldKey: Option<nat>, n: nat, text: string)
    ensures OpsWire(raw, heldKey, S.ForwardOps(V2, n, text, true))
         == BackspacesWire(raw, n) + if AllEmittable(text) then TextWire(raw, heldKey, text) else []
    ensures S.CommitString(text) in S.ForwardOps(V2, n, text, true) <==> !AllEmittable(text)
  {
    hide AllEmittable, TextWire, VkKeyWire, BackspacesWire;
    var keys := S.BackspaceKeys(n);
    BackspaceKeysWire(raw, heldKey, n);
    S.BackspaceKeysAre(n);
    if AllEmittable(text) {
      OpsWireOn(raw, heldKey, keys, S.KeyChannelText(text));
    } else {
      OpsWireOn(raw, heldKey, keys, S.CommitString(text));
      OpsWireOn(raw, heldKey, keys + [S.CommitString(text)], S.Commit);
      assert keys + [S.CommitString(text)] + [S.Commit] == keys + [S.CommitString(text), S.Commit];
    }
  }

  /** The wire refines the abstract client: the keys of an edit, read by a client with the generated map,
  leave the text before the cursor that the edit strategy's operations stand for, exactly when the text is
  typable over what the user holds. */
  lemma WireRefinesClient(k: Client, raw: Snapshot, heldKey: Option<nat>, n: nat, text: string, kind: C.ClientKind,
          doc: C.Doc)
    requires Sendable(k, raw, heldKey, text) && KEY_BACKSPACE !in k.down
    requires doc.selected == "" && E.TextOf("", k.typed) == doc.before
    ensures var ops := S.ForwardOps(V2, n, text, true);
            var k' := FeelAll(k, OpsWire(raw, heldKey, ops));
            && C.ReceiveAll(kind, C.Idle(doc), ops) == Some(C.Idle(C.EditDoc(doc, n, text)))
            && (E.TextOf("", k'.typed) == C.EditDoc(doc, n, text).before <==> Typable(raw, text))
            && k'.mods == raw
  {
    hide E.TextOf, FeelAll, TextWire, BackspacesWire, OpsWire, Typable, C.ReceiveAll, S.ForwardOps;
    EditDecodes(k, raw, heldKey, n, text, "");
    ReplacementIsWhole(raw, heldKey, n, text);
    C.ForwardRefinesIff(kind, V2, doc, n, text, true);
  }

  // ---------- the sink ----------

  function Least(a: nat, b: nat): nat {
    if a < b then a else b
  }

  method Preflight(text: string) returns (all: bool)
    ensures all <==> AllEmittable(text)
  {
    hide CharToEmit;
    for i := 0 to |text|
      invariant AllEmittable(text[..i])
    {
      if CharToEmit(text[i]).None? {
        assert text[i] in text;
        return false;
      }
    }
    assert text[..|text|] == text;
    return true;
  }

  /** `commit_key_channel_text` on input-method version 2.  Nothing is sent unless every character has a
  key; then all are, short of a connection whose flush fails after `flushes` good ones. */
  method CommitKeyChannelText(vk: SyntheticMods, heldKey: Option<nat>, text: string, flushes: nat) returns (taken: bool)
    modifies vk
    ensures taken <==> AllEmittable(text)
    ensures !taken ==> vk.wire == old(vk.wire) && vk.Model() == old(vk.Model())
    ensures taken ==>
      var sent := text[..Least(|text|, flushes + 1)];
      && AllEmittable(sent)
      && vk.wire == old(vk.wire) + TextWire(old(vk.rawMods), heldKey, sent)
      && vk.expected == old(vk.expected) + TextEchoes(old(vk.rawMods), sent)
      && vk.rawMods == old(vk.rawMods) && vk.adopted == old(vk.adopted)
  {
    hide CharToEmit, CharWire, CharEchoes;
    taken := Preflight(text);
    if !taken {
      return;
    }
    for i := 0 to |text|
      invariant i <= flushes && AllEmittable(text[..i])
      invariant vk.wire == old(vk.wire) + TextWire(old(vk.rawMods), heldKey, text[..i])
      invariant vk.expected == old(vk.expected) + TextEchoes(old(vk.rawMods), text[..i])
      invariant vk.rawMods == old(vk.rawMods) && vk.adopted == old(vk.adopted)
    {
      assert text[i] in text;
      var emitted := vk.EmitChar(heldKey, text[i]);
      assert emitted;
      assert text[..i + 1][..i] == text[..i];
      if i == flushes {
        return;
      }
    }
    assert text[..|text|] == text;
  }
}
