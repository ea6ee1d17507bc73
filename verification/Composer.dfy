/** The composer's confirmation machine, as functions on its state.

`Composer` in ComposerClass.dfy updates fields as the source does and is proved equal to these
functions; what the machine promises is proved about them in the files that follow.  Clock
readings are the boolean inputs `recent` and `idle`. */
module Composers {
  import opened Utf8
  import opened Texts
  import opened Engines
  import opened Shadows
  import opened Strategies
  import opened Firefox
  import opened Diff

  datatype PendingEdit = PendingEdit(backspaces: nat, commit: string, baseWord: string)

  datatype Pending = Pending(ch: char, repairable: bool, edit: Option<PendingEdit>, fromFrame: bool)

  datatype Confirmation =
    | Live
    | LiveConfirmed
    | FrameDerived
    | AwaitingFrame
    | PendingRaw(pending: Pending)
  {
    predicate IsUncertain() {
      !(Live? || LiveConfirmed?)
    }

    predicate IsFrameDerived() {
      FrameDerived? || (PendingRaw? && pending.fromFrame)
    }

    /** An engine edit that was composed but not shown is outstanding. */
    predicate HasStash() {
      PendingRaw? && pending.edit.Some?
    }
  }

  datatype Frame = Frame(text: string, cursor: nat, anchor: nat) {
    function Before(): string {
      TextBefore(text, cursor)
    }
  }

  const NO_FRAME := Frame("", 0, 0)

  datatype State<E(!new)> = State(
    engine: E,
    lastInput: Option<char>,
    commitStringFunctional: bool,
    retroactive: bool,
    quirk: Quirk,
    confirmEdits: bool,
    confirmation: Confirmation,
    tier: BackspaceMethod,
    shadow: Shadow,
    prev: Frame)
  {
    function Word(): string {
      CurrentWord(shadow.text)
    }
  }

  datatype Decision = ForwardRaw | Apply(backspaces: nat, commit: string)

  datatype RetroEdit = RetroEdit(backspaces: nat, commit: string)

  function NewState<E(!new)>(eng: Engine<E>, m: BackspaceMethod): State<E> {
    State(eng.initial, None, true, false, NEW, false, Live, m, EMPTY, NO_FRAME)
  }

  // ---------- keys ----------

  datatype KeyFacts = KeyFacts(
    ch: char,
    tier: BackspaceMethod,
    confirmationEnabled: bool,
    confirmation: Confirmation,
    previousWasSeparator: bool,
    engineAtWordBeginning: bool,
    shadowWord: string)

  datatype KeyStart = KeyStart(
    contextUncertain: bool,
    resetSpeculation: bool,
    clearNonAlphaContext: bool,
    seedWord: Option<string>)

  datatype KeyFinish = ApplyNow(backspaces: nat, commit: string) | Forward(pending: Option<Pending>)

  function Capture<E(!new)>(eng: Engine<E>, s: State<E>, ch: char): KeyFacts {
    KeyFacts(ch, s.tier, s.confirmEdits, s.confirmation,
             s.lastInput.Some? && !IsAsciiAlphabetic(s.lastInput.value),
             eng.atWordBeginning(s.engine), s.Word())
  }

  function PlanKeyStart(f: KeyFacts): KeyStart {
    KeyStart(
      f.confirmationEnabled && f.tier == SurroundingText && f.confirmation.IsUncertain(),
      f.confirmation.PendingRaw?,
      !IsAsciiAlphabetic(f.ch),
      if !f.confirmation.PendingRaw? && f.engineAtWordBeginning && !f.previousWasSeparator && f.shadowWord != ""
      then Some(f.shadowWord) else None)
  }

  function PlanKeyFinish(ch: char, uncertain: bool, priorPending: bool, fromFrame: bool,
                         r: ProcessResult, baseWord: string): KeyFinish {
    if r.consumed && !uncertain then ApplyNow(r.backspaces, r.commit)
    else Forward(
      if uncertain then
        var edit := if r.consumed then Some(PendingEdit(r.backspaces, r.commit, baseWord)) else None;
        Some(Pending(ch, !priorPending, edit, fromFrame))
      else None)
  }

  /** The engine and its provenance just before the key reaches it. */
  function BeginKey<E(!new)>(eng: Engine<E>, s: State<E>, start: KeyStart): State<E> {
    var s1 := if start.resetSpeculation then s.(engine := eng.initial, retroactive := false) else s;
    var s2 := if start.clearNonAlphaContext then s1.(retroactive := false, quirk := Cleared(s1.quirk)) else s1;
    match start.seedWord
    case None => s2
    case Some(word) =>
      var (engine, seeded) := FeedGated(eng, s2.engine, word);
      s2.(engine := engine, retroactive := seeded)
  }

  function FinishKey<E(!new)>(s: State<E>, ch: char, finish: KeyFinish): (State<E>, Decision) {
    match finish
    case ApplyNow(backspaces, commit) => (s.(confirmation := Live), Apply(backspaces, commit))
    case Forward(pending) =>
      (s.(shadow := s.shadow.(text := s.shadow.text + [ch]),
          quirk := Cleared(s.quirk),
          confirmation := if pending.Some? then PendingRaw(pending.value) else Live),
       ForwardRaw)
  }

  function FeedKey<E(!new)>(eng: Engine<E>, s: State<E>, ch: char): (State<E>, Decision) {
    var start := PlanKeyStart(Capture(eng, s, ch));
    var s1 := BeginKey(eng, s, start);
    var (engine, r) := eng.key(s1.engine, ch);
    FinishKey(s1.(engine := engine, lastInput := Some(ch)), ch,
              PlanKeyFinish(ch, start.contextUncertain, s.confirmation.PendingRaw?,
                            s.confirmation.IsFrameDerived(), r, s.Word()))
  }

  function UnrecordForwardedChar<E(!new)>(eng: Engine<E>, s: State<E>): State<E> {
    var s1 := s.(shadow := s.shadow.(text := Drop(s.shadow.text, 1)), confirmation := Live);
    if s.confirmation.HasStash() then s1.(engine := eng.initial, retroactive := false) else s1
  }

  function FeedBackspace<E(!new)>(eng: Engine<E>, s: State<E>): (State<E>, Decision) {
    var (engine, r) := eng.backspace(s.engine);
    var s1 := s.(engine := engine);
    if r.consumed then (s1, Apply(r.backspaces, r.commit))
    else
      var text := s.shadow.text;
      var wide := text != "" && text[|text| - 1] as int >= 0x80;
      var s2 := s1.(shadow := s1.shadow.(text := Drop(text, 1)));
      var s3 := if r.backspaces > 0 && wide then s2.(engine := eng.initial, retroactive := false) else s2;
      (s3.(quirk := Cleared(s3.quirk)), ForwardRaw)
  }

  // ---------- edits ----------

  /** A partial retroactive revert to ASCII that deletes a multibyte character. */
  predicate MultibyteRevert<E(!new)>(s: State<E>, backspaces: nat, commit: string) {
    var before := s.shadow.text;
    && s.retroactive && backspaces > 0 && IsAscii(commit) && backspaces < |before|
    && exists c | c in before[|before| - backspaces..] :: Width(c) > 1
  }

  predicate UsesForwardKey<E(!new)>(s: State<E>, backspaces: nat, commit: string) {
    s.quirk.useForwardDelete || s.quirk.forwardSticky || MultibyteRevert(s, backspaces, commit)
  }

  /** Reset, then seed from `word` through the render gate, unless there is no word. */
  function Seeded<E(!new)>(eng: Engine<E>, word: string): (E, bool) {
    if word == "" then (eng.initial, false) else FeedGated(eng, eng.initial, word)
  }

  function RefreshAfterApply<E(!new)>(eng: Engine<E>, s: State<E>, backspaces: nat): State<E> {
    if backspaces == 0 || !s.retroactive then s
    else
      var (engine, seeded) := Seeded(eng, s.Word());
      s.(engine := engine, retroactive := seeded)
  }

  /** `Strategy::apply`. */
  function StrategyApply(m: BackspaceMethod, ch: Channels, sh: Shadow, backspaces: nat, commit: string,
                         unit: DeleteUnit): (Shadow, seq<SinkOp>) {
    match m
    case SurroundingText => (SurroundingShadow(sh, backspaces, commit), SurroundingOps(sh, backspaces, commit, unit))
    case ForwardKey => (ForwardShadow(sh, backspaces, commit), ForwardOps(ch, backspaces, commit, false))
  }

  function ApplyEdit<E(!new)>(eng: Engine<E>, ch: Channels, s: State<E>, backspaces: nat, commit: string,
                              preserveEngine: bool): (State<E>, seq<SinkOp>) {
    var deleteEcho := Drop(s.shadow.text, backspaces);
    var forward := UsesForwardKey(s, backspaces, commit);
    var (shadow, ops) :=
      if forward then (ForwardShadow(s.shadow, backspaces, commit), ForwardOps(ch, backspaces, commit, true))
      else StrategyApply(s.tier, ch, s.shadow, backspaces, commit, s.quirk.deleteUnit);
    var quirk := if forward then s.quirk.(forwardSticky := s.quirk.forwardSticky || s.quirk.useForwardDelete)
                 else UnitUsed(s.quirk);
    var s1 := s.(shadow := shadow, quirk := quirk);
    var s2 := if preserveEngine then s1 else RefreshAfterApply(eng, s1, backspaces);
    (if backspaces > 0 && s.tier == SurroundingText
     then s2.(quirk := s2.quirk.(expectedEcho := Some(PendingEcho(shadow.text, deleteEcho))))
     else s2, ops)
  }

  function ApplyRepair<E(!new)>(eng: Engine<E>, ch: Channels, s: State<E>, repair: RetroEdit): (State<E>, seq<SinkOp>) {
    var (s1, ops) := ApplyEdit(eng, ch, s, repair.backspaces, repair.commit, true);
    (s1.(quirk := s1.quirk.(expectedEcho := None)), ops)
  }

  // ---------- frames ----------

  function Revalidate<E(!new)>(s: State<E>, before: string): State<E> {
    if s.confirmation.LiveConfirmed? && before != s.shadow.text then s.(confirmation := AwaitingFrame) else s
  }

  /** Take the frame as ground truth for the shadow and as the last recorded frame. */
  function Record<E(!new)>(s: State<E>, f: Frame): State<E> {
    s.(shadow := Observed(f.text, f.cursor, f.anchor), prev := f)
  }

  /** Reset the engine and seed it from `word` through the render gate. */
  function Reseed<E(!new)>(eng: Engine<E>, s: State<E>, word: string): State<E> {
    var (engine, seeded) := Seeded(eng, word);
    s.(engine := engine, retroactive := seeded, confirmation := if seeded then FrameDerived else Live)
  }

  /** `Iterator::zip(..).take_while(==).count()` on two texts. */
  function CommonPrefix(a: string, b: string): (n: nat)
    ensures n <= |a| && n <= |b|
    ensures a[..n] == b[..n]
  {
    if a == "" || b == "" || a[0] != b[0] then 0 else 1 + CommonPrefix(a[1..], b[1..])
  }

  /** The edit that turns the word on screen into the word the engine wants. */
  function RepairFor(screen: string, desired: string): Option<RetroEdit> {
    var n := CommonPrefix(screen, desired);
    if n == |screen| && n == |desired| then None else Some(RetroEdit(|screen| - n, desired[n..]))
  }

  predicate InsertionProven<E(!new)>(s: State<E>, f: Frame, ch: char) {
    || ConfirmsInsertedChar(s.prev.text, f.text, f.cursor, ch)
    || (f.Before() == s.shadow.text && f.text != s.prev.text)
  }

  /** The key replayed on an engine that was seeded with the base word. */
  function ReplayOn<E(!new)>(eng: Engine<E>, s: State<E>, engine: E, ch: char, base: string): (State<E>,
          Option<RetroEdit>) {
    var (engine', r) := eng.key(engine, ch);
    (s.(engine := engine', retroactive := true, confirmation := FrameDerived),
     if r.consumed then RepairFor(base + [ch], Drop(base, r.backspaces) + r.commit) else None)
  }

  /** The base word replayed through the raw key, for a frame that proved the key elsewhere. */
  function Replay<E(!new)>(eng: Engine<E>, s: State<E>, f: Frame, ch: char, base: string): (State<E>,
          Option<RetroEdit>) {
    var (engine, seeded) := Seeded(eng, base);
    var s1 := Record(s, f).(lastInput := Some(ch));
    if seeded then ReplayOn(eng, s1, engine, ch, base) else (Reseed(eng, s1, base + [ch]), None)
  }

  /** `confirm_pending_raw_key`; the frame ends in the pending key. */
  function ConfirmKey<E(!new)>(eng: Engine<E>, s: State<E>, f: Frame, p: Pending): (State<E>, Option<RetroEdit>)
    requires f.Before() != ""
  {
    var before := f.Before();
    var base := CurrentWord(before[..|before| - 1]);
    if !InsertionProven(s, f, p.ch) || !p.repairable then
      (Reseed(eng, Record(s, f).(lastInput := Some(p.ch)), CurrentWord(before)), None)
    else if p.edit.Some? && p.edit.value.baseWord == base then
      (Record(s, f).(lastInput := Some(p.ch), retroactive := true, confirmation := FrameDerived),
       Some(RetroEdit(p.edit.value.backspaces + 1, p.edit.value.commit)))
    else Replay(eng, s, f, p.ch, base)
  }

  /** The frame is selection-free and ends in the pending key. */
  predicate Confirms<E(!new)>(s: State<E>, f: Frame) {
    var before := f.Before();
    s.confirmation.PendingRaw? && f.cursor == f.anchor
    && before != "" && before[|before| - 1] == s.confirmation.pending.ch
  }

  datatype SurroundingDecision = SurroundingDecision(trust: bool, reseed: bool)

  /** `SurroundingObserver::observe`. */
  function Classify(recent: bool, oneChar: bool, deletion: bool, force: bool, confirmed: bool): SurroundingDecision {
    SurroundingDecision(
      !(recent && !oneChar && !confirmed && !force),
      force || (!oneChar && !recent && !deletion))
  }

  /** What a trusted frame does before the engine is reset or reseeded from it. */
  function Synchronize<E(!new)>(eng: Engine<E>, s: State<E>, f: Frame, confirmed: bool): State<E> {
    var next := if s.confirmation.IsFrameDerived() then FrameDerived
                else if confirmed && !s.confirmation.PendingRaw? then LiveConfirmed
                else Live;
    var s1 := s.(shadow := Observed(f.text, f.cursor, f.anchor), confirmation := next);
    if s.confirmation.HasStash() then s1.(engine := eng.initial, retroactive := false) else s1
  }

  /** A trusted frame that is not the answer to a pending key. */
  function TrustFrame<E(!new)>(eng: Engine<E>, s: State<E>, f: Frame, confirmed: bool, deletion: bool,
          reseed: bool): State<E> {
    var s2 := Synchronize(eng, s, f, confirmed);
    var s3 :=
      if deletion then
        if confirmed then s2
        else s2.(engine := eng.initial, retroactive := false, confirmation := Live, lastInput := None)
      else if reseed then
        Reseed(eng, s2, CurrentWordBeforeCursor(f.text, Min(f.cursor, f.anchor))).(lastInput := None)
      else s2;
    s3.(prev := f)
  }

  /** The reseed gate, for a frame that is not the answer to a pending key. */
  function GateFrame<E(!new)>(eng: Engine<E>, s: State<E>, f: Frame, force: bool, recent: bool,
          oneChar: bool): State<E> {
    var before := f.Before();
    var confirmed := before == s.shadow.text;
    var deletion := DetectDeletion(s.prev.text, s.prev.cursor, f.text, f.cursor) || confirmed;
    var decision := Classify(recent, oneChar, deletion, force, confirmed);
    var quirk := Observe(s.quirk, before, recent, s.retroactive);
    var s1 := s.(quirk := quirk,
                 commitStringFunctional := s.commitStringFunctional
                                           && !(quirk.useForwardDelete || quirk.forwardSticky));
    if !decision.trust then s1 else TrustFrame(eng, s1, f, confirmed, deletion, decision.reseed)
  }

  predicate OneCharTyped<E(!new)>(s: State<E>, f: Frame) {
    DetectOneCharInsertion(s.prev.text, s.prev.cursor, f.text, f.cursor)
  }

  /** `apply_surrounding`. */
  function ApplyFrame<E(!new)>(eng: Engine<E>, s: State<E>, f: Frame, force: bool, recent: bool): (State<E>,
          Option<RetroEdit>) {
    var s1 := Revalidate(s, f.Before());
    if Confirms(s1, f) then ConfirmKey(eng, s1, f, s1.confirmation.pending)
    else (GateFrame(eng, s1, f, force, recent, OneCharTyped(s, f)), None)
  }

  predicate SkipsFrame<E(!new)>(s: State<E>, f: Frame, activate: bool, deactivate: bool) {
    !activate && !deactivate && s.quirk.expectedEcho.None? && f == s.prev
  }

  // ---------- lifecycle ----------

  function ResetComposition<E(!new)>(eng: Engine<E>, s: State<E>): State<E> {
    s.(engine := eng.initial, shadow := EMPTY, lastInput := None, retroactive := false,
       confirmation := AwaitingFrame, quirk := Cleared(s.quirk).(forwardSticky := false))
  }

  function FullReset<E(!new)>(eng: Engine<E>, s: State<E>): State<E> {
    ResetComposition(eng, s).(prev := NO_FRAME)
  }

  /** `check_idle_reset` once the pause is long enough. */
  function IdleReset<E(!new)>(eng: Engine<E>, s: State<E>): State<E> {
    if s.tier == SurroundingText then
      if s.confirmation.LiveConfirmed? then s else s.(confirmation := AwaitingFrame)
    else s.(engine := eng.initial, shadow := EMPTY, lastInput := None, retroactive := false)
  }

  function SetMethod<E(!new)>(s: State<E>, m: BackspaceMethod): State<E> {
    if m == SurroundingText then s.(tier := m) else s.(tier := m, confirmation := Live)
  }
}
