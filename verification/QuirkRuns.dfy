/** The Firefox quirk over runs: a client that echoes what it did is left on the fast channel; one that
echoes something stale has the edit of its next key put on Backspace keys when that key is a letter, and
every edit after that. */
module QuirkRuns {
  import opened Texts
  import opened Engines
  import opened Shadows
  import opened Strategies
  import opened Firefox
  import opened Utf8
  import opened Diff
  import opened Composers
  import opened Runs
  import opened Safety

  // ---------- repeated frames ----------

  /** A frame that is skipped as a repeat would have released no repair and told the quirk nothing, and would
  be the last recorded frame as it is; inside the recent-action window, with no key pending and not
  forced, it would have left engine and shadow text alone too. */
  lemma SkippedFrameLosesNothing<E(!new)>(eng: Engine<E>, s: State<E>, f: Frame, activate: bool, deactivate: bool,
                                          force: bool, recent: bool)
    requires SkipsFrame(s, f, activate, deactivate)
    ensures var (s1, repair) := ApplyFrame(eng, s, f, force, recent);
            && repair.None? && s1.quirk == s.quirk && s1.prev == s.prev
            && (recent && !force && !s.confirmation.PendingRaw? && f.cursor <= f.anchor ==>
                  s1.engine == s.engine && s1.shadow.text == s.shadow.text)
  {
    RepeatIsNoInsertion(f.text, f.cursor);
    FrameEnds(eng, s, f, force, recent);
    FramePrev(eng, s, f, force, recent);
    hide ApplyFrame, DetectOneCharInsertion;
    assert Observe(s.quirk, f.Before(), recent, s.retroactive) == s.quirk;
    if ApplyFrame(eng, s, f, force, recent).1.Some? {
      RepairIsProven(eng, s, f, force, recent);
    }
    if recent && !force && !s.confirmation.PendingRaw? && f.cursor <= f.anchor {
      StaleEchoImmunity(eng, s, f);
      ForwardSelectsNothing(f);
    }
  }

  lemma ForwardSelectsNothing(f: Frame)
    requires f.cursor <= f.anchor
    ensures SelectedBefore(f.text, f.cursor, f.anchor) == ""
  {
    CharsWithinMonotone(f.text, f.cursor, f.anchor);
  }

  lemma RepeatIsNoInsertion(text: string, cursor: nat)
    ensures !DetectOneCharInsertion(text, cursor, text, cursor)
  {
  }

  /** A frame is recorded or leaves the last recorded one. */
  lemma FramePrev<E(!new)>(eng: Engine<E>, s: State<E>, f: Frame, force: bool, recent: bool)
    ensures var s1 := ApplyFrame(eng, s, f, force, recent).0; s1.prev == f || s1.prev == s.prev
  {
    hide FeedGated, WordStart, InsertionProven, RepairFor, DetectDeletion, DetectOneCharInsertion, TextBefore, Observe;
  }

  /** While an echo is awaited no repeat is skipped: the unchanged stale text reaches the quirk, and arms the
  slow channel exactly unless a retroactive cursor has left its word. */
  lemma StaleRepeatIsSeen<E(!new)>(eng: Engine<E>, s: State<E>, f: Frame, activate: bool, deactivate: bool, force: bool)
    requires !s.confirmation.PendingRaw? && Guarded(s.quirk)
    requires f == s.prev && StaleEcho(s.quirk, f.Before())
    ensures !SkipsFrame(s, f, activate, deactivate)
    ensures ApplyFrame(eng, s, f, force, true).0.quirk.useForwardDelete <==> !(s.retroactive && EndsAtBoundary(f.Before()))
  {
    FrameQuirk(eng, s, f, force, true);
    StaleEchoArmsIff(s.quirk, f.Before(), s.retroactive);
  }

  // ---------- a healthy client ----------

  /** The quirk has nothing to hold against the client: no echo is awaited, or the one of an edit that left
  `final` after it had deleted down to `deleted`. */
  predicate Trusting(q: Quirk, deleted: string, final: string) {
    && !q.useForwardDelete && Guarded(q)
    && (q.expectedEcho.None? || q.expectedEcho == Some(PendingEcho(final, deleted)))
  }

  /** A frame of one correction, as a healthy client sends it: the deletion done, or the final text. */
  predicate Healthy(ev: Event, deleted: string, final: string) {
    ev.Received? && (ev.frame.Before() == deleted || ev.frame.Before() == final)
  }

  lemma HealthyStep<E(!new)>(eng: Engine<E>, ch: Channels, s: State<E>, ev: Event, deleted: string, final: string)
    requires Trusting(s.quirk, deleted, final) && Healthy(ev, deleted, final)
    ensures var s1 := Step(eng, ch, s, ev).0; Trusting(s1.quirk, deleted, final)
  {
    var f := ev.frame;
    FrameEnds(eng, s, f, ev.force, ev.recent);
    hide ApplyFrame, ApplyEdit, TextBefore;
    var (s1, repair) := ApplyFrame(eng, s, f, ev.force, ev.recent);
    assert Trusting(s1.quirk, deleted, final);
    if repair.Some? {
      RepairQuirk(eng, ch, s1, repair.value);
    }
  }

  /** A repair forgets the echo it would await. */
  lemma RepairQuirk<E(!new)>(eng: Engine<E>, ch: Channels, s: State<E>, repair: RetroEdit)
    requires Guarded(s.quirk)
    ensures var q := ApplyRepair(eng, ch, s, repair).0.quirk;
            Guarded(q) && q.expectedEcho.None? && q.useForwardDelete == s.quirk.useForwardDelete
  {
    hide FeedGated, MultibyteRevert, SurroundingOps, ForwardOps;
  }

  lemma {:induction false} HealthyRun<E(!new)>(eng: Engine<E>, ch: Channels, s: State<E>, evs: seq<Event>,
                                               deleted: string, final: string)
    requires Trusting(s.quirk, deleted, final) && forall ev <- evs :: Healthy(ev, deleted, final)
    ensures Trusting(Run(eng, ch, s, evs).quirk, deleted, final)
    decreases |evs|
  {
    hide Step, Trusting, Healthy;
    if evs != [] {
      assert evs[0] in evs && forall ev <- evs[1..] :: ev in evs;
      HealthyStep(eng, ch, s, evs[0], deleted, final);
      HealthyRun(eng, ch, Step(eng, ch, s, evs[0]).0, evs[1..], deleted, final);
    }
  }

  /** What an edit awaits is what the abstract edit leaves. */
  lemma EditAwaits<E(!new)>(eng: Engine<E>, ch: Channels, s: State<E>, n: nat, commit: string, preserve: bool)
    requires s.tier == SurroundingText && n > 0 && s.shadow.selectedBeforeChars == 0 && Guarded(s.quirk)
    ensures var q := ApplyEdit(eng, ch, s, n, commit, preserve).0.quirk;
            && q.expectedEcho == Some(PendingEcho(Drop(s.shadow.text, n) + commit, Drop(s.shadow.text, n)))
            && q.useForwardDelete == s.quirk.useForwardDelete && Guarded(q)
  {
    hide FeedGated, MultibyteRevert, SurroundingOps, ForwardOps;
  }

  /** A key whose edit deletes: the step awaits the edit's own echoes, and no run of frames that report
  the deletion and the commit, in any order and any number, arms the slow channel. */
  lemma TruthfulEchoesArmNothing<E(!new)>(eng: Engine<E>, ch: Channels, s: State<E>, c: char, evs: seq<Event>)
    requires s.tier == SurroundingText && s.shadow.selectedBeforeChars == 0
    requires Guarded(s.quirk) && !s.quirk.useForwardDelete
    requires FeedKey(eng, s, c).1.Apply? && FeedKey(eng, s, c).1.backspaces > 0
    requires var d := FeedKey(eng, s, c).1; var deleted := Drop(s.shadow.text, d.backspaces);
             forall ev <- evs :: Healthy(ev, deleted, deleted + d.commit)
    ensures var d := FeedKey(eng, s, c).1;
            var deleted := Drop(s.shadow.text, d.backspaces);
            var s1 := Step(eng, ch, s, Key(c)).0;
            && s1.quirk.expectedEcho == Some(PendingEcho(deleted + d.commit, deleted))
            && !Run(eng, ch, s1, evs).quirk.useForwardDelete
  {
    hide FeedKey, ApplyEdit, Run, Healthy, Drop;
    var (fed, d) := FeedKey(eng, s, c);
    FeedKeyShape(eng, s, c);
    FedQuirk(eng, s, c);
    EditAwaits(eng, ch, fed, d.backspaces, d.commit, false);
    var deleted := Drop(s.shadow.text, d.backspaces);
    HealthyRun(eng, ch, Step(eng, ch, s, Key(c)).0, evs, deleted, deleted + d.commit);
  }

  /** What a key does to the quirk: a key that is no letter, or is passed on, clears all but the stickiness. */
  lemma FedQuirk<E(!new)>(eng: Engine<E>, s: State<E>, c: char)
    ensures var (s1, d) := FeedKey(eng, s, c);
            && s1.quirk == (if d.ForwardRaw? || !IsAsciiAlphabetic(c) then Cleared(s.quirk) else s.quirk)
            && s1.tier == s.tier
  {
    hide FeedGated, WordStart;
  }

  // ---------- a stale client ----------

  /** The frame is neither of the two echoes that the last edit expects. */
  predicate StaleEcho(q: Quirk, before: string) {
    q.expectedEcho.Some? && before != q.expectedEcho.value.expected && before != q.expectedEcho.value.deleteEcho
  }

  /** A recent stale echo arms the slow channel exactly unless a retroactive cursor has left its word. */
  lemma StaleEchoArmsIff(q: Quirk, before: string, retroactive: bool)
    requires StaleEcho(q, before) && Guarded(q)
    ensures Observe(q, before, true, retroactive).useForwardDelete <==> !(retroactive && EndsAtBoundary(before))
  {
  }

  /** Edits by Backspace keys, with the replacement on the key channel where there is one. */
  ghost predicate ByKeys(ch: Channels, out: Output) {
    out.Edit? ==> exists n, commit :: out.ops == ForwardOps(ch, n, commit, true)
  }

  lemma SlowEdit<E(!new)>(eng: Engine<E>, ch: Channels, s: State<E>, n: nat, commit: string, preserve: bool)
    requires s.quirk.useForwardDelete || s.quirk.forwardSticky
    ensures var (s1, ops) := ApplyEdit(eng, ch, s, n, commit, preserve);
            s1.quirk.forwardSticky && ops == ForwardOps(ch, n, commit, true)
  {
    hide FeedGated, MultibyteRevert, ForwardOps, SurroundingOps;
  }

  /** Only a reset of the composition withdraws the slow channel once it was used. */
  predicate KeepsSticky(ev: Event) {
    !ev.Navigated? && !ev.FullyReset?
  }

  lemma FedSticky<E(!new)>(eng: Engine<E>, s: State<E>, c: char)
    requires s.quirk.forwardSticky
    ensures FeedKey(eng, s, c).0.quirk.forwardSticky && FeedBackspace(eng, s).0.quirk.forwardSticky
  {
    hide FeedGated, WordStart;
  }

  lemma FrameSticky<E(!new)>(eng: Engine<E>, s: State<E>, f: Frame, force: bool, recent: bool)
    requires s.quirk.forwardSticky
    ensures ApplyFrame(eng, s, f, force, recent).0.quirk.forwardSticky
  {
    hide ApplyFrame;
    FrameEnds(eng, s, f, force, recent);
  }

  lemma StickyStep<E(!new)>(eng: Engine<E>, ch: Channels, s: State<E>, ev: Event)
    requires s.quirk.forwardSticky && KeepsSticky(ev)
    ensures var (s1, out) := Step(eng, ch, s, ev); s1.quirk.forwardSticky && ByKeys(ch, out)
  {
    hide FeedKey, FeedBackspace, ApplyFrame, ApplyEdit, ForwardOps;
    match ev
    case Key(c) =>
      FedSticky(eng, s, c);
      var (s1, d) := FeedKey(eng, s, c);
      if d.Apply? {
        SlowEdit(eng, ch, s1, d.backspaces, d.commit, false);
      }
    case ShiftedKey(c) =>
      FedSticky(eng, s, c);
      var (s1, d) := FeedKey(eng, s, c);
      if d.Apply? {
        SlowEdit(eng, ch, s1, d.backspaces, d.commit, false);
      } else {
        SlowEdit(eng, ch, UnrecordForwardedChar(eng, s1), 0, [c], false);
      }
    case Backspace =>
      FedSticky(eng, s, ' ');
      var (s1, d) := FeedBackspace(eng, s);
      if d.Apply? {
        SlowEdit(eng, ch, s1, d.backspaces, d.commit, false);
      }
    case Received(f, force, recent) =>
      FrameSticky(eng, s, f, force, recent);
      var (s1, repair) := ApplyFrame(eng, s, f, force, recent);
      if repair.Some? {
        SlowEdit(eng, ch, s1, repair.value.backspaces, repair.value.commit, true);
      }
    case _ =>
  }

  /** Once the slow channel was used, every edit of the run goes through it until the composition is
  reset. */
  lemma {:induction false} StickyRun<E(!new)>(eng: Engine<E>, ch: Channels, s: State<E>, evs: seq<Event>)
    requires s.quirk.forwardSticky && forall ev <- evs :: KeepsSticky(ev)
    ensures Throughout(eng, ch, s, evs, (s: State<E>, ev: Event) => ByKeys(ch, Step(eng, ch, s, ev).1))
    ensures Run(eng, ch, s, evs).quirk.forwardSticky
    decreases |evs|
  {
    hide Step, ByKeys;
    if evs != [] {
      assert evs[0] in evs && forall ev <- evs[1..] :: ev in evs;
      StickyStep(eng, ch, s, evs[0]);
      StickyRun(eng, ch, Step(eng, ch, s, evs[0]).0, evs[1..]);
    }
  }

  /** A frame that answers no pending key shows the quirk its text before the cursor. */
  lemma FrameQuirk<E(!new)>(eng: Engine<E>, s: State<E>, f: Frame, force: bool, recent: bool)
    requires !s.confirmation.PendingRaw?
    ensures var s1 := ApplyFrame(eng, s, f, force, recent).0;
            && s1.quirk == Observe(s.quirk, f.Before(), recent, s.retroactive)
            && (s1.quirk.useForwardDelete || s1.quirk.forwardSticky ==> !s1.commitStringFunctional)
            && !s1.confirmation.PendingRaw? && s1.tier == s.tier
  {
    hide TrustFrame, DetectDeletion, DetectOneCharInsertion, TextBefore, Observe;
    var before := f.Before();
    var s0 := Revalidate(s, before);
    var confirmed := before == s0.shadow.text;
    var deletion := DetectDeletion(s0.prev.text, s0.prev.cursor, f.text, f.cursor) || confirmed;
    var decision := Classify(recent, OneCharTyped(s, f), deletion, force, confirmed);
    var quirk := Observe(s0.quirk, before, recent, s0.retroactive);
    var s1 := s0.(quirk := quirk,
                  commitStringFunctional := s0.commitStringFunctional
                                            && !(quirk.useForwardDelete || quirk.forwardSticky));
    TrustFrameEnds(eng, s1, f, confirmed, deletion, decision.reseed);
    TrustFrameTier(eng, s1, f, confirmed, deletion, decision.reseed);
  }

  lemma TrustFrameTier<E(!new)>(eng: Engine<E>, s: State<E>, f: Frame, confirmed: bool, deletion: bool, reseed: bool)
    ensures TrustFrame(eng, s, f, confirmed, deletion, reseed).tier == s.tier
  {
  }

  /** No edit looks the same on both channels. */
  lemma ChannelsDiffer(ch: Channels, sh: Shadow, n: nat, commit: string)
    ensures SurroundingOps(sh, n, commit, Bytes) != ForwardOps(ch, n, commit, true)
  {
    BackspaceKeysAre(n);
    BackspaceKeysAre(n + 1);
    hide BackspaceKeys;
    if sh.selectedAfterBytes == 0 && sh.selectedAfterChars == 0 {
      assert SurroundingOps(sh, n, commit, Bytes)[0].DeleteSurrounding?;
    } else {
      assert |SurroundingOps(sh, n, commit, Bytes)| == 2 * n + 4;
    }
  }

  /** A retroactive edit that takes away a character of more than one byte, though not all there is, and puts
  back plain ASCII. */
  predicate RevertsWide<E(!new)>(s: State<E>, n: nat, commit: string) {
    var text := s.shadow.text;
    s.retroactive && 0 < n < |text| && IsAscii(commit) && !IsAscii(text[|text| - n..])
  }

  lemma RevertExact<E(!new)>(s: State<E>, n: nat, commit: string)
    ensures MultibyteRevert(s, n, commit) <==> RevertsWide(s, n, commit)
  {
    var text := s.shadow.text;
    if 0 < n < |text| {
      WideIff(text[|text| - n..]);
    }
    hide IsAscii, Width;
  }

  lemma WideIff(s: string)
    ensures (exists c | c in s :: Width(c) > 1) <==> !IsAscii(s)
  {
    if !IsAscii(s) {
      var c :| c in s && c as int >= 0x80;
      assert Width(c) > 1;
    }
  }

  /** Which channel carries an edit: Backspace keys with the key channel for the text while the slow channel is armed
  or was used, or when the edit reverts a multibyte character; else a byte-counted delete on the surrounding-text
  tier, and on the other Backspace keys with keysyms. */
  lemma ChannelExact<E(!new)>(eng: Engine<E>, ch: Channels, s: State<E>, n: nat, commit: string, preserve: bool)
    requires Guarded(s.quirk)
    ensures var ops := ApplyEdit(eng, ch, s, n, commit, preserve).1;
            var byKeys := s.quirk.useForwardDelete || s.quirk.forwardSticky || RevertsWide(s, n, commit);
            && (byKeys ==> ops == ForwardOps(ch, n, commit, true))
            && (!byKeys ==>
                  ops == if s.tier == SurroundingText then SurroundingOps(s.shadow, n, commit, Bytes)
                         else ForwardOps(ch, n, commit, false))
            && (s.tier == SurroundingText ==> (ops == ForwardOps(ch, n, commit, true) <==> byKeys))
  {
    hide ForwardOps, SurroundingOps, MultibyteRevert, RevertsWide, FeedGated, CurrentWord;
    RevertExact(s, n, commit);
    ChannelsDiffer(ch, s.shadow, n, commit);
  }

  /** Which channel answers a key, once a stale echo has armed the slow one. */
  predicate GoesByKeys<E(!new)>(s: State<E>, c: char, fed: (State<E>, Decision))
    requires fed.1.Apply?
  {
    IsAsciiAlphabetic(c) || s.quirk.forwardSticky || RevertsWide(fed.0, fed.1.backspaces, fed.1.commit)
  }

  /** The edit that answers a key goes by Backspace keys exactly when the key is a letter, the slow channel
  was used before, or the edit reverts a multibyte character; any other is a byte-counted delete. */
  lemma ArmedKeyExact<E(!new)>(eng: Engine<E>, ch: Channels, s: State<E>, c: char)
    requires s.tier == SurroundingText && s.quirk.useForwardDelete && Guarded(s.quirk)
    requires FeedKey(eng, s, c).1.Apply?
    ensures var fed := FeedKey(eng, s, c);
            var (n, commit) := (fed.1.backspaces, fed.1.commit);
            var (s1, out) := Step(eng, ch, s, Key(c));
            && (out == Edit(ForwardOps(ch, n, commit, true)) <==> GoesByKeys(s, c, fed))
            && (!GoesByKeys(s, c, fed) ==> out == Edit(SurroundingOps(fed.0.shadow, n, commit, Bytes)))
            && (s1.quirk.forwardSticky <==> IsAsciiAlphabetic(c) || s.quirk.forwardSticky)
  {
    hide FeedKey, ForwardOps, SurroundingOps, MultibyteRevert, RevertsWide, FeedGated;
    var (fed, d) := FeedKey(eng, s, c);
    FedQuirk(eng, s, c);
    RevertExact(fed, d.backspaces, d.commit);
    ChannelsDiffer(ch, fed.shadow, d.backspaces, d.commit);
  }

  /** A key or a Backspace that is passed on withdraws the slow channel, unless it was used. */
  lemma PassedKeyDisarms<E(!new)>(eng: Engine<E>, ch: Channels, s: State<E>, c: char)
    ensures Step(eng, ch, s, Key(c)).1.KeyPassed? ==>
              Step(eng, ch, s, Key(c)).0.quirk == Quirk(None, Bytes, false, s.quirk.forwardSticky)
    ensures Step(eng, ch, s, Backspace).1.BackspacePassed? ==>
              Step(eng, ch, s, Backspace).0.quirk == Quirk(None, Bytes, false, s.quirk.forwardSticky)
  {
    hide FeedKey, ApplyEdit;
    FedQuirk(eng, s, c);
  }

  /** A recent stale echo, then a key: `commit_string` is no longer relied on, and the key's edit goes by
  Backspace keys exactly when the key is a letter, the slow channel was used before, or a multibyte
  character is reverted.  After a letter, or with the channel used before, every later edit goes by keys
  until the composition is reset. */
  lemma StaleEchoThenKey<E(!new)>(eng: Engine<E>, ch: Channels, s: State<E>, f: Frame, force: bool, c: char)
    requires !s.confirmation.PendingRaw? && s.tier == SurroundingText && Guarded(s.quirk)
    requires StaleEcho(s.quirk, f.Before()) && !(s.retroactive && EndsAtBoundary(f.Before()))
    ensures var (s1, none) := Step(eng, ch, s, Received(f, force, true));
            && none == Nothing && !s1.commitStringFunctional
            && (FeedKey(eng, s1, c).1.Apply? ==>
                  var fed := FeedKey(eng, s1, c);
                  var (s2, out) := Step(eng, ch, s1, Key(c));
                  && (out == Edit(ForwardOps(ch, fed.1.backspaces, fed.1.commit, true)) <==> GoesByKeys(s, c, fed))
                  && (s2.quirk.forwardSticky <==> IsAsciiAlphabetic(c) || s.quirk.forwardSticky))
  {
    FrameQuirk(eng, s, f, force, true);
    StaleEchoArmsIff(s.quirk, f.Before(), s.retroactive);
    ObserveGuarded(s.quirk, f.Before(), true, s.retroactive);
    NoPendingNoRepair(eng, s, f, force, true);
    hide ApplyFrame, FeedKey, ForwardOps, GoesByKeys, TextBefore;
    var s1 := Step(eng, ch, s, Received(f, force, true)).0;
    if FeedKey(eng, s1, c).1.Apply? {
      ArmedKeyExact(eng, ch, s1, c);
      SameStickiness(s, s1, c, FeedKey(eng, s1, c));
    }
  }

  lemma NoPendingNoRepair<E(!new)>(eng: Engine<E>, s: State<E>, f: Frame, force: bool, recent: bool)
    requires !s.confirmation.PendingRaw?
    ensures ApplyFrame(eng, s, f, force, recent).1.None?
  {
    hide GateFrame, ConfirmKey;
  }

  lemma SameStickiness<E(!new)>(a: State<E>, b: State<E>, c: char, fed: (State<E>, Decision))
    requires fed.1.Apply? && a.quirk.forwardSticky == b.quirk.forwardSticky
    ensures GoesByKeys(a, c, fed) == GoesByKeys(b, c, fed)
  {
    hide RevertsWide;
  }
}
