/** What no frame and no key can make the composer do. */
module Safety {
  import opened Utf8
  import opened Texts
  import opened Engines
  import opened Shadows
  import opened Strategies
  import opened Firefox
  import opened Diff
  import opened Composers
  import opened Runs

  // ---------- stale echoes ----------

  /** With no key pending, a frame inside the recent-action window that is neither forced nor a
  one-character insertion leaves the engine as it was, whether it is trusted or dropped.  It
  leaves the shadow text as it was too, exactly unless it repeats the shadow and selects some
  of it. */
  lemma StaleEchoImmunity<E(!new)>(eng: Engine<E>, s: State<E>, f: Frame)
    requires !s.confirmation.PendingRaw?
    requires !OneCharTyped(s, f)
    ensures var (s1, repair) := ApplyFrame(eng, s, f, false, true);
            && repair.None?
            && s1.engine == s.engine && s1.retroactive == s.retroactive && s1.lastInput == s.lastInput
            && (s1.shadow.text == s.shadow.text
                <==> f.Before() != s.shadow.text || SelectedBefore(f.text, f.cursor, f.anchor) == "")
  {
    var c, a := CharsWithin(f.text, f.cursor), CharsWithin(f.text, f.anchor);
    if a < c {
      assert |f.text[..a]| < |f.text[..c]|;
    }
  }

  // ---------- uncertain context ----------

  /** Cursor-relative edits must wait for a frame. */
  predicate Uncertain<E(!new)>(s: State<E>) {
    s.tier == SurroundingText && s.confirmEdits && s.confirmation.IsUncertain()
  }

  /** Events that neither bring a frame nor withdraw the confirmation. */
  predicate Unconfirming(ev: Event) {
    ev.Key? || ev.Backspace? || ev.Checked? || ev.NoSurrounding? || ev.Navigated? || ev.FullyReset? || ev.Paused?
  }

  lemma UncertainStep<E(!new)>(eng: Engine<E>, ch: Channels, s: State<E>, ev: Event)
    requires Uncertain(s) && Unconfirming(ev)
    ensures Uncertain(Step(eng, ch, s, ev).0)
    ensures ev.Key? ==> Step(eng, ch, s, ev).1 == KeyPassed(ev.ch)
  {
  }

  /** From an uncertain state, in particular after a composition reset, no key is answered by an
  edit until a frame comes or the confirmation is withdrawn. */
  lemma {:induction false} UncertainRun<E(!new)>(eng: Engine<E>, ch: Channels, s: State<E>, evs: seq<Event>)
    requires Uncertain(s)
    requires forall ev | ev in evs :: Unconfirming(ev)
    ensures Throughout(eng, ch, s, evs, (s: State<E>, ev: Event) => ev.Key? ==> Step(eng, ch, s, ev).1 == KeyPassed(ev.ch))
    ensures Uncertain(Run(eng, ch, s, evs))
    decreases |evs|
  {
    if evs != [] {
      UncertainStep(eng, ch, s, evs[0]);
      UncertainRun(eng, ch, Step(eng, ch, s, evs[0]).0, evs[1..]);
    }
  }

  lemma ResetIsUncertain<E(!new)>(eng: Engine<E>, ch: Channels, s: State<E>, evs: seq<Event>)
    requires s.tier == SurroundingText && s.confirmEdits
    requires forall ev | ev in evs :: Unconfirming(ev)
    ensures Throughout(eng, ch, ResetComposition(eng, s), evs,
                       (s: State<E>, ev: Event) => ev.Key? ==> Step(eng, ch, s, ev).1 == KeyPassed(ev.ch))
  {
    UncertainRun(eng, ch, ResetComposition(eng, s), evs);
  }

  /** A repair comes only from a selection-free frame whose text differs from the last recorded one,
  which shows the pending key just before the cursor, and only for a repairable key. */
  lemma RepairIsProven<E(!new)>(eng: Engine<E>, s: State<E>, f: Frame, force: bool, recent: bool)
    requires ApplyFrame(eng, s, f, force, recent).1.Some?
    ensures s.confirmation.PendingRaw? && s.confirmation.pending.repairable
    ensures f.cursor == f.anchor && f.text != s.prev.text
    ensures f.Before() != "" && f.Before()[|f.Before()| - 1] == s.confirmation.pending.ch
  {
  }

  lemma {:induction false} RunLast<E(!new)>(eng: Engine<E>, ch: Channels, s: State<E>, evs: seq<Event>, last: Event)
    ensures Run(eng, ch, s, evs + [last]) == Step(eng, ch, Run(eng, ch, s, evs), last).0
    decreases |evs|
  {
    if evs != [] {
      assert (evs + [last])[1..] == evs[1..] + [last];
      RunLast(eng, ch, Step(eng, ch, s, evs[0]).0, evs[1..], last);
    } else {
      assert evs + [last] == [last] && [last][1..] == [];
    }
  }

  /** Key `i` of the run was passed on while nothing was pending, and no key came after it. */
  ghost predicate LastKeyAlone<E(!new)>(eng: Engine<E>, ch: Channels, s: State<E>, evs: seq<Event>, i: nat, c: char) {
    && i < |evs| && evs[i] == Key(c)
    && !Run(eng, ch, s, evs[..i]).confirmation.PendingRaw?
    && forall j | i < j < |evs| :: !evs[j].Key? && !evs[j].ShiftedKey?
  }

  /** A confirmed key ends its transaction; the quirk has no part in it. */
  lemma ConfirmKeyEnds<E(!new)>(eng: Engine<E>, s: State<E>, f: Frame, p: Pending)
    requires f.Before() != ""
    ensures var s1 := ConfirmKey(eng, s, f, p).0;
            && !s1.confirmation.PendingRaw?
            && s1.quirk == s.quirk && s1.commitStringFunctional == s.commitStringFunctional
  {
    hide FeedGated, WordStart, InsertionProven, RepairFor;
  }

  lemma TrustFrameEnds<E(!new)>(eng: Engine<E>, s: State<E>, f: Frame, confirmed: bool, deletion: bool, reseed: bool)
    ensures var s1 := TrustFrame(eng, s, f, confirmed, deletion, reseed);
            && !s1.confirmation.PendingRaw?
            && s1.quirk == s.quirk && s1.commitStringFunctional == s.commitStringFunctional
  {
  }

  lemma FrameEnds<E(!new)>(eng: Engine<E>, s: State<E>, f: Frame, force: bool, recent: bool)
    ensures var s1 := ApplyFrame(eng, s, f, force, recent).0;
            && (s1.confirmation.PendingRaw? ==> s1.confirmation == s.confirmation)
            && (s1.quirk == s.quirk || s1.quirk == Observe(s.quirk, f.Before(), recent, s.retroactive))
            && (s1.commitStringFunctional ==> s.commitStringFunctional)
  {
    hide ConfirmKey, TrustFrame, DetectDeletion, DetectOneCharInsertion, TextBefore;
    var s0 := Revalidate(s, f.Before());
    if Confirms(s0, f) {
      ConfirmKeyEnds(eng, s0, f, s0.confirmation.pending);
    } else {
      var confirmed := f.Before() == s0.shadow.text;
      var deletion := DetectDeletion(s0.prev.text, s0.prev.cursor, f.text, f.cursor) || confirmed;
      var decision := Classify(recent, OneCharTyped(s, f), deletion, force, confirmed);
      var quirk := Observe(s0.quirk, f.Before(), recent, s0.retroactive);
      var s1 := s0.(quirk := quirk,
                    commitStringFunctional := s0.commitStringFunctional
                                              && !(quirk.useForwardDelete || quirk.forwardSticky));
      TrustFrameEnds(eng, s1, f, confirmed, deletion, decision.reseed);
      assert GateFrame(eng, s0, f, force, recent, OneCharTyped(s, f))
          == if !decision.trust then s1 else TrustFrame(eng, s1, f, confirmed, deletion, decision.reseed);
    }
  }

  lemma EditKeepsConfirmation<E(!new)>(eng: Engine<E>, ch: Channels, s: State<E>, n: nat, commit: string,
          preserve: bool)
    ensures ApplyEdit(eng, ch, s, n, commit, preserve).0.confirmation == s.confirmation
  {
  }

  lemma PendingStep<E(!new)>(eng: Engine<E>, ch: Channels, s: State<E>, ev: Event)
    requires Step(eng, ch, s, ev).0.confirmation.PendingRaw?
    ensures if ev.Key? then
              var p := Step(eng, ch, s, ev).0.confirmation.pending;
              p.ch == ev.ch && (p.repairable <==> !s.confirmation.PendingRaw?)
            else Step(eng, ch, s, ev).0.confirmation == s.confirmation && !ev.ShiftedKey?
  {
    hide ApplyFrame, ApplyEdit, FeedGated;
    match ev
    case Key(c) =>
      var (s1, d) := FeedKey(eng, s, c);
      if d.Apply? {
        EditKeepsConfirmation(eng, ch, s1, d.backspaces, d.commit, false);
      }
    case ShiftedKey(c) =>
      var (s1, d) := FeedKey(eng, s, c);
      if d.Apply? {
        EditKeepsConfirmation(eng, ch, s1, d.backspaces, d.commit, false);
      } else {
        EditKeepsConfirmation(eng, ch, UnrecordForwardedChar(eng, s1), 0, [c], false);
      }
    case Backspace =>
      var (s1, d) := FeedBackspace(eng, s);
      if d.Apply? {
        EditKeepsConfirmation(eng, ch, s1, d.backspaces, d.commit, false);
      }
    case Received(f, force, recent) =>
      FrameEnds(eng, s, f, force, recent);
      var (s1, repair) := ApplyFrame(eng, s, f, force, recent);
      if repair.Some? {
        EditKeepsConfirmation(eng, ch, s1, repair.value.backspaces, repair.value.commit, true);
      }
    case _ =>
  }

  /** In every reachable state, a repairable pending key is the last key there was, and it was
  passed on when no other key was pending. */
  lemma {:induction false} RepairableIsAlone<E(!new)>(eng: Engine<E>, ch: Channels, s: State<E>,
          evs: seq<Event>) returns (i: nat)
    requires !s.confirmation.PendingRaw?
    ensures var end := Run(eng, ch, s, evs).confirmation;
            end.PendingRaw? && end.pending.repairable ==> LastKeyAlone(eng, ch, s, evs, i, end.pending.ch)
    decreases |evs|
  {
    i := 0;
    if evs != [] {
      var n := |evs| - 1;
      var before := evs[..n];
      assert evs == before + [evs[n]];
      RunLast(eng, ch, s, before, evs[n]);
      var end := Run(eng, ch, s, evs).confirmation;
      if end.PendingRaw? && end.pending.repairable {
        PendingStep(eng, ch, Run(eng, ch, s, before), evs[n]);
        if evs[n].Key? {
          i := n;
        } else {
          i := RepairableIsAlone(eng, ch, s, before);
          assert evs[..i] == before[..i];
        }
      }
    }
  }

  // ---------- the Firefox quirk ----------

  /** The operation deletes `t`: it counts the bytes and the characters of one text. */
  predicate Measures(op: SinkOp, t: string) {
    op.DeleteSurrounding? ==> op.beforeBytes == ByteLen(t) && op.beforeChars == |t|
  }

  ghost predicate ByteCounted(out: Output) {
    out.Edit? ==> forall op | op in out.ops :: exists t :: Measures(op, t)
  }

  /** Which operations an edit sends: a byte-counted delete, or keys. */
  lemma EditOps<E(!new)>(eng: Engine<E>, ch: Channels, s: State<E>, n: nat, commit: string, preserve: bool)
    requires Guarded(s.quirk)
    ensures var (s1, ops) := ApplyEdit(eng, ch, s, n, commit, preserve);
            && Guarded(s1.quirk)
            && s1.commitStringFunctional == s.commitStringFunctional
            && (|| (ops == SurroundingOps(s.shadow, n, commit, Bytes) && s1.shadow == SurroundingShadow(s.shadow, n, commit))
                || (exists prefer :: ops == ForwardOps(ch, n, commit, prefer) && s1.shadow == ForwardShadow(s.shadow, n, commit)))
  {
    var prefer := UsesForwardKey(s, n, commit);
    var ops := ApplyEdit(eng, ch, s, n, commit, preserve).1;
    assert prefer || s.tier.ForwardKey? ==> ops == ForwardOps(ch, n, commit, prefer);
  }

  lemma EditIsByteCounted<E(!new)>(eng: Engine<E>, ch: Channels, s: State<E>, n: nat, commit: string, preserve: bool)
    requires Guarded(s.quirk)
    ensures ByteCounted(Edit(ApplyEdit(eng, ch, s, n, commit, preserve).1))
  {
    hide ApplyEdit;
    var ops := ApplyEdit(eng, ch, s, n, commit, preserve).1;
    var popped := n + s.shadow.selectedBeforeChars;
    var tail := s.shadow.text[|Drop(s.shadow.text, popped)|..];
    EditOps(eng, ch, s, n, commit, preserve);
    BackspaceKeysAre(n);
    BackspaceKeysAre(n + 1);
    forall op | op in ops
      ensures exists t :: Measures(op, t)
    {
      assert Measures(op, tail);
    }
  }

  lemma FeedKeyShape<E(!new)>(eng: Engine<E>, s: State<E>, c: char)
    requires Guarded(s.quirk)
    ensures var (s1, d) := FeedKey(eng, s, c);
            && Guarded(s1.quirk) && s1.commitStringFunctional == s.commitStringFunctional
            && s1.prev == s.prev
            && s1.shadow == if d.Apply? then s.shadow else s.shadow.(text := s.shadow.text + [c])
  {
    hide FeedGated, WordStart, Capture;
  }

  lemma FeedBackspaceShape<E(!new)>(eng: Engine<E>, s: State<E>)
    requires Guarded(s.quirk)
    ensures var (s1, d) := FeedBackspace(eng, s);
            && Guarded(s1.quirk) && s1.commitStringFunctional == s.commitStringFunctional
            && s1.shadow == if d.Apply? then s.shadow else s.shadow.(text := Drop(s.shadow.text, 1))
  {
  }

  /** An edit sends byte counts and leaves the quirk guarded. */
  lemma EditQuirk<E(!new)>(eng: Engine<E>, ch: Channels, s: State<E>, n: nat, commit: string, preserve: bool)
    requires Guarded(s.quirk)
    ensures var (s1, ops) := ApplyEdit(eng, ch, s, n, commit, preserve);
            Guarded(s1.quirk) && ByteCounted(Edit(ops)) && s1.commitStringFunctional == s.commitStringFunctional
  {
    EditOps(eng, ch, s, n, commit, preserve);
    EditIsByteCounted(eng, ch, s, n, commit, preserve);
  }

  ghost predicate QuirkKept<E(!new)>(s: State<E>, next: (State<E>, Output)) {
    && Guarded(next.0.quirk)
    && ByteCounted(next.1)
    && (next.0.commitStringFunctional ==> s.commitStringFunctional)
  }

  lemma KeyQuirk<E(!new)>(eng: Engine<E>, ch: Channels, s: State<E>, ev: Event)
    requires Guarded(s.quirk) && (ev.Key? || ev.ShiftedKey? || ev.Backspace?)
    ensures QuirkKept(s, Step(eng, ch, s, ev))
  {
    hide FeedKey, FeedBackspace, ApplyEdit;
    var (s1, d) := if ev.Backspace? then FeedBackspace(eng, s) else FeedKey(eng, s, ev.ch);
    if ev.Backspace? {
      FeedBackspaceShape(eng, s);
    } else {
      FeedKeyShape(eng, s, ev.ch);
    }
    if d.Apply? {
      EditQuirk(eng, ch, s1, d.backspaces, d.commit, false);
    } else if ev.ShiftedKey? {
      EditQuirk(eng, ch, UnrecordForwardedChar(eng, s1), 0, [ev.ch], false);
    }
  }

  lemma ReceivedQuirk<E(!new)>(eng: Engine<E>, ch: Channels, s: State<E>, f: Frame, force: bool, recent: bool)
    requires Guarded(s.quirk)
    ensures QuirkKept(s, Step(eng, ch, s, Received(f, force, recent)))
  {
    hide ApplyFrame, ApplyEdit;
    FrameEnds(eng, s, f, force, recent);
    ObserveGuarded(s.quirk, f.Before(), recent, s.retroactive);
    var (s1, repair) := ApplyFrame(eng, s, f, force, recent);
    if repair.Some? {
      EditQuirk(eng, ch, s1, repair.value.backspaces, repair.value.commit, true);
    }
  }

  lemma QuirkStep<E(!new)>(eng: Engine<E>, ch: Channels, s: State<E>, ev: Event)
    requires Guarded(s.quirk)
    ensures QuirkKept(s, Step(eng, ch, s, ev))
  {
    if ev.Key? || ev.ShiftedKey? || ev.Backspace? {
      KeyQuirk(eng, ch, s, ev);
    } else if ev.Received? {
      ReceivedQuirk(eng, ch, s, ev.frame, ev.force, ev.recent);
    }
  }

  /** The quirk never leaks a character count: along every run from a new composer, each delete that
  is sent counts bytes; and once `commit_string` is found broken it stays so. */
  lemma {:induction false} QuirkRun<E(!new)>(eng: Engine<E>, ch: Channels, s: State<E>, evs: seq<Event>)
    requires Guarded(s.quirk)
    ensures Throughout(eng, ch, s, evs, (s, ev) => ByteCounted(Step(eng, ch, s, ev).1))
    ensures Guarded(Run(eng, ch, s, evs).quirk)
    ensures Run(eng, ch, s, evs).commitStringFunctional ==> s.commitStringFunctional
    decreases |evs|
  {
    if evs != [] {
      QuirkStep(eng, ch, s, evs[0]);
      QuirkRun(eng, ch, Step(eng, ch, s, evs[0]).0, evs[1..]);
    }
  }
}
