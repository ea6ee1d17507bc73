/** The composer as the source has it: an object that updates its fields, proved equal, call by
call, to the functions that the other files reason about. */
module ComposerClass {
  import opened Utf8
  import opened Texts
  import opened Engines
  import opened Shadows
  import opened Strategies
  import opened Firefox
  import opened Diff
  import opened Composers

  class Composer<E(!new)> {
    const eng: Engine<E>
    const engine: EngineState<E>
    const shadow: ShadowBuffer
    const quirk: FirefoxQuirk
    var lastInput: Option<char>
    var commitStringFunctional: bool
    var retroactive: bool
    var confirmEdits: bool
    var confirmation: Confirmation
    var tier: BackspaceMethod
    var prev: Frame

    ghost predicate Valid()
      reads this
    {
      engine.eng == eng
    }

    function Model(): State<E>
      reads this, engine, shadow, quirk
    {
      State(engine.state, lastInput, commitStringFunctional, retroactive, quirk.Model(), confirmEdits,
            confirmation, tier, shadow.Model(), prev)
    }

    constructor (eng: Engine<E>, tier: BackspaceMethod)
      ensures Valid() && this.eng == eng && Model() == NewState(eng, tier)
      ensures fresh(engine) && fresh(shadow) && fresh(quirk)
    {
      this.eng := eng;
      engine := new EngineState(eng);
      shadow := new ShadowBuffer();
      quirk := new FirefoxQuirk();
      this.tier := tier;
      lastInput, commitStringFunctional, retroactive := None, true, false;
      confirmEdits, confirmation, prev := false, Live, NO_FRAME;
    }

    method StartKey(start: KeyStart)
      requires Valid()
      modifies this, engine, quirk
      ensures Valid() && Model() == BeginKey(eng, old(Model()), start)
    {
      if start.resetSpeculation {
        engine.Reset();
        retroactive := false;
      }
      if start.clearNonAlphaContext {
        retroactive := false;
        quirk.Clear();
      }
      if start.seedWord.Some? {
        retroactive := engine.FeedContextGated(start.seedWord.value);
      }
    }

    method EndKey(ch: char, finish: KeyFinish) returns (decision: Decision)
      requires Valid()
      modifies this, shadow, quirk
      ensures Valid() && (Model(), decision) == FinishKey(old(Model()), ch, finish)
    {
      match finish
      case ApplyNow(backspaces, commit) =>
        confirmation := Live;
        decision := Apply(backspaces, commit);
      case Forward(pending) =>
        shadow.Append([ch]);
        quirk.Clear();
        confirmation := if pending.Some? then PendingRaw(pending.value) else Live;
        decision := ForwardRaw;
    }

    method FeedKey(ch: char) returns (decision: Decision)
      requires Valid()
      modifies this, engine, shadow, quirk
      ensures Valid() && (Model(), decision) == Composers.FeedKey(eng, old(Model()), ch)
    {
      var s := Model();
      var start := PlanKeyStart(Capture(eng, s, ch));
      StartKey(start);
      lastInput := Some(ch);
      var result := engine.ProcessKey(ch);
      decision := EndKey(ch, PlanKeyFinish(ch, start.contextUncertain, s.confirmation.PendingRaw?,
                                           s.confirmation.IsFrameDerived(), result, s.Word()));
    }

    method UnrecordForwardedChar()
      requires Valid()
      modifies this, engine, shadow
      ensures Valid() && Model() == Composers.UnrecordForwardedChar(eng, old(Model()))
    {
      var _, _ := shadow.PopChars(1);
      var stashed := confirmation.HasStash();
      confirmation := Live;
      if stashed {
        engine.Reset();
        retroactive := false;
      }
    }

    method FeedBackspace() returns (decision: Decision)
      requires Valid()
      modifies this, engine, shadow, quirk
      ensures Valid() && (Model(), decision) == Composers.FeedBackspace(eng, old(Model()))
    {
      var r := engine.ProcessBackspace();
      if r.consumed {
        return Apply(r.backspaces, r.commit);
      }
      var wide := shadow.text != "" && shadow.text[|shadow.text| - 1] as int >= 0x80;
      var _, _ := shadow.PopChars(1);
      if r.backspaces > 0 && wide {
        engine.Reset();
        retroactive := false;
      }
      quirk.Clear();
      decision := ForwardRaw;
    }

    method RefreshRetroactiveContextAfterApply(backspaces: nat)
      requires Valid()
      modifies this, engine
      ensures Valid() && Model() == RefreshAfterApply(eng, old(Model()), backspaces)
    {
      if backspaces == 0 || !retroactive {
        return;
      }
      var word := CurrentWord(shadow.text);
      engine.Reset();
      retroactive := false;
      if word != "" {
        retroactive := engine.FeedContextGated(word);
      }
    }

    method ApplyToSinkInner(backspaces: nat, commit: string, sink: OutputSink, preserveEngine: bool)
      requires Valid()
      modifies this, engine, shadow, quirk, sink
      ensures Valid()
      ensures var (s1, ops) := ApplyEdit(eng, sink.channels, old(Model()), backspaces, commit, preserveEngine);
              Model() == s1 && sink.ops == old(sink.ops) + ops
    {
      hide SurroundingOps, ForwardOps, FeedGated, WordStart;
      var deleteEcho := Drop(shadow.text, backspaces);
      var forward := UsesForwardKey(Model(), backspaces, commit);
      if quirk.useForwardDelete {
        quirk.forwardSticky := true;
      }
      if forward {
        ApplyForwardKey(shadow, backspaces, commit, sink, true);
      } else {
        match tier {
          case SurroundingText => Strategies.ApplySurrounding(shadow, backspaces, commit, sink, quirk.deleteUnit);
          case ForwardKey => ApplyForwardKey(shadow, backspaces, commit, sink, false);
        }
        quirk.ResetDeleteUnitAfterUse();
      }
      if !preserveEngine {
        RefreshRetroactiveContextAfterApply(backspaces);
      }
      if backspaces > 0 && tier == SurroundingText {
        quirk.expectedEcho := Some(PendingEcho(shadow.text, deleteEcho));
      }
    }

    method ApplyConfirmedRepairToSink(repair: RetroEdit, sink: OutputSink)
      requires Valid()
      modifies this, engine, shadow, quirk, sink
      ensures Valid()
      ensures var (s1, ops) := ApplyRepair(eng, sink.channels, old(Model()), repair);
              Model() == s1 && sink.ops == old(sink.ops) + ops
    {
      ApplyToSinkInner(repair.backspaces, repair.commit, sink, true);
      quirk.expectedEcho := None;
    }

    method RevalidateLiveConfirmation(before: string)
      requires Valid()
      modifies this
      ensures Valid() && Model() == Revalidate(old(Model()), before)
    {
      if confirmation.LiveConfirmed? && before != shadow.text {
        confirmation := AwaitingFrame;
      }
    }

    method ReseedEngine(word: string)
      requires Valid()
      modifies this, engine
      ensures Valid() && Model() == Reseed(eng, old(Model()), word)
    {
      engine.Reset();
      retroactive := false;
      if word != "" {
        retroactive := engine.FeedContextGated(word);
      }
      confirmation := if retroactive then FrameDerived else Live;
    }

    method RecordFrame(f: Frame)
      requires Valid()
      modifies this, shadow
      ensures Valid() && Model() == Record(old(Model()), f)
    {
      var _ := shadow.ObserveSurrounding(f.text, f.cursor, f.anchor);
      prev := f;
    }

    /** Replays the base word and the key on the engine, and diffs the word with the screen's. */
    method ReplayRawKey(f: Frame, ch: char, base: string) returns (repair: Option<RetroEdit>)
      requires Valid()
      modifies this, engine, shadow
      ensures Valid() && (Model(), repair) == Replay(eng, old(Model()), f, ch, base)
    {
      engine.Reset();
      var seeded := false;
      if base != "" {
        seeded := engine.FeedContextGated(base);
      }
      if !seeded {
        RecordFrame(f);
        lastInput := Some(ch);
        ReseedEngine(base + [ch]);
        return None;
      }
      var r := engine.ProcessKey(ch);
      RecordFrame(f);
      lastInput, retroactive, confirmation := Some(ch), true, FrameDerived;
      if !r.consumed {
        return None;
      }
      var desired := base;
      for i := 0 to r.backspaces
        invariant desired == Drop(base, i)
      {
        desired := Drop(desired, 1);
      }
      desired := desired + r.commit;
      var screen := base + [ch];
      var kept := CommonPrefix(screen, desired);
      if kept == |screen| && kept == |desired| {
        repair := None;
      } else {
        repair := Some(RetroEdit(|screen| - kept, desired[kept..]));
      }
    }

    method ConfirmPendingRawKey(f: Frame) returns (repair: Option<RetroEdit>)
      requires Valid() && Confirms(Model(), f)
      modifies this, engine, shadow
      ensures Valid() && (Model(), repair) == ConfirmKey(eng, old(Model()), f, old(confirmation.pending))
    {
      hide Replay, Reseed, Observed, InsertionProven, WordStart;
      var pending := confirmation.pending;
      var before := f.Before();
      var base := CurrentWord(before[..|before| - 1]);
      if !InsertionProven(Model(), f, pending.ch) || !pending.repairable {
        RecordFrame(f);
        lastInput := Some(pending.ch);
        ReseedEngine(CurrentWord(before));
        repair := None;
      } else if pending.edit.Some? && pending.edit.value.baseWord == base {
        RecordFrame(f);
        lastInput, retroactive, confirmation := Some(pending.ch), true, FrameDerived;
        repair := Some(RetroEdit(pending.edit.value.backspaces + 1, pending.edit.value.commit));
      } else {
        repair := ReplayRawKey(f, pending.ch, base);
      }
    }

    method SynchronizeTo(f: Frame, confirmed: bool)
      requires Valid()
      modifies this, engine, shadow
      ensures Valid() && Model() == Synchronize(eng, old(Model()), f, confirmed)
    {
      var _ := shadow.ObserveSurrounding(f.text, f.cursor, f.anchor);
      var hadStash := confirmation.HasStash();
      confirmation := if confirmation.IsFrameDerived() then FrameDerived
                      else if confirmed && !confirmation.PendingRaw? then LiveConfirmed
                      else Live;
      if hadStash {
        engine.Reset();
        retroactive := false;
      }
    }

    method TrustSurrounding(f: Frame, confirmed: bool, deletion: bool, reseed: bool)
      requires Valid()
      modifies this, engine, shadow
      ensures Valid() && Model() == TrustFrame(eng, old(Model()), f, confirmed, deletion, reseed)
    {
      SynchronizeTo(f, confirmed);
      if deletion {
        if !confirmed {
          engine.Reset();
          retroactive, confirmation, lastInput := false, Live, None;
        }
      } else if reseed {
        ReseedEngine(CurrentWordBeforeCursor(f.text, Min(f.cursor, f.anchor)));
        lastInput := None;
      }
      prev := f;
    }

    method GateSurrounding(f: Frame, force: bool, recent: bool, oneChar: bool)
      requires Valid()
      modifies this, engine, shadow, quirk
      ensures Valid() && Model() == GateFrame(eng, old(Model()), f, force, recent, oneChar)
    {
      hide TrustFrame, DetectDeletion, TextBefore, Observe;
      var before := f.Before();
      var confirmed := before == shadow.text;
      var deletion := DetectDeletion(prev.text, prev.cursor, f.text, f.cursor) || confirmed;
      var decision := Classify(recent, oneChar, deletion, force, confirmed);
      quirk.ObserveSurrounding(before, recent, retroactive);
      if quirk.useForwardDelete || quirk.forwardSticky {
        commitStringFunctional := false;
      }
      if decision.trust {
        TrustSurrounding(f, confirmed, deletion, decision.reseed);
      }
    }

    method ApplySurrounding(f: Frame, force: bool, recent: bool) returns (repair: Option<RetroEdit>)
      requires Valid()
      modifies this, engine, shadow, quirk
      ensures Valid() && (Model(), repair) == ApplyFrame(eng, old(Model()), f, force, recent)
    {
      hide ConfirmKey, GateFrame, DetectOneCharInsertion, TextBefore;
      var oneChar := DetectOneCharInsertion(prev.text, prev.cursor, f.text, f.cursor);
      RevalidateLiveConfirmation(f.Before());
      if Confirms(Model(), f) {
        repair := ConfirmPendingRawKey(f);
      } else {
        GateSurrounding(f, force, recent, oneChar);
        repair := None;
      }
    }

    method ShouldSkipSurroundingFrame(f: Frame, activate: bool, deactivate: bool) returns (skip: bool)
      requires Valid()
      modifies this
      ensures Valid() && Model() == Revalidate(old(Model()), f.Before())
      ensures skip == SkipsFrame(old(Model()), f, activate, deactivate)
    {
      RevalidateLiveConfirmation(f.Before());
      skip := !activate && !deactivate && quirk.expectedEcho.None? && f == prev;
    }

    method ResetCompositionPreservingSurrounding()
      requires Valid()
      modifies this, engine, shadow, quirk
      ensures Valid() && Model() == ResetComposition(eng, old(Model()))
    {
      engine.Reset();
      shadow.Clear();
      lastInput, retroactive, confirmation := None, false, AwaitingFrame;
      quirk.Clear();
      quirk.forwardSticky := false;
    }

    method FullReset()
      requires Valid()
      modifies this, engine, shadow, quirk
      ensures Valid() && Model() == Composers.FullReset(eng, old(Model()))
    {
      ResetCompositionPreservingSurrounding();
      prev := NO_FRAME;
    }

    method CheckIdleReset(idle: bool) returns (wasIdle: bool)
      requires Valid()
      modifies this, engine, shadow
      ensures Valid() && wasIdle == idle
      ensures Model() == if idle then IdleReset(eng, old(Model())) else old(Model())
    {
      if !idle {
        return false;
      }
      if tier == SurroundingText {
        if !confirmation.LiveConfirmed? {
          confirmation := AwaitingFrame;
        }
      } else {
        engine.Reset();
        shadow.Clear();
        lastInput, retroactive := None, false;
      }
      wasIdle := true;
    }

    method SetMethod(m: BackspaceMethod)
      requires Valid()
      modifies this
      ensures Valid() && Model() == Composers.SetMethod(old(Model()), m)
    {
      tier := m;
      if m != SurroundingText {
        confirmation := Live;
      }
    }
  }
}
