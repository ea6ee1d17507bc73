/** The composer and the client together: what the shadow says about the document, and why a
deferred edit ends where an immediate one does. */
module Tracking {
  import opened Utf8
  import opened Texts
  import opened Engines
  import opened Shadows
  import opened Strategies
  import opened Clients
  import opened Firefox
  import opened Diff
  import opened Composers
  import opened Runs
  import opened Agreement
  import opened Safety

  /** What a step's output does to the document. */
  function DocAfter(kind: ClientKind, doc: Doc, out: Output): Option<Doc> {
    match out
    case Nothing => Some(doc)
    case KeyPassed(ch) => Some(InsertText(doc, [ch]))
    case BackspacePassed => Some(BackspaceKey(doc))
    case Edit(ops) =>
      var c := ReceiveAll(kind, Idle(doc), ops);
      if c.Some? && c.value == Idle(c.value.doc) then Some(c.value.doc) else None
  }

  /** The frame reports the document as it is. */
  predicate Truthful(f: Frame, doc: Doc) {
    && f.text == doc.before + doc.after
    && f.cursor == f.anchor == ByteLen(doc.before)
  }

  /** The shadow is a suffix of the document before the cursor, and no selection is in play. */
  predicate Tracks<E(!new)>(s: State<E>, doc: Doc) {
    doc.selected == "" && InSync(s.shadow, doc) && Guarded(s.quirk)
  }

  /** The user may move or change anything with a key that resets the composition. */
  datatype Moment = Moment(event: Event, moved: Doc)

  predicate Resets(ev: Event) {
    ev.Navigated? || ev.FullyReset?
  }

  predicate Honest(doc: Doc, m: Moment) {
    && (m.event.Received? ==> Truthful(m.event.frame, doc))
    && (Resets(m.event) ==> m.moved.selected == "")
  }

  function Together<E(!new)>(eng: Engine<E>, ch: Channels, kind: ClientKind, s: State<E>, doc: Doc,
          m: Moment): (State<E>, Option<Doc>) {
    var (s1, out) := Step(eng, ch, s, m.event);
    (s1, if Resets(m.event) then Some(m.moved) else DocAfter(kind, doc, out))
  }

  /** Run the composer and the client; no document if the client ever gets an impossible request. */
  function RunTogether<E(!new)>(eng: Engine<E>, ch: Channels, kind: ClientKind, s: State<E>, doc: Doc,
          ms: seq<Moment>): (State<E>, Option<Doc>)
    decreases |ms|
  {
    if ms == [] then (s, Some(doc))
    else
      var (s1, doc1) := Together(eng, ch, kind, s, doc, ms[0]);
      if doc1.None? then (s1, None) else RunTogether(eng, ch, kind, s1, doc1.value, ms[1..])
  }

  ghost predicate HonestRun<E(!new)>(eng: Engine<E>, ch: Channels, kind: ClientKind, s: State<E>, doc: Doc,
          ms: seq<Moment>)
    decreases |ms|
  {
    ms != [] ==>
      && Honest(doc, ms[0])
      && var (s1, doc1) := Together(eng, ch, kind, s, doc, ms[0]);
      && (doc1.Some? ==> HonestRun(eng, ch, kind, s1, doc1.value, ms[1..]))
  }

  lemma SurroundingTracks(kind: ClientKind, s: Shadow, doc: Doc, n: nat, commit: string)
    requires doc.selected == "" && InSync(s, doc)
    ensures var doc1 := DocAfter(kind, doc, Edit(SurroundingOps(s, n, commit, Bytes)));
            && doc1.Some? && doc1.value == EditDoc(doc, Min(n, |s.text|), commit)
            && InSync(SurroundingShadow(s, n, commit), doc1.value)
  {
    hide ReceiveAll, SurroundingOps;
    SurroundingRefines(kind, s, doc, n, commit);
    EditKeepsSuffix(s, doc, n, commit);
  }

  lemma ForwardTracks(kind: ClientKind, ch: Channels, s: Shadow, doc: Doc, n: nat, commit: string, prefer: bool)
    requires doc.selected == "" && InSync(s, doc)
    ensures var doc1 := DocAfter(kind, doc, Edit(ForwardOps(ch, n, commit, prefer)));
            && doc1.Some? && doc1.value == EditDoc(doc, n, commit)
            && InSync(ForwardShadow(s, n, commit), doc1.value)
  {
    hide ReceiveAll, ForwardOps;
    ForwardRefinesIff(kind, ch, doc, n, commit, prefer);
    EditKeepsSuffix(s, doc, n, commit);
  }

  /** An edit on whichever channel reaches the client as one edit, and the shadow follows it. */
  lemma EditTracks<E(!new)>(eng: Engine<E>, ch: Channels, kind: ClientKind, s: State<E>, doc: Doc, n: nat,
          commit: string, preserve: bool)
    requires Tracks(s, doc)
    ensures var (s1, ops) := ApplyEdit(eng, ch, s, n, commit, preserve);
            var doc1 := DocAfter(kind, doc, Edit(ops));
            && doc1.Some? && Tracks(s1, doc1.value) && doc1.value.after == doc.after
            && s1.shadow.text == Drop(s.shadow.text, n) + commit
            && (n <= |s.shadow.text| ==> doc1.value == EditDoc(doc, n, commit))
  {
    hide ApplyEdit, DocAfter, SurroundingOps, ForwardOps;
    EditOps(eng, ch, s, n, commit, preserve);
    SurroundingTracks(kind, s.shadow, doc, n, commit);
    ForwardTracks(kind, ch, s.shadow, doc, n, commit, true);
    ForwardTracks(kind, ch, s.shadow, doc, n, commit, false);
  }

  lemma PaidTracks<E(!new)>(eng: Engine<E>, ch: Channels, kind: ClientKind, fed: (State<E>, Decision), doc: Doc)
    requires fed.1.Apply? && Tracks(fed.0, doc)
    ensures var (s1, ops) := ApplyEdit(eng, ch, fed.0, fed.1.backspaces, fed.1.commit, false);
            var doc1 := DocAfter(kind, doc, Edit(ops));
            doc1.Some? && Tracks(s1, doc1.value) && doc1.value.after == doc.after
  {
    EditTracks(eng, ch, kind, fed.0, doc, fed.1.backspaces, fed.1.commit, false);
  }

  /** A character that passes through does the same to the shadow and to the document. */
  lemma PassedKeyTracks<E(!new)>(s: State<E>, doc: Doc, c: char)
    requires doc.selected == "" && InSync(s.shadow, doc)
    ensures InSync(s.shadow.(text := s.shadow.text + [c]), InsertText(doc, [c]))
    ensures InSync(s.shadow.(text := Drop(s.shadow.text, 1)), BackspaceKey(doc))
    ensures s.shadow.(text := Drop(s.shadow.text + [c], 1)) == s.shadow
  {
    SuffixEdit(s.shadow.text, doc.before, 0, [c]);
    SuffixEdit(s.shadow.text, doc.before, 1, "");
    assert Drop(s.shadow.text, 0) == s.shadow.text && Drop(doc.before, 0) == doc.before;
    assert Drop(s.shadow.text, 1) + "" == Drop(s.shadow.text, 1);
    assert Drop(doc.before, 1) + "" == Drop(doc.before, 1);
    assert Drop(s.shadow.text + [c], 1) == s.shadow.text;
  }

  lemma TruthfulBefore(f: Frame, doc: Doc)
    requires Truthful(f, doc)
    ensures f.Before() == doc.before
    ensures Observed(f.text, f.cursor, f.anchor).text == doc.before
    ensures NoSelection(Observed(f.text, f.cursor, f.anchor)) == Observed(f.text, f.cursor, f.anchor)
  {
    assert f.text[..|doc.before|] == doc.before;
    OffsetOf(f.text, |doc.before|);
    ObservedForward(f.text, f.cursor, f.anchor);
  }

  lemma ConfirmShadow<E(!new)>(eng: Engine<E>, s: State<E>, f: Frame, p: Pending)
    requires f.Before() != ""
    ensures ConfirmKey(eng, s, f, p).0.shadow == Observed(f.text, f.cursor, f.anchor)
  {
  }

  lemma TrustShadow<E(!new)>(eng: Engine<E>, s: State<E>, f: Frame, confirmed: bool, deletion: bool, reseed: bool)
    ensures TrustFrame(eng, s, f, confirmed, deletion, reseed).shadow == Observed(f.text, f.cursor, f.anchor)
  {
  }

  /** A frame either leaves the shadow alone or makes it the reported text before the cursor. */
  lemma FrameShadow<E(!new)>(eng: Engine<E>, s: State<E>, f: Frame, force: bool, recent: bool)
    ensures var s1 := ApplyFrame(eng, s, f, force, recent).0;
            s1.shadow == s.shadow || s1.shadow == Observed(f.text, f.cursor, f.anchor)
  {
    var s0 := Revalidate(s, f.Before());
    if Confirms(s0, f) {
      ConfirmShadow(eng, s0, f, s0.confirmation.pending);
    } else {
      var confirmed := f.Before() == s0.shadow.text;
      var deletion := DetectDeletion(s0.prev.text, s0.prev.cursor, f.text, f.cursor) || confirmed;
      var decision := Classify(recent, OneCharTyped(s, f), deletion, force, confirmed);
      var quirk := Observe(s0.quirk, f.Before(), recent, s0.retroactive);
      var s1 := s0.(quirk := quirk,
                    commitStringFunctional := s0.commitStringFunctional
                                              && !(quirk.useForwardDelete || quirk.forwardSticky));
      TrustShadow(eng, s1, f, confirmed, deletion, decision.reseed);
      assert GateFrame(eng, s0, f, force, recent, OneCharTyped(s, f))
          == if !decision.trust then s1 else TrustFrame(eng, s1, f, confirmed, deletion, decision.reseed);
    }
  }

  lemma FrameTracks<E(!new)>(eng: Engine<E>, s: State<E>, doc: Doc, f: Frame, force: bool, recent: bool)
    requires Tracks(s, doc) && Truthful(f, doc)
    ensures Tracks(ApplyFrame(eng, s, f, force, recent).0, doc)
  {
    hide ApplyFrame;
    TruthfulBefore(f, doc);
    FrameShadow(eng, s, f, force, recent);
    FrameEnds(eng, s, f, force, recent);
    ObserveGuarded(s.quirk, f.Before(), recent, s.retroactive);
    assert ByteLen("") == 0;
  }

  lemma KeyTracks<E(!new)>(eng: Engine<E>, ch: Channels, kind: ClientKind, s: State<E>, doc: Doc, m: Moment)
    requires Tracks(s, doc) && (m.event.Key? || m.event.ShiftedKey?)
    ensures var (s1, doc1) := Together(eng, ch, kind, s, doc, m);
            doc1.Some? && Tracks(s1, doc1.value) && doc1.value.after == doc.after
  {
    hide FeedKey, ApplyEdit, ReceiveAll;
    var c := m.event.ch;
    var fed := FeedKey(eng, s, c);
    FeedKeyShape(eng, s, c);
    PassedKeyTracks(s, doc, c);
    if fed.1.Apply? {
      PaidTracks(eng, ch, kind, fed, doc);
    } else if m.event.ShiftedKey? {
      var s2 := UnrecordForwardedChar(eng, fed.0);
      assert s2.shadow == s.shadow && s2.quirk == fed.0.quirk;
      EditTracks(eng, ch, kind, s2, doc, 0, [c], false);
    }
  }

  lemma BackspaceTracks<E(!new)>(eng: Engine<E>, ch: Channels, kind: ClientKind, s: State<E>, doc: Doc, m: Moment)
    requires Tracks(s, doc) && m.event.Backspace?
    ensures var (s1, doc1) := Together(eng, ch, kind, s, doc, m);
            doc1.Some? && Tracks(s1, doc1.value) && doc1.value.after == doc.after
  {
    hide FeedBackspace, ApplyEdit, ReceiveAll;
    FeedBackspaceShape(eng, s);
    PassedKeyTracks(s, doc, ' ');
    if FeedBackspace(eng, s).1.Apply? {
      PaidTracks(eng, ch, kind, FeedBackspace(eng, s), doc);
    }
  }

  lemma ReceivedTracks<E(!new)>(eng: Engine<E>, ch: Channels, kind: ClientKind, s: State<E>, doc: Doc, m: Moment)
    requires Tracks(s, doc) && m.event.Received? && Truthful(m.event.frame, doc)
    ensures var (s1, doc1) := Together(eng, ch, kind, s, doc, m);
            doc1.Some? && Tracks(s1, doc1.value) && doc1.value.after == doc.after
  {
    hide ApplyFrame, ApplyEdit, ReceiveAll;
    FrameTracks(eng, s, doc, m.event.frame, m.event.force, m.event.recent);
    var (s1, repair) := ApplyFrame(eng, s, m.event.frame, m.event.force, m.event.recent);
    if repair.Some? {
      EditTracks(eng, ch, kind, s1, doc, repair.value.backspaces, repair.value.commit, true);
    }
  }

  lemma QuietTracks<E(!new)>(eng: Engine<E>, ch: Channels, s: State<E>, doc: Doc, m: Moment)
    requires Tracks(s, doc) && Honest(doc, m)
    requires Step(eng, ch, s, m.event).1.Nothing? && !m.event.Received?
    ensures Tracks(Step(eng, ch, s, m.event).0, if Resets(m.event) then m.moved else doc)
  {
    hide FeedKey, FeedBackspace, ApplyFrame, ApplyEdit, TextBefore;
    assert ByteLen("") == 0;
  }

  /** One step of composer and client keeps the shadow a suffix of the document, whatever the engine
  asks for; the text after the cursor is never touched. */
  lemma TogetherTracks<E(!new)>(eng: Engine<E>, ch: Channels, kind: ClientKind, s: State<E>, doc: Doc, m: Moment)
    requires Tracks(s, doc) && Honest(doc, m)
    ensures var (s1, doc1) := Together(eng, ch, kind, s, doc, m);
            && doc1.Some? && Tracks(s1, doc1.value)
            && (!Resets(m.event) ==> doc1.value.after == doc.after)
  {
    match m.event
    case Key(_) => KeyTracks(eng, ch, kind, s, doc, m);
    case ShiftedKey(_) => KeyTracks(eng, ch, kind, s, doc, m);
    case Backspace => BackspaceTracks(eng, ch, kind, s, doc, m);
    case Received(_, _, _) => ReceivedTracks(eng, ch, kind, s, doc, m);
    case _ => QuietTracks(eng, ch, s, doc, m);
  }

  /** Over any run of keys, backspaces, edits on either channel, resets and truthful frames, every
  request can be carried out and the shadow stays a suffix of the document before the cursor. */
  lemma {:induction false} ShadowTracksDocument<E(!new)>(eng: Engine<E>, ch: Channels, kind: ClientKind,
          s: State<E>, doc: Doc, ms: seq<Moment>)
    requires Tracks(s, doc)
    requires HonestRun(eng, ch, kind, s, doc, ms)
    ensures var (s1, doc1) := RunTogether(eng, ch, kind, s, doc, ms);
            doc1.Some? && Tracks(s1, doc1.value)
    decreases |ms|
  {
    if ms != [] {
      TogetherTracks(eng, ch, kind, s, doc, ms[0]);
      var (s1, doc1) := Together(eng, ch, kind, s, doc, ms[0]);
      ShadowTracksDocument(eng, ch, kind, s1, doc1.value, ms[1..]);
    }
  }

  function Events(ms: seq<Moment>): seq<Event> {
    if ms == [] then [] else [ms[0].event] + Events(ms[1..])
  }

  // ---------- the engine too ----------

  /** While an edit is stashed: no Backspace, no pause and no change to the other tier. */
  predicate KeepsStash<E(!new)>(s: State<E>, ev: Event) {
    s.confirmation.HasStash() ==>
      !ev.Backspace? && !(ev.Paused? && s.tier == SurroundingText) && !(ev.TierSet? && ev.tier != SurroundingText)
  }

  /** An owed edit finds no selection to pop. */
  lemma OwedIsAllowed<E(!new)>(eng: Engine<E>, s: State<E>, n: nat, commit: string)
    requires Owes(eng, s, n, commit) && s.shadow.selectedBeforeChars == 0
    ensures EditAllowed(eng, s, n, commit)
  {
    hide Owes, UsesForwardKey, Spares;
    NothingPopped(eng, s, n, commit);
  }

  lemma KeyIsAllowed<E(!new)>(eng: Engine<E>, s: State<E>, ev: Event)
    requires Lawful(eng) && Agrees(eng, s) && KeepsStash(s, ev)
    requires s.shadow.selectedBeforeChars == 0 && Guarded(s.quirk)
    requires ev.Key? || ev.ShiftedKey? || ev.Backspace?
    ensures Allowed(eng, s, ev)
  {
    hide FeedKey, FeedBackspace, EditAllowed, Lawful, Agrees, Owes, Intact, BackspaceSpares;
    if ev.Backspace? {
      FeedBackspaceAgrees(eng, s);
      FeedBackspaceShape(eng, s);
      var (s1, d) := FeedBackspace(eng, s);
      if d.Apply? {
        OwedIsAllowed(eng, s1, d.backspaces, d.commit);
      }
    } else {
      FeedKeyAgrees(eng, s, ev.ch);
      FeedKeyShape(eng, s, ev.ch);
      var (s1, d) := FeedKey(eng, s, ev.ch);
      if d.Apply? {
        OwedIsAllowed(eng, s1, d.backspaces, d.commit);
      } else {
        UnrecordAgrees(eng, s, ev.ch);
        OwedIsAllowed(eng, UnrecordForwardedChar(eng, s1), 0, [ev.ch]);
      }
    }
  }

  /** A truthful frame shows more of the same text than the shadow, so it never moves the text away from the
  view, a stash included. */
  lemma TruthIsAllowed<E(!new)>(eng: Engine<E>, s: State<E>, doc: Doc, f: Frame, force: bool, recent: bool)
    requires Agrees(eng, s) && Tracks(s, doc) && Truthful(f, doc)
    ensures Allowed(eng, s, Received(f, force, recent))
  {
    hide TextBefore, Observed, InsertionProven, WordStart, IsSuffix, Drop, StashMatches, OneCharTyped;
    var view := eng.view(s.engine);
    TruthfulBefore(f, doc);
    if s.confirmation.HasStash() {
      var e := s.confirmation.pending.edit.value;
      SuffixEdit(s.shadow.text, doc.before, e.backspaces + 1, e.commit);
      SuffixTransitive(view, Drop(s.shadow.text, e.backspaces + 1) + e.commit, Drop(doc.before, e.backspaces + 1) + e.commit);
      StashIsOwedIff(eng, s, f);
    } else {
      SuffixTransitive(view, s.shadow.text, doc.before);
    }
  }

  lemma HonestIsAllowed<E(!new)>(eng: Engine<E>, s: State<E>, doc: Doc, m: Moment)
    requires Lawful(eng) && Agrees(eng, s) && Tracks(s, doc) && Honest(doc, m) && KeepsStash(s, m.event)
    ensures Allowed(eng, s, m.event)
  {
    var ev := m.event;
    if ev.Received? {
      TruthIsAllowed(eng, s, doc, ev.frame, ev.force, ev.recent);
    } else if ev.Key? || ev.ShiftedKey? || ev.Backspace? {
      hide Lawful, Agrees, Allowed;
      KeyIsAllowed(eng, s, ev);
    }
  }

  /** Over any honest run of composer and client that keeps its stashes, engine and shadow agree too. */
  lemma {:induction false} HonestRunAgrees<E(!new)>(eng: Engine<E>, ch: Channels, kind: ClientKind, s: State<E>, doc: Doc,
          ms: seq<Moment>)
    requires Lawful(eng) && Agrees(eng, s) && Tracks(s, doc)
    requires HonestRun(eng, ch, kind, s, doc, ms)
    requires Throughout(eng, ch, s, Events(ms), (s, ev) => KeepsStash(s, ev))
    ensures Agrees(eng, RunTogether(eng, ch, kind, s, doc, ms).0)
    decreases |ms|
  {
    hide Step, Lawful, Agrees, Allowed, KeepsStash, Honest, DocAfter, Tracks;
    if ms != [] {
      var m := ms[0];
      TogetherTracks(eng, ch, kind, s, doc, m);
      HonestIsAllowed(eng, s, doc, m);
      StepAgreesIff(eng, ch, s, m.event);
      var (s1, doc1) := Together(eng, ch, kind, s, doc, m);
      assert Events(ms)[1..] == Events(ms[1..]);
      HonestRunAgrees(eng, ch, kind, s1, doc1.value, ms[1..]);
    }
  }

  /** The three views of one text: the engine's word ends what the composer believes, and unless an
  edit is stashed that is the shadow, which ends the document before the cursor. */
  lemma ThreeViewsAgree<E(!new)>(eng: Engine<E>, ch: Channels, kind: ClientKind, m: BackspaceMethod, doc: Doc,
          ms: seq<Moment>)
    requires Lawful(eng) && doc.selected == ""
    requires HonestRun(eng, ch, kind, NewState(eng, m), doc, ms)
    requires Throughout(eng, ch, NewState(eng, m), Events(ms), (s, ev) => KeepsStash(s, ev))
    ensures var (s1, doc1) := RunTogether(eng, ch, kind, NewState(eng, m), doc, ms);
            && doc1.Some?
            && IsSuffix(eng.view(s1.engine), BelievedText(s1.shadow.text, s1.confirmation))
            && IsSuffix(s1.shadow.text, doc1.value.before)
            && (!s1.confirmation.HasStash() ==> IsSuffix(eng.view(s1.engine), doc1.value.before))
  {
    var s := NewState(eng, m);
    assert ByteLen("") == 0;
    ShadowTracksDocument(eng, ch, kind, s, doc, ms);
    NewStateAgrees(eng, m);
    HonestRunAgrees(eng, ch, kind, s, doc, ms);
    var (s1, doc1) := RunTogether(eng, ch, kind, s, doc, ms);
    if !s1.confirmation.HasStash() {
      SuffixTransitive(eng.view(s1.engine), s1.shadow.text, doc1.value.before);
    }
  }

  // ---------- deferred equals immediate ----------

  /** In an uncertain context a composing key is passed on and its edit is stashed; a certain
  context would have applied that same edit at once. */
  lemma KeyIsDeferred<E(!new)>(eng: Engine<E>, s: State<E>, c: char)
    requires Lawful(eng) && Agrees(eng, s)
    requires Uncertain(s) && !s.confirmation.PendingRaw?
    requires FeedKey(eng, s, c).0.confirmation.HasStash()
    ensures var (s1, d) := FeedKey(eng, s, c);
            var p := s1.confirmation.pending;
            var e := p.edit.value;
            && d == ForwardRaw
            && p.ch == c && p.repairable && e.baseWord == s.Word()
            && e.backspaces <= |s.shadow.text|
            && FeedKey(eng, s.(confirmation := Live), c).1 == Apply(e.backspaces, e.commit)
  {
    FeedKeyAgrees(eng, s, c);
    assert Drop(s.shadow.text + [c], 1) == s.shadow.text;
  }

  /** The frame that proves the key: it is true of the document with the key in it, the word before
  the key is the shadow's, and it follows on the last recorded frame. */
  predicate Proves<E(!new)>(s: State<E>, doc: Doc, c: char, f: Frame) {
    && Truthful(f, InsertText(doc, [c]))
    && CurrentWord(doc.before) == s.Word()
    && (s.prev.text == doc.before + doc.after || (s.shadow.text == doc.before && f.text != s.prev.text))
  }

  /** The stash is emitted from the frame that proves it, one backspace longer. */
  lemma StashIsEmitted<E(!new)>(eng: Engine<E>, s: State<E>, doc: Doc, c: char, f: Frame, force: bool, recent: bool)
    requires Lawful(eng) && Agrees(eng, s) && Tracks(s, doc)
    requires Uncertain(s) && !s.confirmation.PendingRaw?
    requires FeedKey(eng, s, c).0.confirmation.HasStash()
    requires Proves(s, doc, c, f)
    ensures var s1 := FeedKey(eng, s, c).0;
            var e := s1.confirmation.pending.edit.value;
            ApplyFrame(eng, s1, f, force, recent).1 == Some(RetroEdit(e.backspaces + 1, e.commit))
  {
    hide FeedKey, Lawful, Agrees, ConfirmsInsertedChar, CharsWithin;
    var s1 := FeedKey(eng, s, c).0;
    KeyIsDeferred(eng, s, c);
    FeedKeyShape(eng, s, c);
    TruthfulBefore(f, InsertText(doc, [c]));
    if s.prev.text == doc.before + doc.after {
      SpliceGivesConfirms(s.prev.text, f.text, doc.before, c, doc.after);
    }
    assert InsertionProven(s1, f, c);
    assert (doc.before + [c])[..|doc.before|] == doc.before;
  }

  /** A frame that yields a repair has become the shadow. */
  lemma EmittedShadow<E(!new)>(eng: Engine<E>, s: State<E>, f: Frame, force: bool, recent: bool)
    requires ApplyFrame(eng, s, f, force, recent).1.Some?
    ensures ApplyFrame(eng, s, f, force, recent).0.shadow == Observed(f.text, f.cursor, f.anchor)
  {
    var s0 := Revalidate(s, f.Before());
    ConfirmShadow(eng, s0, f, s0.confirmation.pending);
  }

  lemma DeferredEnd<E(!new)>(eng: Engine<E>, ch: Channels, kind: ClientKind, s: State<E>, doc: Doc, c: char,
          n: nat, commit: string)
    requires Tracks(s, InsertText(doc, [c])) && doc.selected == ""
    requires s.shadow.text == doc.before + [c]
    requires n <= |doc.before|
    ensures var (s2, ops) := ApplyRepair(eng, ch, s, RetroEdit(n + 1, commit));
            && DocAfter(kind, InsertText(doc, [c]), Edit(ops)) == Some(EditDoc(doc, n, commit))
            && s2.shadow.text == Drop(doc.before, n) + commit
  {
    EditTracks(eng, ch, kind, s, InsertText(doc, [c]), n + 1, commit, true);
    DropAppended(doc.before, [c], n + 1);
  }

  /** What the frame makes of the state that passed the key on. */
  lemma ProvenState<E(!new)>(eng: Engine<E>, s: State<E>, doc: Doc, f: Frame, force: bool, recent: bool)
    requires Tracks(s, doc) && Truthful(f, doc)
    requires ApplyFrame(eng, s, f, force, recent).1.Some?
    ensures var s1 := ApplyFrame(eng, s, f, force, recent).0;
            Tracks(s1, doc) && s1.shadow.text == doc.before
  {
    FrameTracks(eng, s, doc, f, force, recent);
    EmittedShadow(eng, s, f, force, recent);
    TruthfulBefore(f, doc);
  }

  lemma ImmediateEnd<E(!new)>(eng: Engine<E>, ch: Channels, kind: ClientKind, s: State<E>, doc: Doc, c: char,
          n: nat, commit: string)
    requires Tracks(s, doc)
    requires FeedKey(eng, s, c).1 == Apply(n, commit)
    requires n <= |s.shadow.text|
    ensures var (t, out) := Step(eng, ch, s, Key(c));
            && DocAfter(kind, doc, out) == Some(EditDoc(doc, n, commit))
            && t.shadow.text == Drop(s.shadow.text, n) + commit
  {
    FeedKeyShape(eng, s, c);
    EditTracks(eng, ch, kind, FeedKey(eng, s, c).0, doc, n, commit, false);
  }

  lemma PassedState<E(!new)>(eng: Engine<E>, s: State<E>, doc: Doc, c: char)
    requires Tracks(s, doc) && FeedKey(eng, s, c).1 == ForwardRaw
    ensures Tracks(FeedKey(eng, s, c).0, InsertText(doc, [c]))
  {
    FeedKeyShape(eng, s, c);
    PassedKeyTracks(s, doc, c);
  }

  /** The frame answers the passed key with the stash, on a shadow that is the text it proved. */
  lemma DeferredStep<E(!new)>(eng: Engine<E>, ch: Channels, s: State<E>, doc: Doc, c: char, f: Frame, force: bool,
          recent: bool)
    requires Lawful(eng) && Agrees(eng, s) && Tracks(s, doc)
    requires Uncertain(s) && !s.confirmation.PendingRaw?
    requires FeedKey(eng, s, c).0.confirmation.HasStash()
    requires Proves(s, doc, c, f)
    ensures var s1 := FeedKey(eng, s, c).0;
            var e := s1.confirmation.pending.edit.value;
            var (s3, repair) := ApplyFrame(eng, s1, f, force, recent);
            && repair == Some(RetroEdit(e.backspaces + 1, e.commit))
            && Tracks(s3, InsertText(doc, [c])) && s3.shadow.text == doc.before + [c]
  {
    KeyIsDeferred(eng, s, c);
    PassedState(eng, s, doc, c);
    StashIsEmitted(eng, s, doc, c, f, force, recent);
    ProvenState(eng, FeedKey(eng, s, c).0, InsertText(doc, [c]), f, force, recent);
  }

  /** Deferred equals immediate.  Passing the raw key on, receiving the frame that proves it, and
  applying the stashed repair leaves the document that applying the edit at once leaves,
  whichever channel each of the two takes.  The shadows agree too: the deferred one covers
  the whole text before the cursor, and ends in the immediate one. */
  lemma DeferredEqualsImmediate<E(!new)>(eng: Engine<E>, ch: Channels, kind: ClientKind, s: State<E>, doc: Doc, c: char,
                                         f: Frame, force: bool, recent: bool)
    requires Lawful(eng) && Agrees(eng, s) && Tracks(s, doc)
    requires Uncertain(s) && !s.confirmation.PendingRaw?
    requires FeedKey(eng, s, c).0.confirmation.HasStash()
    requires Proves(s, doc, c, f)
    ensures var (s1, passed) := Step(eng, ch, s, Key(c));
            var (s2, repaired) := Step(eng, ch, s1, Received(f, force, recent));
            var (t, applied) := Step(eng, ch, s.(confirmation := Live), Key(c));
            var end := DocAfter(kind, doc, applied);
            && DocAfter(kind, doc, passed) == Some(InsertText(doc, [c]))
            && DocAfter(kind, InsertText(doc, [c]), repaired) == end
            && end.Some?
            && s2.shadow.text == end.value.before
            && IsSuffix(t.shadow.text, s2.shadow.text)
            && (s.shadow.text == doc.before ==> t.shadow.text == s2.shadow.text)
  {
    hide FeedKey, ApplyFrame, ApplyEdit, Lawful, Agrees, ReceiveAll, CurrentWord, WordBound, ByteLen, TextBefore;
    var s1 := FeedKey(eng, s, c).0;
    var e := s1.confirmation.pending.edit.value;
    KeyIsDeferred(eng, s, c);
    DeferredStep(eng, ch, s, doc, c, f, force, recent);
    DeferredEnd(eng, ch, kind, ApplyFrame(eng, s1, f, force, recent).0, doc, c, e.backspaces, e.commit);
    ImmediateEnd(eng, ch, kind, s.(confirmation := Live), doc, c, e.backspaces, e.commit);
    SuffixEdit(s.shadow.text, doc.before, e.backspaces, e.commit);
  }
}
