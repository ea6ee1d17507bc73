/** Where the agreement of engine and shadow ends: what happens in each case that Agreement.Allowed shuts
out, for every engine and state, and a run from a new composer that gets there. */
module Exceptions {
  import opened Utf8
  import opened Texts
  import opened Engines
  import opened Samples
  import opened Shadows
  import opened Strategies
  import opened Firefox
  import opened Diff
  import opened Composers
  import opened Runs
  import opened Agreement

  const NO_CHANNELS := Channels(t => false, t => false)

  // ---------- a stash that is forgotten ----------

  lemma CommitEndsView<E(!new)>(eng: Engine<E>, s: State<E>)
    requires Agrees(eng, s) && Intact(eng, s) && s.confirmation.HasStash()
    ensures IsSuffix(s.confirmation.pending.edit.value.commit, eng.view(s.engine))
  {
    hide WordBound, WordStart;
    var e := s.confirmation.pending.edit.value;
    var text := Drop(s.shadow.text, e.backspaces + 1) + e.commit;
    assert IsSuffix(e.commit, text);
    ShorterSuffix(e.commit, eng.view(s.engine), text);
  }

  /** A pause and a change of tier keep the engine that a stashed edit has moved on, and forget the stash:
  agreement ends whenever the shadow does not end in the commit text. */
  lemma StashIsForgotten<E(!new)>(eng: Engine<E>, ch: Channels, s: State<E>)
    requires Lawful(eng) && Agrees(eng, s) && Intact(eng, s) && s.confirmation.HasStash()
    requires !IsSuffix(s.confirmation.pending.edit.value.commit, s.shadow.text)
    ensures !Agrees(eng, Step(eng, ch, s, Paused).0)
    ensures !Agrees(eng, Step(eng, ch, s, TierSet(ForwardKey)).0)
  {
    CommitEndsView(eng, s);
    StepAgreesIff(eng, ch, s, Paused);
    StepAgreesIff(eng, ch, s, TierSet(ForwardKey));
    hide Agrees, Step, IsSuffix, Lawful, WordBound;
    if IsSuffix(eng.view(s.engine), s.shadow.text) {
      SuffixTransitive(s.confirmation.pending.edit.value.commit, eng.view(s.engine), s.shadow.text);
    }
  }

  // ---------- a run that stashes ----------

  const HORN: string := [HORNED_U]

  const TU := Frame("tu", 2, 2)

  /** A new composer with confirmation on, after it has seen a frame. */
  function Seen(): State<string> {
    NewState(SAMPLE, SurroundingText).(engine := "tu", retroactive := true, confirmEdits := true,
      confirmation := FrameDerived, shadow := EMPTY.(text := "tu", lastCursor := Some(2)), prev := TU)
  }

  /** The same after `w`: the key is passed on, its edit is stashed. */
  function Stashed(): State<string> {
    Seen().(engine := "t" + HORN, lastInput := Some('w'), shadow := Seen().shadow.(text := "tuw"),
      confirmation := PendingRaw(Pending('w', true, Some(PendingEdit(1, HORN, "tu")), true)))
  }

  const STASHING: seq<Event> := [ConfirmationSet(true), Received(TU, false, false), Key('w')]

  lemma TuIsWord()
    ensures CurrentWord("tu") == "tu" && CurrentWord("t" + HORN) == "t" + HORN
  {
    hide IsWordBoundary, CurrentWord;
    LettersAreNoBoundary('t');
    LettersAreNoBoundary('u');
    LettersAreNoBoundary(HORNED_U);
    NoBoundaryIsWord("tu");
    NoBoundaryIsWord("t" + HORN);
  }

  lemma TuObserved()
    ensures TextBefore("tu", 2) == "tu" && Observed("tu", 2, 2) == Seen().shadow
    ensures Observed("tu", 2, 1) == EMPTY.(text := "t", lastCursor := Some(2), selectedBeforeChars := 1)
  {
    AsciiOffsets("tu");
    AsciiOffsets("t");
    assert "tu"[1..] == "u" && "u"[1..] == "" && "tu"[..2] == "tu" && "tu"[..1] == "t" && "tu"[1..2] == "u";
    assert CharsWithin("u", 0) == 0 && CharsWithin("tu", 1) == 1;
    assert ByteLen("") == 0;
  }

  lemma TypedTu()
    ensures Typed(SAMPLE, "", "", "tu") == ("tu", "tu") && SampleTyped(false, "", "tu") == "tu"
  {
    LettersAreNoBoundary('t');
    LettersAreNoBoundary('u');
    hide IsWordBoundary;
    assert "tu"[1..] == "u" && "u"[1..] == "" && "" + ['t'] == "t" && "t" + ['u'] == "tu";
    assert SAMPLE.key("", 't') == ("t", ProcessResult(0, "", false));
    assert SAMPLE.key("t", 'u') == ("tu", ProcessResult(0, "", false));
    assert Typed(SAMPLE, "tu", "tu", "") == ("tu", "tu");
    assert Typed(SAMPLE, "t", "t", "u") == ("tu", "tu");
    assert SampleTyped(false, "t", "u") == SampleTyped(false, "tu", "") == "tu";
  }

  lemma TuIsSeeded()
    ensures FeedGated(SAMPLE, "", "tu") == ("tu", true)
  {
    TypedTu();
    hide Typed, SampleTyped;
    assert "tu"[1..] == "u" && "u"[1..] == "" && "t" + "u" == "tu" && "u" + "" == "u";
    assert ContextFrom(SAMPLE.reverse, "u") == "u";
    assert ContextFrom(SAMPLE.reverse, "tu") == "tu";
  }

  lemma FrameSeeds()
    ensures Step(SAMPLE, NO_CHANNELS, NewState(SAMPLE, SurroundingText).(confirmEdits := true), Received(TU, false, false))
         == (Seen(), Nothing)
  {
    TuObserved();
    TuIsWord();
    TuIsSeeded();
    var s := NewState(SAMPLE, SurroundingText).(confirmEdits := true);
    NoFrameNoInsertion();
    hide DetectOneCharInsertion, DetectDeletion, TextBefore, FeedGated, CurrentWord, Observed;
    assert ApplyFrame(SAMPLE, s, TU, false, false).0 == GateFrame(SAMPLE, s, TU, false, false, false);
    assert TrustFrame(SAMPLE, s, TU, false, false, true) == Seen();
  }

  lemma NoFrameNoInsertion()
    ensures !DetectOneCharInsertion("", 0, "tu", 2) && !DetectDeletion("", 0, "tu", 2)
  {
    AsciiOffsets("tu");
    assert CharsWithin("tu", 0) == 0;
  }

  /** A key that needs no seed and clears nothing. */
  lemma PlainKey<E(!new)>(eng: Engine<E>, s: State<E>, c: char)
    requires !s.confirmation.PendingRaw? && (!eng.atWordBeginning(s.engine) || s.Word() == "")
    requires IsAsciiAlphabetic(c) || (!s.retroactive && s.quirk == Cleared(s.quirk))
    ensures var (engine, r) := eng.key(s.engine, c);
            var uncertain := s.confirmEdits && s.tier == SurroundingText && s.confirmation.IsUncertain();
            FeedKey(eng, s, c)
            == FinishKey(s.(engine := engine, lastInput := Some(c)), c,
                         PlanKeyFinish(c, uncertain, false, s.confirmation.IsFrameDerived(), r, s.Word()))
  {
    hide WordStart, FinishKey, PlanKeyFinish;
    var start := PlanKeyStart(Capture(eng, s, c));
    assert BeginKey(eng, s, start) == s;
  }

  lemma StepOnPass<E(!new)>(eng: Engine<E>, ch: Channels, s: State<E>, c: char)
    requires FeedKey(eng, s, c).1.ForwardRaw?
    ensures Step(eng, ch, s, Key(c)) == (FeedKey(eng, s, c).0, KeyPassed(c))
  {
    hide FeedKey;
  }

  lemma KeyStashes()
    ensures FeedKey(SAMPLE, Seen(), 'w') == (Stashed(), ForwardRaw)
    ensures Step(SAMPLE, NO_CHANNELS, Seen(), Key('w')) == (Stashed(), KeyPassed('w'))
  {
    SampleHorns(false, "t");
    TuIsWord();
    hide SampleKey, CurrentWord, FeedKey, Step;
    PlainKey(SAMPLE, Seen(), 'w');
    assert "tu" + ['w'] == "tuw" && "t" + ['u'] == "tu";
    StepOnPass(SAMPLE, NO_CHANNELS, Seen(), 'w');
  }

  lemma SampleHorns(spans: bool, e: string)
    ensures SampleKey(spans, e + ['u'], 'w') == (e + HORN, ProcessResult(1, HORN, true))
  {
    LettersAreNoBoundary('w');
    hide IsWordBoundary;
    assert Drop(e + ['u'], 1) == e;
  }

  lemma SeenAgrees()
    ensures Agrees(SAMPLE, Seen())
  {
    TuIsWord();
    hide CurrentWord;
    assert "tu"[0..] == "tu";
  }

  lemma RunThree<E(!new)>(eng: Engine<E>, ch: Channels, s: State<E>, a: Event, b: Event, c: Event)
    ensures Run(eng, ch, s, [a, b, c]) == Step(eng, ch, Step(eng, ch, Step(eng, ch, s, a).0, b).0, c).0
  {
    hide Step;
    assert [a, b, c][1..] == [b, c] && [b, c][1..] == [c] && [c][1..] == [];
    var s1 := Step(eng, ch, s, a).0;
    var s2 := Step(eng, ch, s1, b).0;
    assert Run(eng, ch, s2, [c]) == Step(eng, ch, s2, c).0;
    assert Run(eng, ch, s1, [b, c]) == Run(eng, ch, s2, [c]);
  }

  lemma StashedAgrees()
    requires Lawful(SAMPLE)
    ensures Agrees(SAMPLE, Stashed()) && Intact(SAMPLE, Stashed())
  {
    SeenAgrees();
    KeyStashes();
    hide Agrees, Intact, Lawful, FeedKey, Step, SAMPLE, Seen, Stashed;
    FeedKeyAgrees(SAMPLE, Seen(), 'w');
  }

  lemma SampleBackspacePasses(spans: bool, s: State<string>)
    requires s.shadow.text != "" && s.shadow.text[|s.shadow.text| - 1] as int < 0x80
    ensures var (s1, d) := FeedBackspace(Sampled(spans), s);
            d.ForwardRaw? && s1.engine == SampleBackspace(spans, s.engine)
  {
    hide SampleBackspace;
  }

  lemma TIsWord()
    ensures CurrentWord("t") == "t"
  {
    hide IsWordBoundary, CurrentWord;
    LettersAreNoBoundary('t');
    NoBoundaryIsWord("t");
  }

  lemma HornedBack()
    ensures SampleView(false, "t" + HORN) == "t" + HORN && SampleBackspace(false, "t" + HORN) == "t"
    ensures SampleView(false, "t") == "t"
  {
    assert Drop("t" + HORN, 1) == "t" && "t" + HORN != "";
    hide CurrentWord, Drop, HORN;
    TuIsWord();
    TIsWord();
  }

  lemma StashedView()
    ensures FeedBackspace(SAMPLE, Stashed()).1.ForwardRaw?
    ensures SAMPLE.view(Stashed().engine) == "t" + HORN
    ensures SAMPLE.view(FeedBackspace(SAMPLE, Stashed()).0.engine) == "t"
  {
    hide FeedBackspace, SampleBackspace, SampleView, HORN;
    SampleBackspacePasses(false, Stashed());
    HornedBack();
  }

  /** The horned u is no repetition of the `t` before it. */
  lemma HornIsNoRepeat()
    ensures !RepeatsLast("t" + HORN, 2)
  {
    assert Back("t" + HORN, 1) == 't' != HORNED_U == Back("t" + HORN, 0);
  }

  lemma PassNotSpared<E(!new)>(eng: Engine<E>, s: State<E>)
    requires s.confirmation.HasStash() && FeedBackspace(eng, s).1.ForwardRaw?
    requires eng.view(FeedBackspace(eng, s).0.engine) != ""
    requires !RepeatsLast(eng.view(s.engine), |s.confirmation.pending.edit.value.commit| + 1)
    ensures !BackspaceSpares(eng, s)
  {
    hide FeedBackspace, EditCommutes, RepeatsLast;
  }

  lemma StashedEdit()
    ensures Stashed().confirmation.HasStash() && |Stashed().confirmation.pending.edit.value.commit| == 1
  {
  }

  lemma BackspaceIsNotSpared()
    ensures Stashed().confirmation.HasStash() && !BackspaceSpares(SAMPLE, Stashed())
  {
    hide *;
    StashedEdit();
    StashedView();
    HornIsNoRepeat();
    PassNotSpared(SAMPLE, Stashed());
  }

  lemma BackspaceBreaks()
    requires Lawful(SAMPLE) && Agrees(SAMPLE, Stashed())
    ensures !Agrees(SAMPLE, Step(SAMPLE, NO_CHANNELS, Stashed(), Backspace).0)
  {
    hide *;
    BackspaceIsNotSpared();
    BackspaceMeetsStash(SAMPLE, NO_CHANNELS, Stashed());
  }

  lemma HornEndsNothing()
    ensures !IsSuffix(HORN, "tuw")
  {
    assert "tuw"[2..][0] == 'w' != HORNED_U;
  }

  lemma PauseAndTierBreak()
    requires Lawful(SAMPLE) && Agrees(SAMPLE, Stashed()) && Intact(SAMPLE, Stashed())
    ensures !Agrees(SAMPLE, Step(SAMPLE, NO_CHANNELS, Stashed(), Paused).0)
    ensures !Agrees(SAMPLE, Step(SAMPLE, NO_CHANNELS, Stashed(), TierSet(ForwardKey)).0)
  {
    hide Agrees, Intact, Lawful, Step, IsSuffix, SAMPLE, WordBound;
    HornEndsNothing();
    StashIsForgotten(SAMPLE, NO_CHANNELS, Stashed());
  }

  /** From a new composer, two events and a key reach a stash that a pause, a change of tier and a
  Backspace each forget. */
  lemma StashIsReached()
    ensures Lawful(SAMPLE)
    ensures var s := Run(SAMPLE, NO_CHANNELS, NewState(SAMPLE, SurroundingText), STASHING);
            && s == Stashed() && Agrees(SAMPLE, s)
            && !Agrees(SAMPLE, Step(SAMPLE, NO_CHANNELS, s, Paused).0)
            && !Agrees(SAMPLE, Step(SAMPLE, NO_CHANNELS, s, TierSet(ForwardKey)).0)
            && !Agrees(SAMPLE, Step(SAMPLE, NO_CHANNELS, s, Backspace).0)
  {
    var start := NewState(SAMPLE, SurroundingText);
    assert Step(SAMPLE, NO_CHANNELS, start, ConfirmationSet(true)).0 == start.(confirmEdits := true);
    hide Agrees, Intact, Run, Lawful, Step, NewState, Stashed, Seen;
    SampleIsLawful(false);
    FrameSeeds();
    KeyStashes();
    RunThree(SAMPLE, NO_CHANNELS, start, ConfirmationSet(true), Received(TU, false, false), Key('w'));
    StashedAgrees();
    PauseAndTierBreak();
    BackspaceBreaks();
  }

  // ---------- typing ----------

  /** A new composer that has passed on the keys of `text`. */
  function Typing(spans: bool, confirm: bool, text: string): State<string> {
    NewState(Sampled(spans), SurroundingText).(engine := text, shadow := EMPTY.(text := text), confirmEdits := confirm,
      lastInput := if text == "" then None else Some(text[|text| - 1]))
  }

  lemma TypingPasses(spans: bool, confirm: bool, text: string, c: char)
    requires c != 'w' && (spans || IsAsciiAlphabetic(c))
    ensures Step(Sampled(spans), NO_CHANNELS, Typing(spans, confirm, text), Key(c))
         == (Typing(spans, confirm, text + [c]), KeyPassed(c))
  {
    assert text == "" ==> CurrentWord(text) == "";
    if !spans {
      LettersAreNoBoundary(c);
    }
    hide CurrentWord, FeedKey, Step, IsWordBoundary;
    PlainKey(Sampled(spans), Typing(spans, confirm, text), c);
    StepOnPass(Sampled(spans), NO_CHANNELS, Typing(spans, confirm, text), c);
  }

  lemma {:induction false} TypedRun(spans: bool, confirm: bool, text: string, keys: string)
    requires forall c <- keys :: c != 'w' && (spans || IsAsciiAlphabetic(c))
    ensures Run(Sampled(spans), NO_CHANNELS, Typing(spans, confirm, text), Keys(keys)) == Typing(spans, confirm, text + keys)
    decreases |keys|
  {
    hide Step, Typing;
    if keys == "" {
      assert text + "" == text && Keys(keys) == [];
    } else {
      assert keys[0] in keys && forall c <- keys[1..] :: c in keys;
      TypingPasses(spans, confirm, text, keys[0]);
      assert Keys(keys) == [Key(keys[0])] + Keys(keys[1..]);
      RunOn(Sampled(spans), NO_CHANNELS, Typing(spans, confirm, text), Key(keys[0]), Keys(keys[1..]));
      TypedRun(spans, confirm, text + [keys[0]], keys[1..]);
      assert text + [keys[0]] + keys[1..] == text + keys;
    }
  }

  // ---------- a stash released onto another text ----------

  lemma SampleIsWordBound()
    ensures WordBound(SAMPLE) && !WordBound(PHRASE)
  {
    forall e: string
      ensures forall c <- SAMPLE.view(e) :: !IsWordBoundary(c)
    {
      CurrentWordIsLongest(e);
    }
    assert IsWordBoundary(' ') && ' ' in PHRASE.view(" ");
  }

  /** An engine that keeps the phrase in view has typed "a tu"; the client's cursor then goes to the end of
  "a tu b tu". */
  const PHRASES := "a tu b tu"

  const BEFORE := Frame(PHRASES, 4, 4)

  const AFTER := Frame(PHRASES, 9, 9)

  const TYPED_AFTER := Frame(PHRASES + "w", 10, 10)

  function Phrase(text: string): State<string> {
    Typing(true, true, text)
  }

  /** The frame at the old cursor is what the shadow says. */
  function Confirmed(): State<string> {
    Phrase("a tu").(shadow := EMPTY.(text := "a tu", lastCursor := Some(4)), confirmation := LiveConfirmed, prev := BEFORE)
  }

  /** The frame at the new cursor is too recent to be trusted, but ends the confirmation. */
  function Awaiting(): State<string> {
    Confirmed().(confirmation := AwaitingFrame)
  }

  function PhraseStashed(): State<string> {
    Awaiting().(engine := "a t" + HORN, lastInput := Some('w'), shadow := Confirmed().shadow.(text := "a tuw"),
      confirmation := PendingRaw(Pending('w', true, Some(PendingEdit(1, HORN, "tu")), false)))
  }

  lemma PhrasesAreAscii()
    ensures IsAscii(PHRASES) && IsAscii(PHRASES + "w") && |PHRASES| == 9 && PHRASES[..4] == "a tu"
  {
  }

  lemma PhraseBefore()
    ensures BEFORE.Before() == "a tu" && AFTER.Before() == PHRASES && TYPED_AFTER.Before() == PHRASES + "w"
    ensures Observed(PHRASES, 4, 4) == Confirmed().shadow
    ensures |Encode(PHRASES)| == 9
  {
    PhrasesAreAscii();
    assert PHRASES[..9] == PHRASES && (PHRASES + "w")[..10] == PHRASES + "w";
    hide PHRASES, Encode, CharsWithin, TextBefore, IsAscii;
    AsciiCut(PHRASES, 4);
    AsciiCut(PHRASES, 9);
    AsciiCut(PHRASES + "w", 10);
    ObservedForward(PHRASES, 4, 4);
    assert ByteLen("") == 0;
  }

  lemma BeforeConfirms()
    ensures Step(PHRASE, NO_CHANNELS, Phrase("a tu"), Received(BEFORE, false, true)) == (Confirmed(), Nothing)
  {
    PhraseBefore();
    hide DetectOneCharInsertion, DetectDeletion, TextBefore, FeedGated, CurrentWord, Observed, Encode, CharsWithin;
    var s := Phrase("a tu");
    var oneChar := OneCharTyped(s, BEFORE);
    assert ApplyFrame(PHRASE, s, BEFORE, false, true) == (GateFrame(PHRASE, s, BEFORE, false, true, oneChar), None);
    assert TrustFrame(PHRASE, s, BEFORE, true, true, false) == Confirmed();
  }

  lemma AfterIsGated()
    requires AFTER.Before() == PHRASES
    ensures GateFrame(PHRASE, Awaiting(), AFTER, false, true, false) == Awaiting()
  {
    hide DetectDeletion, Observed, CharsWithin, TrustFrame, PHRASE, Frame.Before;
    assert PHRASES != Awaiting().shadow.text;
  }

  lemma AfterGivesNothing()
    requires AFTER.Before() == PHRASES && !OneCharTyped(Confirmed(), AFTER)
    requires GateFrame(PHRASE, Awaiting(), AFTER, false, true, false) == Awaiting()
    ensures ApplyFrame(PHRASE, Confirmed(), AFTER, false, true) == (Awaiting(), None)
  {
    hide OneCharTyped, Observed, CharsWithin, GateFrame, PHRASE, Frame.Before;
    assert PHRASES != Confirmed().shadow.text;
    hide PHRASES, BEFORE;
    assert Revalidate(Confirmed(), AFTER.Before()) == Awaiting();
  }

  lemma AfterIsDropped()
    ensures Step(PHRASE, NO_CHANNELS, Confirmed(), Received(AFTER, false, true)) == (Awaiting(), Nothing)
  {
    PhraseBefore();
    AfterIsGated();
    SameTextNoInsertion(PHRASES, 4, 9);
    assert !OneCharTyped(Confirmed(), AFTER);
    hide *;
    AfterGivesNothing();
    StepOfFrame(PHRASE, NO_CHANNELS, Confirmed(), AFTER, Awaiting());
  }

  lemma StepOfFrame(eng: Engine<string>, ch: Channels, s: State<string>, f: Frame, s': State<string>)
    requires ApplyFrame(eng, s, f, false, true) == (s', None)
    ensures Step(eng, ch, s, Received(f, false, true)) == (s', Nothing)
  {
    hide ApplyFrame;
  }

  lemma SameTextNoInsertion(text: string, i: nat, j: nat)
    requires i < j
    ensures !DetectOneCharInsertion(text, i, text, j)
  {
    hide Encode;
    assert j <= |Encode(text)| ==> |Encode(text)[j..]| < |Encode(text)[i..]|;
  }

  lemma PhraseWord()
    ensures CurrentWord("a tu") == "tu" && CurrentWord(PHRASES) == "tu"
  {
    WordAfterBlank("a", "tu");
    WordAfterBlank("a tu b", "tu");
    assert "a" + " " + "tu" == "a tu" && "a tu b" + " " + "tu" == PHRASES;
  }

  lemma WordAfterBlank(head: string, word: string)
    requires word == "tu"
    ensures CurrentWord(head + " " + word) == word
  {
    var text := head + " ";
    LettersAreNoBoundary('t');
    LettersAreNoBoundary('u');
    assert CurrentWord(text) == "" by {
      assert text[|text| - 1] == ' ';
    }
    hide IsWordBoundary, CurrentWord;
    WordOn(text, 't');
    WordOn(text + ['t'], 'u');
    assert text + ['t'] + ['u'] == head + " " + word;
  }

  lemma PhraseStashes()
    ensures Step(PHRASE, NO_CHANNELS, Awaiting(), Key('w')) == (PhraseStashed(), KeyPassed('w'))
  {
    hide FeedKey, Step, Awaiting, PhraseStashed;
    PhrasePassed();
    StepOnPass(PHRASE, NO_CHANNELS, Awaiting(), 'w');
  }

  lemma PhraseProves()
    ensures ConfirmsInsertedChar(PHRASES, PHRASES + "w", 10, 'w')
  {
    PhrasesAreAscii();
    assert PHRASES + "" == PHRASES && PHRASES + ['w'] == PHRASES + "w" == PHRASES + ['w'] + "";
    hide PHRASES, ConfirmsInsertedChar, IsAscii, Encode;
    AsciiOffsets(PHRASES + "w");
    SpliceGivesConfirms(PHRASES, PHRASES + "w", PHRASES, 'w', "");
  }

  lemma PhraseEmits()
    ensures EmitsStash(PhraseStashed(), TYPED_AFTER)
  {
    PhraseBefore();
    PhraseWord();
    PhraseProves();
    assert Drop(PHRASES + "w", 1) == PHRASES;
    hide CurrentWord, ConfirmsInsertedChar, TextBefore, Encode, CharsWithin;
  }

  lemma PhraseDiffers()
    ensures !StashMatches(PHRASE, PhraseStashed(), TYPED_AFTER)
  {
    PhraseBefore();
    assert Drop("a tuw", 2) == "a t" && Drop(PHRASES + "w", 2) == "a tu b t";
    assert PHRASE.view("a t" + HORN) == "a t" + HORN;
    hide TextBefore;
    assert "a t"[0..][0] == 'a' && "a tu b t"[5..][0] == 'b';
  }

  const SPLITTING: seq<Event> :=
    [ConfirmationSet(true), Key('a'), Key(' '), Key('t'), Key('u'),
     Received(BEFORE, false, true), Received(AFTER, false, true), Key('w')]

  lemma {:induction false} RunConcat<E(!new)>(eng: Engine<E>, ch: Channels, s: State<E>, a: seq<Event>, b: seq<Event>)
    ensures Run(eng, ch, s, a + b) == Run(eng, ch, Run(eng, ch, s, a), b)
    decreases |a|
  {
    hide Step;
    if a == [] {
      assert a + b == b;
    } else {
      assert (a + b)[1..] == a[1..] + b;
      RunConcat(eng, ch, Step(eng, ch, s, a[0]).0, a[1..], b);
    }
  }

  lemma PhraseEnd()
    ensures Run(PHRASE, NO_CHANNELS, Phrase("a tu"), [Received(BEFORE, false, true), Received(AFTER, false, true), Key('w')])
         == PhraseStashed()
  {
    hide Step, Run, Phrase, Confirmed, Awaiting, PhraseStashed, PHRASE, PHRASES;
    BeforeConfirms();
    AfterIsDropped();
    PhraseStashes();
    RunThree(PHRASE, NO_CHANNELS, Phrase("a tu"), Received(BEFORE, false, true), Received(AFTER, false, true), Key('w'));
  }

  lemma PhraseStart()
    ensures Run(PHRASE, NO_CHANNELS, Phrase(""), [Key('a'), Key(' '), Key('t'), Key('u')]) == Phrase("a tu")
  {
    hide Step, Run, Typing;
    TypedRun(true, true, "", "a tu");
    assert Keys("a tu") == [Key('a'), Key(' '), Key('t'), Key('u')];
    assert "" + "a tu" == "a tu";
  }

  lemma PhraseRun()
    ensures Run(PHRASE, NO_CHANNELS, NewState(PHRASE, SurroundingText), SPLITTING) == PhraseStashed()
  {
    var start := NewState(PHRASE, SurroundingText);
    assert Step(PHRASE, NO_CHANNELS, start, ConfirmationSet(true)).0 == Phrase("");
    hide Step, Run, Phrase, PhraseStashed, NewState, PHRASE, PHRASES;
    var keys := [Key('a'), Key(' '), Key('t'), Key('u')];
    var rest := [Received(BEFORE, false, true), Received(AFTER, false, true), Key('w')];
    assert SPLITTING == [ConfirmationSet(true)] + (keys + rest);
    RunOn(PHRASE, NO_CHANNELS, start, ConfirmationSet(true), keys + rest);
    RunConcat(PHRASE, NO_CHANNELS, Phrase(""), keys, rest);
    PhraseStart();
    PhraseEnd();
  }

  /** The shadow goes from "a tuw" to "a tu b" and a horned u, the engine keeps "a t" and a horned u: only
  the base word is compared before the stash is released. */
  lemma StashIsReleasedElsewhere()
    ensures Lawful(PHRASE)
    ensures var s := Run(PHRASE, NO_CHANNELS, NewState(PHRASE, SurroundingText), SPLITTING);
            && Agrees(PHRASE, s) && EmitsStash(s, TYPED_AFTER)
            && !Agrees(PHRASE, Step(PHRASE, NO_CHANNELS, s, Received(TYPED_AFTER, false, true)).0)
  {
    SampleIsLawful(true);
    assert Lawful(PHRASE);
    hide Agrees, Step, Run, PHRASE, PhraseStashed, Lawful, EmitsStash, StashMatches, NewState;
    PhraseRun();
    PhraseStashedAgrees();
    PhraseEmits();
    PhraseDiffers();
    StashReleaseIff(PHRASE, NO_CHANNELS, PhraseStashed(), TYPED_AFTER, false, true);
  }

  lemma PhraseStashedAgrees()
    requires Lawful(PHRASE)
    ensures Agrees(PHRASE, PhraseStashed())
  {
    AwaitingAgrees();
    PhraseStashes();
    hide Agrees, Intact, Lawful, FeedKey, Step, PHRASE, Awaiting, PhraseStashed;
    PhrasePassed();
    FeedKeyAgrees(PHRASE, Awaiting(), 'w');
  }

  lemma AwaitingAgrees()
    ensures Agrees(PHRASE, Awaiting())
  {
    assert "a tu"[0..] == "a tu";
  }

  lemma PhrasePassed()
    ensures FeedKey(PHRASE, Awaiting(), 'w') == (PhraseStashed(), ForwardRaw)
  {
    SampleHorns(true, "a t");
    PhraseWord();
    hide SampleKey, CurrentWord, FeedKey, Step;
    PlainKey(PHRASE, Awaiting(), 'w');
    assert "a tu" + ['w'] == "a tuw" && "a t" + ['u'] == "a tu";
  }

  // ---------- a frame that moves the shadow alone ----------

  /** A one-character insertion that does not match the shadow moves the shadow but not the engine. */
  predicate MovesOnlyShadow<E(!new)>(s: State<E>, f: Frame, force: bool) {
    OneCharTyped(s, f) && !force && f.Before() != s.shadow.text && !s.confirmation.HasStash()
  }

  /** Exactly what such a frame does: the shadow follows it, the engine does not. */
  lemma MovesOnlyShadowExact<E(!new)>(eng: Engine<E>, s: State<E>, f: Frame, recent: bool)
    requires MovesOnlyShadow(s, f, false) && !Confirms(s, f)
    ensures var (s1, repair) := ApplyFrame(eng, s, f, false, recent);
            && repair.None?
            && s1.engine == s.engine && s1.retroactive == s.retroactive && s1.lastInput == s.lastInput
            && s1.shadow == Observed(f.text, f.cursor, f.anchor) && s1.prev == f
            && s1.confirmation == if s.confirmation.IsFrameDerived() then FrameDerived else Live
  {
    hide TextBefore, Observed, Observe, Encode, ByteLen, CharsWithin;
    InsertionIsNoDeletion(s.prev.text, s.prev.cursor, f.text, f.cursor);
  }

  const TUX := Frame("tux", 3, 3)

  /** "tu" typed, and seen in a frame. */
  function Noticed(): State<string> {
    Typing(false, false, "tu").(shadow := EMPTY.(text := "tu", lastCursor := Some(2)), confirmation := LiveConfirmed, prev := TU)
  }

  lemma FrameNotices()
    ensures Step(SAMPLE, NO_CHANNELS, Typing(false, false, "tu"), Received(TU, false, true)) == (Noticed(), Nothing)
  {
    TuObserved();
    hide DetectOneCharInsertion, DetectDeletion, TextBefore, FeedGated, CurrentWord, Observed;
    var s := Typing(false, false, "tu");
    assert ApplyFrame(SAMPLE, s, TU, false, true) == (GateFrame(SAMPLE, s, TU, false, true, OneCharTyped(s, TU)), None);
    assert TrustFrame(SAMPLE, s, TU, true, true, false) == Noticed();
  }

  lemma XInserts()
    ensures TUX.Before() == "tux" && SelectedBefore("tux", 3, 3) == ""
    ensures OneCharTyped(Noticed(), TUX)
  {
    assert "tux"[..3] == "tux" && "tu" + ['x'] == "tux" && "tux" + "" == "tux" && "tu" + "" == "tu";
    hide CharsWithin, DetectOneCharInsertion, Encode;
    AsciiCut("tux", 3);
    AsciiOffsets("tu");
    AsciiOffsets("tux");
    SpliceGivesInsertion("tu", "tux", "tu", 'x', "");
  }

  lemma NoticedRun()
    ensures Run(SAMPLE, NO_CHANNELS, NewState(SAMPLE, SurroundingText), Keys("tu") + [Received(TU, false, true)]) == Noticed()
  {
    assert Typing(false, false, "") == NewState(SAMPLE, SurroundingText) && "" + "tu" == "tu";
    hide Step, Run, Typing, Noticed, NewState;
    TypedRun(false, false, "", "tu");
    FrameNotices();
    RunConcat(SAMPLE, NO_CHANNELS, Typing(false, false, ""), Keys("tu"), [Received(TU, false, true)]);
    RunOne(SAMPLE, NO_CHANNELS, Typing(false, false, "tu"), Received(TU, false, true));
  }

  lemma InsertionBreaks()
    requires Lawful(SAMPLE)
    ensures Agrees(SAMPLE, Noticed()) && !Agrees(SAMPLE, Step(SAMPLE, NO_CHANNELS, Noticed(), Received(TUX, false, true)).0)
  {
    NoticedAgrees();
    XIsNotAllowed();
    hide Agrees, Lawful, Step, Noticed, SAMPLE, MovesOnlyShadow, Allowed;
    StepAgreesIff(SAMPLE, NO_CHANNELS, Noticed(), Received(TUX, false, true));
  }

  /** From a new composer: two keys, a frame that shows them, and one that shows a third character. */
  lemma InsertionIsReached()
    ensures Lawful(SAMPLE)
    ensures var s := Run(SAMPLE, NO_CHANNELS, NewState(SAMPLE, SurroundingText), Keys("tu") + [Received(TU, false, true)]);
            && Agrees(SAMPLE, s) && MovesOnlyShadow(s, TUX, false)
            && !Agrees(SAMPLE, Step(SAMPLE, NO_CHANNELS, s, Received(TUX, false, true)).0)
  {
    SampleIsLawful(false);
    assert Lawful(SAMPLE);
    hide Agrees, Lawful, Step, Run, Noticed, SAMPLE, MovesOnlyShadow, NewState;
    XIsNotAllowed();
    NoticedRun();
    InsertionBreaks();
  }

  lemma RunOne<E(!new)>(eng: Engine<E>, ch: Channels, s: State<E>, ev: Event)
    ensures Run(eng, ch, s, [ev]) == Step(eng, ch, s, ev).0
  {
    hide Step;
    assert [ev][1..] == [];
  }

  lemma NoticedAgrees()
    ensures Agrees(SAMPLE, Noticed())
  {
    TuIsWord();
    hide CurrentWord;
    assert "tu"[0..] == "tu";
  }

  /** Such a frame is let through, and ends agreement unless the view still ends the text before the cursor. */
  lemma MovesAway<E(!new)>(eng: Engine<E>, s: State<E>, f: Frame, recent: bool)
    requires MovesOnlyShadow(s, f, false) && !s.confirmation.PendingRaw? && f.cursor <= f.anchor
    ensures Allowed(eng, s, Received(f, false, recent)) <==> IsSuffix(eng.view(s.engine), f.Before())
  {
    hide OneCharTyped, Observed, TextBefore, IsSuffix;
    ObservedForward(f.text, f.cursor, f.anchor);
  }

  lemma NoticedView()
    ensures SAMPLE.view(Noticed().engine) == "tu" && !IsSuffix("tu", "tux") && !Noticed().confirmation.PendingRaw?
    ensures TUX.cursor <= TUX.anchor
  {
    TuIsWord();
    hide CurrentWord;
    assert "tux"[1..][0] == 'u';
  }

  lemma XMoves()
    ensures TUX.Before() == "tux" && MovesOnlyShadow(Noticed(), TUX, false)
  {
    XInserts();
    hide TextBefore, OneCharTyped, SAMPLE;
  }

  lemma XIsNotAllowed()
    ensures MovesOnlyShadow(Noticed(), TUX, false) && !Allowed(SAMPLE, Noticed(), Received(TUX, false, true))
  {
    hide *;
    XMoves();
    NoticedView();
    MovesAway(SAMPLE, Noticed(), TUX, true);
  }

  // ---------- a selection before the cursor ----------

  /** A selection before the cursor is left out of the shadow and popped from it too: the shadow is what the
  edit should leave exactly when there is none, or nothing is left to pop. */
  lemma SelectionPopsExact<E(!new)>(eng: Engine<E>, ch: Channels, s: State<E>, n: nat, commit: string, preserve: bool)
    ensures var text, b := ApplyEdit(eng, ch, s, n, commit, preserve).0.shadow.text, PoppedSelection(s, n, commit);
            && text == Drop(s.shadow.text, n + b) + commit
            && (text == Drop(s.shadow.text, n) + commit <==> b == 0 || |s.shadow.text| <= n)
  {
    hide ApplyEdit, PoppedSelection;
    EditShape(eng, ch, s, n, commit, preserve);
    var b := PoppedSelection(s, n, commit);
    if b > 0 && |s.shadow.text| > n {
      assert |Drop(s.shadow.text, n + b) + commit| < |Drop(s.shadow.text, n) + commit|;
    }
  }

  const SELECTING := Frame("ttu", 3, 2)

  /** "ttu" typed, and seen with the `u` selected before the cursor. */
  function Selected(): State<string> {
    Typing(false, false, "ttu").(shadow := EMPTY.(text := "tt", lastCursor := Some(3), selectedBeforeChars := 1),
      confirmation := LiveConfirmed, prev := SELECTING)
  }

  lemma SelectionObserved()
    ensures SELECTING.Before() == "ttu" && Observed("ttu", 3, 2) == Selected().shadow
  {
    assert "ttu"[..3] == "ttu" && "ttu"[..2] == "tt" && "ttu"[2..3] == "u";
    hide CharsWithin, Encode;
    AsciiCut("ttu", 3);
    AsciiCut("ttu", 2);
    assert ByteLen("") == 0;
  }

  lemma FrameSelects()
    ensures Step(SAMPLE, NO_CHANNELS, Typing(false, false, "ttu"), Received(SELECTING, false, true)) == (Selected(), Nothing)
  {
    SelectionObserved();
    hide DetectOneCharInsertion, DetectDeletion, TextBefore, FeedGated, CurrentWord, Observed;
    var s := Typing(false, false, "ttu");
    assert ApplyFrame(SAMPLE, s, SELECTING, false, true)
        == (GateFrame(SAMPLE, s, SELECTING, false, true, OneCharTyped(s, SELECTING)), None);
    assert TrustFrame(SAMPLE, s, SELECTING, true, true, false) == Selected();
  }

  lemma SelectionKey()
    ensures FeedKey(SAMPLE, Selected(), 'w')
         == (Selected().(engine := "tt" + HORN, lastInput := Some('w'), confirmation := Live), Apply(1, HORN))
  {
    SampleHorns(false, "tt");
    assert "tt" + ['u'] == "ttu";
    hide SampleKey, CurrentWord, FeedKey;
    PlainKey(SAMPLE, Selected(), 'w');
  }

  lemma LettersAreWord(s: string)
    requires forall c <- s :: !IsWordBoundary(c)
    ensures CurrentWord(s) == s
  {
    hide IsWordBoundary, WordStart;
    CurrentWordIsLongest(s);
    assert forall i :: 0 <= i < |s| ==> !IsWordBoundary(s[i]);
  }

  lemma NoBoundaries()
    ensures !IsWordBoundary('t') && !IsWordBoundary('u') && !IsWordBoundary(HORN[0])
  {
  }

  /** The engine keeps all three letters in view. */
  lemma SelectedViews()
    ensures SAMPLE.view("ttu") == "ttu" && SAMPLE.view("tt" + HORN) == "tt" + HORN
  {
    hide IsWordBoundary, CurrentWord;
    NoBoundaries();
    LettersAreWord("ttu");
    LettersAreWord("tt" + HORN);
  }

  lemma LongerViewEndsNothing<E(!new)>(eng: Engine<E>, s: State<E>)
    requires !s.confirmation.HasStash() && |eng.view(s.engine)| > |s.shadow.text|
    ensures !Agrees(eng, s)
  {
  }

  /** From a new composer: three keys, a frame with the last of them selected, and a key whose edit deletes
  one character.  The frame leaves the engine what it takes from the shadow; the edit takes two characters from
  the shadow, and the engine still owns the second. */
  lemma SelectionIsReached()
    ensures var s := Run(SAMPLE, NO_CHANNELS, NewState(SAMPLE, SurroundingText), Keys("ttu") + [Received(SELECTING, false, true)]);
            var s1 := Step(SAMPLE, NO_CHANNELS, s, Key('w')).0;
            && s.shadow.text == "tt" && FeedKey(SAMPLE, s, 'w').1 == Apply(1, HORN)
            && s1.engine == "tt" + HORN && s1.shadow.text == HORN != Drop("tt", 1) + HORN
            && !Agrees(SAMPLE, s) && !Agrees(SAMPLE, s1)
  {
    hide Step, Run, Typing, SAMPLE, Sampled, FeedKey, Agrees, NewState, Keys;
    assert "" + "ttu" == "ttu";
    assert |Drop("tt", 1) + HORN| == 2 != |HORN|;
    TypingStarts();
    SelectionKey();
    SelectionStep();
    SelectionBreaks();
    TypedRun(false, false, "", "ttu");
    FrameSelects();
    RunConcat(SAMPLE, NO_CHANNELS, Typing(false, false, ""), Keys("ttu"), [Received(SELECTING, false, true)]);
    RunOne(SAMPLE, NO_CHANNELS, Typing(false, false, "ttu"), Received(SELECTING, false, true));
  }

  lemma TypingStarts()
    ensures SAMPLE == Sampled(false) && Typing(false, false, "") == NewState(SAMPLE, SurroundingText)
  {
  }

  lemma SelectionBreaks()
    ensures !Agrees(SAMPLE, Selected()) && !Agrees(SAMPLE, Step(SAMPLE, NO_CHANNELS, Selected(), Key('w')).0)
  {
    hide Step, Agrees, SAMPLE;
    SelectedViews();
    SelectionStep();
    LongerViewEndsNothing(SAMPLE, Selected());
    LongerViewEndsNothing(SAMPLE, Step(SAMPLE, NO_CHANNELS, Selected(), Key('w')).0);
  }

  lemma SelectionStep()
    ensures var s1 := Step(SAMPLE, NO_CHANNELS, Selected(), Key('w')).0;
            s1.engine == "tt" + HORN && s1.shadow.text == HORN && !s1.confirmation.HasStash()
  {
    SelectionKey();
    hide FeedKey, SurroundingOps, ForwardOps, CurrentWord, FeedGated;
    assert Drop("tt", 2) + HORN == HORN;
  }
}
