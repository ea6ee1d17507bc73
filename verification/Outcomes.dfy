/** What every key, Backspace, frame and pause must do.  The agreement holds for a composer that gives up its
engine at every turn; these lemmas say where it must keep composing, and that what it shows is then what
typing the word afresh renders. */
module Outcomes {
  import opened Utf8
  import opened Texts
  import opened Engines
  import opened Shadows
  import opened Strategies
  import opened Firefox
  import opened Diff
  import opened Composers
  import opened Runs
  import opened Safety
  import opened Agreement

  // ---------- the render gate ----------

  /** The keys that spell a word. */
  function Spelled<E(!new)>(eng: Engine<E>, word: string): string {
    ContextFrom(eng.reverse, word)
  }

  /** The state and the text on screen that typing the keys on a new engine leads to. */
  function Afresh<E(!new)>(eng: Engine<E>, keys: string): (E, string) {
    Typed(eng, eng.initial, "", keys)
  }

  /** The engine is as if the word had been typed. */
  ghost predicate Holds<E(!new)>(eng: Engine<E>, e: E, word: string) {
    Afresh(eng, Spelled(eng, word)) == (e, word)
  }

  /** A seed is taken exactly when the keys that spell the word render it and the engine accepts them, and then
  the engine is as if it had been typed; a word that is not rendered changes nothing. */
  lemma GateExact<E(!new)>(eng: Engine<E>, e: E, word: string)
    requires Lawful(eng)
    ensures var (e1, ok) := FeedGated(eng, e, word);
            && (ok <==> Afresh(eng, Spelled(eng, word)).1 == word && eng.feed(e, Spelled(eng, word)).1)
            && (ok ==> Holds(eng, e1, word))
            && (Afresh(eng, Spelled(eng, word)).1 != word ==> e1 == e)
  {
    hide KeyLaw, BackspaceLaw, Typed, ContextFrom;
    assert FeedLaw(eng, e, Spelled(eng, word));
  }

  // ---------- keys ----------

  predicate SeparatorLast<E(!new)>(s: State<E>) {
    s.lastInput.Some? && !IsAsciiAlphabetic(s.lastInput.value)
  }

  /** The key starts on a word that the engine has not seen. */
  predicate StartsOnWord<E(!new)>(eng: Engine<E>, s: State<E>) {
    && !s.confirmation.PendingRaw? && eng.atWordBeginning(s.engine)
    && !SeparatorLast(s) && s.Word() != ""
  }

  /** What a key comes to once it meets the engine `e`: applied at once in a certain context, and passed on
  otherwise, with its edit kept back if it had one. */
  ghost predicate Meets<E(!new)>(eng: Engine<E>, s: State<E>, c: char, e: E, retroactive: bool) {
    var (s1, d) := FeedKey(eng, s, c);
    var (e1, r) := eng.key(e, c);
    && s1.engine == e1 && s1.retroactive == retroactive && s1.lastInput == Some(c)
    && (if r.consumed && !Uncertain(s) then
          d == Apply(r.backspaces, r.commit) && s1.shadow == s.shadow && s1.confirmation == Live
        else
          && d == ForwardRaw && s1.shadow == s.shadow.(text := s.shadow.text + [c])
          && s1.confirmation ==
             if Uncertain(s) then
               PendingRaw(Pending(c, !s.confirmation.PendingRaw?,
                                  if r.consumed then Some(PendingEdit(r.backspaces, r.commit, s.Word())) else None,
                                  s.confirmation.IsFrameDerived()))
             else Live)
  }

  /** A key that starts on a word of the surrounding text meets an engine seeded with it. */
  lemma FreshWordIsSeeded<E(!new)>(eng: Engine<E>, s: State<E>, c: char)
    requires StartsOnWord(eng, s)
    ensures var (e, ok) := FeedGated(eng, s.engine, s.Word()); Meets(eng, s, c, e, ok)
  {
    hide FeedGated, CurrentWord;
  }

  /** Any other key goes on from the engine as it is: after a separator, inside a word, and where there is none. */
  lemma OtherKeysGoOn<E(!new)>(eng: Engine<E>, s: State<E>, c: char)
    requires !s.confirmation.PendingRaw? && !StartsOnWord(eng, s)
    ensures Meets(eng, s, c, s.engine, s.retroactive && IsAsciiAlphabetic(c))
  {
    hide FeedGated, CurrentWord;
  }

  /** A key behind one that is still pending starts the engine over. */
  lemma PendingStartsOver<E(!new)>(eng: Engine<E>, s: State<E>, c: char)
    requires s.confirmation.PendingRaw?
    ensures Meets(eng, s, c, eng.initial, false)
  {
    hide FeedGated, CurrentWord;
  }

  /** The word on screen, with the key's own edit done at once or held back, is what typing its keys and this one
  afresh renders; so is the engine. */
  ghost predicate ComposesOn<E(!new)>(eng: Engine<E>, s: State<E>, c: char) {
    var (s1, d) := FeedKey(eng, s, c);
    var (e, screen) := Afresh(eng, Spelled(eng, s.Word()) + [c]);
    var wanted := Drop(s.shadow.text, |s.Word()|) + screen;
    && s1.engine == e
    && match d
       case Apply(n, t) => Drop(s.shadow.text, n) + t == wanted
       case ForwardRaw =>
         if s1.confirmation.HasStash() then
           var edit := s1.confirmation.pending.edit.value;
           Drop(s.shadow.text, edit.backspaces) + edit.commit == wanted
         else s.shadow.text + [c] == wanted
  }

  /** A key on an engine that typing led to deletes no more than is on screen. */
  lemma AfreshOn<E(!new)>(eng: Engine<E>, keys: string, c: char)
    requires Lawful(eng)
    ensures var (e, screen) := Afresh(eng, keys);
            var (e1, r) := eng.key(e, c);
            Afresh(eng, keys + [c]) == (e1, Shown(screen, c, r)) && (r.consumed ==> r.backspaces <= |screen|)
  {
    hide BackspaceLaw, FeedLaw, KeyLaw;
    TypedLast(eng, eng.initial, "", keys, c);
    TypingKeepsSuffix(eng, eng.initial, "", keys);
    KeyDeletesOwn(eng, Afresh(eng, keys).0, c);
  }

  lemma KeyDeletesOwn<E(!new)>(eng: Engine<E>, e: E, c: char)
    requires Lawful(eng)
    ensures eng.key(e, c).1.consumed ==> eng.key(e, c).1.backspaces <= |eng.view(e)|
  {
    hide BackspaceLaw, FeedLaw;
    assert KeyLaw(eng, e, c);
  }

  lemma HeldKeyRenders<E(!new)>(eng: Engine<E>, e: E, text: string, c: char)
    requires Lawful(eng) && Holds(eng, e, CurrentWord(text))
    ensures var word := CurrentWord(text);
            var (e1, r) := eng.key(e, c);
            var (e2, screen) := Afresh(eng, Spelled(eng, word) + [c]);
            && e1 == e2 && screen == Shown(word, c, r)
            && Drop(text, |word|) + screen == if r.consumed then Drop(text, r.backspaces) + r.commit else text + [c]
  {
    hide Lawful, Afresh, Spelled, CurrentWord;
    var word := CurrentWord(text);
    AfreshOn(eng, Spelled(eng, word), c);
    CurrentWordIsLongest(text);
    EndsIn(text, word);
    DropAppended(Drop(text, |word|), word, eng.key(e, c).1.backspaces);
  }

  lemma EndsIn(text: string, word: string)
    requires IsSuffix(word, text)
    ensures Drop(text, |word|) + word == text
  {
  }

  lemma MeetingComposes<E(!new)>(eng: Engine<E>, s: State<E>, c: char, e: E, retroactive: bool)
    requires Lawful(eng) && Meets(eng, s, c, e, retroactive) && Holds(eng, e, s.Word())
    ensures ComposesOn(eng, s, c)
  {
    hide FeedKey, Lawful, Holds, Afresh, CurrentWord, Spelled, Uncertain;
    HeldKeyRenders(eng, e, s.shadow.text, c);
  }

  /** A key composes on the word before the cursor as if that word had been typed: on one that the engine
  holds, and on one that it has not seen but that the gate accepts. */
  lemma KeyComposes<E(!new)>(eng: Engine<E>, s: State<E>, c: char)
    requires Lawful(eng) && !s.confirmation.PendingRaw?
    requires if StartsOnWord(eng, s) then FeedGated(eng, s.engine, s.Word()).1 else Holds(eng, s.engine, s.Word())
    ensures ComposesOn(eng, s, c)
  {
    hide FeedKey, Lawful, Holds, Afresh, CurrentWord, Spelled, Meets, ComposesOn, FeedGated, StartsOnWord;
    if StartsOnWord(eng, s) {
      FreshWordIsSeeded(eng, s, c);
      GateExact(eng, s.engine, s.Word());
      MeetingComposes(eng, s, c, FeedGated(eng, s.engine, s.Word()).0, true);
    } else {
      OtherKeysGoOn(eng, s, c);
      MeetingComposes(eng, s, c, s.engine, s.retroactive && IsAsciiAlphabetic(c));
    }
  }

  // ---------- frames that answer a pending key ----------

  /** The engine starts over, from the word if the gate accepts it, and the context then waits for a frame. */
  ghost predicate SeededFrom<E(!new)>(eng: Engine<E>, s: State<E>, word: string) {
    var (e, ok) := if word == "" then (eng.initial, false) else FeedGated(eng, eng.initial, word);
    s.engine == e && s.retroactive == ok && s.confirmation == (if ok then FrameDerived else Live)
  }

  /** The frame is the shadow and the last recorded frame. */
  predicate Taken<E(!new)>(s: State<E>, f: Frame) {
    s.shadow == Observed(f.text, f.cursor, f.anchor) && s.prev == f
  }

  /** The frame selects nothing and shows the pending key behind `stripped`. */
  predicate ShowsPending<E(!new)>(s: State<E>, f: Frame, stripped: string) {
    s.confirmation.PendingRaw? && f.cursor == f.anchor && f.Before() == stripped + [s.confirmation.pending.ch]
  }

  /** And proves that it was typed there, while no other key was. */
  predicate ProvesPending<E(!new)>(s: State<E>, f: Frame)
    requires s.confirmation.PendingRaw?
  {
    && s.confirmation.pending.repairable
    && (|| ConfirmsInsertedChar(s.prev.text, f.text, f.cursor, s.confirmation.pending.ch)
        || (f.Before() == s.shadow.text && f.text != s.prev.text))
  }

  /** The stash was composed on the word that the frame shows before the key. */
  predicate StashFits<E(!new)>(s: State<E>, stripped: string)
    requires s.confirmation.PendingRaw?
  {
    s.confirmation.HasStash() && s.confirmation.pending.edit.value.baseWord == CurrentWord(stripped)
  }

  lemma AnswersByKey<E(!new)>(eng: Engine<E>, s: State<E>, f: Frame, stripped: string, force: bool, recent: bool)
    requires ShowsPending(s, f, stripped)
    ensures f.Before() != "" && f.Before()[..|f.Before()| - 1] == stripped
    ensures ApplyFrame(eng, s, f, force, recent) == ConfirmKey(eng, s, f, s.confirmation.pending)
  {
    hide ConfirmKey, TextBefore;
  }

  /** A key that is not proven, or not alone, is not repaired: the engine starts over from the word on screen. */
  lemma UnprovenKeyStartsOver<E(!new)>(eng: Engine<E>, s: State<E>, f: Frame, stripped: string, force: bool, recent: bool)
    requires ShowsPending(s, f, stripped) && !ProvesPending(s, f)
    ensures var (s1, repair) := ApplyFrame(eng, s, f, force, recent);
            && repair.None? && Taken(s1, f) && s1.lastInput == Some(s.confirmation.pending.ch)
            && SeededFrom(eng, s1, CurrentWord(f.Before()))
  {
    AnswersByKey(eng, s, f, stripped, force, recent);
    hide ApplyFrame, CurrentWord, TextBefore, FeedGated, ConfirmsInsertedChar, Observed;
  }

  /** A proven key whose edit was composed on that very word has it released, with the engine as it is. */
  lemma ProvenStashIsReleased<E(!new)>(eng: Engine<E>, s: State<E>, f: Frame, stripped: string, force: bool, recent: bool)
    requires ShowsPending(s, f, stripped) && ProvesPending(s, f) && StashFits(s, stripped)
    ensures var (s1, repair) := ApplyFrame(eng, s, f, force, recent);
            var e := s.confirmation.pending.edit.value;
            && repair == Some(RetroEdit(e.backspaces + 1, e.commit))
            && Taken(s1, f) && s1.lastInput == Some(s.confirmation.pending.ch)
            && s1.engine == s.engine && s1.retroactive && s1.confirmation == FrameDerived
  {
    AnswersByKey(eng, s, f, stripped, force, recent);
    hide ApplyFrame, CurrentWord, TextBefore, FeedGated, ConfirmsInsertedChar, Observed;
  }

  /** Any other proven key on a word that the gate refuses, or on none, stays as it is, and the engine starts over
  from the word and the key. */
  lemma ForeignKeyStartsOver<E(!new)>(eng: Engine<E>, s: State<E>, f: Frame, stripped: string, force: bool, recent: bool)
    requires ShowsPending(s, f, stripped) && ProvesPending(s, f) && !StashFits(s, stripped)
    requires CurrentWord(stripped) == "" || !FeedGated(eng, eng.initial, CurrentWord(stripped)).1
    ensures var (s1, repair) := ApplyFrame(eng, s, f, force, recent);
            && repair.None? && Taken(s1, f) && s1.lastInput == Some(s.confirmation.pending.ch)
            && SeededFrom(eng, s1, CurrentWord(stripped) + [s.confirmation.pending.ch])
  {
    AnswersByKey(eng, s, f, stripped, force, recent);
    hide ApplyFrame, CurrentWord, TextBefore, FeedGated, ConfirmsInsertedChar, Observed, ReplayOn;
  }

  lemma ReplaysOn<E(!new)>(eng: Engine<E>, s: State<E>, f: Frame, stripped: string, force: bool, recent: bool)
    requires ShowsPending(s, f, stripped) && ProvesPending(s, f) && !StashFits(s, stripped)
    requires CurrentWord(stripped) != "" && FeedGated(eng, eng.initial, CurrentWord(stripped)).1
    ensures var (s1, repair) := ApplyFrame(eng, s, f, force, recent);
            var base, ch := CurrentWord(stripped), s.confirmation.pending.ch;
            var (e, r) := eng.key(FeedGated(eng, eng.initial, base).0, ch);
            && Taken(s1, f) && s1.lastInput == Some(ch)
            && s1.engine == e && s1.retroactive && s1.confirmation == FrameDerived
            && repair == if r.consumed then RepairFor(base + [ch], Drop(base, r.backspaces) + r.commit) else None
  {
    AnswersByKey(eng, s, f, stripped, force, recent);
    hide ApplyFrame, CurrentWord, TextBefore, FeedGated, ConfirmsInsertedChar, Observed, RepairFor;
  }

  /** A proven key on a word that the gate accepts is replayed there: with the repair done, screen and engine are
  what typing the word and the key afresh leads to.  There is no repair exactly when the screen shows it as it is. */
  lemma ProvenKeyComposes<E(!new)>(eng: Engine<E>, s: State<E>, f: Frame, stripped: string, force: bool, recent: bool)
    requires Lawful(eng)
    requires ShowsPending(s, f, stripped) && ProvesPending(s, f) && !StashFits(s, stripped)
    requires CurrentWord(stripped) != "" && FeedGated(eng, eng.initial, CurrentWord(stripped)).1
    ensures var (s1, repair) := ApplyFrame(eng, s, f, force, recent);
            var base, ch := CurrentWord(stripped), s.confirmation.pending.ch;
            var (e, screen) := Afresh(eng, Spelled(eng, base) + [ch]);
            var wanted := Drop(stripped, |base|) + screen;
            && Taken(s1, f) && s1.lastInput == Some(ch)
            && s1.engine == e && s1.retroactive && s1.confirmation == FrameDerived
            && (repair.None? <==> wanted == f.Before())
            && (repair.Some? ==>
                  && repair.value.backspaces <= |base| + 1
                  && Drop(f.Before(), repair.value.backspaces) + repair.value.commit == wanted)
  {
    var base, ch := CurrentWord(stripped), s.confirmation.pending.ch;
    hide ApplyFrame, CurrentWord, FeedGated, Lawful, Afresh, Spelled, ProvesPending, StashFits, Holds, RepairFor, TextBefore;
    ReplaysOn(eng, s, f, stripped, force, recent);
    GateExact(eng, eng.initial, base);
    var e0 := FeedGated(eng, eng.initial, base).0;
    HeldKeyRenders(eng, e0, stripped, ch);
    CurrentWordIsLongest(stripped);
    EndsIn(stripped, base);
    RepairRenders(Drop(stripped, |base|), base, ch, eng.key(e0, ch).1);
  }

  lemma RepairRenders(head: string, base: string, ch: char, r: ProcessResult)
    ensures var screen := base + [ch];
            var desired := Shown(base, ch, r);
            var repair := if r.consumed then RepairFor(screen, Drop(base, r.backspaces) + r.commit) else None;
            && (repair.None? <==> head + desired == head + base + [ch])
            && (repair.Some? ==>
                  && repair.value.backspaces <= |screen|
                  && Drop(head + base + [ch], repair.value.backspaces) + repair.value.commit == head + desired)
  {
    hide RepairFor, Drop;
    var screen, desired := base + [ch], Shown(base, ch, r);
    RepairIsMinimal(screen, desired);
    assert head + base + [ch] == head + screen;
    SameRest(head, desired, screen);
    var repair := RepairFor(screen, desired);
    if repair.Some? {
      DropAppended(head, screen, repair.value.backspaces);
      assert head + Drop(screen, repair.value.backspaces) + repair.value.commit
          == head + (Drop(screen, repair.value.backspaces) + repair.value.commit);
    }
  }

  lemma SameRest(head: string, a: string, b: string)
    ensures head + a == head + b <==> a == b
  {
    if head + a == head + b {
      assert a == (head + a)[|head|..] && b == (head + b)[|head|..];
    }
  }

  // ---------- other frames ----------

  /** The frame is no answer to a pending key. */
  predicate NoAnswer<E(!new)>(s: State<E>, f: Frame) {
    !(s.confirmation.PendingRaw? && f.cursor == f.anchor && f.Before() != ""
      && f.Before()[|f.Before()| - 1] == s.confirmation.pending.ch)
  }

  predicate Repeats<E(!new)>(s: State<E>, f: Frame) {
    f.Before() == s.shadow.text
  }

  predicate Inserts<E(!new)>(s: State<E>, f: Frame) {
    DetectOneCharInsertion(s.prev.text, s.prev.cursor, f.text, f.cursor)
  }

  predicate Deletes<E(!new)>(s: State<E>, f: Frame) {
    DetectDeletion(s.prev.text, s.prev.cursor, f.text, f.cursor)
  }

  /** Engine, provenance and last key are as they were, but for a stash that was never shown. */
  ghost predicate KeepsComposing<E(!new)>(eng: Engine<E>, s: State<E>, s1: State<E>) {
    && s1.lastInput == s.lastInput
    && (if s.confirmation.HasStash() then s1.engine == eng.initial && !s1.retroactive
        else s1.engine == s.engine && s1.retroactive == s.retroactive)
  }

  lemma FrameIsGated<E(!new)>(eng: Engine<E>, s: State<E>, f: Frame, force: bool, recent: bool)
    requires NoAnswer(s, f)
    ensures ApplyFrame(eng, s, f, force, recent)
         == (GateFrame(eng, Revalidate(s, f.Before()), f, force, recent, Inserts(s, f)), None)
  {
    hide GateFrame, ConfirmKey, TextBefore, DetectOneCharInsertion;
  }

  /** A recent frame that neither repeats the shadow nor inserts one character is dropped, unless forced: all it
  does is end a confirmation. */
  lemma StaleFrameIsDropped<E(!new)>(eng: Engine<E>, s: State<E>, f: Frame)
    requires NoAnswer(s, f) && !Repeats(s, f) && !Inserts(s, f)
    ensures var (s1, repair) := ApplyFrame(eng, s, f, false, true);
            && repair.None? && s1.engine == s.engine && s1.retroactive == s.retroactive && s1.lastInput == s.lastInput
            && s1.shadow == s.shadow && s1.prev == s.prev
            && s1.confirmation == if s.confirmation.LiveConfirmed? then AwaitingFrame else s.confirmation
  {
    hide ApplyFrame, TextBefore, DetectOneCharInsertion, DetectDeletion, Observe, TrustFrame;
    FrameIsGated(eng, s, f, false, true);
  }

  /** A frame that repeats the shadow confirms it, whenever it comes: the engine goes on, and the context is certain
  unless it rests on an earlier frame. */
  lemma RepeatConfirms<E(!new)>(eng: Engine<E>, s: State<E>, f: Frame, force: bool, recent: bool)
    requires NoAnswer(s, f) && Repeats(s, f)
    ensures var (s1, repair) := ApplyFrame(eng, s, f, force, recent);
            && repair.None? && Taken(s1, f) && KeepsComposing(eng, s, s1)
            && s1.confirmation == if s.confirmation.IsFrameDerived() then FrameDerived
                                  else if s.confirmation.PendingRaw? then Live
                                  else LiveConfirmed
  {
    hide ApplyFrame, TextBefore, DetectOneCharInsertion, DetectDeletion, Observe, Observed, FeedGated, CurrentWord;
    FrameIsGated(eng, s, f, force, recent);
  }

  /** A deletion that the composer did not make starts it over, and no separator stands before the next key. */
  lemma DeletionStartsOver<E(!new)>(eng: Engine<E>, s: State<E>, f: Frame, force: bool, recent: bool)
    requires NoAnswer(s, f) && !Repeats(s, f) && Deletes(s, f) && (force || !recent)
    ensures var (s1, repair) := ApplyFrame(eng, s, f, force, recent);
            && repair.None? && Taken(s1, f)
            && s1.engine == eng.initial && !s1.retroactive && s1.confirmation == Live && s1.lastInput == None
  {
    hide ApplyFrame, TextBefore, DetectOneCharInsertion, DetectDeletion, Observe, Observed, FeedGated, CurrentWord;
    FrameIsGated(eng, s, f, force, recent);
  }

  /** A one-character insertion, which the engine has seen as a key, leaves it composing. */
  lemma InsertionGoesOn<E(!new)>(eng: Engine<E>, s: State<E>, f: Frame, recent: bool)
    requires NoAnswer(s, f) && !Repeats(s, f) && Inserts(s, f)
    ensures var (s1, repair) := ApplyFrame(eng, s, f, false, recent);
            && repair.None? && Taken(s1, f) && KeepsComposing(eng, s, s1)
            && s1.confirmation == if s.confirmation.IsFrameDerived() then FrameDerived else Live
  {
    hide ApplyFrame, TextBefore, DetectOneCharInsertion, DetectDeletion, Observe, Observed, FeedGated, CurrentWord, Reseed;
    FrameIsGated(eng, s, f, false, recent);
    InsertionDeletesNothing(s, f);
  }

  lemma InsertionDeletesNothing<E(!new)>(s: State<E>, f: Frame)
    ensures !(Inserts(s, f) && Deletes(s, f))
  {
  }

  /** Anything else is a jump, and so is a forced frame that is neither of the first two: the engine starts over
  from the word before cursor and selection, and no separator stands before the next key. */
  lemma JumpSeeds<E(!new)>(eng: Engine<E>, s: State<E>, f: Frame, force: bool, recent: bool)
    requires NoAnswer(s, f) && !Repeats(s, f) && !Deletes(s, f)
    requires force || (!recent && !Inserts(s, f))
    ensures var (s1, repair) := ApplyFrame(eng, s, f, force, recent);
            && repair.None? && Taken(s1, f) && s1.lastInput == None
            && SeededFrom(eng, s1, CurrentWord(TextBefore(f.text, Min(f.cursor, f.anchor))))
  {
    hide ApplyFrame, TextBefore, DetectOneCharInsertion, DetectDeletion, Observe, Observed, FeedGated, CurrentWord;
    FrameIsGated(eng, s, f, force, recent);
  }

  /** The key behind a jump composes on the word found there. */
  lemma KeyAfterJumpComposes<E(!new)>(eng: Engine<E>, s: State<E>, f: Frame, force: bool, recent: bool, c: char)
    requires Lawful(eng) && NoAnswer(s, f) && !Repeats(s, f) && !Deletes(s, f)
    requires force || (!recent && !Inserts(s, f))
    requires var word := CurrentWord(TextBefore(f.text, Min(f.cursor, f.anchor)));
             word != "" && FeedGated(eng, eng.initial, word).1
    ensures var s1 := ApplyFrame(eng, s, f, force, recent).0;
            (StartsOnWord(eng, s1) ==> FeedGated(eng, s1.engine, s1.Word()).1) ==> ComposesOn(eng, s1, c)
  {
    hide ApplyFrame, CurrentWord, TextBefore, Lawful, FeedGated, ComposesOn, StartsOnWord, Holds, Observed;
    JumpSeeds(eng, s, f, force, recent);
    ObservedWord(f.text, f.cursor, f.anchor);
    var s1 := ApplyFrame(eng, s, f, force, recent).0;
    GateExact(eng, eng.initial, s1.Word());
    if StartsOnWord(eng, s1) ==> FeedGated(eng, s1.engine, s1.Word()).1 {
      KeyComposes(eng, s1, c);
    }
  }

  // ---------- Backspaces and keys taken back ----------

  /** A Backspace that is passed on takes one character from the shadow; the engine goes on, unless it owned a
  character that is more than one byte, and then starts over. */
  lemma BackspaceExactly<E(!new)>(eng: Engine<E>, s: State<E>)
    ensures var (e, r) := eng.backspace(s.engine);
            var (s1, d) := FeedBackspace(eng, s);
            var text := s.shadow.text;
            if r.consumed then
              d == Apply(r.backspaces, r.commit) && s1 == s.(engine := e)
            else
              && d == ForwardRaw && s1.shadow == s.shadow.(text := Drop(text, 1)) && s1.confirmation == s.confirmation
              && (if r.backspaces > 0 && text != "" && Width(text[|text| - 1]) > 1 then
                    s1.engine == eng.initial && !s1.retroactive
                  else s1.engine == e && s1.retroactive == s.retroactive)
  {
  }

  /** A key taken back leaves the shadow as it was, and the engine too, unless it had moved on unseen. */
  lemma UnrecordedKeyIsGone<E(!new)>(eng: Engine<E>, s: State<E>, c: char)
    requires FeedKey(eng, s, c).1.ForwardRaw?
    ensures var s1 := FeedKey(eng, s, c).0;
            var s2 := UnrecordForwardedChar(eng, s1);
            && s2.shadow == s.shadow && s2.confirmation == Live && s2.lastInput == Some(c)
            && (if s1.confirmation.HasStash() then s2.engine == eng.initial && !s2.retroactive
                else s2.engine == s1.engine && s2.retroactive == s1.retroactive)
  {
    assert Drop(s.shadow.text + [c], 1) == s.shadow.text;
    hide FeedGated, CurrentWord;
  }

  // ---------- edits ----------

  /** An edit that deletes in a retroactive context has the engine start over from the word it leaves, and any
  other leaves it as it is. */
  lemma EditRefreshes<E(!new)>(eng: Engine<E>, ch: Channels, s: State<E>, n: nat, commit: string)
    ensures var s1 := ApplyEdit(eng, ch, s, n, commit, false).0;
            var word := s1.Word();
            var (e, ok) := if word == "" then (eng.initial, false) else FeedGated(eng, eng.initial, word);
            && s1.lastInput == s.lastInput && s1.confirmation == s.confirmation && s1.prev == s.prev
            && (if s.retroactive && n > 0 then s1.engine == e && s1.retroactive == ok
                else s1.engine == s.engine && s1.retroactive == s.retroactive)
  {
    hide FeedGated, CurrentWord, MultibyteRevert, SurroundingOps, ForwardOps;
  }

  /** A repair leaves the engine, which knows more than the word on screen, and awaits no echo. */
  lemma RepairKeepsEngine<E(!new)>(eng: Engine<E>, ch: Channels, s: State<E>, repair: RetroEdit)
    ensures var s1 := ApplyRepair(eng, ch, s, repair).0;
            && s1.engine == s.engine && s1.retroactive == s.retroactive && s1.lastInput == s.lastInput
            && s1.confirmation == s.confirmation && s1.quirk.expectedEcho == None
  {
    hide FeedGated, CurrentWord, MultibyteRevert, SurroundingOps, ForwardOps;
  }

  // ---------- pauses, checks, resets and tiers ----------

  /** The next key is passed on, whatever it would have done. */
  ghost predicate Waits<E(!new)>(eng: Engine<E>, ch: Channels, s: State<E>) {
    forall c :: Step(eng, ch, s, Key(c)).1 == KeyPassed(c)
  }

  lemma UncertainWaits<E(!new)>(eng: Engine<E>, ch: Channels, s: State<E>)
    ensures Uncertain(s) ==> Waits(eng, ch, s)
  {
    hide FeedGated, CurrentWord, ApplyEdit;
  }

  /** After a pause on the surrounding-text tier composition goes on, but the next key waits for a frame unless
  the last one was confirmed; on the other tier everything starts over. */
  lemma PauseExactly<E(!new)>(eng: Engine<E>, ch: Channels, s: State<E>)
    ensures var s1 := Step(eng, ch, s, Paused).0;
            if s.tier == SurroundingText then
              && s1 == s.(confirmation := s1.confirmation)
              && (if s.confirmation.LiveConfirmed? then s1 == s
                  else s1.confirmation.IsUncertain() && !s1.confirmation.PendingRaw?)
              && (!s.confirmation.LiveConfirmed? && s.confirmEdits ==> Waits(eng, ch, s1))
            else
              && s1.engine == eng.initial && s1.shadow == Shadow("", None, 0, 0, 0, false)
              && s1.lastInput == None && !s1.retroactive
              && s1.confirmation == s.confirmation && s1.quirk == s.quirk && s1.prev == s.prev
  {
    hide Waits;
    UncertainWaits(eng, ch, Step(eng, ch, s, Paused).0);
  }

  /** A frame that is only looked at ends a confirmation it does not bear out. */
  lemma CheckExactly<E(!new)>(eng: Engine<E>, ch: Channels, s: State<E>, f: Frame)
    ensures var s1 := Step(eng, ch, s, Checked(f)).0;
            if s.confirmation.LiveConfirmed? && f.Before() != s.shadow.text then
              && s1 == s.(confirmation := AwaitingFrame)
              && (s.tier == SurroundingText && s.confirmEdits ==> Waits(eng, ch, s1))
            else s1 == s
  {
    hide Waits, TextBefore;
    UncertainWaits(eng, ch, Step(eng, ch, s, Checked(f)).0);
  }

  /** A reset forgets the word, the last key and the quirk; only a full one forgets the last frame. */
  lemma ResetExactly<E(!new)>(eng: Engine<E>, ch: Channels, s: State<E>)
    ensures var anew := s.(engine := eng.initial, lastInput := None, retroactive := false, confirmation := AwaitingFrame,
                            shadow := Shadow("", None, 0, 0, 0, false), quirk := Quirk(None, Bytes, false, false));
            && Step(eng, ch, s, Navigated).0 == anew
            && Step(eng, ch, s, FullyReset).0 == anew.(prev := Frame("", 0, 0))
            && (s.tier == SurroundingText && s.confirmEdits ==>
                  Waits(eng, ch, anew) && Waits(eng, ch, anew.(prev := Frame("", 0, 0))))
  {
    hide Waits;
    UncertainWaits(eng, ch, Step(eng, ch, s, Navigated).0);
    UncertainWaits(eng, ch, Step(eng, ch, s, FullyReset).0);
  }

  /** Leaving the surrounding-text tier ends the waiting; entering it changes nothing else. */
  lemma TierExactly<E(!new)>(eng: Engine<E>, ch: Channels, s: State<E>, tier: BackspaceMethod)
    ensures Step(eng, ch, s, TierSet(tier)).0
         == s.(tier := tier, confirmation := if tier == ForwardKey then Live else s.confirmation)
  {
  }

  /** A repeat is skipped exactly when nothing starts or ends with it and no echo is awaited. */
  lemma SkipExactly<E(!new)>(s: State<E>, f: Frame, activate: bool, deactivate: bool)
    ensures SkipsFrame(s, f, activate, deactivate)
       <==> f.text == s.prev.text && f.cursor == s.prev.cursor && f.anchor == s.prev.anchor
            && !activate && !deactivate && s.quirk.expectedEcho == None
  {
  }
}
