/** Whole words typed: the text is what the engine renders for the keys. */
module Typing {
  import opened Utf8
  import opened Texts
  import opened Engines
  import opened Strategies
  import opened Firefox
  import opened Composers
  import opened Runs
  import opened Safety
  import opened Agreement
  import opened Outcomes
  import opened Clients
  import opened Samples
  import opened Tracking

  /** After a letter the engine is inside a word. */
  ghost predicate LettersEnterWord<E(!new)>(eng: Engine<E>) {
    forall keys: string, c: char :: IsAsciiAlphabetic(c) ==> !eng.atWordBeginning(Afresh(eng, keys + [c]).0)
  }

  /** The composer is where typing `keys` behind `head` leads, in a context that no frame need confirm. */
  ghost predicate Renders<E(!new)>(eng: Engine<E>, s: State<E>, head: string, keys: string) {
    && !s.confirmation.PendingRaw? && !Uncertain(s) && !s.retroactive && s.shadow.selectedBeforeChars == 0
    && s.engine == Afresh(eng, keys).0 && s.shadow.text == head + Afresh(eng, keys).1
    && (if keys == "" then !StartsOnWord(eng, s) else s.lastInput == Some(keys[|keys| - 1]))
  }

  lemma InsideWord<E(!new)>(eng: Engine<E>, s: State<E>, head: string, keys: string)
    requires LettersEnterWord(eng) && Renders(eng, s, head, keys)
    ensures !StartsOnWord(eng, s)
  {
    hide Afresh, CurrentWord, Uncertain;
    if keys != "" {
      assert keys[..|keys| - 1] + [keys[|keys| - 1]] == keys;
    }
  }

  /** One key more, and the edit that answers it. */
  lemma KeyRenders<E(!new)>(eng: Engine<E>, ch: Channels, s: State<E>, head: string, keys: string, c: char)
    requires Lawful(eng) && LettersEnterWord(eng) && Renders(eng, s, head, keys)
    ensures Renders(eng, Step(eng, ch, s, Key(c)).0, head, keys + [c])
  {
    hide FeedKey, ApplyEdit, Afresh, CurrentWord, Lawful, LettersEnterWord, StartsOnWord;
    InsideWord(eng, s, head, keys);
    OtherKeysGoOn(eng, s, c);
    AfreshOn(eng, keys, c);
    var (s1, d) := FeedKey(eng, s, c);
    var (screen, r) := (Afresh(eng, keys).1, eng.key(s.engine, c).1);
    FeedKeyTier(eng, s, c);
    if d.Apply? {
      EditShape(eng, ch, s1, d.backspaces, d.commit, false);
      EditRefreshes(eng, ch, s1, d.backspaces, d.commit);
      EditKeepsNoSelection(eng, ch, s1, d.backspaces, d.commit);
      DropAppended(head, screen, r.backspaces);
      assert head + Drop(screen, r.backspaces) + r.commit == head + (Drop(screen, r.backspaces) + r.commit);
    } else {
      assert head + screen + [c] == head + (screen + [c]);
    }
  }

  lemma FeedKeyTier<E(!new)>(eng: Engine<E>, s: State<E>, c: char)
    ensures FeedKey(eng, s, c).0.tier == s.tier && FeedKey(eng, s, c).0.confirmEdits == s.confirmEdits
  {
    hide FeedGated, CurrentWord;
  }

  lemma EditKeepsNoSelection<E(!new)>(eng: Engine<E>, ch: Channels, s: State<E>, n: nat, commit: string)
    requires s.shadow.selectedBeforeChars == 0
    ensures var s1 := ApplyEdit(eng, ch, s, n, commit, false).0;
            s1.shadow.selectedBeforeChars == 0 && s1.confirmEdits == s.confirmEdits
  {
    hide FeedGated, CurrentWord, MultibyteRevert, SurroundingOps, ForwardOps;
  }

  // ---------- on screen ----------

  /** And the client shows it behind `front`. */
  ghost predicate Shows<E(!new)>(eng: Engine<E>, s: State<E>, doc: Doc, head: string, front: string, keys: string) {
    Renders(eng, s, head, keys) && Tracks(s, doc) && doc.before == front + Afresh(eng, keys).1
  }

  lemma KeyShows<E(!new)>(eng: Engine<E>, ch: Channels, kind: ClientKind, s: State<E>, doc: Doc, head: string, front: string,
                          keys: string, m: Moment)
    requires Lawful(eng) && LettersEnterWord(eng) && Shows(eng, s, doc, head, front, keys) && m.event.Key?
    ensures var (s1, doc1) := Together(eng, ch, kind, s, doc, m);
            doc1.Some? && Shows(eng, s1, doc1.value, head, front, keys + [m.event.ch]) && doc1.value.after == doc.after
  {
    hide FeedKey, ApplyEdit, Afresh, CurrentWord, Lawful, LettersEnterWord, StartsOnWord, Tracks, ReceiveAll, DocAfter, Step,
         Uncertain;
    var c := m.event.ch;
    KeyRenders(eng, ch, s, head, keys, c);
    TogetherTracks(eng, ch, kind, s, doc, m);
    InsideWord(eng, s, head, keys);
    AfreshOn(eng, keys, c);
    ShownKey(eng, ch, kind, s, doc, head, front, keys, c);
  }

  lemma ShownKey<E(!new)>(eng: Engine<E>, ch: Channels, kind: ClientKind, s: State<E>, doc: Doc, head: string, front: string,
                          keys: string, c: char)
    requires Shows(eng, s, doc, head, front, keys) && !StartsOnWord(eng, s)
    requires var r := eng.key(s.engine, c).1; r.consumed ==> r.backspaces <= |Afresh(eng, keys).1|
    ensures var out := Step(eng, ch, s, Key(c)).1;
            var doc1 := DocAfter(kind, doc, out);
            doc1.Some? && doc1.value.before == front + Shown(Afresh(eng, keys).1, c, eng.key(s.engine, c).1)
  {
    hide FeedKey, ApplyEdit, Afresh, CurrentWord, StartsOnWord, ReceiveAll, DocAfter, Uncertain, InSync, Guarded, EditDoc;
    OtherKeysGoOn(eng, s, c);
    FeedKeyShape(eng, s, c);
    var (s1, d) := FeedKey(eng, s, c);
    var screen := Afresh(eng, keys).1;
    if d.Apply? {
      EditTracks(eng, ch, kind, s1, doc, d.backspaces, d.commit, false);
      EditedDoc(doc, front, screen, d.backspaces, d.commit);
    } else {
      PassedDoc(kind, doc, c);
      assert front + screen + [c] == front + (screen + [c]);
    }
  }

  lemma EditedDoc(doc: Doc, front: string, screen: string, n: nat, commit: string)
    requires doc.before == front + screen && n <= |screen|
    ensures EditDoc(doc, n, commit).before == front + (Drop(screen, n) + commit)
  {
    DropAppended(front, screen, n);
    assert front + Drop(screen, n) + commit == front + (Drop(screen, n) + commit);
  }

  lemma PassedDoc(kind: ClientKind, doc: Doc, c: char)
    ensures DocAfter(kind, doc, KeyPassed(c)) == Some(Doc(doc.before + [c], "", doc.after))
  {
  }

  /** The keys as moments of composer and client. */
  function Strokes(keys: string, doc: Doc): seq<Moment> {
    if keys == "" then [] else [Moment(Key(keys[0]), doc)] + Strokes(keys[1..], doc)
  }

  /** On every client and channel the document comes to hold, behind what stood before the cursor, what typing the
  keys on a new engine renders, and keeps what stands after it. */
  lemma {:induction false} TypedTextIsOnScreen<E(!new)>(eng: Engine<E>, ch: Channels, kind: ClientKind, s: State<E>, doc: Doc,
                                                        head: string, front: string, keys: string, more: string, moved: Doc)
    requires Lawful(eng) && LettersEnterWord(eng) && Shows(eng, s, doc, head, front, keys)
    ensures var (s1, doc1) := RunTogether(eng, ch, kind, s, doc, Strokes(more, moved));
            doc1.Some? && Shows(eng, s1, doc1.value, head, front, keys + more) && doc1.value.after == doc.after
    decreases |more|
  {
    hide Together, Lawful, LettersEnterWord, Shows;
    if more == "" {
      assert keys + more == keys;
    } else {
      var m := Moment(Key(more[0]), moved);
      KeyShows(eng, ch, kind, s, doc, head, front, keys, m);
      var (s1, doc1) := Together(eng, ch, kind, s, doc, m);
      assert Strokes(more, moved)[1..] == Strokes(more[1..], moved);
      TypedTextIsOnScreen(eng, ch, kind, s1, doc1.value, head, front, keys + [more[0]], more[1..], moved);
      assert keys + [more[0]] + more[1..] == keys + more;
    }
  }

  /** From a new composer: whatever the document holds, the keys add their rendering at the cursor. */
  lemma NewComposerTypes<E(!new)>(eng: Engine<E>, ch: Channels, kind: ClientKind, tier: BackspaceMethod, doc: Doc, keys: string,
                                  moved: Doc)
    requires Lawful(eng) && LettersEnterWord(eng) && doc.selected == ""
    ensures RunTogether(eng, ch, kind, NewState(eng, tier), doc, Strokes(keys, moved)).1
         == Some(Doc(doc.before + Render(eng, keys), "", doc.after))
  {
    hide RunTogether, Lawful, LettersEnterWord;
    var s := NewState(eng, tier);
    assert ByteLen("") == 0;
    assert "" + keys == keys && doc.before + "" == doc.before;
    TypedTextIsOnScreen(eng, ch, kind, s, doc, "", doc.before, "", keys, moved);
  }

  // ---------- the engine that the samples give ----------

  lemma SampleEntersWord(spans: bool)
    ensures LettersEnterWord(Sampled(spans))
  {
    forall keys: string, c: char | IsAsciiAlphabetic(c)
      ensures !Sampled(spans).atWordBeginning(Afresh(Sampled(spans), keys + [c]).0)
    {
      hide Typed, IsWordBoundary, SampleView, SampleBackspace, SampleTyped, SampleReverse;
      LettersAreNoBoundary(c);
      TypedLast(Sampled(spans), "", "", keys, c);
      var e := Typed(Sampled(spans), "", "", keys).0;
      assert Afresh(Sampled(spans), keys + [c]).0 == SampleKey(spans, e, c).0;
    }
  }
}
