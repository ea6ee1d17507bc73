/** Engine and shadow agree in every reachable state, for any engine that keeps its laws. */
module Agreement {
  import opened Utf8
  import opened Texts
  import opened Engines
  import opened Shadows
  import opened Strategies
  import opened Firefox
  import opened Diff
  import opened Composers
  import opened Runs

  /** The text that the engine believes is before the cursor: the shadow, or, while an edit is
  stashed, the shadow without the raw key and with the stashed edit done. */
  function BelievedText(text: string, c: Confirmation): string {
    if c.HasStash() then
      var e := c.pending.edit.value;
      Drop(text, e.backspaces + 1) + e.commit
    else text
  }

  /** The engine's view is what the believed text ends in. */
  predicate Agrees<E(!new)>(eng: Engine<E>, s: State<E>) {
    IsSuffix(eng.view(s.engine), BelievedText(s.shadow.text, s.confirmation))
  }

  /** No state of the engine keeps a boundary character in view. */
  ghost predicate WordBound<E(!new)>(eng: Engine<E>) {
    forall e :: forall c <- eng.view(e) :: !IsWordBoundary(c)
  }

  /** A stash as its key left it: composed against the word before the raw key, which is the shadow's last
  character, with the commit in view; a word-bound engine keeps no more in view than that word. */
  ghost predicate Intact<E(!new)>(eng: Engine<E>, s: State<E>) {
    s.confirmation.HasStash() ==>
      var e := s.confirmation.pending.edit.value;
      var typed := Drop(s.shadow.text, 1);
      && s.tier == SurroundingText
      && s.shadow.text == typed + [s.confirmation.pending.ch]
      && e.baseWord == CurrentWord(typed)
      && e.backspaces <= |typed|
      && |e.commit| <= |eng.view(s.engine)|
      && (WordBound(eng) ==> |eng.view(s.engine)| + e.backspaces <= |e.baseWord| + |e.commit|)
  }

  /** The engine is ahead of the shadow by exactly one edit. */
  predicate Owes<E(!new)>(eng: Engine<E>, s: State<E>, backspaces: nat, commit: string) {
    && !s.confirmation.HasStash()
    && IsSuffix(eng.view(s.engine), Drop(s.shadow.text, backspaces) + commit)
  }

  lemma NewStateAgrees<E(!new)>(eng: Engine<E>, m: BackspaceMethod)
    requires Lawful(eng)
    ensures Agrees(eng, NewState(eng, m)) && Intact(eng, NewState(eng, m))
  {
  }

  // ---------- texts that end alike ----------

  predicate AlikeEnds(a: string, b: string, k: nat) {
    k <= |a| && k <= |b| && a[|a| - k..] == b[|b| - k..]
  }

  /** Two texts end in one view exactly when they end alike that far. */
  lemma AlikeIff(view: string, a: string, b: string)
    requires IsSuffix(view, a)
    ensures IsSuffix(view, b) <==> AlikeEnds(a, b, |view|)
  {
  }

  /** The same with one text appended to both. */
  lemma AlikeEdit(view: string, a: string, b: string, t: string)
    requires IsSuffix(view, a + t)
    ensures IsSuffix(view, b + t) <==> |view| <= |t| || AlikeEnds(a, b, |view| - |t|)
  {
    if |view| <= |t| {
      assert (a + t)[|a + t| - |view|..] == t[|t| - |view|..] == (b + t)[|b + t| - |view|..];
    } else {
      var k := |view| - |t|;
      assert k <= |a| && view == a[|a| - k..] + t;
      if k <= |b| {
        assert (b + t)[|b + t| - |view|..] == b[|b| - k..] + t;
        assert (b[|b| - k..] + t)[..k] == b[|b| - k..] && view[..k] == a[|a| - k..];
      }
    }
  }

  // ---------- keys ----------

  lemma SeedIsSuffix<E(!new)>(eng: Engine<E>, e: E, text: string)
    requires Lawful(eng)
    requires IsSuffix(eng.view(e), text)
    ensures IsSuffix(eng.view(FeedGated(eng, e, CurrentWord(text)).0), text)
  {
    GatedSeedIsVisible(eng, e, CurrentWord(text));
    CurrentWordIsLongest(text);
    if FeedGated(eng, e, CurrentWord(text)).1 {
      SuffixTransitive(eng.view(FeedGated(eng, e, CurrentWord(text)).0), CurrentWord(text), text);
    }
  }

  lemma BeginKeyAgrees<E(!new)>(eng: Engine<E>, s: State<E>, ch: char)
    requires Lawful(eng) && Agrees(eng, s)
    ensures var s1 := BeginKey(eng, s, PlanKeyStart(Capture(eng, s, ch)));
            s1.shadow == s.shadow && s1.tier == s.tier && IsSuffix(eng.view(s1.engine), s.shadow.text)
  {
    hide FeedGated, KeyLaw, BackspaceLaw, FeedLaw, WordStart;
    var start := PlanKeyStart(Capture(eng, s, ch));
    var engine := if start.resetSpeculation then eng.initial else s.engine;
    assert IsSuffix(eng.view(engine), s.shadow.text);
    SeedIsSuffix(eng, engine, s.shadow.text);
  }

  /** A text without boundary characters that ends another lies within its last word. */
  lemma NoBoundaryWithinWord(view: string, text: string)
    requires IsSuffix(view, text) && forall c <- view :: !IsWordBoundary(c)
    ensures |view| <= |CurrentWord(text)|
  {
    CurrentWordIsLongest(text);
    hide IsWordBoundary;
    forall j | |text| - |view| <= j < |text|
      ensures !IsWordBoundary(text[j])
    {
      assert text[j] == view[j - (|text| - |view|)];
    }
  }

  /** What a key does to a view and to the text it ends, passed on, applied or stashed. */
  lemma EditedTexts(view: string, text: string, ch: char, n: nat, t: string)
    requires IsSuffix(view, text)
    ensures IsSuffix("", text + [ch]) && IsSuffix(view + [ch], text + [ch])
    ensures IsSuffix(Drop(view, n) + t, Drop(text, n) + t)
    ensures IsSuffix(Drop(view, n) + t, Drop(text + [ch], n + 1) + t)
  {
    SuffixEdit(view, text, 0, [ch]);
    SuffixEdit(view, text, n, t);
    DropAppended(text, [ch], n + 1);
    assert Drop(text, 0) == text && Drop(view, 0) == view;
  }

  lemma SuffixFits(view: string, text: string)
    requires IsSuffix(view, text)
    ensures |view| <= |text|
  {
  }

  /** A result that keeps the laws leaves agreement, or owes the edit it returned. */
  lemma FinishKeyAgrees<E(!new)>(eng: Engine<E>, s: State<E>, view: string, ch: char, r: ProcessResult,
          uncertain: bool, prior: bool, fromFrame: bool)
    requires IsSuffix(view, s.shadow.text)
    requires r.consumed ==> r.backspaces <= |view| && eng.view(s.engine) == Drop(view, r.backspaces) + r.commit
    requires !r.consumed ==> eng.view(s.engine) == view + [ch] || eng.view(s.engine) == ""
    ensures var (s1, d) := FinishKey(s, ch, PlanKeyFinish(ch, uncertain, prior, fromFrame, r, s.Word()));
            if d.ForwardRaw? then Agrees(eng, s1) && s1.shadow.text == s.shadow.text + [ch]
            else Owes(eng, s1, d.backspaces, d.commit) && d.backspaces <= |s1.shadow.text|
  {
    hide CurrentWord, IsSuffix, Drop, IsWordBoundary, IsAsciiAlphabetic;
    SuffixFits(view, s.shadow.text);
    EditedTexts(view, s.shadow.text, ch, r.backspaces, r.commit);
  }

  lemma FinishKeyIntact<E(!new)>(eng: Engine<E>, s: State<E>, view: string, ch: char, r: ProcessResult,
          uncertain: bool, prior: bool, fromFrame: bool)
    requires |view| <= |s.shadow.text| && (uncertain ==> s.tier == SurroundingText)
    requires WordBound(eng) ==> |view| <= |s.Word()|
    requires r.consumed ==> r.backspaces <= |view| && eng.view(s.engine) == Drop(view, r.backspaces) + r.commit
    ensures Intact(eng, FinishKey(s, ch, PlanKeyFinish(ch, uncertain, prior, fromFrame, r, s.Word())).0)
  {
    assert Drop(s.shadow.text + [ch], 1) == s.shadow.text;
    hide WordBound, CurrentWord;
  }

  /** A key leaves engine and shadow in agreement, or owing exactly the edit it returned, which deletes no
  more than the shadow holds. */
  lemma FeedKeyAgrees<E(!new)>(eng: Engine<E>, s: State<E>, ch: char)
    requires Lawful(eng) && Agrees(eng, s)
    ensures var (s1, d) := FeedKey(eng, s, ch);
            && Intact(eng, s1)
            && if d.ForwardRaw? then Agrees(eng, s1) && s1.shadow.text == s.shadow.text + [ch]
               else Owes(eng, s1, d.backspaces, d.commit) && d.backspaces <= |s1.shadow.text|
  {
    hide BeginKey, FinishKey, PlanKeyFinish, BackspaceLaw, FeedLaw, WordStart, Intact, Agrees, Owes;
    BeginKeyAgrees(eng, s, ch);
    var start := PlanKeyStart(Capture(eng, s, ch));
    var s1 := BeginKey(eng, s, start);
    assert KeyLaw(eng, s1.engine, ch);
    var (e, r) := eng.key(s1.engine, ch);
    if WordBound(eng) {
      NoBoundaryWithinWord(eng.view(s1.engine), s.shadow.text);
    }
    FinishKeyAgrees(eng, s1.(engine := e, lastInput := Some(ch)), eng.view(s1.engine), ch, r,
                    start.contextUncertain, s.confirmation.PendingRaw?, s.confirmation.IsFrameDerived());
    FinishKeyIntact(eng, s1.(engine := e, lastInput := Some(ch)), eng.view(s1.engine), ch, r,
                    start.contextUncertain, s.confirmation.PendingRaw?, s.confirmation.IsFrameDerived());
  }

  /** Taking a passed key back owes it as text. */
  lemma UnrecordAgrees<E(!new)>(eng: Engine<E>, s: State<E>, ch: char)
    requires Lawful(eng) && Agrees(eng, s)
    requires FeedKey(eng, s, ch).1.ForwardRaw?
    ensures Owes(eng, UnrecordForwardedChar(eng, FeedKey(eng, s, ch).0), 0, [ch])
  {
    hide FeedKey, Intact;
    FeedKeyAgrees(eng, s, ch);
    DropAppended(s.shadow.text, [ch], 1);
    assert Drop(s.shadow.text, 0) == s.shadow.text;
  }

  /** A Backspace does to the view what it says, or what it does to the shadow, or empties it. */
  lemma FeedBackspaceAgrees<E(!new)>(eng: Engine<E>, s: State<E>)
    requires Lawful(eng) && Agrees(eng, s)
    requires !s.confirmation.HasStash()
    ensures var (s1, d) := FeedBackspace(eng, s);
            if d.ForwardRaw? then Agrees(eng, s1) else Owes(eng, s1, d.backspaces, d.commit)
  {
    assert BackspaceLaw(eng, s.engine);
    var (e, r) := eng.backspace(s.engine);
    SuffixEdit(eng.view(s.engine), s.shadow.text, r.backspaces, r.commit);
    SuffixEdit(eng.view(s.engine), s.shadow.text, 1, "");
    assert Drop(eng.view(s.engine), 1) + "" == Drop(eng.view(s.engine), 1);
    assert Drop(s.shadow.text, 1) + "" == Drop(s.shadow.text, 1);
  }

  // ---------- edits ----------

  /** The characters selected before the cursor that an edit pops again; none on the Backspace channel. */
  function PoppedSelection<E(!new)>(s: State<E>, n: nat, commit: string): nat {
    if UsesForwardKey(s, n, commit) || s.tier == ForwardKey then 0 else s.shadow.selectedBeforeChars
  }

  predicate Refreshes<E(!new)>(s: State<E>, n: nat, preserve: bool) {
    !preserve && n > 0 && s.retroactive
  }

  /** What an edit makes of shadow and engine, on whichever channel. */
  lemma EditShape<E(!new)>(eng: Engine<E>, ch: Channels, s: State<E>, n: nat, commit: string, preserve: bool)
    ensures var s1 := ApplyEdit(eng, ch, s, n, commit, preserve).0;
            && s1.shadow.text == Drop(s.shadow.text, n + PoppedSelection(s, n, commit)) + commit
            && s1.confirmation == s.confirmation && s1.tier == s.tier
            && s1.engine == if Refreshes(s, n, preserve) then Seeded(eng, CurrentWord(s1.shadow.text)).0 else s.engine
  {
    hide MultibyteRevert, FeedGated, SurroundingOps, ForwardOps;
  }

  lemma SeededIsSuffix<E(!new)>(eng: Engine<E>, text: string)
    requires Lawful(eng)
    ensures IsSuffix(eng.view(Seeded(eng, CurrentWord(text)).0), text)
  {
    hide FeedGated, CurrentWord;
    SeedIsSuffix(eng, eng.initial, text);
  }

  /** A selection that the edit pops on top of its own deletion is not missed: what the engine keeps in view
  ends the text with it as well as without. */
  predicate Spares<E(!new)>(eng: Engine<E>, s: State<E>, n: nat, commit: string) {
    var view, b := eng.view(s.engine), PoppedSelection(s, n, commit);
    |view| <= |commit| || AlikeEnds(Drop(s.shadow.text, n), Drop(s.shadow.text, n + b), |view| - |commit|)
  }

  /** Without a selection before the cursor there is nothing to spare. */
  lemma NothingPopped<E(!new)>(eng: Engine<E>, s: State<E>, n: nat, commit: string)
    requires Owes(eng, s, n, commit) && PoppedSelection(s, n, commit) == 0
    ensures Spares(eng, s, n, commit)
  {
    AlikeEdit(eng.view(s.engine), Drop(s.shadow.text, n), Drop(s.shadow.text, n), commit);
  }

  /** The owed edit is paid exactly when it refreshes the engine, or spares the selection. */
  lemma ApplyEditExact<E(!new)>(eng: Engine<E>, ch: Channels, s: State<E>, n: nat, commit: string, preserve: bool)
    requires Lawful(eng) && Owes(eng, s, n, commit)
    ensures Agrees(eng, ApplyEdit(eng, ch, s, n, commit, preserve).0)
       <==> Refreshes(s, n, preserve) || Spares(eng, s, n, commit)
  {
    hide ApplyEdit, PoppedSelection, AlikeEnds, IsSuffix, Lawful, Seeded, CurrentWord, Drop;
    var b := PoppedSelection(s, n, commit);
    var text := Drop(s.shadow.text, n + b) + commit;
    EditShape(eng, ch, s, n, commit, preserve);
    SeededIsSuffix(eng, text);
    AlikeEdit(eng.view(s.engine), Drop(s.shadow.text, n), Drop(s.shadow.text, n + b), commit);
  }

  lemma ApplyRepairExact<E(!new)>(eng: Engine<E>, ch: Channels, s: State<E>, n: nat, commit: string)
    requires !s.confirmation.HasStash() && s.shadow.selectedBeforeChars == 0
    ensures Agrees(eng, ApplyRepair(eng, ch, s, RetroEdit(n, commit)).0)
       <==> IsSuffix(eng.view(s.engine), Drop(s.shadow.text, n) + commit)
  {
    hide ApplyEdit, UsesForwardKey, IsSuffix, Drop;
    EditShape(eng, ch, s, n, commit, true);
  }

  /** Applying the owed edit without a selection before the cursor pays it, on either channel and with or
  without the refresh. */
  lemma ApplyEditAgrees<E(!new)>(eng: Engine<E>, ch: Channels, s: State<E>, n: nat, commit: string, preserve: bool)
    requires Lawful(eng) && Owes(eng, s, n, commit) && s.shadow.selectedBeforeChars == 0
    ensures Agrees(eng, ApplyEdit(eng, ch, s, n, commit, preserve).0)
    ensures Agrees(eng, ApplyRepair(eng, ch, s, RetroEdit(n, commit)).0)
  {
    hide ApplyEdit, ApplyRepair, Spares, Agrees, IsSuffix, Lawful, UsesForwardKey, Drop;
    NothingPopped(eng, s, n, commit);
    ApplyEditExact(eng, ch, s, n, commit, preserve);
    ApplyRepairExact(eng, ch, s, n, commit);
  }

  // ---------- a Backspace that meets a stash ----------

  /** Character `i` from the end. */
  function Back(s: string, i: nat): char
    requires i < |s|
  {
    s[|s| - 1 - i]
  }

  lemma BackwardsEqual(a: string, b: string)
    requires |a| == |b| && forall i :: 0 <= i < |a| ==> Back(a, i) == Back(b, i)
    ensures a == b
  {
    forall i | 0 <= i < |a|
      ensures a[i] == b[i]
    {
      assert Back(a, |a| - 1 - i) == Back(b, |a| - 1 - i);
    }
  }

  lemma SuffixBack(v: string, s: string)
    ensures IsSuffix(v, s) <==> |v| <= |s| && forall i :: 0 <= i < |v| ==> Back(v, i) == Back(s, i)
  {
    if |v| <= |s| {
      var tail := s[|s| - |v|..];
      assert forall i :: 0 <= i < |v| ==> Back(tail, i) == Back(s, i);
      if forall i :: 0 <= i < |v| ==> Back(v, i) == Back(s, i) {
        BackwardsEqual(tail, v);
      }
    }
  }

  /** The last `k` characters, or all if there are fewer, are one character repeated. */
  predicate RepeatsLast(s: string, k: nat) {
    forall i :: 0 <= i < |s| && i < k ==> Back(s, i) == Back(s, 0)
  }

  /** A text with its last character off, and `commit` put on it with one character more off. */
  lemma BackOfShorter(text: string, commit: string, i: nat)
    requires i < |Drop(text, 1) + commit|
    ensures Back(Drop(text, 1) + commit, i) == Back(text + commit, if i < |commit| then i else i + 1)
  {
  }

  lemma {:induction false} RepeatsByStep(s: string, i: nat)
    requires i < |s| && forall j :: 0 <= j < i ==> Back(s, j + 1) == Back(s, j)
    ensures Back(s, i) == Back(s, 0)
    decreases i
  {
    if i > 0 {
      RepeatsByStep(s, i - 1);
    }
  }

  /** With one more character off the text before a stashed edit, a view one shorter ends the result exactly
  when commit and the character before it, as far as in view, repeat one character. */
  lemma ShorterViewExact(view: string, text: string, commit: string)
    requires IsSuffix(view, text + commit) && view != ""
    ensures IsSuffix(Drop(view, 1), Drop(text, 1) + commit) <==> |view| == 1 || RepeatsLast(view, |commit| + 1)
  {
    var v, all, less := Drop(view, 1), text + commit, Drop(text, 1) + commit;
    assert |v| == |view| - 1 && |v| <= |less|;
    assert forall i :: 0 <= i < |v| ==> Back(v, i) == Back(view, i + 1);
    SuffixBack(view, all);
    SuffixBack(v, less);
    hide Back, IsSuffix, Drop;
    if IsSuffix(v, less) {
      forall i | 0 <= i < |view| && i < |commit| + 1
        ensures Back(view, i) == Back(view, 0)
      {
        forall j | 0 <= j < i
          ensures Back(view, j + 1) == Back(view, j)
        {
          BackOfShorter(text, commit, j);
          assert Back(v, j) == Back(less, j);
        }
        RepeatsByStep(view, i);
      }
    } else if |view| == 1 || RepeatsLast(view, |commit| + 1) {
      forall i | 0 <= i < |v|
        ensures Back(v, i) == Back(less, i)
      {
        BackOfShorter(text, commit, i);
        if i < |commit| {
          assert Back(view, i + 1) == Back(view, 0) == Back(view, i);
        }
      }
    }
  }

  /** What is left when the view of a stash-holding engine meets a Backspace that is passed on. */
  predicate PassSpares<E(!new)>(eng: Engine<E>, s: State<E>)
    requires s.confirmation.HasStash()
  {
    || eng.view(FeedBackspace(eng, s).0.engine) == ""
    || RepeatsLast(eng.view(s.engine), |s.confirmation.pending.edit.value.commit| + 1)
  }

  /** The stashed edit and the one that answers a Backspace can be done in either order, as far as the engine
  has the result in view; a refreshed engine has in view what it finds in the shadow. */
  predicate EditCommutes<E(!new)>(eng: Engine<E>, s: State<E>, n: nat, commit: string) {
    var text := Drop(s.shadow.text, n + PoppedSelection(s, n, commit)) + commit;
    var believed := BelievedText(text, s.confirmation);
    if Refreshes(s, n, false) then AlikeEnds(text, believed, |eng.view(Seeded(eng, CurrentWord(text)).0)|)
    else AlikeEnds(Drop(BelievedText(s.shadow.text, s.confirmation), n) + commit, believed, |eng.view(s.engine)|)
  }

  /** A Backspace keeps the stash, though the raw key it was made with may be gone. */
  predicate BackspaceSpares<E(!new)>(eng: Engine<E>, s: State<E>)
    requires s.confirmation.HasStash()
  {
    var (s1, d) := FeedBackspace(eng, s);
    if d.ForwardRaw? then PassSpares(eng, s) else EditCommutes(eng, s1, d.backspaces, d.commit)
  }

  lemma PassedBackspaceShape<E(!new)>(eng: Engine<E>, s: State<E>)
    requires Lawful(eng)
    ensures var (s1, d) := FeedBackspace(eng, s);
            && s1.confirmation == s.confirmation
            && (d.ForwardRaw? ==>
                  && s1.shadow.text == Drop(s.shadow.text, 1)
                  && (eng.view(s1.engine) == Drop(eng.view(s.engine), 1) || eng.view(s1.engine) == ""))
            && (d.Apply? ==>
                  && s1.shadow == s.shadow
                  && eng.view(s1.engine) == Drop(eng.view(s.engine), d.backspaces) + d.commit)
  {
    assert BackspaceLaw(eng, s.engine);
  }

  lemma PassedBackspaceExact<E(!new)>(eng: Engine<E>, s: State<E>)
    requires Lawful(eng) && Agrees(eng, s) && s.confirmation.HasStash()
    requires FeedBackspace(eng, s).1.ForwardRaw?
    ensures Agrees(eng, FeedBackspace(eng, s).0) <==> PassSpares(eng, s)
  {
    hide FeedBackspace, Lawful, IsSuffix, RepeatsLast;
    PassedBackspaceShape(eng, s);
    var e := s.confirmation.pending.edit.value;
    var view, view1 := eng.view(s.engine), eng.view(FeedBackspace(eng, s).0.engine);
    DropMore(s.shadow.text, e.backspaces + 1);
    SwapDrops(s.shadow.text, e.backspaces + 1);
    if view1 == "" {
      EmptyIsSuffix(BelievedText(Drop(s.shadow.text, 1), s.confirmation));
    } else {
      assert view != "";
      ShorterViewExact(view, Drop(s.shadow.text, e.backspaces + 1), e.commit);
    }
  }

  lemma EmptyIsSuffix(s: string)
    ensures IsSuffix("", s)
  {
  }

  lemma DropMore(text: string, n: nat)
    ensures Drop(text, n + 1) == Drop(Drop(text, 1), n)
  {
  }

  lemma SwapDrops(text: string, n: nat)
    ensures Drop(Drop(text, 1), n) == Drop(Drop(text, n), 1)
  {
  }

  lemma EditMeetsStashExact<E(!new)>(eng: Engine<E>, ch: Channels, s: State<E>, n: nat, commit: string)
    requires Lawful(eng)
    requires IsSuffix(eng.view(s.engine), Drop(BelievedText(s.shadow.text, s.confirmation), n) + commit)
    ensures Agrees(eng, ApplyEdit(eng, ch, s, n, commit, false).0) <==> EditCommutes(eng, s, n, commit)
  {
    hide ApplyEdit, PoppedSelection, AlikeEnds, IsSuffix, Lawful, Seeded, CurrentWord, Drop, BelievedText;
    var text := Drop(s.shadow.text, n + PoppedSelection(s, n, commit)) + commit;
    EditShape(eng, ch, s, n, commit, false);
    SeededIsSuffix(eng, text);
    AlikeIff(eng.view(Seeded(eng, CurrentWord(text)).0), text, BelievedText(text, s.confirmation));
    AlikeIff(eng.view(s.engine), Drop(BelievedText(s.shadow.text, s.confirmation), n) + commit,
             BelievedText(text, s.confirmation));
  }

  /** A Backspace that meets a stash leaves agreement exactly when `BackspaceSpares` says so. */
  lemma BackspaceMeetsStash<E(!new)>(eng: Engine<E>, ch: Channels, s: State<E>)
    requires Lawful(eng) && Agrees(eng, s) && s.confirmation.HasStash()
    ensures Agrees(eng, Step(eng, ch, s, Backspace).0) <==> BackspaceSpares(eng, s)
  {
    hide FeedBackspace, ApplyEdit, Lawful, PassSpares, EditCommutes, Drop, IsSuffix, BelievedText;
    PassedBackspaceShape(eng, s);
    var (s1, d) := FeedBackspace(eng, s);
    if d.ForwardRaw? {
      PassedBackspaceExact(eng, s);
    } else {
      SuffixEdit(eng.view(s.engine), BelievedText(s.shadow.text, s.confirmation), d.backspaces, d.commit);
      EditMeetsStashExact(eng, ch, s1, d.backspaces, d.commit);
    }
  }

  // ---------- frames ----------

  /** Equal characters are matched, the first unequal ones are not. */
  lemma {:induction false} CommonPrefixStops(a: string, b: string)
    ensures var n := CommonPrefix(a, b); n < |a| && n < |b| ==> a[n] != b[n]
  {
    if a != "" && b != "" && a[0] == b[0] {
      CommonPrefixStops(a[1..], b[1..]);
    }
  }

  /** The replay repair is correct and minimal: it turns the word on screen into the wanted word,
  nothing that does so by deleting a tail and appending deletes less, and there is no
  repair exactly when there is nothing to repair. */
  lemma RepairIsMinimal(screen: string, desired: string)
    ensures RepairFor(screen, desired).None? <==> screen == desired
    ensures RepairFor(screen, desired).Some? ==>
              var r := RepairFor(screen, desired).value;
              r.backspaces <= |screen| && Drop(screen, r.backspaces) + r.commit == desired
    ensures forall n: nat, t: string :: RepairFor(screen, desired).Some? && Drop(screen, n) + t == desired
              ==> n >= RepairFor(screen, desired).value.backspaces
  {
    CommonPrefixStops(screen, desired);
    var k := CommonPrefix(screen, desired);
    assert desired[..k] + desired[k..] == desired;
    if k == |screen| && k == |desired| {
      assert screen[..k] == screen && desired[..k] == desired;
    }
    forall n: nat, t: string | Drop(screen, n) + t == desired
      ensures n >= |screen| - k
    {
      var m := |Drop(screen, n)|;
      assert desired[..m] == screen[..m];
      assert forall i | 0 <= i < m :: desired[i] == desired[..m][i] == screen[i];
    }
  }

  lemma ReseedAgrees<E(!new)>(eng: Engine<E>, s: State<E>, word: string)
    requires Lawful(eng) && IsSuffix(word, s.shadow.text)
    ensures Agrees(eng, Reseed(eng, s, word)) && !Reseed(eng, s, word).confirmation.HasStash()
  {
    GatedSeedIsVisible(eng, eng.initial, word);
    var e := Reseed(eng, s, word).engine;
    if IsSuffix(eng.view(e), word) {
      SuffixTransitive(eng.view(e), word, s.shadow.text);
    }
  }

  /** The word that the engine wants, put where the screen shows the base word and the raw key. */
  lemma RepairIsOwed(view: string, head: string, screen: string, desired: string)
    requires IsSuffix(view, desired)
    ensures match RepairFor(screen, desired)
            case None => IsSuffix(view, head + screen)
            case Some(r) => r.backspaces <= |head + screen|
                            && IsSuffix(view, Drop(head + screen, r.backspaces) + r.commit)
  {
    hide RepairFor, IsSuffix;
    RepairIsMinimal(screen, desired);
    SuffixOfTail(view, head, desired);
    if RepairFor(screen, desired).Some? {
      var r := RepairFor(screen, desired).value;
      DropAppended(head, screen, r.backspaces);
      assert Drop(head + screen, r.backspaces) + r.commit == head + desired;
    }
  }

  /** A repair found by replay is owed: the screen shows the base word and the raw key. */
  lemma ReplayOnAgrees<E(!new)>(eng: Engine<E>, s: State<E>, engine: E, ch: char, head: string, base: string)
    requires Lawful(eng) && IsSuffix(eng.view(engine), base)
    requires s.shadow.text == head + (base + [ch])
    ensures var (s1, repair) := ReplayOn(eng, s, engine, ch, base);
            if repair.None? then Agrees(eng, s1)
            else Owes(eng, s1, repair.value.backspaces, repair.value.commit)
  {
    hide Lawful, RepairFor, IsSuffix;
    KeyKeepsSuffix(eng, engine, base, ch);
    var (e, r) := eng.key(engine, ch);
    RepairIsOwed(eng.view(e), head, base + [ch], Shown(base, ch, r));
    SuffixOfTail(eng.view(e), head, Shown(base, ch, r));
  }

  lemma SuffixOfTail(v: string, head: string, tail: string)
    requires IsSuffix(v, tail)
    ensures IsSuffix(v, head + tail)
  {
    SuffixTransitive(v, tail, head + tail);
  }

  lemma ReplayAgrees<E(!new)>(eng: Engine<E>, s: State<E>, f: Frame, ch: char, stripped: string)
    requires Lawful(eng)
    requires f.cursor == f.anchor && f.Before() == stripped + [ch]
    ensures var (s1, repair) := Replay(eng, s, f, ch, CurrentWord(stripped));
            && s1.shadow.selectedBeforeChars == 0
            && if repair.None? then Agrees(eng, s1) && !s1.confirmation.HasStash()
               else Owes(eng, s1, repair.value.backspaces, repair.value.commit)
  {
    hide WordStart, TextBefore, RepairFor, Lawful, FeedGated;
    var base := CurrentWord(stripped);
    var head := stripped[..WordStart(stripped)];
    var s1 := Record(s, f).(lastInput := Some(ch));
    ObservedForward(f.text, f.cursor, f.anchor);
    assert stripped + [ch] == head + (base + [ch]);
    GatedSeedIsVisible(eng, eng.initial, base);
    if Seeded(eng, base).1 {
      ReplayOnAgrees(eng, s1, Seeded(eng, base).0, ch, head, base);
    } else {
      ReseedAgrees(eng, s1, base + [ch]);
    }
  }

  /** The frame proves the pending key behind the word its stash was composed on, which is all that is
  compared before the stash is emitted. */
  predicate EmitsStash<E(!new)>(s: State<E>, f: Frame) {
    && Confirms(s, f) && s.confirmation.HasStash() && s.confirmation.pending.repairable
    && InsertionProven(s, f, s.confirmation.pending.ch)
    && s.confirmation.pending.edit.value.baseWord == CurrentWord(Drop(f.Before(), 1))
  }

  /** What the engine keeps in view in front of the stashed commit stands in the frame as it does in the
  shadow. */
  predicate StashMatches<E(!new)>(eng: Engine<E>, s: State<E>, f: Frame)
    requires s.confirmation.HasStash()
  {
    var e := s.confirmation.pending.edit.value;
    var view := eng.view(s.engine);
    || |view| <= |e.commit|
    || AlikeEnds(Drop(s.shadow.text, e.backspaces + 1), Drop(f.Before(), e.backspaces + 1), |view| - |e.commit|)
  }

  /** The stashed edit, deleting the raw key too, is owed to the text that the frame proved exactly when
  the part in view is alike. */
  lemma StashIsOwedIff<E(!new)>(eng: Engine<E>, s: State<E>, f: Frame)
    requires Agrees(eng, s) && s.confirmation.HasStash()
    ensures var e := s.confirmation.pending.edit.value;
            StashMatches(eng, s, f) <==> IsSuffix(eng.view(s.engine), Drop(f.Before(), e.backspaces + 1) + e.commit)
  {
    hide AlikeEnds, IsSuffix, Drop, TextBefore;
    var e := s.confirmation.pending.edit.value;
    AlikeEdit(eng.view(s.engine), Drop(s.shadow.text, e.backspaces + 1), Drop(f.Before(), e.backspaces + 1), e.commit);
  }

  /** Parts that lie within the common last word are alike. */
  lemma WithinWordIsAlike(a: string, b: string, k: nat, n: nat)
    requires CurrentWord(a) == CurrentWord(b) && n + k <= |CurrentWord(a)|
    ensures AlikeEnds(Drop(a, n), Drop(b, n), k)
  {
    hide WordStart, IsWordBoundary, CurrentWord;
    var word := CurrentWord(a);
    CurrentWordIsLongest(a);
    CurrentWordIsLongest(b);
    var m := |word|;
    assert Drop(a, n)[|a| - n - k..] == word[m - n - k..m - n] == Drop(b, n)[|b| - n - k..];
  }

  /** A word-bound engine keeps only the word in view, and that the frame repeats. */
  lemma WordBoundMatches<E(!new)>(eng: Engine<E>, s: State<E>, f: Frame)
    requires WordBound(eng) && Intact(eng, s) && EmitsStash(s, f)
    ensures StashMatches(eng, s, f)
  {
    hide WordStart, InsertionProven, WordBound, TextBefore, IsSuffix, Drop, CurrentWord, AlikeEnds;
    var e := s.confirmation.pending.edit.value;
    var view := eng.view(s.engine);
    DropMore(s.shadow.text, e.backspaces);
    DropMore(f.Before(), e.backspaces);
    if |view| > |e.commit| {
      WithinWordIsAlike(Drop(s.shadow.text, 1), Drop(f.Before(), 1), |view| - |e.commit|, e.backspaces);
    }
  }

  /** Every answer to the frame that ends in the pending key but a released stash leaves agreement or owes its
  repair, whatever there was before. */
  lemma ConfirmKeyAgrees<E(!new)>(eng: Engine<E>, s: State<E>, f: Frame)
    requires Lawful(eng) && Confirms(s, f) && !EmitsStash(s, f)
    ensures var (s1, repair) := ConfirmKey(eng, s, f, s.confirmation.pending);
            && s1.shadow.selectedBeforeChars == 0
            && if repair.None? then Agrees(eng, s1) && !s1.confirmation.HasStash()
               else Owes(eng, s1, repair.value.backspaces, repair.value.commit)
  {
    hide Replay, Lawful, InsertionProven, Reseed, Agrees, Owes;
    var p := s.confirmation.pending;
    var before := f.Before();
    var stripped := before[..|before| - 1];
    assert before == stripped + [p.ch] && Drop(before, 1) == stripped;
    ObservedForward(f.text, f.cursor, f.anchor);
    if !InsertionProven(s, f, p.ch) || !p.repairable {
      CurrentWordIsLongest(before);
      ReseedAgrees(eng, Record(s, f).(lastInput := Some(p.ch)), CurrentWord(before));
      ReseedShadow(eng, Record(s, f).(lastInput := Some(p.ch)), CurrentWord(before));
    } else {
      ReplayAgrees(eng, s, f, p.ch, stripped);
    }
  }

  lemma ReseedShadow<E(!new)>(eng: Engine<E>, s: State<E>, word: string)
    ensures Reseed(eng, s, word).shadow == s.shadow
  {
  }

  /** A frame that has the engine reset or reseeded. */
  predicate Realigns<E(!new)>(s: State<E>, confirmed: bool, deletion: bool, reseed: bool) {
    s.confirmation.HasStash() || (deletion && !confirmed) || (!deletion && reseed)
  }

  lemma ObservedWord(text: string, cursor: nat, anchor: nat)
    ensures Observed(text, cursor, anchor).text == TextBefore(text, Min(cursor, anchor))
    ensures IsSuffix(CurrentWordBeforeCursor(text, Min(cursor, anchor)), Observed(text, cursor, anchor).text)
  {
    hide WordStart, Encode;
    if cursor <= anchor {
      CharsWithinMonotone(text, cursor, anchor);
    } else {
      CharsWithinMonotone(text, anchor, cursor);
    }
    CurrentWordIsLongest(TextBefore(text, Min(cursor, anchor)));
  }

  /** A trusted frame, whatever it selects, leaves agreement exactly when it has the engine reset or reseeded, or
  the view still ends what the shadow becomes. */
  lemma TrustFrameExact<E(!new)>(eng: Engine<E>, s: State<E>, f: Frame, confirmed: bool, deletion: bool, reseed: bool)
    requires Lawful(eng)
    ensures Agrees(eng, TrustFrame(eng, s, f, confirmed, deletion, reseed))
       <==> Realigns(s, confirmed, deletion, reseed)
            || IsSuffix(eng.view(s.engine), Observed(f.text, f.cursor, f.anchor).text)
    ensures !TrustFrame(eng, s, f, confirmed, deletion, reseed).confirmation.HasStash()
  {
    hide Observed, FeedGated, WordStart, TextBefore, IsSuffix;
    EmptyIsSuffix(Observed(f.text, f.cursor, f.anchor).text);
    ObservedWord(f.text, f.cursor, f.anchor);
    ReseedAgrees(eng, Synchronize(eng, s, f, confirmed), CurrentWordBeforeCursor(f.text, Min(f.cursor, f.anchor)));
  }

  /** The gate lets the frame through. */
  predicate Trusts<E(!new)>(s: State<E>, f: Frame, force: bool, recent: bool) {
    !(recent && !OneCharTyped(s, f) && f.Before() != s.shadow.text && !force)
  }

  /** A one-character insertion at the last cursor is no deletion. */
  lemma InsertionIsNoDeletion(prev: string, prevCursor: nat, text: string, cursor: nat)
    requires prevCursor < cursor
    ensures !DetectDeletion(prev, prevCursor, text, cursor)
  {
  }

  /** The frame moves the shadow and leaves the engine: a repeat of the shadow, which may select part of it, or a
  one-character insertion. */
  predicate KeepsEngine<E(!new)>(s: State<E>, f: Frame, force: bool) {
    !s.confirmation.HasStash() && (f.Before() == s.shadow.text || (OneCharTyped(s, f) && !force))
  }

  /** Any frame that answers no pending key leaves agreement exactly when it is dropped, has the engine reset or
  reseeded, or moves the shadow to where the engine's view still ends it. */
  lemma GateFrameExact<E(!new)>(eng: Engine<E>, s: State<E>, f: Frame, force: bool, recent: bool)
    requires Lawful(eng) && Agrees(eng, s)
    ensures Agrees(eng, GateFrame(eng, s, f, force, recent, OneCharTyped(s, f)))
       <==> (Trusts(s, f, force, recent) && KeepsEngine(s, f, force) ==>
               IsSuffix(eng.view(s.engine), Observed(f.text, f.cursor, f.anchor).text))
  {
    var confirmed := f.Before() == s.shadow.text;
    var deletion := DetectDeletion(s.prev.text, s.prev.cursor, f.text, f.cursor) || confirmed;
    var decision := Classify(recent, OneCharTyped(s, f), deletion, force, confirmed);
    var quirk := Observe(s.quirk, f.Before(), recent, s.retroactive);
    var s1 := s.(quirk := quirk,
                 commitStringFunctional := s.commitStringFunctional
                                           && !(quirk.useForwardDelete || quirk.forwardSticky));
    if OneCharTyped(s, f) {
      InsertionIsNoDeletion(s.prev.text, s.prev.cursor, f.text, f.cursor);
    }
    hide DetectDeletion, DetectOneCharInsertion, TextBefore, Observe, Lawful, TrustFrame, Observed, IsSuffix, BelievedText;
    TrustFrameExact(eng, s1, f, confirmed, deletion, decision.reseed);
    assert decision.trust ==> (Realigns(s1, confirmed, deletion, decision.reseed) <==> !KeepsEngine(s, f, force));
  }

  // ---------- one event ----------

  /** What the agreement asks of a frame. */
  predicate FrameAllowed<E(!new)>(eng: Engine<E>, s: State<E>, f: Frame, force: bool, recent: bool) {
    if Confirms(s, f) then EmitsStash(s, f) ==> StashMatches(eng, s, f)
    else
      Trusts(s, f, force, recent) && KeepsEngine(s, f, force) ==>
        IsSuffix(eng.view(s.engine), Observed(f.text, f.cursor, f.anchor).text)
  }

  /** What it asks of the edit that answers a key. */
  predicate EditAllowed<E(!new)>(eng: Engine<E>, s: State<E>, n: nat, commit: string) {
    Refreshes(s, n, false) || Spares(eng, s, n, commit)
  }

  predicate AnswerAllowed<E(!new)>(eng: Engine<E>, fed: (State<E>, Decision)) {
    fed.1.Apply? ==> EditAllowed(eng, fed.0, fed.1.backspaces, fed.1.commit)
  }

  /** What it asks of an event: an edit must spare a selection before the cursor; a Backspace, a pause and a
  change of tier must not part a stash from its engine; a frame must not move the text away from the view. */
  predicate Allowed<E(!new)>(eng: Engine<E>, s: State<E>, ev: Event) {
    match ev
    case Key(c) => AnswerAllowed(eng, FeedKey(eng, s, c))
    case ShiftedKey(c) =>
      var fed := FeedKey(eng, s, c);
      if fed.1.ForwardRaw? then EditAllowed(eng, UnrecordForwardedChar(eng, fed.0), 0, [c]) else AnswerAllowed(eng, fed)
    case Backspace =>
      if s.confirmation.HasStash() then BackspaceSpares(eng, s) else AnswerAllowed(eng, FeedBackspace(eng, s))
    case Received(f, force, recent) => FrameAllowed(eng, s, f, force, recent)
    case Paused =>
      s.confirmation.HasStash() && s.tier == SurroundingText ==> IsSuffix(eng.view(s.engine), s.shadow.text)
    case TierSet(tier) =>
      s.confirmation.HasStash() && tier != SurroundingText ==> IsSuffix(eng.view(s.engine), s.shadow.text)
    case _ => true
  }

  lemma PayExact<E(!new)>(eng: Engine<E>, ch: Channels, fed: (State<E>, Decision))
    requires Lawful(eng) && fed.1.Apply? && Owes(eng, fed.0, fed.1.backspaces, fed.1.commit)
    ensures Agrees(eng, ApplyEdit(eng, ch, fed.0, fed.1.backspaces, fed.1.commit, false).0) <==> AnswerAllowed(eng, fed)
  {
    hide ApplyEdit, Spares, Lawful, Owes, Agrees;
    ApplyEditExact(eng, ch, fed.0, fed.1.backspaces, fed.1.commit, false);
  }

  /** The frame that releases a stash leaves agreement exactly when the part in view is alike. */
  lemma StashReleaseIff<E(!new)>(eng: Engine<E>, ch: Channels, s: State<E>, f: Frame, force: bool, recent: bool)
    requires Agrees(eng, s) && EmitsStash(s, f)
    ensures Agrees(eng, Step(eng, ch, s, Received(f, force, recent)).0) <==> StashMatches(eng, s, f)
  {
    hide WordStart, InsertionProven, TextBefore, ApplyEdit, StashMatches, ApplyRepair, Observed, Agrees, Drop;
    var e := s.confirmation.pending.edit.value;
    var s1 := ConfirmKey(eng, s, f, s.confirmation.pending).0;
    assert Drop(f.Before(), 1) == f.Before()[..|f.Before()| - 1] by {
      DropLast(f.Before());
    }
    ObservedForward(f.text, f.cursor, f.anchor);
    StashIsOwedIff(eng, s, f);
    ApplyRepairExact(eng, ch, s1, e.backspaces + 1, e.commit);
  }

  lemma DropLast(s: string)
    requires s != ""
    ensures Drop(s, 1) == s[..|s| - 1]
  {
  }

  /** The frame that ends in the pending key, exactly. */
  lemma AnswerExact<E(!new)>(eng: Engine<E>, ch: Channels, s: State<E>, f: Frame, force: bool, recent: bool)
    requires Lawful(eng) && Agrees(eng, s) && Confirms(s, f)
    ensures Agrees(eng, Step(eng, ch, s, Received(f, force, recent)).0)
       <==> (EmitsStash(s, f) ==> StashMatches(eng, s, f))
  {
    hide ConfirmKey, ApplyEdit, ApplyRepair, Lawful, Owes, EmitsStash, StashMatches, Agrees;
    if EmitsStash(s, f) {
      StashReleaseIff(eng, ch, s, f, force, recent);
    } else {
      ConfirmKeyAgrees(eng, s, f);
      var (s1, repair) := ConfirmKey(eng, s, f, s.confirmation.pending);
      if repair.Some? {
        ApplyEditAgrees(eng, ch, s1, repair.value.backspaces, repair.value.commit, true);
      }
    }
  }

  /** A confirmation that lapses leaves a frame what it was. */
  lemma RevalidateKeeps<E(!new)>(eng: Engine<E>, s: State<E>, f: Frame, force: bool, recent: bool)
    ensures var s0 := Revalidate(s, f.Before());
            && (Agrees(eng, s) ==> Agrees(eng, s0)) && s0.engine == s.engine
            && (Confirms(s0, f) <==> Confirms(s, f)) && OneCharTyped(s0, f) == OneCharTyped(s, f)
            && (Trusts(s0, f, force, recent) <==> Trusts(s, f, force, recent))
            && (KeepsEngine(s0, f, force) <==> KeepsEngine(s, f, force))
  {
    hide DetectOneCharInsertion, TextBefore, IsSuffix, Drop;
  }

  lemma FrameExact<E(!new)>(eng: Engine<E>, ch: Channels, s: State<E>, f: Frame, force: bool, recent: bool)
    requires Lawful(eng) && Agrees(eng, s)
    ensures Agrees(eng, Step(eng, ch, s, Received(f, force, recent)).0) <==> FrameAllowed(eng, s, f, force, recent)
  {
    hide ConfirmKey, GateFrame, ApplyEdit, Lawful, EmitsStash, StashMatches, ApplyRepair, Observed, IsSuffix, TextBefore,
         Agrees, Revalidate, Trusts, KeepsEngine, OneCharTyped, Confirms;
    RevalidateKeeps(eng, s, f, force, recent);
    if Confirms(s, f) {
      AnswerExact(eng, ch, s, f, force, recent);
    } else {
      GateFrameExact(eng, Revalidate(s, f.Before()), f, force, recent);
    }
  }

  lemma KeyExact<E(!new)>(eng: Engine<E>, ch: Channels, s: State<E>, ev: Event)
    requires Lawful(eng) && Agrees(eng, s) && (ev.Key? || ev.ShiftedKey?)
    ensures Agrees(eng, Step(eng, ch, s, ev).0) <==> Allowed(eng, s, ev)
  {
    hide FeedKey, ApplyEdit, Lawful, Owes, Agrees, EditAllowed, Intact;
    var c := ev.ch;
    var fed := FeedKey(eng, s, c);
    FeedKeyAgrees(eng, s, c);
    if fed.1.Apply? {
      PayExact(eng, ch, fed);
    } else if ev.ShiftedKey? {
      UnrecordAgrees(eng, s, c);
      ShiftedExact(eng, ch, UnrecordForwardedChar(eng, fed.0), c);
    }
  }

  lemma ShiftedExact<E(!new)>(eng: Engine<E>, ch: Channels, s: State<E>, c: char)
    requires Lawful(eng) && Owes(eng, s, 0, [c])
    ensures Agrees(eng, ApplyEdit(eng, ch, s, 0, [c], false).0) <==> EditAllowed(eng, s, 0, [c])
  {
    hide ApplyEdit, Lawful, Owes, Agrees, Spares;
    ApplyEditExact(eng, ch, s, 0, [c], false);
  }

  lemma BackspaceExact<E(!new)>(eng: Engine<E>, ch: Channels, s: State<E>)
    requires Lawful(eng) && Agrees(eng, s)
    ensures Agrees(eng, Step(eng, ch, s, Backspace).0) <==> Allowed(eng, s, Backspace)
  {
    hide FeedBackspace, ApplyEdit, Lawful, Owes, Agrees, EditAllowed, BackspaceSpares;
    if s.confirmation.HasStash() {
      BackspaceMeetsStash(eng, ch, s);
    } else {
      FeedBackspaceAgrees(eng, s);
      if FeedBackspace(eng, s).1.Apply? {
        PayExact(eng, ch, FeedBackspace(eng, s));
      }
    }
  }

  lemma StartsEmpty<E(!new)>(eng: Engine<E>)
    requires Lawful(eng)
    ensures eng.view(eng.initial) == ""
  {
    hide KeyLaw, BackspaceLaw, FeedLaw;
  }

  lemma PauseExact<E(!new)>(eng: Engine<E>, s: State<E>)
    requires Lawful(eng) && Agrees(eng, s)
    ensures Agrees(eng, IdleReset(eng, s))
       <==> (s.confirmation.HasStash() && s.tier == SurroundingText ==> IsSuffix(eng.view(s.engine), s.shadow.text))
  {
    hide IsSuffix, Drop, Lawful, BelievedText;
    StartsEmpty(eng);
    EmptyIsSuffix(BelievedText("", s.confirmation));
    Unstashed(s.shadow.text, AwaitingFrame);
    Unstashed(s.shadow.text, s.confirmation);
  }

  lemma Unstashed(text: string, c: Confirmation)
    ensures !c.HasStash() ==> BelievedText(text, c) == text
  {
  }

  lemma TierExact<E(!new)>(eng: Engine<E>, s: State<E>, tier: BackspaceMethod)
    requires Agrees(eng, s)
    ensures Agrees(eng, SetMethod(s, tier))
       <==> (s.confirmation.HasStash() && tier != SurroundingText ==> IsSuffix(eng.view(s.engine), s.shadow.text))
  {
    hide IsSuffix, Drop;
  }

  lemma ResetAgrees<E(!new)>(eng: Engine<E>, s: State<E>)
    requires Lawful(eng)
    ensures Agrees(eng, ResetComposition(eng, s)) && Agrees(eng, FullReset(eng, s))
  {
    hide IsSuffix, Drop, Lawful;
    StartsEmpty(eng);
    EmptyIsSuffix("");
  }

  lemma RevalidateAgrees<E(!new)>(eng: Engine<E>, s: State<E>, before: string)
    requires Agrees(eng, s)
    ensures Agrees(eng, Revalidate(s, before))
  {
    hide IsSuffix, Drop;
  }

  lemma QuietExact<E(!new)>(eng: Engine<E>, ch: Channels, s: State<E>, ev: Event)
    requires Lawful(eng) && Agrees(eng, s)
    requires !ev.Key? && !ev.ShiftedKey? && !ev.Backspace? && !ev.Received?
    ensures Agrees(eng, Step(eng, ch, s, ev).0) <==> Allowed(eng, s, ev)
  {
    match ev
    case Paused =>
      hide IdleReset, Lawful, Agrees, IsSuffix;
      PauseExact(eng, s);
    case TierSet(tier) =>
      hide SetMethod, Lawful, Agrees, IsSuffix;
      TierExact(eng, s, tier);
    case Checked(f) =>
      hide Revalidate, Lawful, Agrees, TextBefore;
      RevalidateAgrees(eng, s, f.Before());
    case NoSurrounding =>
    case ConfirmationSet(on) =>
    case _ =>
      hide ResetComposition, FullReset, Lawful, Agrees;
      ResetAgrees(eng, s);
  }

  /** One event, with the edit that answers it, keeps the agreement exactly when it is allowed. */
  lemma StepAgreesIff<E(!new)>(eng: Engine<E>, ch: Channels, s: State<E>, ev: Event)
    requires Lawful(eng) && Agrees(eng, s)
    ensures Agrees(eng, Step(eng, ch, s, ev).0) <==> Allowed(eng, s, ev)
  {
    hide Step, Allowed, Lawful, Agrees;
    match ev
    case Key(_) => KeyExact(eng, ch, s, ev);
    case ShiftedKey(_) => KeyExact(eng, ch, s, ev);
    case Backspace => BackspaceExact(eng, ch, s);
    case Received(f, force, recent) =>
      FrameExact(eng, ch, s, f, force, recent);
      AllowedFrame(eng, s, f, force, recent);
    case _ => QuietExact(eng, ch, s, ev);
  }

  lemma AllowedFrame<E(!new)>(eng: Engine<E>, s: State<E>, f: Frame, force: bool, recent: bool)
    ensures Allowed(eng, s, Received(f, force, recent)) <==> FrameAllowed(eng, s, f, force, recent)
  {
    hide FrameAllowed;
  }

  // ---------- runs ----------

  /** Engine and shadow agree after every event of the run. */
  predicate AgreesAlong<E(!new)>(eng: Engine<E>, ch: Channels, s: State<E>, evs: seq<Event>)
    decreases |evs|
  {
    evs == [] || (Agrees(eng, Step(eng, ch, s, evs[0]).0) && AgreesAlong(eng, ch, Step(eng, ch, s, evs[0]).0, evs[1..]))
  }

  /** Engine and shadow agree along a run exactly when each of its events is allowed. */
  lemma {:induction false} RunAgreesIff<E(!new)>(eng: Engine<E>, ch: Channels, s: State<E>, evs: seq<Event>)
    requires Lawful(eng) && Agrees(eng, s)
    ensures AgreesAlong(eng, ch, s, evs) <==> Throughout(eng, ch, s, evs, (s, ev) => Allowed(eng, s, ev))
    ensures AgreesAlong(eng, ch, s, evs) ==> Agrees(eng, Run(eng, ch, s, evs))
    decreases |evs|
  {
    hide Step, Allowed, Agrees, Lawful;
    if evs != [] {
      StepAgreesIff(eng, ch, s, evs[0]);
      if Agrees(eng, Step(eng, ch, s, evs[0]).0) {
        RunAgreesIff(eng, ch, Step(eng, ch, s, evs[0]).0, evs[1..]);
      }
    }
  }

  // ---------- engines that keep one word in view ----------

  /** Only a Backspace that meets a stash disturbs it without taking it away. */
  predicate Undisturbed<E(!new)>(s: State<E>, ev: Event) {
    !(ev.Backspace? && s.confirmation.HasStash())
  }

  lemma EditIntact<E(!new)>(eng: Engine<E>, ch: Channels, s: State<E>, n: nat, commit: string, preserve: bool)
    requires !s.confirmation.HasStash()
    ensures Intact(eng, ApplyEdit(eng, ch, s, n, commit, preserve).0)
    ensures Intact(eng, ApplyRepair(eng, ch, s, RetroEdit(n, commit)).0)
  {
    hide ApplyEdit, UsesForwardKey;
    EditShape(eng, ch, s, n, commit, preserve);
    EditShape(eng, ch, s, n, commit, true);
  }

  lemma ConfirmClears<E(!new)>(eng: Engine<E>, s: State<E>, f: Frame, p: Pending)
    requires f.Before() != ""
    ensures !ConfirmKey(eng, s, f, p).0.confirmation.HasStash()
  {
    hide FeedGated, WordStart, TextBefore, Observed, InsertionProven, RepairFor;
  }

  lemma GateIntact<E(!new)>(eng: Engine<E>, s: State<E>, f: Frame, force: bool, recent: bool, oneChar: bool)
    requires Lawful(eng) && Intact(eng, s)
    ensures Intact(eng, GateFrame(eng, s, f, force, recent, oneChar))
  {
    var confirmed := f.Before() == s.shadow.text;
    var deletion := DetectDeletion(s.prev.text, s.prev.cursor, f.text, f.cursor) || confirmed;
    var decision := Classify(recent, oneChar, deletion, force, confirmed);
    var quirk := Observe(s.quirk, f.Before(), recent, s.retroactive);
    var s1 := s.(quirk := quirk,
                 commitStringFunctional := s.commitStringFunctional
                                           && !(quirk.useForwardDelete || quirk.forwardSticky));
    hide DetectDeletion, TextBefore, Observe, TrustFrame, Lawful, WordBound, CurrentWord, Drop;
    TrustFrameExact(eng, s1, f, confirmed, deletion, decision.reseed);
  }

  lemma FrameIntact<E(!new)>(eng: Engine<E>, s: State<E>, f: Frame, force: bool, recent: bool)
    requires Lawful(eng) && Intact(eng, s)
    ensures var (s1, repair) := ApplyFrame(eng, s, f, force, recent);
            Intact(eng, s1) && (repair.Some? ==> !s1.confirmation.HasStash())
  {
    hide ConfirmKey, GateFrame, TextBefore, Lawful, WordBound, CurrentWord, Drop;
    var s0 := Revalidate(s, f.Before());
    if Confirms(s0, f) {
      ConfirmClears(eng, s0, f, s0.confirmation.pending);
    } else {
      GateIntact(eng, s0, f, force, recent, OneCharTyped(s, f));
    }
  }

  lemma IntactStep<E(!new)>(eng: Engine<E>, ch: Channels, s: State<E>, ev: Event)
    requires Lawful(eng) && Agrees(eng, s) && Intact(eng, s) && Undisturbed(s, ev)
    ensures Intact(eng, Step(eng, ch, s, ev).0)
  {
    match ev
    case Key(c) =>
      hide FeedKey, ApplyEdit, Agrees, Lawful, Intact;
      FeedKeyAgrees(eng, s, c);
      var (s1, d) := FeedKey(eng, s, c);
      if d.Apply? {
        EditIntact(eng, ch, s1, d.backspaces, d.commit, false);
      }
    case ShiftedKey(c) =>
      hide FeedKey, ApplyEdit, Agrees, Lawful, Intact;
      FeedKeyAgrees(eng, s, c);
      var (s1, d) := FeedKey(eng, s, c);
      if d.Apply? {
        EditIntact(eng, ch, s1, d.backspaces, d.commit, false);
      } else {
        EditIntact(eng, ch, UnrecordForwardedChar(eng, s1), 0, [c], false);
      }
    case Backspace =>
      hide FeedBackspace, ApplyEdit, Agrees, Lawful;
      PassedBackspaceShape(eng, s);
      var (s1, d) := FeedBackspace(eng, s);
      if d.Apply? {
        EditIntact(eng, ch, s1, d.backspaces, d.commit, false);
      }
    case Received(f, force, recent) =>
      hide ApplyFrame, ApplyRepair, Agrees, Lawful, Intact;
      FrameIntact(eng, s, f, force, recent);
      var (s1, repair) := ApplyFrame(eng, s, f, force, recent);
      if repair.Some? {
        EditIntact(eng, ch, s1, repair.value.backspaces, repair.value.commit, true);
      }
    case _ =>
      hide WordBound, CurrentWord, TextBefore, Drop, Agrees, Lawful;
  }

  /** For an engine that keeps one word in view, the frame that releases a stash needs no condition. */
  predicate AllowedToWords<E(!new)>(eng: Engine<E>, s: State<E>, ev: Event) {
    Undisturbed(s, ev) && ((ev.Received? && Confirms(s, ev.frame)) || Allowed(eng, s, ev))
  }

  lemma {:induction false} WordBoundRunAgrees<E(!new)>(eng: Engine<E>, ch: Channels, s: State<E>, evs: seq<Event>)
    requires Lawful(eng) && WordBound(eng) && Agrees(eng, s) && Intact(eng, s)
    requires Throughout(eng, ch, s, evs, (s, ev) => AllowedToWords(eng, s, ev))
    ensures AgreesAlong(eng, ch, s, evs) && Intact(eng, Run(eng, ch, s, evs))
    decreases |evs|
  {
    hide Step, Allowed, Agrees, Lawful, Intact, WordBound, Undisturbed, Confirms;
    if evs != [] {
      var ev := evs[0];
      IntactStep(eng, ch, s, ev);
      StepAgreesIff(eng, ch, s, ev);
      if ev.Received? && Confirms(s, ev.frame) {
        WordBoundAnswer(eng, s, ev.frame, ev.force, ev.recent);
      }
      WordBoundRunAgrees(eng, ch, Step(eng, ch, s, ev).0, evs[1..]);
    }
  }

  lemma WordBoundAnswer<E(!new)>(eng: Engine<E>, s: State<E>, f: Frame, force: bool, recent: bool)
    requires WordBound(eng) && Intact(eng, s) && Confirms(s, f)
    ensures Allowed(eng, s, Received(f, force, recent))
  {
    hide EmitsStash, StashMatches, Intact, WordBound, Confirms;
    if EmitsStash(s, f) {
      WordBoundMatches(eng, s, f);
    }
  }

  /** What agreement is for: in every reachable state a key's edit deletes only what the shadow
  holds, so both delete channels can perform it. */
  lemma EditsStayWithinShadow<E(!new)>(eng: Engine<E>, ch: Channels, m: BackspaceMethod, evs: seq<Event>, c: char)
    requires Lawful(eng)
    requires Throughout(eng, ch, NewState(eng, m), evs, (s, ev) => Allowed(eng, s, ev))
    ensures var (s1, d) := FeedKey(eng, Run(eng, ch, NewState(eng, m), evs), c);
            d.Apply? ==> d.backspaces <= |s1.shadow.text|
  {
    hide FeedKey, Run, Allowed, Agrees, Lawful, Intact;
    NewStateAgrees(eng, m);
    RunAgreesIff(eng, ch, NewState(eng, m), evs);
    FeedKeyAgrees(eng, Run(eng, ch, NewState(eng, m), evs), c);
  }
}
