/** Two small lawful engines that turn `u` `w` into a horned u: one forgets the word at a boundary, the
other keeps the whole phrase in view. */
module Samples {
  import opened Texts
  import opened Engines

  const HORNED_U: char := '\U{01B0}'

  function SampleKey(spans: bool, e: string, ch: char): (string, ProcessResult) {
    if !spans && IsWordBoundary(ch) then ("", ProcessResult(0, "", false))
    else if e != "" && e[|e| - 1] == 'u' && ch == 'w' then
      (Drop(e, 1) + [HORNED_U], ProcessResult(1, [HORNED_U], true))
    else (e + [ch], ProcessResult(0, "", false))
  }

  function SampleView(spans: bool, e: string): string {
    if spans then e else CurrentWord(e)
  }

  function SampleBackspace(spans: bool, e: string): string {
    if SampleView(spans, e) == "" then "" else Drop(e, 1)
  }

  function SampleTyped(spans: bool, e: string, keys: string): string
    decreases |keys|
  {
    if keys == "" then e else SampleTyped(spans, SampleKey(spans, e, keys[0]).0, keys[1..])
  }

  function SampleReverse(ch: char): string {
    if ch == HORNED_U then "uw" else [ch]
  }

  function Sampled(spans: bool): Engine<string> {
    Engine(
      "",
      (e: string, ch: char) => SampleKey(spans, e, ch),
      (e: string) => (SampleBackspace(spans, e), ProcessResult(1, "", false)),
      (e: string) => e == "",
      (e: string, keys: string) => (SampleTyped(spans, "", keys), true),
      (ch: char) => SampleReverse(ch),
      (e: string) => SampleView(spans, e))
  }

  const SAMPLE := Sampled(false)

  const PHRASE := Sampled(true)

  lemma {:induction false} SampleTypedIsTyped(spans: bool, e: string, screen: string, keys: string)
    ensures Typed(Sampled(spans), e, screen, keys).0 == SampleTyped(spans, e, keys)
    decreases |keys|
  {
    if keys != "" {
      var (e', r) := Sampled(spans).key(e, keys[0]);
      SampleTypedIsTyped(spans, e', Shown(screen, keys[0], r), keys[1..]);
    }
  }

  lemma WordOn(e: string, ch: char)
    requires !IsWordBoundary(ch)
    ensures CurrentWord(e + [ch]) == CurrentWord(e) + [ch]
  {
    assert (e + [ch])[..|e|] == e;
  }

  lemma WordBack(e: string)
    requires CurrentWord(e) != ""
    ensures CurrentWord(Drop(e, 1)) == Drop(CurrentWord(e), 1)
  {
    WordOn(Drop(e, 1), e[|e| - 1]);
    assert Drop(e, 1) + [e[|e| - 1]] == e;
  }

  lemma {:induction false} NoBoundaryInHead(e: string, k: nat)
    requires k <= |e| && forall i :: 0 <= i < |e| ==> !IsWordBoundary(e[i])
    ensures CurrentWord(e[..k]) == e[..k]
    decreases k
  {
    if k == 0 {
      assert CurrentWord(e[..0]) == e[..0];
    } else {
      hide IsWordBoundary, CurrentWord, WordStart;
      NoBoundaryInHead(e, k - 1);
      WordOn(e[..k - 1], e[k - 1]);
      assert e[..k - 1] + [e[k - 1]] == e[..k];
    }
  }

  lemma NoBoundaryIsWord(e: string)
    requires forall i :: 0 <= i < |e| ==> !IsWordBoundary(e[i])
    ensures CurrentWord(e) == e
  {
    hide IsWordBoundary, CurrentWord;
    NoBoundaryInHead(e, |e|);
    assert e[..|e|] == e;
  }

  lemma SampleKeyLaw(spans: bool, e: string, ch: char)
    ensures KeyLaw(Sampled(spans), e, ch)
  {
    hide IsWordBoundary, WordStart;
    if !spans && !(e != "" && e[|e| - 1] == 'u' && ch == 'w') && !IsWordBoundary(ch) {
      WordOn(e, ch);
    } else if !spans && !IsWordBoundary(ch) {
      LettersAreNoBoundary('u');
      LettersAreNoBoundary(HORNED_U);
      WordOn(Drop(e, 1), 'u');
      WordOn(Drop(e, 1), HORNED_U);
      assert Drop(e, 1) + ['u'] == e;
    }
  }

  lemma LettersAreNoBoundary(c: char)
    requires IsAsciiAlphabetic(c) || c == HORNED_U
    ensures !IsWordBoundary(c)
  {
  }

  lemma SampleBackspaceLaw(spans: bool, e: string)
    ensures BackspaceLaw(Sampled(spans), e)
  {
    hide CurrentWord, WordStart, IsWordBoundary, Drop;
    NoWord();
    if CurrentWord(e) != "" {
      WordBack(e);
    }
  }

  lemma NoWord()
    ensures CurrentWord("") == "" && Drop("", 1) == ""
  {
  }

  lemma SampleFeedLaw(spans: bool, e: string, keys: string)
    ensures FeedLaw(Sampled(spans), e, keys)
  {
    hide Typed, SampleTyped, CurrentWord;
    SampleTypedIsTyped(spans, "", "", keys);
  }

  /** The laws can be met by an engine that composes. */
  lemma SampleIsLawful(spans: bool)
    ensures Lawful(Sampled(spans))
  {
    hide KeyLaw, BackspaceLaw, FeedLaw, CurrentWord, SampleKey, SampleBackspace, SampleTyped, SampleReverse;
    NoWord();
    forall e, ch
      ensures KeyLaw(Sampled(spans), e, ch)
    {
      SampleKeyLaw(spans, e, ch);
    }
    forall e
      ensures BackspaceLaw(Sampled(spans), e)
    {
      SampleBackspaceLaw(spans, e);
    }
    forall e, keys
      ensures FeedLaw(Sampled(spans), e, keys)
    {
      SampleFeedLaw(spans, e, keys);
    }
  }
}
