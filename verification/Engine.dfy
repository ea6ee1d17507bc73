/** The composing engine as the daemon sees it, and the render gate in front of its seed.

`vnkey-engine` is not part of this model: an `Engine` is any deterministic machine given by
its functions.  `view` names the part of the visible text that the machine still owns; it
steers nothing, and `Lawful` says how the other functions must treat it. */
module Engines {
  import opened Texts

  datatype ProcessResult = ProcessResult(backspaces: nat, commit: string, consumed: bool)

  datatype Engine<!E(!new)> = Engine(
    initial: E,
    key: (E, char) -> (E, ProcessResult),
    backspace: E -> (E, ProcessResult),
    atWordBeginning: E -> bool,
    feed: (E, string) -> (E, bool),
    reverse: char -> string,
    view: E -> string)

  /** What a caller does with a key's result: apply the edit, or let the key through. */
  function Shown(screen: string, ch: char, r: ProcessResult): string {
    if r.consumed then Drop(screen, r.backspaces) + r.commit else screen + [ch]
  }

  /** Type `keys` from state `e`; the second result is what a screen that showed `screen` shows. */
  function Typed<E(!new)>(eng: Engine<E>, e: E, screen: string, keys: string): (E, string)
    decreases |keys|
  {
    if keys == [] then (e, screen)
    else
      var (e', r) := eng.key(e, keys[0]);
      Typed(eng, e', Shown(screen, keys[0], r), keys[1..])
  }

  /** `EngineState::render`: what typing `keys` on a scratch engine shows. */
  function Render<E(!new)>(eng: Engine<E>, keys: string): string {
    Typed(eng, eng.initial, "", keys).1
  }

  /** `context_from_surrounding`: the keystrokes that spell a composed text. */
  function ContextFrom(reverse: char -> string, text: string): string {
    if text == [] then [] else reverse(text[0]) + ContextFrom(reverse, text[1..])
  }

  /** `EngineState::feed_context_gated`. */
  function FeedGated<E(!new)>(eng: Engine<E>, e: E, text: string): (E, bool) {
    var context := ContextFrom(eng.reverse, text);
    if Render(eng, context) != text then (e, false) else eng.feed(e, context)
  }

  ghost predicate KeyLaw<E(!new)>(eng: Engine<E>, e: E, ch: char) {
    var (e', r) := eng.key(e, ch);
    if r.consumed then
      r.backspaces <= |eng.view(e)| && eng.view(e') == Drop(eng.view(e), r.backspaces) + r.commit
    else
      eng.view(e') == eng.view(e) + [ch] || eng.view(e') == ""
  }

  ghost predicate BackspaceLaw<E(!new)>(eng: Engine<E>, e: E) {
    var (e', r) := eng.backspace(e);
    if r.consumed then
      r.backspaces <= |eng.view(e)| && eng.view(e') == Drop(eng.view(e), r.backspaces) + r.commit
    else
      eng.view(e') == Drop(eng.view(e), 1) || eng.view(e') == ""
  }

  ghost predicate FeedLaw<E(!new)>(eng: Engine<E>, e: E, keys: string) {
    var (e', ok) := eng.feed(e, keys);
    if ok then e' == Typed(eng, eng.initial, "", keys).0
    else eng.view(e') == eng.view(e) || eng.view(e') == ""
  }

  /** The engine deletes only what it owns, and a fed context is the same as typing it afresh. */
  ghost predicate Lawful<E(!new)>(eng: Engine<E>) {
    && eng.view(eng.initial) == ""
    && (forall e, ch :: KeyLaw(eng, e, ch))
    && (forall e :: BackspaceLaw(eng, e))
    && (forall e, keys :: FeedLaw(eng, e, keys))
  }

  /** One key keeps the engine's view a suffix of the screen that follows its results. */
  lemma KeyKeepsSuffix<E(!new)>(eng: Engine<E>, e: E, screen: string, ch: char)
    requires Lawful(eng)
    requires IsSuffix(eng.view(e), screen)
    ensures IsSuffix(eng.view(eng.key(e, ch).0), Shown(screen, ch, eng.key(e, ch).1))
  {
    assert KeyLaw(eng, e, ch);
    SuffixEdit(eng.view(e), screen, eng.key(e, ch).1.backspaces, eng.key(e, ch).1.commit);
    SuffixEdit(eng.view(e), screen, 0, [ch]);
  }

  lemma {:induction false} TypingKeepsSuffix<E(!new)>(eng: Engine<E>, e: E, screen: string, keys: string)
    requires Lawful(eng)
    requires IsSuffix(eng.view(e), screen)
    ensures var (e', screen') := Typed(eng, e, screen, keys); IsSuffix(eng.view(e'), screen')
    decreases |keys|
  {
    if keys != [] {
      KeyKeepsSuffix(eng, e, screen, keys[0]);
      var (e', r) := eng.key(e, keys[0]);
      TypingKeepsSuffix(eng, e', Shown(screen, keys[0], r), keys[1..]);
    }
  }

  /** What the render gate buys: for any reversal table, however lossy, a seed that is accepted
  leaves an engine whose view is a suffix of the very text it was seeded from, and a seed
  that is refused leaves no more in view than before. */
  lemma GatedSeedIsVisible<E(!new)>(eng: Engine<E>, e: E, text: string)
    requires Lawful(eng)
    ensures var (e', ok) := FeedGated(eng, e, text);
            if ok then IsSuffix(eng.view(e'), text)
            else eng.view(e') == eng.view(e) || eng.view(e') == ""
  {
    var context := ContextFrom(eng.reverse, text);
    TypingKeepsSuffix(eng, eng.initial, "", context);
    assert FeedLaw(eng, e, context);
  }

  lemma {:induction false} TypedLast<E(!new)>(eng: Engine<E>, e: E, screen: string, keys: string, last: char)
    ensures var (e1, screen1) := Typed(eng, e, screen, keys);
            Typed(eng, e, screen, keys + [last])
            == (eng.key(e1, last).0, Shown(screen1, last, eng.key(e1, last).1))
    decreases |keys|
  {
    if keys == [] {
      assert keys + [last] == [last];
      assert Typed(eng, eng.key(e, last).0, Shown(screen, last, eng.key(e, last).1), [])
          == (eng.key(e, last).0, Shown(screen, last, eng.key(e, last).1));
    } else {
      assert (keys + [last])[1..] == keys[1..] + [last];
      var (e', r) := eng.key(e, keys[0]);
      TypedLast(eng, e', Shown(screen, keys[0], r), keys[1..], last);
    }
  }

  lemma {:induction false} ContextLast(reverse: char -> string, text: string, last: char)
    ensures ContextFrom(reverse, text + [last]) == ContextFrom(reverse, text) + reverse(last)
  {
    if text == [] {
      assert text + [last] == [last];
    } else {
      assert (text + [last])[1..] == text[1..] + [last];
      ContextLast(reverse, text[1..], last);
    }
  }

  /** The engine that a composer holds. */
  class EngineState<E(!new)> {
    const eng: Engine<E>
    var state: E

    constructor (eng: Engine<E>)
      ensures this.eng == eng && state == eng.initial
    {
      this.eng := eng;
      state := eng.initial;
    }

    method Reset()
      modifies this
      ensures state == eng.initial
    {
      state := eng.initial;
    }

    method ProcessKey(ch: char) returns (r: ProcessResult)
      modifies this
      ensures (state, r) == eng.key(old(state), ch)
    {
      var (state', r') := eng.key(state, ch);
      state, r := state', r';
    }

    method ProcessBackspace() returns (r: ProcessResult)
      modifies this
      ensures (state, r) == eng.backspace(old(state))
    {
      var (state', r') := eng.backspace(state);
      state, r := state', r';
    }

    /** Types `keys` on a scratch engine; this one is not touched. */
    method RenderOnScratch(keys: string) returns (screen: string)
      ensures screen == Render(eng, keys)
    {
      var scratch := eng.initial;
      screen := "";
      for i := 0 to |keys|
        invariant (scratch, screen) == Typed(eng, eng.initial, "", keys[..i])
      {
        TypedLast(eng, eng.initial, "", keys[..i], keys[i]);
        assert keys[..i + 1] == keys[..i] + [keys[i]];
        var (scratch', r) := eng.key(scratch, keys[i]);
        scratch := scratch';
        if r.consumed {
          var n := 0;
          ghost var shown := screen;
          while n < r.backspaces
            invariant n <= r.backspaces && screen == Drop(shown, n)
          {
            screen := Drop(screen, 1);
            n := n + 1;
          }
          screen := screen + r.commit;
        } else {
          screen := screen + [keys[i]];
        }
      }
      assert keys[..|keys|] == keys;
    }

    method ContextFromSurrounding(text: string) returns (context: string)
      ensures context == ContextFrom(eng.reverse, text)
    {
      context := "";
      for i := 0 to |text|
        invariant context == ContextFrom(eng.reverse, text[..i])
      {
        ContextLast(eng.reverse, text[..i], text[i]);
        assert text[..i + 1] == text[..i] + [text[i]];
        context := context + eng.reverse(text[i]);
      }
      assert text[..|text|] == text;
    }

    method FeedContextGated(text: string) returns (fed: bool)
      modifies this
      ensures (state, fed) == FeedGated(eng, old(state), text)
    {
      var context := ContextFromSurrounding(text);
      var screen := RenderOnScratch(context);
      if screen != text {
        return false;
      }
      var (state', fed') := eng.feed(state, context);
      state, fed := state', fed';
    }
  }
}
