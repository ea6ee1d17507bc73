/** Runs of the composer: one step per key, frame or reset, with what each step sends out. */
module Runs {
  import opened Engines
  import opened Strategies
  import opened Composers

  datatype Event =
    | Key(ch: char)
    | ShiftedKey(ch: char)
    | Backspace
    | Received(frame: Frame, force: bool, recent: bool)
    | Checked(frame: Frame)
    | NoSurrounding
    | Navigated
    | FullyReset
    | Paused
    | TierSet(tier: BackspaceMethod)
    | ConfirmationSet(on: bool)

  datatype Output = Nothing | KeyPassed(ch: char) | BackspacePassed | Edit(ops: seq<SinkOp>)

  function Sending<E(!new)>(p: (State<E>, seq<SinkOp>)): (State<E>, Output) {
    (p.0, Edit(p.1))
  }

  /** One event, with the edit that answers it.  A level-shifted key that the composer would let
  through is committed as text instead (transport/wayland.rs). */
  function Step<E(!new)>(eng: Engine<E>, ch: Channels, s: State<E>, ev: Event): (State<E>, Output) {
    match ev
    case Key(c) =>
      var (s1, d) := FeedKey(eng, s, c);
      if d.ForwardRaw? then (s1, KeyPassed(c))
      else Sending(ApplyEdit(eng, ch, s1, d.backspaces, d.commit, false))
    case ShiftedKey(c) =>
      var (s1, d) := FeedKey(eng, s, c);
      if d.ForwardRaw? then Sending(ApplyEdit(eng, ch, UnrecordForwardedChar(eng, s1), 0, [c], false))
      else Sending(ApplyEdit(eng, ch, s1, d.backspaces, d.commit, false))
    case Backspace =>
      var (s1, d) := FeedBackspace(eng, s);
      if d.ForwardRaw? then (s1, BackspacePassed)
      else Sending(ApplyEdit(eng, ch, s1, d.backspaces, d.commit, false))
    case Received(f, force, recent) =>
      var (s1, repair) := ApplyFrame(eng, s, f, force, recent);
      if repair.None? then (s1, Nothing) else Sending(ApplyRepair(eng, ch, s1, repair.value))
    case Checked(f) => (Revalidate(s, f.Before()), Nothing)
    case NoSurrounding => (s.(prev := NO_FRAME), Nothing)
    case Navigated => (ResetComposition(eng, s), Nothing)
    case FullyReset => (FullReset(eng, s), Nothing)
    case Paused => (IdleReset(eng, s), Nothing)
    case TierSet(tier) => (SetMethod(s, tier), Nothing)
    case ConfirmationSet(on) => (s.(confirmEdits := on), Nothing)
  }

  function Run<E(!new)>(eng: Engine<E>, ch: Channels, s: State<E>, evs: seq<Event>): State<E>
    decreases |evs|
  {
    if evs == [] then s else Run(eng, ch, Step(eng, ch, s, evs[0]).0, evs[1..])
  }

  lemma RunOn<E(!new)>(eng: Engine<E>, ch: Channels, s: State<E>, ev: Event, evs: seq<Event>)
    ensures Run(eng, ch, s, [ev] + evs) == Run(eng, ch, Step(eng, ch, s, ev).0, evs)
  {
    hide Step;
    assert ([ev] + evs)[1..] == evs;
  }

  /** One event for each key. */
  function Keys(keys: string): seq<Event> {
    seq(|keys|, i requires 0 <= i < |keys| => Key(keys[i]))
  }

  /** A property of states and events that holds at every step of a run. */
  ghost predicate Throughout<E(!new)>(eng: Engine<E>, ch: Channels, s: State<E>, evs: seq<Event>, ok: (State<E>,
          Event) -> bool)
    decreases |evs|
  {
    evs != [] ==> ok(s, evs[0]) && Throughout(eng, ch, Step(eng, ch, s, evs[0]).0, evs[1..], ok)
  }
}
