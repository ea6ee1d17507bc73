/** Runs of the echo filter: emissions, the echoes the compositor returns in order, and the user. */
module EchoRuns {
  import opened Keymap
  import opened Echo

  /** An event that is not the echo expected is passed on, and may come `back`; one that comes `late` meets a
  queue whose time is over. */
  datatype Event =
    | Emit(spec: EmitSpec)
    | Guard
    | EchoArrives(late: bool, back: bool)
    | User(mods: Snapshot, late: bool, back: bool)

  /** The filter, and the echoes still on their way. */
  datatype Loop = Loop(filter: Filter, inFlight: seq<Snapshot>)

  /** The modifiers that a forwarded Backspace sends around itself. */
  function GuardEchoes(raw: Snapshot): seq<Snapshot> {
    if NeedsGuard(raw) then [Snapshot(0, 0, 0, raw.group), raw] else []
  }

  predicate PassesOn(f: Filter, incoming: Snapshot, late: bool) {
    var expected := Expire(f, late).expected;
    expected == [] || expected[0] != incoming
  }

  /** What comes back of an event that is passed on. */
  function Returned(f: Filter, incoming: Snapshot, late: bool, back: bool): seq<Snapshot> {
    if back && PassesOn(f, incoming, late) then [incoming] else []
  }

  function Arrive(l: Loop, incoming: Snapshot, late: bool, back: bool): Loop {
    Loop(Handle(l.filter, incoming, late), l.inFlight + Returned(l.filter, incoming, late, back))
  }

  /** The compositor returns, in order, the modifiers of characters and Backspaces, and of what is passed on
  those that come back. */
  function Step(l: Loop, ev: Event): Loop {
    match ev
    case Emit(spec) => Loop(Emitted(l.filter, spec), l.inFlight + CharEchoes(l.filter.raw, spec))
    case Guard => l.(inFlight := l.inFlight + GuardEchoes(l.filter.raw))
    case EchoArrives(late, back) =>
      if l.inFlight == [] then l else Arrive(l.(inFlight := l.inFlight[1..]), l.inFlight[0], late, back)
    case User(mods, late, back) => Arrive(l, mods, late, back)
  }

  function Run(l: Loop, evs: seq<Event>): Loop
    decreases |evs|
  {
    if evs == [] then l else Run(Step(l, evs[0]), evs[1..])
  }

  function OfUser(ev: Event): seq<Snapshot> {
    if ev.User? then [ev.mods] else []
  }

  function AllOfUser(evs: seq<Event>): seq<Snapshot>
    decreases |evs|
  {
    if evs == [] then [] else OfUser(evs[0]) + AllOfUser(evs[1..])
  }

  /** The echoes that a late event makes the filter forget. */
  function Lost(f: Filter, late: bool): seq<Snapshot> {
    if f.pending > 0 && f.stamped && late then f.expected else []
  }

  /** What is on its way after an event, or stays so, without the filter expecting it: the modifiers around a
  Backspace, what comes back of an event passed on, and the echoes forgotten. */
  function Unannounced(l: Loop, ev: Event): seq<Snapshot> {
    match ev
    case Emit(_) => []
    case Guard => GuardEchoes(l.filter.raw)
    case EchoArrives(late, back) =>
      if l.inFlight == [] then [] else Lost(l.filter, late) + Returned(l.filter, l.inFlight[0], late, back)
    case User(mods, late, back) => Lost(l.filter, late) + Returned(l.filter, mods, late, back)
  }

  function AllUnannounced(l: Loop, evs: seq<Event>): seq<Snapshot>
    decreases |evs|
  {
    if evs == [] then [] else Unannounced(l, evs[0]) + AllUnannounced(Step(l, evs[0]), evs[1..])
  }

  // ---------- the count ----------

  predicate Counted(f: Filter) {
    f.pending == |f.expected| && (f.stamped <==> f.expected != [])
  }

  /** Whatever happens, expiry included, the count is the length of the queue. */
  lemma PendingIsLength(f: Filter, spec: EmitSpec, incoming: Snapshot, expired: bool)
    requires Counted(f)
    ensures Counted(Emitted(f, spec)) && Counted(Handle(f, incoming, expired))
  {
    hide PlanModDance;
  }

  // ---------- exact separation ----------

  /** Each event hands the adapter what the user did, and nothing else. */
  predicate Separates(l: Loop, evs: seq<Event>)
    decreases |evs|
  {
    evs == [] ||
    (Step(l, evs[0]).filter.adopted == l.filter.adopted + OfUser(evs[0]) && Separates(Step(l, evs[0]), evs[1..]))
  }

  /** Some event of the user arrives with the very modifiers of the echo expected next. */
  predicate Clashes(l: Loop, evs: seq<Event>)
    decreases |evs|
  {
    evs != [] && (ClashesNow(l, evs[0]) || Clashes(Step(l, evs[0]), evs[1..]))
  }

  predicate ClashesNow(l: Loop, ev: Event) {
    ev.User? && !PassesOn(l.filter, ev.mods, ev.late)
  }

  lemma EmittedExpects(f: Filter, spec: EmitSpec)
    ensures var f' := Emitted(f, spec);
            f'.expected == f.expected + CharEchoes(f.raw, spec) && f'.adopted == f.adopted && f'.raw == f.raw
  {
    hide CharEchoes;
  }

  lemma InStep(l: Loop, ev: Event)
    requires l.filter.expected == l.inFlight
    ensures var l' := Step(l, ev);
            && (ClashesNow(l, ev) ==> l'.filter.adopted != l.filter.adopted + OfUser(ev))
            && (!ClashesNow(l, ev) && Unannounced(l, ev) == [] ==>
                  l'.filter.adopted == l.filter.adopted + OfUser(ev) && l'.filter.expected == l'.inFlight)
  {
    hide CharEchoes, Emitted, NeedsGuard;
    match ev
    case Emit(spec) => EmittedExpects(l.filter, spec);
    case Guard =>
    case EchoArrives(_, _) =>
    case User(mods, _, _) =>
  }

  /** The events handed on are the user's, if each one is. */
  lemma {:induction false} SeparatedRun(l: Loop, evs: seq<Event>)
    requires Separates(l, evs)
    ensures Run(l, evs).filter.adopted == l.filter.adopted + AllOfUser(evs)
    decreases |evs|
  {
    hide Step, OfUser;
    if evs == [] {
      assert l.filter.adopted + [] == l.filter.adopted;
    } else {
      SeparatedRun(Step(l, evs[0]), evs[1..]);
      assert l.filter.adopted + OfUser(evs[0]) + AllOfUser(evs[1..]) == l.filter.adopted + AllOfUser(evs);
    }
  }

  /** Where every echo is announced, the filter separates a run exactly when no event of the user clashes. */
  lemma {:induction false} SeparatesInStep(l: Loop, evs: seq<Event>)
    requires l.filter.expected == l.inFlight && AllUnannounced(l, evs) == []
    ensures Separates(l, evs) <==> !Clashes(l, evs)
    ensures !Clashes(l, evs) ==> Run(l, evs).filter.expected == Run(l, evs).inFlight
    decreases |evs|
  {
    hide Step, OfUser, ClashesNow, Unannounced;
    if evs != [] {
      InStep(l, evs[0]);
      if !ClashesNow(l, evs[0]) {
        SeparatesInStep(Step(l, evs[0]), evs[1..]);
      }
    }
  }

  // ---------- clashes, and echoes unannounced ----------

  /** The queue can be met, in order, among the echoes on their way. */
  predicate Behind(expected: seq<Snapshot>, inFlight: seq<Snapshot>)
    decreases |inFlight|
  {
    expected == [] ||
    (inFlight != [] && Behind(if expected[0] == inFlight[0] then expected[1..] else expected, inFlight[1..]))
  }

  lemma {:induction false} BehindLess(expected: seq<Snapshot>, inFlight: seq<Snapshot>)
    requires expected != [] && Behind(expected, inFlight)
    ensures Behind(expected[1..], inFlight)
    decreases |inFlight|
  {
    var rest := if expected[0] == inFlight[0] then expected[1..] else expected;
    if rest != [] {
      BehindLess(rest, inFlight[1..]);
    }
    if expected[1..] != [] && expected[0] != inFlight[0] {
      assert Behind(expected[1..], inFlight[1..]);
      if expected[1] == inFlight[0] {
        BehindLess(expected[1..], inFlight[1..]);
      }
    }
  }

  /** More echoes under way, announced or not. */
  lemma {:induction false} BehindMore(expected: seq<Snapshot>, inFlight: seq<Snapshot>, more: seq<Snapshot>)
    requires Behind(expected, inFlight)
    ensures Behind(expected, inFlight + more) && Behind(expected + more, inFlight + more)
    decreases |inFlight|
  {
    if inFlight == [] {
      assert [] + more == more;
      BehindSelf(more);
    } else {
      assert (inFlight + more)[1..] == inFlight[1..] + more;
      if expected == [] {
        BehindMore([], inFlight[1..], more);
        assert [] + more == more;
        if more != [] && more[0] == inFlight[0] {
          BehindLess(more, inFlight[1..] + more);
        }
      } else {
        var rest := if expected[0] == inFlight[0] then expected[1..] else expected;
        BehindMore(rest, inFlight[1..], more);
        assert (expected + more)[1..] == expected[1..] + more;
      }
    }
  }

  lemma {:induction false} BehindSelf(s: seq<Snapshot>)
    ensures Behind(s, s)
    decreases |s|
  {
    if s != [] {
      BehindSelf(s[1..]);
    }
  }

  lemma ArriveKeepsBehind(l: Loop, incoming: Snapshot, late: bool, back: bool)
    requires Behind(l.filter.expected, l.inFlight) || Behind(l.filter.expected, [incoming] + l.inFlight)
    ensures var l' := Arrive(l, incoming, late, back); Behind(l'.filter.expected, l'.inFlight)
  {
    hide Returned;
    var expected, more := l.filter.expected, Returned(l.filter, incoming, late, back);
    assert ([incoming] + l.inFlight)[1..] == l.inFlight;
    if expected != [] && Behind(expected, l.inFlight) {
      BehindLess(expected, l.inFlight);
    }
    BehindMore(Handle(l.filter, incoming, late).expected, l.inFlight, more);
  }

  lemma StepKeepsBehind(l: Loop, ev: Event)
    requires Behind(l.filter.expected, l.inFlight)
    ensures var l' := Step(l, ev); Behind(l'.filter.expected, l'.inFlight)
  {
    hide CharEchoes, GuardEchoes, Emitted, Arrive, Behind;
    match ev
    case Emit(spec) =>
      EmittedExpects(l.filter, spec);
      BehindMore(l.filter.expected, l.inFlight, CharEchoes(l.filter.raw, spec));
    case Guard => BehindMore(l.filter.expected, l.inFlight, GuardEchoes(l.filter.raw));
    case EchoArrives(late, back) =>
      if l.inFlight != [] {
        assert [l.inFlight[0]] + l.inFlight[1..] == l.inFlight;
        ArriveKeepsBehind(l.(inFlight := l.inFlight[1..]), l.inFlight[0], late, back);
      }
    case User(mods, late, back) => ArriveKeepsBehind(l, mods, late, back);
  }

  /** What an event brings in that the filter is not told to expect. */
  function Foreign(l: Loop, ev: Event): multiset<Snapshot> {
    multiset(OfUser(ev)) + multiset(Unannounced(l, ev))
  }

  lemma HandleConserves(f: Filter, incoming: Snapshot, late: bool)
    ensures var f' := Handle(f, incoming, late);
            multiset(f'.adopted) + multiset(f.expected)
            == multiset(f.adopted) + multiset{incoming} + multiset(f'.expected) + multiset(Lost(f, late))
  {
    var f0 := Expire(f, late);
    if f0.expected != [] {
      assert f0.expected == [f0.expected[0]] + f0.expected[1..];
    }
  }

  /** Nothing is lost or made up: what was adopted and is on its way is what the user did, what came
  unannounced, and what is expected. */
  predicate Balanced(l: Loop, users: multiset<Snapshot>) {
    multiset(l.filter.adopted) + multiset(l.inFlight) == users + multiset(l.filter.expected)
  }

  /** An event comes in, from the user or from what was on its way. */
  lemma ArriveConserves(l: Loop, rest: seq<Snapshot>, incoming: Snapshot, late: bool, back: bool,
                        users: multiset<Snapshot>, user: multiset<Snapshot>)
    requires Balanced(l, users) && multiset(l.inFlight) + user == multiset(rest) + multiset{incoming}
    ensures Balanced(Arrive(l.(inFlight := rest), incoming, late, back),
                     users + (user + multiset(Lost(l.filter, late) + Returned(l.filter, incoming, late, back))))
  {
    hide Handle, Lost, Returned;
    HandleConserves(l.filter, incoming, late);
    var f, f' := l.filter, Handle(l.filter, incoming, late);
    Balance(multiset(f.adopted), multiset(f'.adopted), multiset(l.inFlight), multiset(rest), users, user, multiset{incoming},
            multiset(f.expected), multiset(f'.expected), multiset(Lost(f, late)),
            multiset(Returned(f, incoming, late, back)));
  }

  lemma StepConserves(l: Loop, ev: Event, users: multiset<Snapshot>)
    requires Balanced(l, users)
    ensures Balanced(Step(l, ev), users + Foreign(l, ev))
  {
    hide CharEchoes, GuardEchoes, Handle, Emitted, Lost, Returned, Arrive;
    var a, x, y := multiset(l.filter.adopted), multiset(l.filter.expected), multiset(l.inFlight);
    match ev
    case Emit(spec) =>
      EmittedExpects(l.filter, spec);
      Extend(a, y, users, x, multiset(CharEchoes(l.filter.raw, spec)));
      assert users + Foreign(l, ev) == users;
    case Guard =>
      Balance(a, a, y, y, users, multiset{}, multiset{}, x, x, multiset{}, multiset(GuardEchoes(l.filter.raw)));
      assert Foreign(l, ev) == multiset{} + (multiset{} + multiset(GuardEchoes(l.filter.raw)));
    case EchoArrives(late, back) =>
      if l.inFlight == [] {
        assert users + Foreign(l, ev) == users;
      } else {
        assert l.inFlight == [l.inFlight[0]] + l.inFlight[1..];
        ArriveConserves(l, l.inFlight[1..], l.inFlight[0], late, back, users, multiset{});
      }
    case User(mods, late, back) => ArriveConserves(l, l.inFlight, mods, late, back, users, multiset{mods});
  }

  lemma Extend<T>(a: multiset<T>, y: multiset<T>, users: multiset<T>, x: multiset<T>, more: multiset<T>)
    requires a + y == users + x
    ensures a + (y + more) == users + (x + more)
  {
    forall t
      ensures (a + (y + more))[t] == (users + (x + more))[t]
    {
      assert (a + y)[t] == (users + x)[t];
    }
  }

  lemma Balance<T>(a: multiset<T>, a': multiset<T>, y: multiset<T>, rest: multiset<T>, users: multiset<T>,
                   user: multiset<T>, incoming: multiset<T>, x: multiset<T>, x': multiset<T>, lost: multiset<T>,
                   back: multiset<T>)
    requires a + y == users + x
    requires a' + x == a + incoming + x' + lost
    requires y + user == rest + incoming
    ensures a' + (rest + back) == users + (user + (lost + back)) + x'
  {
    forall t
      ensures (a' + (rest + back))[t] == (users + (user + (lost + back)) + x')[t]
    {
      assert (a + y)[t] == (users + x)[t];
      assert (a' + x)[t] == (a + incoming + x' + lost)[t];
      assert (y + user)[t] == (rest + incoming)[t];
    }
  }

  lemma StepKeepsCount(l: Loop, ev: Event)
    requires Counted(l.filter)
    ensures Counted(Step(l, ev).filter)
  {
    hide Emitted, Handle, Returned, GuardEchoes, CharEchoes;
    match ev
    case Emit(spec) => PendingIsLength(l.filter, spec, l.filter.raw, false);
    case Guard =>
    case EchoArrives(late, _) =>
      if l.inFlight != [] {
        PendingIsLength(l.filter, EmitSpec(0, 0), l.inFlight[0], late);
      }
    case User(mods, late, _) => PendingIsLength(l.filter, EmitSpec(0, 0), mods, late);
  }

  lemma {:induction false} RunConserves(l: Loop, evs: seq<Event>, users: multiset<Snapshot>)
    requires Behind(l.filter.expected, l.inFlight) && Balanced(l, users)
    ensures var l' := Run(l, evs);
            && Behind(l'.filter.expected, l'.inFlight) && (Counted(l.filter) ==> Counted(l'.filter))
            && Balanced(l', users + (multiset(AllOfUser(evs)) + multiset(AllUnannounced(l, evs))))
    decreases |evs|
  {
    hide Step, Behind, Unannounced, OfUser, Balanced, Counted;
    if evs == [] {
      assert users + (multiset{} + multiset{}) == users;
    } else {
      StepKeepsBehind(l, evs[0]);
      StepConserves(l, evs[0], users);
      if Counted(l.filter) {
        StepKeepsCount(l, evs[0]);
      }
      var l1, rest := Step(l, evs[0]), evs[1..];
      RunConserves(l1, rest, users + Foreign(l, evs[0]));
      assert users + Foreign(l, evs[0]) + (multiset(AllOfUser(rest)) + multiset(AllUnannounced(l1, rest)))
          == users + (multiset(OfUser(evs[0]) + AllOfUser(rest)) + multiset(Unannounced(l, evs[0]) + AllUnannounced(l1, rest)));
    }
  }

  /** Clashes or not: once every echo is in, the queue is empty, and what reached the adapter is, in some
  order, what the user did and what came unannounced. */
  lemma AllEchoesIn(l: Loop, evs: seq<Event>)
    requires l.filter.expected == l.inFlight && Run(l, evs).inFlight == []
    ensures var f := Run(l, evs).filter;
            && f.expected == [] && (Counted(l.filter) ==> f.pending == 0)
            && multiset(f.adopted)
               == multiset(l.filter.adopted) + (multiset(AllOfUser(evs)) + multiset(AllUnannounced(l, evs)))
  {
    hide Run, AllOfUser, AllUnannounced;
    BehindSelf(l.filter.expected);
    RunConserves(l, evs, multiset(l.filter.adopted));
    var f := Run(l, evs).filter;
    assert f.expected == [];
    assert multiset(f.adopted) + multiset{} == multiset(f.adopted);
  }

  /** The filter separates a run that takes in all its echoes, event by event, exactly when no event of the user
  clashes and nothing comes unannounced; any other run in which nothing does, exactly when none clashes. */
  lemma SeparatesIff(l: Loop, evs: seq<Event>)
    requires l.filter.expected == l.inFlight
    ensures Run(l, evs).inFlight == [] ==> (Separates(l, evs) <==> !Clashes(l, evs) && AllUnannounced(l, evs) == [])
    ensures AllUnannounced(l, evs) == [] ==> (Separates(l, evs) <==> !Clashes(l, evs))
    ensures Separates(l, evs) ==> Run(l, evs).filter.adopted == l.filter.adopted + AllOfUser(evs)
  {
    hide Run, AllOfUser, Clashes, Separates, AllUnannounced;
    if Separates(l, evs) {
      SeparatedRun(l, evs);
      if Run(l, evs).inFlight == [] {
        AllEchoesIn(l, evs);
        SameSize(l.filter.adopted, AllOfUser(evs), AllUnannounced(l, evs));
      }
    }
    if AllUnannounced(l, evs) == [] {
      SeparatesInStep(l, evs);
    }
  }

  lemma SameSize<T>(a: seq<T>, b: seq<T>, c: seq<T>)
    requires multiset(a + b) == multiset(a) + (multiset(b) + multiset(c))
    ensures c == []
  {
    assert |multiset(a + b)| == |a| + |b|;
    assert |multiset(a) + (multiset(b) + multiset(c))| == |a| + |b| + |c|;
  }

  /** The modifiers that the filter goes by are the last ones adopted. */
  predicate Remembers(f: Filter, first: Snapshot) {
    f.raw == if f.adopted == [] then first else f.adopted[|f.adopted| - 1]
  }

  lemma {:induction false} RunRemembers(l: Loop, evs: seq<Event>, first: Snapshot)
    requires Remembers(l.filter, first)
    ensures Remembers(Run(l, evs).filter, first)
    decreases |evs|
  {
    hide Run, Step, Remembers;
    if evs == [] {
      RunNothing(l);
    } else {
      StepRemembers(l, evs[0], first);
      RunRemembers(Step(l, evs[0]), evs[1..], first);
      RunFirst(l, evs);
    }
  }

  lemma RunNothing(l: Loop)
    ensures Run(l, []) == l
  {
  }

  lemma RunFirst(l: Loop, evs: seq<Event>)
    requires evs != []
    ensures Run(l, evs) == Run(Step(l, evs[0]), evs[1..])
  {
    hide Step;
  }

  lemma StepRemembers(l: Loop, ev: Event, first: Snapshot)
    requires Remembers(l.filter, first)
    ensures Remembers(Step(l, ev).filter, first)
  {
    hide CharEchoes, GuardEchoes, Returned;
  }

  const PLAIN := Snapshot(0, 0, 0, 0)

  const SHIFTED := Snapshot(MOD_SHIFT, 0, 0, 0)

  const CHORD := Snapshot(MOD_SHIFT | 0x04, 0, 0, 0)

  /** The order can change: here the user presses Shift and then Ctrl while a capital is emitted, and
  the adapter is left without the Ctrl. */
  lemma ClashLeavesStaleModifiers()
    ensures var evs := [Emit(EmitSpec(30, MOD_SHIFT)), User(SHIFTED, false, false), User(CHORD, false, false),
                        EchoArrives(false, false), EchoArrives(false, false)];
            var l := Run(Loop(Filter([], 0, false, PLAIN, []), []), evs);
            && AllOfUser(evs) == [SHIFTED, CHORD] && l.inFlight == []
            && l.filter.adopted == [CHORD, SHIFTED] && l.filter.raw == SHIFTED != CHORD
  {
    var evs := [Emit(EmitSpec(30, MOD_SHIFT)), User(SHIFTED, false, false), User(CHORD, false, false),
                EchoArrives(false, false), EchoArrives(false, false)];
    var l0 := Loop(Filter([], 0, false, PLAIN, []), []);
    assert CharEchoes(PLAIN, EmitSpec(30, MOD_SHIFT)) == [SHIFTED, PLAIN];
    var l1 := Loop(Filter([SHIFTED, PLAIN], 2, true, PLAIN, []), [SHIFTED, PLAIN]);
    var l2 := Loop(Filter([PLAIN], 1, true, PLAIN, []), [SHIFTED, PLAIN]);
    var l3 := Loop(Filter([PLAIN], 1, true, CHORD, [CHORD]), [SHIFTED, PLAIN]);
    var l4 := Loop(Filter([PLAIN], 1, true, SHIFTED, [CHORD, SHIFTED]), [PLAIN]);
    var l5 := Loop(Filter([], 0, false, SHIFTED, [CHORD, SHIFTED]), []);
    assert Step(l0, evs[0]) == l1;
    assert Step(l1, evs[1]) == l2;
    assert Step(l2, evs[2]) == l3;
    assert Step(l3, evs[3]) == l4;
    assert Step(l4, evs[4]) == l5;
    hide Step;
    RunFive(l0, evs);
    assert Run(l0, evs) == l5;
    assert AllOfUser(evs) == [SHIFTED, CHORD];
    assert SHIFTED != CHORD;
  }

  lemma RunFive(l: Loop, evs: seq<Event>)
    requires |evs| == 5
    ensures Run(l, evs) == Step(Step(Step(Step(Step(l, evs[0]), evs[1]), evs[2]), evs[3]), evs[4])
    ensures AllOfUser(evs) == OfUser(evs[0]) + OfUser(evs[1]) + OfUser(evs[2]) + OfUser(evs[3]) + OfUser(evs[4])
  {
    hide Step, OfUser;
    assert evs[1..][1..] == evs[2..] && evs[2..][1..] == evs[3..] && evs[3..][1..] == evs[4..] && evs[4..][1..] == [];
    var l1 := Step(l, evs[0]);
    var l2 := Step(l1, evs[1]);
    var l3 := Step(l2, evs[2]);
    var l4 := Step(l3, evs[3]);
    assert Run(l4, evs[4..]) == Step(l4, evs[4]);
    assert Run(l3, evs[3..]) == Run(l4, evs[4..]);
    assert Run(l2, evs[2..]) == Run(l3, evs[3..]);
    assert Run(l1, evs[1..]) == Run(l2, evs[2..]);
    assert AllOfUser(evs[4..]) == OfUser(evs[4]) + [];
    assert AllOfUser(evs[3..]) == OfUser(evs[3]) + AllOfUser(evs[4..]);
    assert AllOfUser(evs[2..]) == OfUser(evs[2]) + AllOfUser(evs[3..]);
    assert AllOfUser(evs[1..]) == OfUser(evs[1]) + AllOfUser(evs[2..]);
  }

  /** What a forwarded Backspace sends around itself is what comes back. */
  lemma GuardEchoesAreTheMods(raw: Snapshot)
    ensures ModsOf(BackspaceWire(raw)) == GuardEchoes(raw)
  {
    var none := Snapshot(0, 0, 0, raw.group);
    BackspaceWireShape(raw);
    hide BackspaceWire, NeedsGuard;
    KeysHaveNoMods(PressRelease(KEY_BACKSPACE));
    if NeedsGuard(raw) {
      ModsOfConcat([Mods(none)], PressRelease(KEY_BACKSPACE));
      ModsOfConcat([Mods(none)] + PressRelease(KEY_BACKSPACE), [Mods(raw)]);
      ModsOfOne(none);
      ModsOfOne(raw);
    }
  }

  /** Echoes of a guarded Backspace are not expected: the filter adopts both. */
  lemma GuardEchoesAreAdopted(f: Filter)
    requires f.expected == [] && Counted(f) && NeedsGuard(f.raw)
    ensures var echoes := ModsOf(BackspaceWire(f.raw));
            && |echoes| == 2
            && Handle(Handle(f, echoes[0], false), echoes[1], false) == f.(adopted := f.adopted + echoes)
            && Handle(f, echoes[0], false).raw != f.raw
  {
    var none := Snapshot(0, 0, 0, f.raw.group);
    assert none != f.raw;
    hide BackspaceWire;
    GuardEchoesAreTheMods(f.raw);
    assert f.adopted + [none] + [f.raw] == f.adopted + [none, f.raw];
  }
}
