/** The hooks run around an evdev grab: set each in order, roll back when one refuses, unset all in
reverse at the end. */
module Hooks {
  import opened Texts

  /** A hook, and whether both of its scripts are installed. */
  datatype HookSpec = HookSpec(name: string, present: bool)

  datatype Phase = Set | Unset

  /** A script's exit code, or a failure to run it at all. */
  datatype Exit = Code(code: int) | Failed

  /** A hook runner over the state of the machine. */
  datatype Runner<!W(!new)> = Runner(run: (W, HookSpec, Phase) -> (W, Exit))

  datatype Call = Call(hook: HookSpec, phase: Phase)

  /** The machine, and the scripts run on it so far. */
  datatype Machine<W> = Machine(world: W, log: seq<Call>)

  datatype Outcome = Applied(name: string) | Skipped(name: string)

  datatype HookError = HookError(hook: HookSpec, phase: Phase, exit: Exit)

  datatype SetupResult =
    | Done(applied: seq<HookSpec>, outcomes: seq<Outcome>)
    | Refused(error: HookError)

  function Exec<W(!new)>(r: Runner<W>, m: Machine<W>, h: HookSpec, phase: Phase): (Machine<W>, Exit) {
    var (world, exit) := r.run(m.world, h, phase);
    (Machine(world, m.log + [Call(h, phase)]), exit)
  }

  predicate Bad(e: Exit) {
    e != Code(0) && e != Code(10)
  }

  // ---------- cleanup ----------

  /** Unset from the last hook to the first; the first error met is the one reported. */
  function Cleanup<W(!new)>(r: Runner<W>, m: Machine<W>, hooks: seq<HookSpec>): (Machine<W>, Option<HookError>)
    decreases |hooks|
  {
    if hooks == [] then (m, None)
    else
      var last := hooks[|hooks| - 1];
      var (m1, exit) := Exec(r, m, last, Unset);
      var (m2, later) := Cleanup(r, m1, hooks[..|hooks| - 1]);
      (m2, if Bad(exit) then Some(HookError(last, Unset, exit)) else later)
  }

  method RunCleanupHooks<W(!new)>(r: Runner<W>, start: Machine<W>, hooks: seq<HookSpec>)
    returns (m: Machine<W>, firstError: Option<HookError>)
    ensures (m, firstError) == Cleanup(r, start, hooks)
  {
    m, firstError := start, None;
    assert hooks[..|hooks|] == hooks;
    for i := |hooks| downto 0
      invariant var (end, later) := Cleanup(r, m, hooks[..i]);
                Cleanup(r, start, hooks) == (end, if firstError.Some? then firstError else later)
    {
      assert hooks[..i + 1][..i] == hooks[..i];
      var exit: Exit;
      var next := Exec(r, m, hooks[i], Unset);
      m, exit := next.0, next.1;
      match exit {
        case Code(code) =>
          if code != 0 && code != 10 && firstError.None? {
            firstError := Some(HookError(hooks[i], Unset, exit));
          }
        case Failed =>
          if firstError.None? {
            firstError := Some(HookError(hooks[i], Unset, exit));
          }
      }
    }
  }

  function UnsetCalls(hooks: seq<HookSpec>): seq<Call>
    decreases |hooks|
  {
    if hooks == [] then [] else [Call(hooks[|hooks| - 1], Unset)] + UnsetCalls(hooks[..|hooks| - 1])
  }

  lemma {:induction false} UnsetCallsReverse(hooks: seq<HookSpec>, i: nat)
    requires i < |hooks|
    ensures |UnsetCalls(hooks)| == |hooks| && UnsetCalls(hooks)[i] == Call(hooks[|hooks| - 1 - i], Unset)
    decreases |hooks|
  {
    if |hooks| > 1 {
      UnsetCallsReverse(hooks[..|hooks| - 1], if i == 0 then 0 else i - 1);
    }
  }

  /** The exits of the unset scripts, in the order they are run. */
  function UnsetErrors<W(!new)>(r: Runner<W>, m: Machine<W>, hooks: seq<HookSpec>): seq<HookError>
    decreases |hooks|
  {
    if hooks == [] then []
    else
      var last := hooks[|hooks| - 1];
      var (m1, exit) := Exec(r, m, last, Unset);
      (if Bad(exit) then [HookError(last, Unset, exit)] else []) + UnsetErrors(r, m1, hooks[..|hooks| - 1])
  }

  /** Every hook is visited whatever fails, last first, and the first of the errors is reported. */
  lemma {:induction false} CleanupVisitsAll<W(!new)>(r: Runner<W>, m: Machine<W>, hooks: seq<HookSpec>)
    ensures Cleanup(r, m, hooks).0.log == m.log + UnsetCalls(hooks) && |UnsetCalls(hooks)| == |hooks|
    ensures forall i :: 0 <= i < |hooks| ==> UnsetCalls(hooks)[i] == Call(hooks[|hooks| - 1 - i], Unset)
    ensures var errors := UnsetErrors(r, m, hooks);
            Cleanup(r, m, hooks).1 == if errors == [] then None else Some(errors[0])
    decreases |hooks|
  {
    forall i | 0 <= i < |hooks|
      ensures |UnsetCalls(hooks)| == |hooks| && UnsetCalls(hooks)[i] == Call(hooks[|hooks| - 1 - i], Unset)
    {
      UnsetCallsReverse(hooks, i);
    }
    if hooks == [] {
      assert m.log + [] == m.log;
    } else {
      var last := hooks[|hooks| - 1];
      var m1 := Exec(r, m, last, Unset).0;
      CleanupVisitsAll(r, m1, hooks[..|hooks| - 1]);
      assert m.log + [Call(last, Unset)] + UnsetCalls(hooks[..|hooks| - 1]) == m.log + UnsetCalls(hooks);
    }
  }

  // ---------- setup ----------

  function Setup<W(!new)>(r: Runner<W>, m: Machine<W>, hooks: seq<HookSpec>, check: bool,
                          applied: seq<HookSpec>, outcomes: seq<Outcome>): (Machine<W>, SetupResult)
    decreases |hooks|
  {
    if hooks == [] then (m, Done(applied, outcomes))
    else
      var h := hooks[0];
      if check && !h.present then Setup(r, m, hooks[1..], check, applied, outcomes + [Skipped(h.name)])
      else
        var (m1, exit) := Exec(r, m, h, Set);
        match exit
        case Failed => (m1, Refused(HookError(h, Set, exit)))
        case Code(code) =>
          if code == 0 then Setup(r, m1, hooks[1..], check, applied + [h], outcomes + [Applied(h.name)])
          else if code == 10 then Setup(r, m1, hooks[1..], check, applied, outcomes + [Skipped(h.name)])
          else (Cleanup(r, m1, applied).0, Refused(HookError(h, Set, exit)))
  }

  method RunSetupHooks<W(!new)>(r: Runner<W>, start: Machine<W>, hooks: seq<HookSpec>, check: bool)
    returns (m: Machine<W>, result: SetupResult)
    ensures (m, result) == Setup(r, start, hooks, check, [], [])
  {
    m := start;
    var applied: seq<HookSpec>, outcomes: seq<Outcome> := [], [];
    assert hooks[0..] == hooks;
    for i := 0 to |hooks|
      invariant Setup(r, m, hooks[i..], check, applied, outcomes) == Setup(r, start, hooks, check, [], [])
    {
      var h := hooks[i];
      assert hooks[i..][0] == h && hooks[i..][1..] == hooks[i + 1..];
      if check && !h.present {
        outcomes := outcomes + [Skipped(h.name)];
        continue;
      }
      var next := Exec(r, m, h, Set);
      m := next.0;
      match next.1 {
        case Failed =>
          return m, Refused(HookError(h, Set, Failed));
        case Code(code) =>
          if code == 0 {
            applied := applied + [h];
            outcomes := outcomes + [Applied(h.name)];
          } else if code == 10 {
            outcomes := outcomes + [Skipped(h.name)];
          } else {
            var restored, _ := RunCleanupHooks(r, m, applied);
            return restored, Refused(HookError(h, Set, next.1));
          }
      }
    }
    assert hooks[|hooks|..] == [];
    result := Done(applied, outcomes);
  }

  // ---------- what setup visits ----------

  /** A hook with the exit of its set script, or none if it was passed over. */
  datatype Visit = Visit(hook: HookSpec, exit: Option<Exit>) {
    predicate Stops() {
      exit.Some? && Bad(exit.value)
    }
  }

  /** The hooks in order, up to the first whose set script fails. */
  function Visits<W(!new)>(r: Runner<W>, world: W, hooks: seq<HookSpec>, check: bool): seq<Visit>
    decreases |hooks|
  {
    if hooks == [] then []
    else if check && !hooks[0].present then [Visit(hooks[0], None)] + Visits(r, world, hooks[1..], check)
    else
      var (world1, exit) := r.run(world, hooks[0], Set);
      if Bad(exit) then [Visit(hooks[0], Some(exit))]
      else [Visit(hooks[0], Some(exit))] + Visits(r, world1, hooks[1..], check)
  }

  function AppliedIn(visits: seq<Visit>): seq<HookSpec> {
    if visits == [] then []
    else (if visits[0].exit == Some(Code(0)) then [visits[0].hook] else []) + AppliedIn(visits[1..])
  }

  function OutcomesIn(visits: seq<Visit>): seq<Outcome> {
    if visits == [] then []
    else
      var v := visits[0];
      [if v.exit == Some(Code(0)) then Applied(v.hook.name) else Skipped(v.hook.name)] + OutcomesIn(visits[1..])
  }

  function SetCalls(visits: seq<Visit>): seq<Call> {
    if visits == [] then []
    else (if visits[0].exit.Some? then [Call(visits[0].hook, Set)] else []) + SetCalls(visits[1..])
  }

  /** The result and the scripts run, from the visits alone. */
  predicate Accounts<W(!new)>(m: Machine<W>, end: Machine<W>, result: SetupResult, visits: seq<Visit>,
          hooks: seq<HookSpec>,
                              applied: seq<HookSpec>, outcomes: seq<Outcome>) {
    if visits == [] || !visits[|visits| - 1].Stops() then
      && |visits| == |hooks|
      && result == Done(applied + AppliedIn(visits), outcomes + OutcomesIn(visits))
      && end.log == m.log + SetCalls(visits)
    else
      var last := visits[|visits| - 1];
      && result == Refused(HookError(last.hook, Set, last.exit.value))
      && end.log == m.log + SetCalls(visits) + if last.exit == Some(Failed) then [] else UnsetCalls(applied + AppliedIn(visits))
  }

  function AppliedBy(v: Visit): seq<HookSpec> {
    if v.exit == Some(Code(0)) then [v.hook] else []
  }

  function OutcomeOf(v: Visit): Outcome {
    if v.exit == Some(Code(0)) then Applied(v.hook.name) else Skipped(v.hook.name)
  }

  function CallOf(v: Visit): seq<Call> {
    if v.exit.Some? then [Call(v.hook, Set)] else []
  }

  lemma Prepend(v: Visit, rest: seq<Visit>)
    ensures AppliedIn([v] + rest) == AppliedBy(v) + AppliedIn(rest)
    ensures OutcomesIn([v] + rest) == [OutcomeOf(v)] + OutcomesIn(rest)
    ensures SetCalls([v] + rest) == CallOf(v) + SetCalls(rest)
  {
    assert ([v] + rest)[1..] == rest;
  }

  /** A visit that does not stop setup adds its share in front. */
  lemma AccountsOn<W(!new)>(m: Machine<W>, m1: Machine<W>, end: Machine<W>, result: SetupResult, v: Visit,
          rest: seq<Visit>,
                            hooks: seq<HookSpec>, applied: seq<HookSpec>, outcomes: seq<Outcome>)
    requires hooks != [] && !v.Stops() && m1.log == m.log + CallOf(v)
    requires Accounts(m1, end, result, rest, hooks[1..], applied + AppliedBy(v), outcomes + [OutcomeOf(v)])
    ensures Accounts(m, end, result, [v] + rest, hooks, applied, outcomes)
  {
    hide AppliedIn, OutcomesIn, SetCalls, UnsetCalls, OutcomeOf, AppliedBy, CallOf;
    Prepend(v, rest);
    assert applied + AppliedBy(v) + AppliedIn(rest) == applied + (AppliedBy(v) + AppliedIn(rest));
    assert outcomes + [OutcomeOf(v)] + OutcomesIn(rest) == outcomes + ([OutcomeOf(v)] + OutcomesIn(rest));
    assert m.log + CallOf(v) + SetCalls(rest) == m.log + (CallOf(v) + SetCalls(rest));
    if rest == [] {
      assert AppliedIn(rest) == [] && OutcomesIn(rest) == [] && SetCalls(rest) == [] by {
        NothingIn();
      }
    }
  }

  lemma NothingIn()
    ensures AppliedIn([]) == [] && OutcomesIn([]) == [] && SetCalls([]) == []
  {
  }

  /** Setup is refused exactly when a set script exits with neither 0 nor 10.  Then every hook applied
  before it is unset, once, in reverse, unless the script could not be run at all, in which case none is.
  Otherwise the applied hooks are those whose script exited with 0, in order. */
  lemma {:induction false} SetupExact<W(!new)>(r: Runner<W>, m: Machine<W>, hooks: seq<HookSpec>, check: bool,
                                               applied: seq<HookSpec>, outcomes: seq<Outcome>)
    ensures var (end, result) := Setup(r, m, hooks, check, applied, outcomes);
            Accounts(m, end, result, Visits(r, m.world, hooks, check), hooks, applied, outcomes)
    decreases |hooks|
  {
    var (end, result) := Setup(r, m, hooks, check, applied, outcomes);
    var visits := Visits(r, m.world, hooks, check);
    if hooks == [] {
      assert applied + [] == applied && outcomes + [] == outcomes && m.log + [] == m.log;
    } else if check && !hooks[0].present {
      hide Accounts;
      var v := Visit(hooks[0], None);
      SetupExact(r, m, hooks[1..], check, applied, outcomes + [Skipped(hooks[0].name)]);
      assert applied + AppliedBy(v) == applied && m.log + CallOf(v) == m.log;
      AccountsOn(m, m, end, result, v, visits[1..], hooks, applied, outcomes);
    } else {
      var h := hooks[0];
      var (m1, exit) := Exec(r, m, h, Set);
      var v := Visit(h, Some(exit));
      if Bad(exit) {
        StopAccounts(r, m, m1, v, applied, outcomes, hooks);
      } else {
        hide Accounts;
        SetupExact(r, m1, hooks[1..], check, applied + AppliedBy(v), outcomes + [OutcomeOf(v)]);
        assert exit == Code(10) ==> applied + AppliedBy(v) == applied;
        AccountsOn(m, m1, end, result, v, visits[1..], hooks, applied, outcomes);
      }
    }
  }

  lemma StopAccounts<W(!new)>(r: Runner<W>, m: Machine<W>, m1: Machine<W>, v: Visit, applied: seq<HookSpec>,
                              outcomes: seq<Outcome>, hooks: seq<HookSpec>)
    requires v.Stops() && m1.log == m.log + [Call(v.hook, Set)]
    ensures var end := if v.exit == Some(Failed) then m1 else Cleanup(r, m1, applied).0;
            Accounts(m, end, Refused(HookError(v.hook, Set, v.exit.value)), [v], hooks, applied, outcomes)
  {
    hide Cleanup, UnsetCalls;
    CleanupVisitsAll(r, m1, applied);
    Prepend(v, []);
    NothingIn();
    assert [v] + [] == [v];
    assert applied + [] == applied;
    assert m.log + [Call(v.hook, Set)] + [] == m.log + [Call(v.hook, Set)];
  }

  // ---------- rollback ----------

  /** Unset undoes what set did, and a set script that does not apply changes nothing. */
  ghost predicate Inverts<W(!new)>(r: Runner<W>) {
    forall world: W, h: HookSpec ::
      var (after, exit) := r.run(world, h, Set);
      if exit == Code(0) then r.run(after, h, Unset).0 == world else after == world
  }

  lemma {:induction false} CleanupWorld<W(!new)>(r: Runner<W>, a: Machine<W>, b: Machine<W>, hooks: seq<HookSpec>)
    requires a.world == b.world
    ensures Cleanup(r, a, hooks).0.world == Cleanup(r, b, hooks).0.world
    decreases |hooks|
  {
    if hooks != [] {
      var last := hooks[|hooks| - 1];
      CleanupWorld(r, Exec(r, a, last, Unset).0, Exec(r, b, last, Unset).0, hooks[..|hooks| - 1]);
    }
  }

  lemma UnsetUndoesSet<W(!new)>(r: Runner<W>, m: Machine<W>, h: HookSpec, applied: seq<HookSpec>)
    requires Inverts(r)
    ensures var (m1, exit) := Exec(r, m, h, Set);
            Cleanup(r, m1, if exit == Code(0) then applied + [h] else applied).0.world == Cleanup(r, m, applied).0.world
  {
    var (m1, exit) := Exec(r, m, h, Set);
    assert r.run(m.world, h, Set) == (m1.world, exit);
    if exit == Code(0) {
      assert (applied + [h])[..|applied|] == applied;
      CleanupWorld(r, Exec(r, m1, h, Unset).0, m, applied);
    } else {
      CleanupWorld(r, m1, m, applied);
    }
  }

  /** A refusal by exit code restores the machine; a refusal by the runner leaves it with the hooks
  applied so far, whose cleanup would restore it; so would a cleanup after success. */
  lemma {:induction false} SetupUndone<W(!new)>(r: Runner<W>, m: Machine<W>, hooks: seq<HookSpec>, check: bool,
                                                applied: seq<HookSpec>, outcomes: seq<Outcome>)
    requires Inverts(r)
    ensures var (end, result) := Setup(r, m, hooks, check, applied, outcomes);
            var start := Cleanup(r, m, applied).0.world;
            match result
            case Done(all, _) => Cleanup(r, end, all).0.world == start
            case Refused(error) =>
              if error.exit == Failed then
                Cleanup(r, end, applied + AppliedIn(Visits(r, m.world, hooks, check))).0.world == start
              else end.world == start
    decreases |hooks|
  {
    var visits := Visits(r, m.world, hooks, check);
    hide Cleanup, AppliedIn;
    if hooks == [] {
    } else if check && !hooks[0].present {
      SetupUndone(r, m, hooks[1..], check, applied, outcomes + [Skipped(hooks[0].name)]);
      Prepend(Visit(hooks[0], None), visits[1..]);
      assert AppliedIn(visits) == AppliedIn(visits[1..]);
    } else {
      var h := hooks[0];
      var (m1, exit) := Exec(r, m, h, Set);
      UnsetUndoesSet(r, m, h, applied);
      Prepend(Visit(h, Some(exit)), visits[1..]);
      if exit == Code(0) {
        SetupUndone(r, m1, hooks[1..], check, applied + [h], outcomes + [Applied(h.name)]);
        assert applied + [h] + AppliedIn(visits[1..]) == applied + AppliedIn(visits);
      } else if exit == Code(10) {
        SetupUndone(r, m1, hooks[1..], check, applied, outcomes + [Skipped(h.name)]);
        assert AppliedIn(visits) == AppliedIn(visits[1..]);
      } else {
        assert visits == [Visit(h, Some(exit))] && visits[1..] == [];
        NothingIn();
        assert visits == [Visit(h, Some(exit))] + visits[1..];
        assert applied + AppliedIn(visits) == applied;
      }
    }
  }

  /** What a whole setup leaves: on refusal by exit code the machine it started with; on a runner's failure
  one that the cleanup it skips would restore. */
  lemma RollbackRestores<W(!new)>(r: Runner<W>, m: Machine<W>, hooks: seq<HookSpec>, check: bool)
    requires Inverts(r)
    ensures var (end, result) := Setup(r, m, hooks, check, [], []);
            && (result.Done? ==> Cleanup(r, end, result.applied).0.world == m.world)
            && (result.Refused? && result.error.exit != Failed ==> end.world == m.world)
            && (result.Refused? && result.error.exit == Failed ==>
                  Cleanup(r, end, AppliedIn(Visits(r, m.world, hooks, check))).0.world == m.world)
  {
    SetupUndone(r, m, hooks, check, [], []);
    SetupExact(r, m, hooks, check, [], []);
    var applied := AppliedIn(Visits(r, m.world, hooks, check));
    assert [] + applied == applied;
  }

  /** The world once the set scripts of the hooks have run, in order. */
  function SetAll<W(!new)>(r: Runner<W>, world: W, hooks: seq<HookSpec>): W
    decreases |hooks|
  {
    if hooks == [] then world else SetAll(r, r.run(world, hooks[0], Set).0, hooks[1..])
  }

  lemma SetFirst<W(!new)>(r: Runner<W>, world: W, h: HookSpec, hooks: seq<HookSpec>)
    ensures SetAll(r, world, [h] + hooks) == SetAll(r, r.run(world, h, Set).0, hooks)
  {
    assert ([h] + hooks)[1..] == hooks;
  }

  /** Where nothing is rolled back, the hooks applied are in effect, all of them and nothing else. */
  lemma {:induction false} SetupLeaves<W(!new)>(r: Runner<W>, m: Machine<W>, hooks: seq<HookSpec>, check: bool,
                                                applied: seq<HookSpec>, outcomes: seq<Outcome>)
    requires Inverts(r)
    ensures var (end, result) := Setup(r, m, hooks, check, applied, outcomes);
            result.Done? || result.error.exit == Failed ==>
              end.world == SetAll(r, m.world, AppliedIn(Visits(r, m.world, hooks, check)))
    decreases |hooks|
  {
    hide Cleanup, AppliedIn;
    var visits := Visits(r, m.world, hooks, check);
    NothingIn();
    if hooks == [] {
    } else if check && !hooks[0].present {
      SetupLeaves(r, m, hooks[1..], check, applied, outcomes + [Skipped(hooks[0].name)]);
      Prepend(Visit(hooks[0], None), visits[1..]);
      assert [] + AppliedIn(visits[1..]) == AppliedIn(visits[1..]);
    } else {
      var h := hooks[0];
      var (m1, exit) := Exec(r, m, h, Set);
      assert r.run(m.world, h, Set) == (m1.world, exit);
      Prepend(Visit(h, Some(exit)), visits[1..]);
      if exit == Code(0) {
        SetupLeaves(r, m1, hooks[1..], check, applied + [h], outcomes + [Applied(h.name)]);
        SetFirst(r, m.world, h, AppliedIn(visits[1..]));
      } else if exit == Code(10) {
        SetupLeaves(r, m1, hooks[1..], check, applied, outcomes + [Skipped(h.name)]);
        assert [] + AppliedIn(visits[1..]) == AppliedIn(visits[1..]);
      } else {
        assert visits == [Visit(h, Some(exit))] && visits[1..] == [];
        assert [Visit(h, Some(exit))] == [Visit(h, Some(exit))] + visits[1..];
      }
    }
  }

  /** Every set script that applies takes the machine to a later state: what one does no other takes back. */
  ghost predicate Advances<W(!new)>(r: Runner<W>, before: (W, W) -> bool) {
    && (forall a: W, b: W, c: W :: before(a, b) && before(b, c) ==> before(a, c))
    && (forall a: W :: !before(a, a))
    && (forall world: W, h: HookSpec ::
          var (after, exit) := r.run(world, h, Set); exit == Code(0) ==> before(world, after))
  }

  /** Each of the hooks applies in its turn. */
  predicate AllApply<W(!new)>(r: Runner<W>, world: W, hooks: seq<HookSpec>)
    decreases |hooks|
  {
    hooks == [] ||
    (r.run(world, hooks[0], Set).1 == Code(0) && AllApply(r, r.run(world, hooks[0], Set).0, hooks[1..]))
  }

  lemma {:induction false} AppliedApply<W(!new)>(r: Runner<W>, world: W, hooks: seq<HookSpec>, check: bool)
    requires Inverts(r)
    ensures AllApply(r, world, AppliedIn(Visits(r, world, hooks, check)))
    decreases |hooks|
  {
    hide AppliedIn;
    var visits := Visits(r, world, hooks, check);
    NothingIn();
    if hooks == [] {
    } else if check && !hooks[0].present {
      AppliedApply(r, world, hooks[1..], check);
      Prepend(Visit(hooks[0], None), visits[1..]);
      assert [] + AppliedIn(visits[1..]) == AppliedIn(visits[1..]);
    } else {
      var h := hooks[0];
      var (after, exit) := r.run(world, h, Set);
      if Bad(exit) {
        assert visits == [Visit(h, Some(exit))] && visits[1..] == [];
      } else {
        AppliedApply(r, after, hooks[1..], check);
      }
      Prepend(Visit(h, Some(exit)), visits[1..]);
      assert visits == [Visit(h, Some(exit))] + visits[1..];
      if exit == Code(0) {
        assert ([h] + AppliedIn(visits[1..]))[1..] == AppliedIn(visits[1..]);
      } else {
        assert [] + AppliedIn(visits[1..]) == AppliedIn(visits[1..]);
      }
    }
  }

  lemma {:induction false} AllAdvance<W(!new)>(r: Runner<W>, before: (W, W) -> bool, world: W, hooks: seq<HookSpec>)
    requires Advances(r, before) && AllApply(r, world, hooks)
    ensures SetAll(r, world, hooks) == world || before(world, SetAll(r, world, hooks))
    ensures hooks != [] ==> before(world, SetAll(r, world, hooks))
    decreases |hooks|
  {
    if hooks != [] {
      var after := r.run(world, hooks[0], Set).0;
      assert before(world, after);
      AllAdvance(r, before, after, hooks[1..]);
    }
  }

  /** A runner that fails skips the rollback: the hooks applied before the failure all stay in effect.  The start
  is restored exactly when they happen to cancel out, which they do only if there were none, wherever no set
  script takes back what others did. */
  lemma RunnerErrorSkipsRollback<W(!new)>(r: Runner<W>, before: (W, W) -> bool, m: Machine<W>, hooks: seq<HookSpec>, check: bool)
    requires Inverts(r)
    ensures var (end, result) := Setup(r, m, hooks, check, [], []);
            var applied := AppliedIn(Visits(r, m.world, hooks, check));
            result.Refused? && result.error.exit == Failed ==>
              && end.world == SetAll(r, m.world, applied)
              && (Advances(r, before) ==> (end.world == m.world <==> applied == []))
  {
    SetupLeaves(r, m, hooks, check, [], []);
    AppliedApply(r, m.world, hooks, check);
    hide SetAll, AllApply, AppliedIn;
    var applied := AppliedIn(Visits(r, m.world, hooks, check));
    if Advances(r, before) {
      AllAdvance(r, before, m.world, applied);
    }
    assert applied == [] ==> SetAll(r, m.world, applied) == m.world by {
      NothingSet(r, m.world);
    }
  }

  lemma NothingSet<W(!new)>(r: Runner<W>, world: W)
    ensures SetAll(r, world, []) == world
  {
  }

  /** A machine that is the list of hooks in effect: setting adds one, unsetting drops the last. */
  const STACK: Runner<seq<string>> := Runner(
    (world: seq<string>, h: HookSpec, phase: Phase) =>
      if phase == Set then if h.name == "bad" then (world, Failed) else (world + [h.name], Code(0))
      else if world == [] then (world, Code(1))
      else (world[..|world| - 1], Code(0)))

  const SHORTER := (a: seq<string>, b: seq<string>) => |a| < |b|

  lemma StackAdvances()
    ensures Inverts(STACK) && Advances(STACK, SHORTER)
  {
    forall world: seq<string>, h: HookSpec
      ensures var (after, exit) := STACK.run(world, h, Set);
              if exit == Code(0) then STACK.run(after, h, Unset).0 == world else after == world
    {
      assert (world + [h.name])[..|world|] == world;
    }
  }

  /** Both hooks are there; the second cannot be run, and the first stays. */
  lemma FirstHookStays()
    ensures var hooks := [HookSpec("a", true), HookSpec("bad", true)];
            var (end, result) := Setup(STACK, Machine([], []), hooks, true, [], []);
            && Inverts(STACK) && Advances(STACK, SHORTER)
            && result.Refused? && result.error.exit == Failed && end.world == ["a"]
  {
    StackAdvances();
    var hooks := [HookSpec("a", true), HookSpec("bad", true)];
    assert hooks[1..] == [HookSpec("bad", true)];
    var none: seq<string> := [];
    assert none + ["a"] == ["a"];
    assert STACK.run(none, hooks[0], Set) == (["a"], Code(0));
  }
}
