/** The Firefox contenteditable quirk: when a client echoes something stale, deletes go through
Backspace keys until a fresh echo arrives. */
module Firefox {
  import opened Texts
  import opened Strategies

  datatype PendingEcho = PendingEcho(expected: string, deleteEcho: string)

  datatype Quirk = Quirk(
    expectedEcho: Option<PendingEcho>,
    deleteUnit: DeleteUnit,
    useForwardDelete: bool,
    forwardSticky: bool)

  const NEW := Quirk(None, Bytes, false, false)

  predicate EndsAtBoundary(before: string) {
    before != "" && var c := before[|before| - 1]; IsWhitespace(c) || c in ".,;:!?)]}"
  }

  function Cleared(q: Quirk): Quirk {
    Quirk(None, Bytes, false, q.forwardSticky)
  }

  function UnitUsed(q: Quirk): Quirk {
    if q.deleteUnit == Chars then q.(deleteUnit := Bytes) else q
  }

  /** What a frame's text before the cursor says about the echo that is awaited. */
  function Observe(q: Quirk, before: string, recent: bool, retroactive: bool): Quirk {
    match q.expectedEcho
    case None => q
    case Some(echo) =>
      if before == echo.expected then Cleared(q)
      else if before == echo.deleteEcho then q
      else if recent then
        var unit := if retroactive && EndsAtBoundary(before) then Bytes else Chars;
        q.(expectedEcho := None, deleteUnit := unit, useForwardDelete := unit == Chars)
      else Cleared(q)
  }

  /** A character count is armed only together with the channel that never sends one. */
  predicate Guarded(q: Quirk) {
    q.deleteUnit == Chars <==> q.useForwardDelete
  }

  lemma ObserveGuarded(q: Quirk, before: string, recent: bool, retroactive: bool)
    requires Guarded(q)
    ensures Guarded(Observe(q, before, recent, retroactive))
    ensures Guarded(Cleared(q))
    ensures !q.useForwardDelete ==> UnitUsed(q) == q
    ensures Observe(q, before, recent, retroactive).useForwardDelete
            ==> q.useForwardDelete
                || (recent && q.expectedEcho.Some? && before != q.expectedEcho.value.expected
                    && before != q.expectedEcho.value.deleteEcho)
  {
  }

  /** Characters that end a word without ending what stands before them: openers, quotes and strokes. */
  const OPENERS := "\0\"'([{/\\|\U{201C}\U{201D}\U{2018}\U{2019}\U{2026}"

  /** A cursor has left its word when no word ends there, and what stands there opens nothing. */
  lemma LeftWordExact(before: string)
    ensures EndsAtBoundary(before)
       <==> before != "" && CurrentWord(before) == "" && before[|before| - 1] !in OPENERS
  {
    if before != "" {
      BoundaryChars(before[|before| - 1]);
      LastCharEndsWord(before);
    }
  }

  lemma BoundaryChars(c: char)
    ensures IsWhitespace(c) || c in ".,;:!?)]}" <==> IsWordBoundary(c) && c !in OPENERS
  {
  }

  lemma LastCharEndsWord(s: string)
    requires s != ""
    ensures CurrentWord(s) == "" <==> IsWordBoundary(s[|s| - 1])
  {
    hide IsWordBoundary;
  }

  /** The echo of the deletion alone keeps the quirk waiting; the final echo clears it, and so does a stale text
  that comes late; a recent stale one arms it, unless a retroactive cursor has left its word. */
  lemma EchoesExactly(q: Quirk, before: string, recent: bool, retroactive: bool)
    ensures var q1 := Observe(q, before, recent, retroactive);
            && q1.forwardSticky == q.forwardSticky
            && (q.expectedEcho.None? ==> q1 == q)
            && (q.expectedEcho.Some? ==>
                  var echo := q.expectedEcho.value;
                  var left := retroactive && before != "" && CurrentWord(before) == "" && before[|before| - 1] !in OPENERS;
                  && (before == echo.deleteEcho && before != echo.expected ==> q1 == q)
                  && (before == echo.expected || (before != echo.deleteEcho && !recent) ==>
                        q1.expectedEcho == None && q1.deleteUnit == Bytes && !q1.useForwardDelete)
                  && (before != echo.expected && before != echo.deleteEcho && recent ==>
                        && q1.expectedEcho == None
                        && (q1.deleteUnit == Bytes <==> left) && (q1.useForwardDelete <==> !left)))
  {
    hide EndsAtBoundary, CurrentWord, OPENERS;
    LeftWordExact(before);
  }

  class FirefoxQuirk {
    var expectedEcho: Option<PendingEcho>
    var deleteUnit: DeleteUnit
    var useForwardDelete: bool
    var forwardSticky: bool

    function Model(): Quirk
      reads this
    {
      Quirk(expectedEcho, deleteUnit, useForwardDelete, forwardSticky)
    }

    constructor ()
      ensures Model() == NEW
    {
      expectedEcho, deleteUnit, useForwardDelete, forwardSticky := None, Bytes, false, false;
    }

    method ResetDeleteUnitAfterUse()
      modifies this
      ensures Model() == UnitUsed(old(Model()))
    {
      if deleteUnit == Chars {
        deleteUnit := Bytes;
      }
    }

    method Clear()
      modifies this
      ensures Model() == Cleared(old(Model()))
    {
      expectedEcho, deleteUnit, useForwardDelete := None, Bytes, false;
    }

    method ObserveSurrounding(before: string, recent: bool, retroactive: bool)
      modifies this
      ensures Model() == Observe(old(Model()), before, recent, retroactive)
    {
      if expectedEcho.None? {
        return;
      }
      var echo := expectedEcho.value;
      if before == echo.expected {
        Clear();
      } else if before != echo.deleteEcho && recent {
        var leftWord := retroactive && EndsAtBoundary(before);
        deleteUnit := if leftWord then Bytes else Chars;
        useForwardDelete := deleteUnit == Chars;
        expectedEcho := None;
      } else if before != echo.deleteEcho {
        expectedEcho, deleteUnit, useForwardDelete := None, Bytes, false;
      }
    }
  }
}
