/** Replacing one top-level value in a configuration file, in place. */
module Toml {
  import opened Utf8
  import opened Texts

  function FindChar(text: string, c: char, from: nat): (r: Option<nat>)
    requires from <= |text|
    ensures r.Some? ==> from <= r.value < |text| && text[r.value] == c && forall k :: from <= k < r.value ==> text[k] != c
    ensures r.None? ==> forall k :: from <= k < |text| ==> text[k] != c
    decreases |text| - from
  {
    if from == |text| then None
    else if text[from] == c then Some(from)
    else FindChar(text, c, from + 1)
  }

  predicate At(text: string, k: int, needle: string) {
    0 <= k && k + |needle| <= |text| && text[k..k + |needle|] == needle
  }

  /** First place of `needle` that ends by `until`. */
  function Find(text: string, needle: string, from: nat, until: nat): (r: Option<nat>)
    requires from <= until <= |text|
    ensures r.Some? ==>
      && from <= r.value && r.value + |needle| <= until && At(text, r.value, needle)
      && forall k :: from <= k < r.value ==> !At(text, k, needle)
    ensures r.None? ==> forall k :: from <= k && k + |needle| <= until ==> !At(text, k, needle)
    decreases until - from
  {
    if from + |needle| > until then None
    else if At(text, from, needle) then Some(from)
    else if from == until then None
    else Find(text, needle, from + 1, until)
  }

  /** First character that is no white space. */
  function Lead(s: string): (r: Option<char>)
    ensures r.Some? ==> r.value in s
  {
    if s == "" then None else if IsWhitespace(s[0]) then Lead(s[1..]) else Some(s[0])
  }

  /** The end of the text or the start of a line. */
  predicate Boundary(text: string, until: nat) {
    until <= |text| && (until == |text| || until == 0 || text[until - 1] == '\n')
  }

  // ---------- the span of a value ----------

  /** The next line feed, which a search bounded inside a line does not stop short of; without one, the bound. */
  function LineEnd(text: string, p: nat, until: nat): (e: nat)
    requires p < until <= |text|
    ensures p <= e <= |text|
    ensures Boundary(text, until) ==> e <= until && (until < |text| ==> e < until)
    ensures forall k :: p <= k < e ==> text[k] != '\n'
    ensures e != until ==> e < |text| && text[e] == '\n'
  {
    match FindChar(text, '\n', p)
    case Some(e) => e
    case None => until
  }

  function Line(text: string, p: nat, until: nat): string
    requires p < until <= |text|
  {
    text[p..LineEnd(text, p, until)]
  }

  /** The rest of the line, or, for an array, what the first `]` closes. */
  function ValueEnd(text: string, p: nat, until: nat): (e: nat)
    requires p < until <= |text|
    ensures p <= e <= |text|
    ensures Boundary(text, until) ==> e <= until && (until < |text| ==> e < until)
    ensures e == LineEnd(text, p, until) || e <= until
  {
    var line := LineEnd(text, p, until);
    if Lead(Line(text, p, until)) == Some('[') then
      assert '[' in text[p..line];
      var start := FindChar(text, '[', p).value;
      match FindChar(text, ']', start)
      case None => line
      case Some(close) => if close < until then close + 1 else line
    else line
  }

  function Candidate(text: string, p: nat, until: nat): Option<(nat, nat)>
    requires p <= until <= |text|
  {
    if p < until && Lead(Line(text, p, until)) != Some('#') then Some((p, ValueEnd(text, p, until))) else None
  }

  function AfterNeedle(text: string, needle: string, until: nat): Option<(nat, nat)>
    requires until <= |text|
  {
    match Find(text, needle, 0, until)
    case None => None
    case Some(pos) => Candidate(text, pos + |needle|, until)
  }

  function AfterPrefix(text: string, prefix: string, until: nat): Option<(nat, nat)>
    requires until <= |text|
  {
    if |prefix| <= until && At(text, 0, prefix) then Candidate(text, |prefix|, until) else None
  }

  function OrElse(a: Option<(nat, nat)>, b: Option<(nat, nat)>): Option<(nat, nat)> {
    if a.Some? then a else b
  }

  function Spaced(key: string): string {
    key + " = "
  }

  function Tight(key: string): string {
    key + " ="
  }

  /** The value to replace: that of the key on a later line, and only then on the first. */
  function SpanOf(text: string, key: string, until: nat): Option<(nat, nat)>
    requires until <= |text|
  {
    OrElse(AfterNeedle(text, "\n" + Spaced(key), until),
    OrElse(AfterNeedle(text, "\n" + Tight(key), until),
    OrElse(AfterPrefix(text, Spaced(key), until),
           AfterPrefix(text, Tight(key), until))))
  }

  function Splice(text: string, i: nat, j: nat, value: string): string
    requires i <= j <= |text|
  {
    text[..i] + value + text[j..]
  }

  lemma SpanInside(text: string, key: string, until: nat)
    requires until <= |text| && SpanOf(text, key, until).Some?
    ensures var (i, j) := SpanOf(text, key, until).value;
            && i <= j <= |text| && i < until && j == ValueEnd(text, i, until)
            && (Boundary(text, until) ==> j <= until && (until < |text| ==> j < until))
  {
    hide Find, ValueEnd, LineEnd, FindChar, Lead, Boundary;
  }

  /** The array of an accepted value opens past the bound, where the source slices from beyond its end. */
  predicate Aborts(text: string, key: string, until: nat)
    requires until <= |text|
  {
    var span := SpanOf(text, key, until);
    && span.Some? && span.value.0 < until
    && Lead(Line(text, span.value.0, until)) == Some('[')
    && var open := FindChar(text, '[', span.value.0); open.Some? && open.value > until
  }

  lemma OpensOnLine(text: string, p: nat, until: nat)
    requires p < until <= |text| && Lead(Line(text, p, until)) == Some('[')
    ensures var open := FindChar(text, '[', p); open.Some? && open.value < LineEnd(text, p, until)
  {
    hide LineEnd;
    assert '[' in text[p..LineEnd(text, p, until)];
  }

  /** It cannot when the bound is the end of the text or the start of a line. */
  lemma NoAbortAtBoundary(text: string, key: string, until: nat)
    requires Boundary(text, until)
    ensures !Aborts(text, key, until)
  {
    hide SpanOf, LineEnd, Lead, Line, FindChar;
    if Aborts(text, key, until) {
      OpensOnLine(text, SpanOf(text, key, until).value.0, until);
    }
  }

  datatype Outcome = Replaced | Untouched | Aborted

  /** The characters before a bound in bytes; slicing aborts where it is past the end or inside a character. */
  function Region(text: string, bound: Option<nat>): (r: Option<nat>)
    ensures r.Some? ==> r.value <= |text|
  {
    match bound
    case None => Some(|text|)
    case Some(b) => if b <= ByteLen(text) && IsCharBoundary(text, b) then Some(CharsWithin(text, b)) else None
  }

  method ReplaceTomlValue(text: string, key: string, value: string, bound: Option<nat>) returns (out: string,
          outcome: Outcome)
    ensures match Region(text, bound)
            case None => outcome.Aborted? && out == text
            case Some(until) =>
              var span := SpanOf(text, key, until);
              && (outcome.Untouched? <==> span.None?) && (outcome.Aborted? <==> Aborts(text, key, until))
              && (if outcome.Replaced? then
                    span.value.0 <= span.value.1 <= |text| && out == Splice(text, span.value.0, span.value.1, value)
                  else out == text)
  {
    hide Find, Candidate, LineEnd, FindChar, ValueEnd, Line, Lead, IsCharBoundary, ByteLen, CharsWithin;
    var region := Region(text, bound);
    if region.None? {
      return text, Aborted;
    }
    var until := region.value;
    var span := AfterNeedle(text, "\n" + Spaced(key), until);
    if span.None? {
      span := AfterNeedle(text, "\n" + Tight(key), until);
    }
    if span.None? {
      span := AfterPrefix(text, Spaced(key), until);
    }
    if span.None? {
      span := AfterPrefix(text, Tight(key), until);
    }
    if span.None? {
      return text, Untouched;
    }
    SpanInside(text, key, until);
    hide AfterNeedle, AfterPrefix;
    var start := span.value.0;
    if Lead(Line(text, start, until)) == Some('[') {
      OpensOnLine(text, start, until);
      if FindChar(text, '[', start).value > until {
        return text, Aborted;
      }
    }
    return Splice(text, start, span.value.1, value), Replaced;
  }

  /** What lies at and past the bound, and what lies before the value, stays. */
  lemma OutsideUntouched(text: string, key: string, value: string, until: nat)
    requires Boundary(text, until) && SpanOf(text, key, until).Some?
    ensures var (i, j) := SpanOf(text, key, until).value;
            && i <= j <= |text|
            && var out := Splice(text, i, j, value);
            && out[..i] == text[..i] && out[i..i + |value|] == value
            && |out| >= |text| - until && out[|out| - (|text| - until)..] == text[until..]
            && out[i + |value|..] == text[j..]
  {
    hide SpanOf;
    SpanInside(text, key, until);
    var (i, j) := SpanOf(text, key, until).value;
    assert |Splice(text, i, j, value)| == i + |value| + |text| - j;
  }

  // ---------- the same replacement again ----------

  /** One value replaced: the text and the bound of the search, before and after. */
  datatype Patch = Patch(text: string, i: nat, j: nat, value: string, until: nat, out: string, newUntil: nat) {
    predicate Valid() {
      && Boundary(text, until) && i <= j <= until && i < until && (until < |text| ==> j < until)
      && '\n' !in value && value != ""
      && out == Splice(text, i, j, value)
      && newUntil == until - (j - i) + |value|
    }

    /** Where a place outside the value has gone. */
    function Moved(p: nat): nat
      requires i <= j
    {
      if p < i then p else if p < j then i else p - j + i + |value|
    }
  }

  /** A one-line value in place of an old one: an array that its last character closes, or a scalar when the
  old value, on however many lines, ran to the end of its last. */
  predicate SameKind(e: Patch) {
    && e.i <= e.j <= e.until && Boundary(e.text, e.until)
    && Lead(e.value).Some? && Lead(e.value) != Some('#') && e.value[0] != ' '
    && (if Lead(e.value) == Some('[') then e.value[0] == '[' && FindChar(e.value, ']', 0) == Some(|e.value| - 1)
        else e.j == |e.text| || e.text[e.j] == '\n')
  }

  lemma NoNewline(text: string, i: nat, j: nat)
    requires i <= j <= |text| && '\n' !in text[i..j]
    ensures forall k :: i <= k < j ==> text[k] != '\n'
  {
    assert forall k :: i <= k < j ==> text[i..j][k - i] == text[k];
  }

  /** Where a character of the new text comes from. */
  lemma CharOf(e: Patch, k: nat)
    requires e.Valid()
    ensures |e.out| == |e.text| - (e.j - e.i) + |e.value|
    ensures k < |e.out| ==>
      e.out[k] == if k < e.i then e.text[k] else if k < e.i + |e.value| then e.value[k - e.i] else e.text[k - e.i - |e.value| + e.j]
  {
  }

  lemma NewBoundary(e: Patch)
    requires e.Valid()
    ensures Boundary(e.out, e.newUntil) && e.i < e.newUntil
  {
    CharOf(e, e.newUntil - 1);
  }

  lemma NoNewlineInValue(e: Patch)
    requires e.Valid()
    ensures |e.out| >= e.i + |e.value| && '\n' !in e.out[e.i..e.i + |e.value|]
  {
    assert e.out[e.i..e.i + |e.value|] == e.value;
  }

  /** Text away from the value is the same before and after. */
  lemma SliceBefore(e: Patch, p: nat, end: nat)
    requires e.Valid() && p <= end <= e.i
    ensures end <= |e.out| && e.out[p..end] == e.text[p..end]
  {
    hide Splice;
    CharOf(e, 0);
    forall k | p <= k < end
      ensures e.out[k] == e.text[k]
    {
      CharOf(e, k);
    }
  }

  lemma SliceAfter(e: Patch, p: nat, end: nat)
    requires e.Valid() && e.j <= p <= end <= |e.text|
    ensures e.Moved(end) <= |e.out| && e.out[e.Moved(p)..e.Moved(end)] == e.text[p..end]
  {
    hide Splice;
    CharOf(e, 0);
    var from, slice := e.Moved(p), e.text[p..end];
    assert e.Moved(end) == from + |slice|;
    forall k | 0 <= k < |slice|
      ensures e.out[from + k] == slice[k]
    {
      CharOf(e, from + k);
    }
  }

  /** Away from the value, the same strings stand in the text before and after. */
  lemma AtBefore(e: Patch, needle: string, k: nat)
    requires e.Valid() && k + |needle| <= e.i
    ensures At(e.out, k, needle) <==> At(e.text, k, needle)
  {
    hide Splice;
    SliceBefore(e, k, k + |needle|);
  }

  lemma AtAfter(e: Patch, needle: string, k: nat)
    requires e.Valid() && e.j <= k
    ensures At(e.out, e.Moved(k), needle) <==> At(e.text, k, needle)
  {
    hide Splice;
    CharOf(e, 0);
    if k + |needle| <= |e.text| {
      SliceAfter(e, k, k + |needle|);
    }
  }

  lemma StartsAt(text: string, k: nat, needle: string)
    requires At(text, k, needle) && needle != ""
    ensures k < |text| && text[k] == needle[0]
  {
    assert text[k..k + |needle|][0] == text[k];
  }

  lemma NoNeedleInside(text: string, i: nat, j: nat, needle: string, k: nat)
    requires needle != "" && needle[0] == '\n' && i <= k < j <= |text| && '\n' !in text[i..j]
    ensures !At(text, k, needle)
  {
    NoNewline(text, i, j);
    if At(text, k, needle) {
      StartsAt(text, k, needle);
    }
  }

  // ---------- searching again ----------

  predicate IsNeedle(needle: string) {
    needle != "" && needle[0] == '\n' && '\n' !in needle[1..]
  }

  /** A needle that stands in front of the value ends right before it or on an earlier line. */
  predicate Settled(text: string, i: nat, needle: string)
    requires i <= |text|
  {
    forall k: nat :: k < i && At(text, k, needle) ==>
      k + |needle| == i || (k + |needle| < i && EarlierLine(text, k + |needle|, i))
  }

  predicate EarlierLine(text: string, p: nat, i: nat)
    requires i <= |text|
  {
    exists k :: p <= k < i && text[k] == '\n'
  }

  lemma FindIs(text: string, needle: string, until: nat, found: Option<nat>)
    requires until <= |text| && needle != ""
    requires found.Some? ==> found.value + |needle| <= until && At(text, found.value, needle)
    requires forall k: nat :: k < (if found.Some? then found.value else until) && k + |needle| <= until ==> !At(text, k, needle)
    ensures Find(text, needle, 0, until) == found
  {
    hide At;
  }

  /** Nothing is found after the edit in front of a place where nothing was found before. */
  lemma NothingNew(e: Patch, needle: string, p: nat, k: nat)
    requires e.Valid() && IsNeedle(needle) && p <= e.until && (p < e.i || e.j <= p)
    requires e.i <= |e.out| && Settled(e.out, e.i, needle)
    requires forall x: nat :: x < p && x + |needle| <= e.until ==> !At(e.text, x, needle)
    requires k < e.Moved(p) && k + |needle| <= e.newUntil
    ensures !At(e.out, k, needle)
  {
    hide At, Splice, EarlierLine;
    if k + |needle| <= e.i {
      AtBefore(e, needle, k);
    } else if e.i <= k < e.i + |e.value| {
      NoNewlineInValue(e);
      NoNeedleInside(e.out, e.i, e.i + |e.value|, needle, k);
    } else if e.i <= k {
      AtAfter(e, needle, k - e.i - |e.value| + e.j);
    }
  }

  /** The needle does not begin inside the old value. */
  predicate Quiet(e: Patch, needle: string) {
    forall k :: e.i <= k < e.j ==> !At(e.text, k, needle)
  }

  /** A search finds after the edit what it found before. */
  lemma FindAgain(e: Patch, needle: string)
    requires e.Valid() && IsNeedle(needle) && e.i <= |e.out| && Quiet(e, needle)
    requires Settled(e.text, e.i, needle) && Settled(e.out, e.i, needle)
    ensures e.newUntil <= |e.out|
    ensures var found := Find(e.text, needle, 0, e.until);
            && Find(e.out, needle, 0, e.newUntil) == (if found.None? then None else Some(e.Moved(found.value)))
            && (found.Some? ==> e.j <= found.value || (found.value < e.i && found.value + |needle| <= e.i))
  {
    NewBoundary(e);
    hide Find, At, Splice, EarlierLine, Boundary;
    var found := Find(e.text, needle, 0, e.until);
    var p := if found.Some? then found.value else e.until;
    forall k: nat | k < e.Moved(p) && k + |needle| <= e.newUntil
      ensures !At(e.out, k, needle)
    {
      NothingNew(e, needle, p, k);
    }
    if found.Some? && found.value < e.i {
      AtBefore(e, needle, found.value);
    } else if found.Some? {
      AtAfter(e, needle, found.value);
    }
    FindIs(e.out, needle, e.newUntil, if found.None? then None else Some(e.Moved(found.value)));
  }

  // ---------- lines again ----------

  lemma LineEndIs(text: string, p: nat, until: nat, end: nat)
    requires p < until && Boundary(text, until) && p <= end <= until
    requires forall k :: p <= k < end ==> text[k] != '\n'
    requires end == until == |text| || (end < |text| && text[end] == '\n')
    ensures LineEnd(text, p, until) == end
  {
    hide FindChar;
  }

  lemma NoLineBreak(e: Patch, p: nat, end: nat)
    requires e.Valid() && p <= end <= |e.text| && (e.j <= p || end < e.i)
    requires forall k :: p <= k < end ==> e.text[k] != '\n'
    ensures e.Moved(end) <= |e.out| && forall k :: e.Moved(p) <= k < e.Moved(end) ==> e.out[k] != '\n'
  {
    CharOf(e, 0);
    forall k | e.Moved(p) <= k < e.Moved(end)
      ensures e.out[k] != '\n'
    {
      hide Splice;
      CharOf(e, k);
    }
  }

  /** The end of a line moves with the edit. */
  lemma LineEndMoves(e: Patch, p: nat)
    requires e.Valid() && p < e.until && (e.j <= p || EarlierLine(e.text, p, e.i))
    ensures Boundary(e.out, e.newUntil)
    ensures var end := LineEnd(e.text, p, e.until);
            && (if e.j <= p then e.j <= end else end < e.i)
            && e.Moved(p) < e.newUntil && LineEnd(e.out, e.Moved(p), e.newUntil) == e.Moved(end)
  {
    NewBoundary(e);
    hide Splice, LineEnd, FindChar;
    var end := LineEnd(e.text, p, e.until);
    NoLineBreak(e, p, end);
    if end < e.until {
      CharOf(e, e.Moved(end));
    }
    LineEndIs(e.out, e.Moved(p), e.newUntil, e.Moved(end));
  }

  /** Where the last line of the old value ends. */
  function LastEnd(e: Patch): (end: nat)
    requires e.Valid()
    ensures e.j <= end <= e.until
    ensures forall k :: e.j <= k < end ==> e.text[k] != '\n'
    ensures end == e.until == |e.text| || (end < |e.text| && e.text[end] == '\n')
  {
    if e.j < e.until then LineEnd(e.text, e.j, e.until) else e.until
  }

  lemma ValueLineUnbroken(e: Patch)
    requires e.Valid()
    ensures e.Moved(LastEnd(e)) <= |e.out| && forall k :: e.i <= k < e.Moved(LastEnd(e)) ==> e.out[k] != '\n'
  {
    NoNewlineInValue(e);
    hide Splice, LineEnd, LastEnd, Boundary;
    NoLineBreak(e, e.j, LastEnd(e));
    NoNewline(e.out, e.i, e.i + |e.value|);
  }

  /** The new value's line ends where the last line of the old value did. */
  lemma ValueLineEnd(e: Patch)
    requires e.Valid()
    ensures Boundary(e.out, e.newUntil) && e.i < e.newUntil
    ensures LineEnd(e.out, e.i, e.newUntil) == e.Moved(LastEnd(e))
  {
    NewBoundary(e);
    ValueLineUnbroken(e);
    hide Splice, LineEnd, LastEnd, Boundary;
    if LastEnd(e) < e.until {
      CharOf(e, e.Moved(LastEnd(e)));
    } else {
      CharOf(e, 0);
    }
    LineEndIs(e.out, e.i, e.newUntil, e.Moved(LastEnd(e)));
  }

  lemma SliceMoves(e: Patch, p: nat, end: nat)
    requires e.Valid() && p <= end <= |e.text| && (e.j <= p || end < e.i)
    ensures e.Moved(p) <= e.Moved(end) <= |e.out| && e.out[e.Moved(p)..e.Moved(end)] == e.text[p..end]
  {
    hide Splice;
    if e.j <= p {
      SliceAfter(e, p, end);
    } else {
      SliceBefore(e, p, end);
    }
  }

  lemma LineAgain(e: Patch, p: nat)
    requires e.Valid() && p < e.until && (e.j <= p || EarlierLine(e.text, p, e.i))
    ensures Boundary(e.out, e.newUntil) && e.Moved(p) < e.newUntil
    ensures Line(e.out, e.Moved(p), e.newUntil) == Line(e.text, p, e.until)
  {
    hide LineEnd, Splice;
    LineEndMoves(e, p);
    SliceMoves(e, p, LineEnd(e.text, p, e.until));
  }

  lemma LeadOfLonger(s: string, t: string)
    requires Lead(s).Some?
    ensures Lead(s + t) == Lead(s)
  {
    if !IsWhitespace(s[0]) {
      assert (s + t)[0] == s[0];
    } else {
      assert (s + t)[1..] == s[1..] + t;
      LeadOfLonger(s[1..], t);
    }
  }

  lemma TextOfLine(e: Patch, end: nat)
    requires e.Valid() && e.j <= end <= |e.text|
    ensures e.Moved(end) <= |e.out| && e.out[e.i..e.Moved(end)] == e.value + e.text[e.j..end]
  {
    CharOf(e, 0);
    var line := e.value + e.text[e.j..end];
    forall k | 0 <= k < |line|
      ensures e.out[e.i + k] == line[k]
    {
      hide Splice;
      CharOf(e, e.i + k);
    }
  }

  lemma ValueLine(e: Patch)
    requires e.Valid() && Lead(e.value).Some?
    ensures Boundary(e.out, e.newUntil) && e.i < e.newUntil
    ensures Lead(Line(e.out, e.i, e.newUntil)) == Lead(e.value)
    ensures LineEnd(e.out, e.i, e.newUntil) == e.Moved(LastEnd(e))
  {
    hide LineEnd, Lead, LastEnd;
    ValueLineEnd(e);
    var end := LastEnd(e);
    TextOfLine(e, end);
    LeadOfLonger(e.value, e.text[e.j..end]);
  }

  // ---------- candidates again ----------

  lemma FindCharIs(text: string, c: char, from: nat, p: nat)
    requires from <= p < |text| && text[p] == c && forall k :: from <= k < p ==> text[k] != c
    ensures FindChar(text, c, from) == Some(p)
  {
  }

  lemma ArrayCloses(e: Patch)
    requires e.Valid() && e.value[0] == '[' && FindChar(e.value, ']', 0) == Some(|e.value| - 1)
    ensures e.i < |e.out|
    ensures FindChar(e.out, '[', e.i) == Some(e.i) && FindChar(e.out, ']', e.i) == Some(e.i + |e.value| - 1)
  {
    CharOf(e, e.i);
    CharOf(e, e.i + |e.value| - 1);
    FindCharIs(e.out, '[', e.i, e.i);
    forall k | e.i <= k < e.i + |e.value| - 1
      ensures e.out[k] != ']'
    {
      CharOf(e, k);
    }
    FindCharIs(e.out, ']', e.i, e.i + |e.value| - 1);
  }

  lemma ArrayEnds(text: string, p: nat, until: nat, close: nat)
    requires p < until && Boundary(text, until) && p <= close < until
    requires Lead(Line(text, p, until)) == Some('[') && FindChar(text, '[', p) == Some(p) && FindChar(text, ']', p) == Some(close)
    ensures ValueEnd(text, p, until) == close + 1
  {
    hide Lead, Line, LineEnd, FindChar;
  }

  lemma ScalarEnds(text: string, p: nat, until: nat)
    requires p < until && Boundary(text, until) && Lead(Line(text, p, until)) != Some('[')
    ensures ValueEnd(text, p, until) == LineEnd(text, p, until)
  {
    hide Lead, Line, LineEnd, FindChar;
  }

  lemma CandidateIs(text: string, p: nat, until: nat, end: nat)
    requires p < until && Boundary(text, until) && Lead(Line(text, p, until)) != Some('#') && ValueEnd(text, p, until) == end
    ensures Candidate(text, p, until) == Some((p, end))
  {
    hide Lead, Line, ValueEnd;
  }

  lemma ValueEndsAgain(e: Patch)
    requires e.Valid() && SameKind(e)
    ensures Boundary(e.out, e.newUntil) && e.i < e.newUntil && ValueEnd(e.out, e.i, e.newUntil) == e.i + |e.value|
  {
    ValueLine(e);
    hide Splice, LineEnd, Lead, FindChar, Boundary, Line, ValueEnd, LastEnd;
    if Lead(e.value) == Some('[') {
      ArrayCloses(e);
      ArrayEnds(e.out, e.i, e.newUntil, e.i + |e.value| - 1);
    } else {
      ScalarEnds(e.out, e.i, e.newUntil);
    }
  }

  /** The value just written is the candidate found at its place. */
  lemma AcceptedAgain(e: Patch)
    requires e.Valid() && SameKind(e)
    ensures Boundary(e.out, e.newUntil) && e.i <= e.newUntil
    ensures Candidate(e.out, e.i, e.newUntil) == Some((e.i, e.i + |e.value|))
  {
    ValueLine(e);
    ValueEndsAgain(e);
    hide Splice, LineEnd, Lead, FindChar, Boundary, Line, ValueEnd, Candidate;
    CandidateIs(e.out, e.i, e.newUntil, e.i + |e.value|);
  }

  /** A place that is no candidate before is none after. */
  lemma RejectedAgain(e: Patch, p: nat)
    requires e.Valid() && p != e.i && p <= e.until && Candidate(e.text, p, e.until).None?
    requires e.j <= p || EarlierLine(e.text, p, e.i)
    ensures Boundary(e.out, e.newUntil) && e.Moved(p) <= e.newUntil
    ensures Candidate(e.out, e.Moved(p), e.newUntil).None?
  {
    NewBoundary(e);
    hide Lead, LineEnd, Splice, ValueEnd, Line, Boundary;
    if p < e.until {
      LineAgain(e, p);
    }
  }

  lemma CandidateStart(text: string, p: nat, until: nat)
    requires p <= until && Boundary(text, until)
    ensures Candidate(text, p, until).Some? ==> Candidate(text, p, until).value.0 == p
  {
    hide Lead, Line, LineEnd, ValueEnd;
  }

  /** What a search for a line of the key needs to be the same again. */
  predicate Repeats(e: Patch, needle: string) {
    && e.Valid() && SameKind(e) && IsNeedle(needle) && e.i <= |e.out| && Quiet(e, needle)
    && Settled(e.text, e.i, needle) && Settled(e.out, e.i, needle)
    && Candidate(e.text, e.i, e.until) == Some((e.i, e.j))
  }

  lemma FoundAgain(e: Patch, needle: string, found: nat)
    requires Repeats(e, needle) && At(e.text, found, needle) && found + |needle| <= e.until
    requires e.j <= found || (found < e.i && found + |needle| <= e.i)
    requires var r := Candidate(e.text, found + |needle|, e.until); r.None? || r == Some((e.i, e.j))
    ensures Boundary(e.out, e.newUntil) && e.Moved(found) + |needle| <= e.newUntil
    ensures Candidate(e.out, e.Moved(found) + |needle|, e.newUntil)
         == if Candidate(e.text, found + |needle|, e.until).None? then None else Some((e.i, e.i + |e.value|))
  {
    hide Splice, SameKind, Candidate, At, Boundary, EarlierLine, FindChar;
    var p := found + |needle|;
    CandidateStart(e.text, p, e.until);
    if p == e.i {
      AcceptedAgain(e);
    } else {
      RejectedAgain(e, p);
    }
  }

  lemma SearchAgain(e: Patch, needle: string)
    requires Repeats(e, needle)
    ensures e.newUntil <= |e.out| && Boundary(e.out, e.newUntil) && e.until <= |e.text| && Boundary(e.text, e.until) && e.i <= e.j
    ensures var found := Find(e.text, needle, 0, e.until);
            && Find(e.out, needle, 0, e.newUntil) == (if found.None? then None else Some(e.Moved(found.value)))
            && (found.Some? ==> e.j <= found.value || (found.value < e.i && found.value + |needle| <= e.i))
  {
    NewBoundary(e);
    FindAgain(e, needle);
  }

  /** A search that gave the value, or nothing, gives the new value, or nothing. */
  lemma NeedleAgain(e: Patch, needle: string)
    requires Repeats(e, needle) && Boundary(e.text, e.until)
    requires var r := AfterNeedle(e.text, needle, e.until); r.None? || r == Some((e.i, e.j))
    ensures Boundary(e.out, e.newUntil)
    ensures AfterNeedle(e.out, needle, e.newUntil)
         == if AfterNeedle(e.text, needle, e.until).None? then None else Some((e.i, e.i + |e.value|))
  {
    hide Repeats, Candidate, At;
    SearchAgain(e, needle);
    var found := Find(e.text, needle, 0, e.until);
    if found.Some? {
      hide Find, Boundary;
      FoundAgain(e, needle, found.value);
    }
  }

  lemma PrefixAgain(e: Patch, prefix: string)
    requires e.Valid() && SameKind(e) && Boundary(e.text, e.until)
    requires Candidate(e.text, e.i, e.until) == Some((e.i, e.j))
    requires At(e.text, 0, prefix) || At(e.out, 0, prefix) ==> |prefix| == e.i
    ensures Boundary(e.out, e.newUntil)
    ensures AfterPrefix(e.text, prefix, e.until) == (if At(e.text, 0, prefix) then Some((e.i, e.j)) else None)
    ensures AfterPrefix(e.out, prefix, e.newUntil) == if At(e.text, 0, prefix) then Some((e.i, e.i + |e.value|)) else None
  {
    hide Candidate, Splice, SameKind, At;
    AcceptedAgain(e);
    if |prefix| == e.i {
      AtBefore(e, prefix, 0);
    }
  }

  // ---------- the line of the key ----------

  /** The only line break in `text[pos..i]` is the first character. */
  predicate LineOf(text: string, pos: nat, i: nat) {
    pos < i <= |text| && text[pos] == '\n' && forall k :: pos < k < i ==> text[k] != '\n'
  }

  lemma InNeedle(text: string, k: nat, needle: string, x: nat)
    requires At(text, k, needle) && IsNeedle(needle) && k < x < k + |needle|
    ensures text[x] != '\n'
  {
    assert text[k..k + |needle|][x - k] == text[x];
    assert needle[1..][x - k - 1] == needle[x - k];
  }

  lemma SettledOnLine(text: string, pos: nat, i: nat, needle: string)
    requires LineOf(text, pos, i) && IsNeedle(needle)
    requires At(text, pos, needle) ==> pos + |needle| == i
    ensures Settled(text, i, needle)
  {
    hide At, IsNeedle;
    forall k: nat | k < i && At(text, k, needle)
      ensures k + |needle| == i || (k + |needle| < i && EarlierLine(text, k + |needle|, i))
    {
      NeedleStarts(text, k, needle);
      if k < pos < k + |needle| {
        InNeedle(text, k, needle, pos);
      }
    }
  }

  lemma NeedleStarts(text: string, k: nat, needle: string)
    requires At(text, k, needle) && IsNeedle(needle)
    ensures k < |text| && text[k] == '\n'
  {
    StartsAt(text, k, needle);
  }

  lemma SettledOnFirst(text: string, i: nat, needle: string)
    requires i <= |text| && IsNeedle(needle) && forall k :: 0 <= k < i ==> text[k] != '\n'
    ensures Settled(text, i, needle)
  {
    hide At, IsNeedle;
    forall k: nat | k < i
      ensures !At(text, k, needle)
    {
      if At(text, k, needle) {
        NeedleStarts(text, k, needle);
      }
    }
  }

  lemma LineOfNeedle(text: string, pos: nat, needle: string)
    requires At(text, pos, needle) && IsNeedle(needle) && |needle| > 1
    ensures LineOf(text, pos, pos + |needle|)
  {
    NeedleStarts(text, pos, needle);
    forall k | pos < k < pos + |needle|
      ensures text[k] != '\n'
    {
      InNeedle(text, pos, needle, k);
    }
  }

  lemma LineOfAgain(e: Patch, pos: nat)
    requires e.Valid() && LineOf(e.text, pos, e.i)
    ensures LineOf(e.out, pos, e.i)
  {
    CharOf(e, pos);
    forall k | pos < k < e.i
      ensures e.out[k] != '\n'
    {
      CharOf(e, k);
    }
  }

  lemma FirstLineAgain(e: Patch)
    requires e.Valid() && forall k :: 0 <= k < e.i ==> e.text[k] != '\n'
    ensures e.i <= |e.out| && forall k :: 0 <= k < e.i ==> e.out[k] != '\n'
  {
    CharOf(e, 0);
    forall k | 0 <= k < e.i
      ensures e.out[k] != '\n'
    {
      CharOf(e, k);
    }
  }

  lemma NeedlesOf(key: string)
    requires '\n' !in key
    ensures IsNeedle("\n" + Spaced(key)) && IsNeedle("\n" + Tight(key))
    ensures "\n" + Spaced(key) == ("\n" + Tight(key)) + " " && Spaced(key) == Tight(key) + " "
    ensures '\n' !in Spaced(key) && '\n' !in Tight(key)
  {
    assert ("\n" + Spaced(key))[1..] == Spaced(key) && ("\n" + Tight(key))[1..] == Tight(key);
    assert Spaced(key) == key + " = " && Tight(key) == key + " =";
  }

  /** A needle that goes on with a blank does not stand where the value has none. */
  lemma BlankAt(text: string, k: nat, needle: string)
    requires At(text, k, needle + " ")
    ensures k + |needle| < |text| && text[k + |needle|] == ' '
  {
    assert text[k..k + |needle| + 1][|needle|] == ' ';
  }

  lemma NotSpaced(text: string, k: nat, needle: string)
    requires k + |needle| < |text| ==> text[k + |needle|] != ' '
    ensures !At(text, k, needle + " ")
  {
    if At(text, k, needle + " ") {
      BlankAt(text, k, needle);
    }
  }

  lemma SpacedIsQuiet(e: Patch, key: string)
    requires '\n' !in key && Quiet(e, "\n" + Tight(key))
    ensures Quiet(e, "\n" + Spaced(key))
  {
    NeedlesOf(key);
    forall k | e.i <= k < e.j
      ensures !At(e.text, k, "\n" + Spaced(key))
    {
      if At(e.text, k, "\n" + Spaced(key)) {
        AtPrefix(e.text, k, "\n" + Tight(key), " ");
      }
    }
  }

  lemma AtPrefix(text: string, k: int, needle: string, more: string)
    requires At(text, k, needle + more)
    ensures At(text, k, needle)
  {
    assert text[k..k + |needle|] == text[k..k + |needle + more|][..|needle|] == needle;
  }

  // ---------- the law ----------

  /** The edit of a key's value.  Where no blank follows the `=`, none begins the value; and no line of the
  old value, which may be an array of many, looks like the key's own. */
  predicate EditOf(e: Patch, key: string) {
    && e.Valid() && SameKind(e) && '\n' !in key && Boundary(e.text, e.until)
    && SpanOf(e.text, key, e.until) == Some((e.i, e.j))
    && Quiet(e, "\n" + Tight(key))
    && (0 < e.i < |e.text| && e.text[e.i - 1] == '=' ==> e.text[e.i] != ' ')
  }

  lemma SpanStart(text: string, needle: string, until: nat, span: (nat, nat))
    requires Boundary(text, until) && AfterNeedle(text, needle, until) == Some(span)
    ensures |needle| <= span.0 <= until && At(text, span.0 - |needle|, needle) && Candidate(text, span.0, until) == Some(span)
  {
    hide Lead, Line, LineEnd, ValueEnd, At, FindChar;
  }

  lemma PrefixStart(text: string, prefix: string, until: nat, span: (nat, nat))
    requires Boundary(text, until) && AfterPrefix(text, prefix, until) == Some(span)
    ensures span.0 == |prefix| <= until && At(text, 0, prefix) && Candidate(text, span.0, until) == Some(span)
  {
    hide Lead, Line, LineEnd, ValueEnd, At, FindChar;
  }

  /** Before and after, the needle stands at the value's line only right before the value. */
  lemma OnLineAgain(e: Patch, pos: nat, needle: string)
    requires e.Valid() && SameKind(e) && IsNeedle(needle) && LineOf(e.text, pos, e.i) && Quiet(e, needle)
    requires Boundary(e.text, e.until) && Candidate(e.text, e.i, e.until) == Some((e.i, e.j))
    requires At(e.text, pos, needle) || At(e.out, pos, needle) ==> pos + |needle| == e.i
    ensures Repeats(e, needle)
  {
    hide Candidate, Settled, IsNeedle, At, Splice, SameKind;
    LineOfAgain(e, pos);
    SettledOnLine(e.text, pos, e.i, needle);
    SettledOnLine(e.out, pos, e.i, needle);
  }

  lemma SpacedAgain(e: Patch, key: string)
    requires EditOf(e, key) && AfterNeedle(e.text, "\n" + Spaced(key), e.until) == Some((e.i, e.j))
    ensures Boundary(e.out, e.newUntil)
    ensures AfterNeedle(e.out, "\n" + Spaced(key), e.newUntil) == Some((e.i, e.i + |e.value|))
  {
    hide Find, Candidate, At, Splice, SameKind, AfterNeedle, SpanOf, IsNeedle, FindChar;
    var needle := "\n" + Spaced(key);
    NeedlesOf(key);
    SpacedIsQuiet(e, key);
    SpanStart(e.text, needle, e.until, (e.i, e.j));
    LineOfNeedle(e.text, e.i - |needle|, needle);
    OnLineAgain(e, e.i - |needle|, needle);
    NeedleAgain(e, needle);
  }

  lemma TightEnds(text: string, pos: nat, key: string)
    requires At(text, pos, "\n" + Tight(key))
    ensures var end := pos + |"\n" + Tight(key)|; end <= |text| && text[end - 1] == '='
  {
    var needle := "\n" + Tight(key);
    assert text[pos..pos + |needle|][|needle| - 1] == '=';
  }

  lemma NoBlanks(e: Patch, key: string)
    requires EditOf(e, key) && e.i > 0 && e.text[e.i - 1] == '='
    ensures e.i < |e.text| ==> e.text[e.i] != ' '
    ensures e.i < |e.out| ==> e.out[e.i] != ' '
  {
    hide Splice, SpanOf, Lead, FindChar, LineEnd;
    CharOf(e, e.i);
  }

  lemma TightPlace(e: Patch, key: string)
    requires EditOf(e, key) && AfterNeedle(e.text, "\n" + Tight(key), e.until) == Some((e.i, e.j))
    ensures var needle := "\n" + Tight(key);
            var pos := e.i - |needle|;
            && 0 <= pos && LineOf(e.text, pos, e.i) && Candidate(e.text, e.i, e.until) == Some((e.i, e.j))
            && !At(e.text, pos, needle + " ") && !At(e.out, pos, needle + " ")
  {
    hide Find, Candidate, At, Splice, AfterNeedle, SpanOf, IsNeedle, FindChar, LineEnd, Lead, Line, LineOf, SameKind;
    var needle := "\n" + Tight(key);
    NeedlesOf(key);
    SpanStart(e.text, needle, e.until, (e.i, e.j));
    TightEnds(e.text, e.i - |needle|, key);
    NoBlanks(e, key);
    LineOfNeedle(e.text, e.i - |needle|, needle);
    NotSpaced(e.text, e.i - |needle|, needle);
    NotSpaced(e.out, e.i - |needle|, needle);
  }

  lemma TightAgain(e: Patch, key: string)
    requires EditOf(e, key)
    requires AfterNeedle(e.text, "\n" + Spaced(key), e.until).None?
    requires AfterNeedle(e.text, "\n" + Tight(key), e.until) == Some((e.i, e.j))
    ensures Boundary(e.out, e.newUntil)
    ensures AfterNeedle(e.out, "\n" + Spaced(key), e.newUntil).None?
    ensures AfterNeedle(e.out, "\n" + Tight(key), e.newUntil) == Some((e.i, e.i + |e.value|))
  {
    hide Find, Candidate, At, Splice, SameKind, AfterNeedle, SpanOf, IsNeedle, FindChar, Boundary, LineOf;
    var pos := e.i - |"\n" + Tight(key)|;
    NeedlesOf(key);
    SpacedIsQuiet(e, key);
    TightPlace(e, key);
    OnLineAgain(e, pos, "\n" + Tight(key));
    OnLineAgain(e, pos, "\n" + Spaced(key));
    NeedleAgain(e, "\n" + Tight(key));
    NeedleAgain(e, "\n" + Spaced(key));
  }

  lemma OnFirstAgain(e: Patch, needle: string)
    requires e.Valid() && SameKind(e) && IsNeedle(needle) && Quiet(e, needle)
    requires forall k :: 0 <= k < e.i ==> e.text[k] != '\n'
    requires Boundary(e.text, e.until) && Candidate(e.text, e.i, e.until) == Some((e.i, e.j))
    ensures Repeats(e, needle)
  {
    hide Candidate, Settled, IsNeedle, At, Splice, SameKind;
    FirstLineAgain(e);
    SettledOnFirst(e.text, e.i, needle);
    SettledOnFirst(e.out, e.i, needle);
  }

  lemma FirstLine(text: string, prefix: string)
    requires At(text, 0, prefix) && '\n' !in prefix
    ensures forall k :: 0 <= k < |prefix| ==> text[k] != '\n'
  {
    assert forall k :: 0 <= k < |prefix| ==> text[0..|prefix|][k] == text[k] && prefix[k] in prefix;
  }

  /** Nothing on a later line, before or after, when the value is on the first. */
  lemma NoLaterLine(e: Patch, key: string)
    requires EditOf(e, key) && Candidate(e.text, e.i, e.until) == Some((e.i, e.j))
    requires forall k :: 0 <= k < e.i ==> e.text[k] != '\n'
    requires AfterNeedle(e.text, "\n" + Spaced(key), e.until).None?
    requires AfterNeedle(e.text, "\n" + Tight(key), e.until).None?
    ensures Boundary(e.out, e.newUntil)
    ensures AfterNeedle(e.out, "\n" + Spaced(key), e.newUntil).None?
    ensures AfterNeedle(e.out, "\n" + Tight(key), e.newUntil).None?
  {
    hide Find, Candidate, At, Splice, SameKind, AfterNeedle, SpanOf, IsNeedle, FindChar;
    NeedlesOf(key);
    SpacedIsQuiet(e, key);
    OnFirstAgain(e, "\n" + Spaced(key));
    OnFirstAgain(e, "\n" + Tight(key));
    NeedleAgain(e, "\n" + Spaced(key));
    NeedleAgain(e, "\n" + Tight(key));
  }

  lemma FirstSpacedAgain(e: Patch, key: string)
    requires EditOf(e, key)
    requires AfterNeedle(e.text, "\n" + Spaced(key), e.until).None?
    requires AfterNeedle(e.text, "\n" + Tight(key), e.until).None?
    requires AfterPrefix(e.text, Spaced(key), e.until) == Some((e.i, e.j))
    ensures Boundary(e.out, e.newUntil) && SpanOf(e.out, key, e.newUntil) == Some((e.i, e.i + |e.value|))
  {
    hide Find, Candidate, At, Splice, SameKind, AfterNeedle, IsNeedle, FindChar, AfterPrefix;
    NeedlesOf(key);
    PrefixStart(e.text, Spaced(key), e.until, (e.i, e.j));
    FirstLine(e.text, Spaced(key));
    NoLaterLine(e, key);
    PrefixAgain(e, Spaced(key));
  }

  lemma FirstTightAgain(e: Patch, key: string)
    requires EditOf(e, key)
    requires AfterNeedle(e.text, "\n" + Spaced(key), e.until).None?
    requires AfterNeedle(e.text, "\n" + Tight(key), e.until).None?
    requires AfterPrefix(e.text, Spaced(key), e.until).None?
    requires AfterPrefix(e.text, Tight(key), e.until) == Some((e.i, e.j))
    ensures Boundary(e.out, e.newUntil) && SpanOf(e.out, key, e.newUntil) == Some((e.i, e.i + |e.value|))
  {
    NeedlesOf(key);
    PrefixStart(e.text, Tight(key), e.until, (e.i, e.j));
    assert e.text[e.i - 1] == '=' by {
      assert e.text[0..e.i][e.i - 1] == '=';
    }
    NoBlanks(e, key);
    hide Find, Candidate, At, Splice, SameKind, AfterNeedle, IsNeedle, FindChar, AfterPrefix;
    FirstLine(e.text, Tight(key));
    NoLaterLine(e, key);
    NotSpaced(e.text, 0, Tight(key));
    NotSpaced(e.out, 0, Tight(key));
    PrefixAgain(e, Spaced(key));
    PrefixAgain(e, Tight(key));
  }

  /** The same replacement finds its own value and changes nothing. */
  lemma ReplaceIsIdempotent(e: Patch, key: string)
    requires EditOf(e, key)
    ensures Boundary(e.out, e.newUntil) && SpanOf(e.out, key, e.newUntil) == Some((e.i, e.i + |e.value|))
    ensures e.i + |e.value| <= |e.out| && Splice(e.out, e.i, e.i + |e.value|, e.value) == e.out
  {
    assert e.out[e.i..e.i + |e.value|] == e.value;
    hide Find, Candidate, At, Splice, SameKind, AfterNeedle, FindChar, AfterPrefix, Boundary;
    if AfterNeedle(e.text, "\n" + Spaced(key), e.until).Some? {
      SpacedAgain(e, key);
    } else if AfterNeedle(e.text, "\n" + Tight(key), e.until).Some? {
      TightAgain(e, key);
    } else if AfterPrefix(e.text, Spaced(key), e.until).Some? {
      FirstSpacedAgain(e, key);
    } else {
      FirstTightAgain(e, key);
    }
    SpliceSelf(e.out, e.i, e.i + |e.value|, e.value);
  }

  lemma SpliceSelf(text: string, i: nat, j: nat, value: string)
    requires i <= j <= |text| && text[i..j] == value
    ensures Splice(text, i, j, value) == text
  {
    assert text == text[..i] + text[i..j] + text[j..];
  }
}
