/** What a replacement finds: the value of a key that stands at the start of a line, and nothing else. */
module TomlKeys {
  import opened Texts
  import opened Toml

  /** A value on one line: neither a comment nor an array. */
  predicate IsScalar(was: string) {
    '\n' !in was && Lead(was) != Some('#') && Lead(was) != Some('[')
  }

  /** An array that its last character closes, on however many lines, behind blanks. */
  predicate IsArray(was: string, indent: nat) {
    && indent + 1 < |was| && was[indent] == '[' && was[|was| - 1] == ']' && ']' !in was[indent..|was| - 1]
    && forall i :: 0 <= i < indent ==> was[i] == ' '
  }

  /** An array that nothing closes before the bound counts as its line. */
  predicate IsOpen(text: string, p: nat, was: string, until: nat)
    requires until <= |text|
  {
    '\n' !in was && Lead(was) == Some('[') && forall k :: p <= k < until ==> text[k] != ']'
  }

  /** `was` stands at `p` and reaches to the end of its line, or is an array; the bound lies behind it. */
  ghost predicate ValueAt(text: string, p: nat, was: string, until: nat) {
    && Boundary(text, until) && p < until && p + |was| <= until && At(text, p, was)
    && (|| (exists indent: nat :: IsArray(was, indent))
        || ((IsScalar(was) || IsOpen(text, p, was, until)) && (p + |was| == |text| || text[p + |was|] == '\n')))
  }

  /** The first place of a needle. */
  predicate FirstAt(text: string, k: nat, needle: string) {
    At(text, k, needle) && forall x: nat :: x < k ==> !At(text, x, needle)
  }

  /** The needle stands nowhere before the bound. */
  ghost predicate Nowhere(text: string, needle: string, until: nat) {
    forall x: nat :: x + |needle| <= until ==> !At(text, x, needle)
  }

  // ---------- where the value ends ----------

  lemma {:induction false} LeadIndented(s: string, indent: nat)
    requires indent < |s| && s[indent] == '[' && forall i :: 0 <= i < indent ==> s[i] == ' '
    ensures Lead(s) == Some('[')
    decreases indent
  {
    if indent > 0 {
      LeadIndented(s[1..], indent - 1);
    }
  }

  lemma ScalarValue(text: string, p: nat, was: string, until: nat)
    requires Boundary(text, until) && p < until && p + |was| <= until && At(text, p, was)
    requires IsScalar(was) && (p + |was| == |text| || text[p + |was|] == '\n')
    ensures Candidate(text, p, until) == Some((p, p + |was|))
  {
    hide Lead, LineEnd, ValueEnd, FindChar;
    NoNewline(text, p, p + |was|);
    LineEndIs(text, p, until, p + |was|);
    ScalarEnds(text, p, until);
    CandidateIs(text, p, until, p + |was|);
  }

  lemma OpenValue(text: string, p: nat, was: string, until: nat)
    requires Boundary(text, until) && p < until && p + |was| <= until && At(text, p, was)
    requires IsOpen(text, p, was, until) && (p + |was| == |text| || text[p + |was|] == '\n')
    ensures Candidate(text, p, until) == Some((p, p + |was|))
  {
    hide Lead, LineEnd, FindChar;
    NoNewline(text, p, p + |was|);
    LineEndIs(text, p, until, p + |was|);
    CandidateIs(text, p, until, p + |was|);
  }

  lemma CharsAt(text: string, p: nat, s: string)
    requires At(text, p, s)
    ensures forall k :: p <= k < p + |s| ==> text[k] == s[k - p]
  {
    var slice := text[p..p + |s|];
    assert forall k :: p <= k < p + |s| ==> text[k] == slice[k - p];
  }

  lemma NotClosed(was: string, indent: nat)
    requires IsArray(was, indent)
    ensures forall i :: indent <= i < |was| - 1 ==> was[i] != ']'
  {
    var slice := was[indent..|was| - 1];
    assert forall i :: indent <= i < |was| - 1 ==> was[i] == slice[i - indent];
  }

  lemma ArrayValue(text: string, p: nat, was: string, until: nat, indent: nat)
    requires Boundary(text, until) && p < until && p + |was| <= until && At(text, p, was) && IsArray(was, indent)
    ensures Candidate(text, p, until) == Some((p, p + |was|))
  {
    hide Lead, LineEnd, ValueEnd, FindChar, Candidate, At;
    CharsAt(text, p, was);
    NotClosed(was, indent);
    FindCharIs(text, '[', p, p + indent);
    FindCharIs(text, ']', p + indent, p + |was| - 1);
    OpensBeforeEnd(text, p, until, p + indent);
    LeadIndented(Line(text, p, until), indent);
    ClosesAt(text, p, until, p + indent, p + |was| - 1);
    CandidateIs(text, p, until, p + |was|);
  }

  lemma OpensBeforeEnd(text: string, p: nat, until: nat, open: nat)
    requires p < until && Boundary(text, until) && p <= open < until
    requires forall k :: p <= k <= open ==> text[k] != '\n'
    ensures open < LineEnd(text, p, until)
  {
    hide FindChar;
  }

  lemma ClosesAt(text: string, p: nat, until: nat, open: nat, close: nat)
    requires p < until && Boundary(text, until) && p <= open <= close < until
    requires Lead(Line(text, p, until)) == Some('[')
    requires FindChar(text, '[', p) == Some(open) && FindChar(text, ']', open) == Some(close)
    ensures ValueEnd(text, p, until) == close + 1
  {
    hide Lead, Line, LineEnd, FindChar;
  }

  lemma ValueIsTaken(text: string, p: nat, was: string, until: nat)
    requires ValueAt(text, p, was, until)
    ensures Candidate(text, p, until) == Some((p, p + |was|))
  {
    hide IsArray, IsScalar, IsOpen, Candidate;
    if indent: nat :| IsArray(was, indent) {
      ArrayValue(text, p, was, until, indent);
    } else if IsScalar(was) {
      ScalarValue(text, p, was, until);
    } else {
      OpenValue(text, p, was, until);
    }
  }

  // ---------- where the key stands ----------

  lemma NeedleTaken(text: string, needle: string, k: nat, was: string, until: nat)
    requires needle != "" && FirstAt(text, k, needle) && ValueAt(text, k + |needle|, was, until)
    ensures AfterNeedle(text, needle, until) == Some((k + |needle|, k + |needle| + |was|))
  {
    hide Candidate, Find, At;
    ValueIsTaken(text, k + |needle|, was, until);
    FindIs(text, needle, until, Some(k));
  }

  lemma NeedleMissed(text: string, needle: string, until: nat)
    requires until <= |text| && needle != "" && Nowhere(text, needle, until)
    ensures AfterNeedle(text, needle, until).None?
  {
    hide Candidate, Find, At;
    FindIs(text, needle, until, None);
  }

  lemma PrefixTaken(text: string, prefix: string, was: string, until: nat)
    requires At(text, 0, prefix) && ValueAt(text, |prefix|, was, until)
    ensures AfterPrefix(text, prefix, until) == Some((|prefix|, |prefix| + |was|))
  {
    hide Candidate, At;
    ValueIsTaken(text, |prefix|, was, until);
  }

  /** A key at the start of a later line is found with its value: in the spaced form the first such line; in the tight
  form too, where no line has the spaced one. */
  lemma LaterKeyIsFound(text: string, key: string, k: nat, was: string, until: nat)
    ensures FirstAt(text, k, "\n" + Spaced(key)) && ValueAt(text, k + |Spaced(key)| + 1, was, until) ==>
              SpanOf(text, key, until) == Some((k + |Spaced(key)| + 1, k + |Spaced(key)| + 1 + |was|))
    ensures FirstAt(text, k, "\n" + Tight(key)) && ValueAt(text, k + |Tight(key)| + 1, was, until)
            && Nowhere(text, "\n" + Spaced(key), until) ==>
              SpanOf(text, key, until) == Some((k + |Tight(key)| + 1, k + |Tight(key)| + 1 + |was|))
  {
    hide AfterNeedle, AfterPrefix, FirstAt, ValueAt, Nowhere, Spaced, Tight;
    if FirstAt(text, k, "\n" + Spaced(key)) && ValueAt(text, k + |Spaced(key)| + 1, was, until) {
      NeedleTaken(text, "\n" + Spaced(key), k, was, until);
    }
    if FirstAt(text, k, "\n" + Tight(key)) && ValueAt(text, k + |Tight(key)| + 1, was, until)
       && Nowhere(text, "\n" + Spaced(key), until) {
      ValueInside(text, k + |Tight(key)| + 1, was, until);
      NeedleTaken(text, "\n" + Tight(key), k, was, until);
      NeedleMissed(text, "\n" + Spaced(key), until);
    }
  }

  lemma ValueInside(text: string, p: nat, was: string, until: nat)
    requires ValueAt(text, p, was, until)
    ensures until <= |text|
  {
  }

  /** So is a key on the first line, where no later line has it. */
  lemma FirstKeyIsFound(text: string, key: string, was: string, until: nat)
    requires Nowhere(text, "\n" + Spaced(key), until) && Nowhere(text, "\n" + Tight(key), until)
    ensures At(text, 0, Spaced(key)) && ValueAt(text, |Spaced(key)|, was, until) ==>
              SpanOf(text, key, until) == Some((|Spaced(key)|, |Spaced(key)| + |was|))
    ensures At(text, 0, Tight(key)) && ValueAt(text, |Tight(key)|, was, until) && !At(text, 0, Spaced(key)) ==>
              SpanOf(text, key, until) == Some((|Tight(key)|, |Tight(key)| + |was|))
  {
    hide AfterNeedle, At, ValueAt, Nowhere, Spaced, Tight, Candidate;
    if until <= |text| {
      NeedleMissed(text, "\n" + Spaced(key), until);
      NeedleMissed(text, "\n" + Tight(key), until);
    }
    if At(text, 0, Spaced(key)) && ValueAt(text, |Spaced(key)|, was, until) {
      ValueInside(text, |Spaced(key)|, was, until);
      PrefixTaken(text, Spaced(key), was, until);
    }
    if At(text, 0, Tight(key)) && ValueAt(text, |Tight(key)|, was, until) && !At(text, 0, Spaced(key)) {
      ValueInside(text, |Tight(key)|, was, until);
      PrefixTaken(text, Tight(key), was, until);
    }
  }

  /** What is found stands behind the key, at the start of a line inside the bound, and is no comment. */
  lemma FoundIsKeyed(text: string, key: string, until: nat)
    requires until <= |text| && SpanOf(text, key, until).Some?
    ensures var p := SpanOf(text, key, until).value.0;
            && p < until && Lead(Line(text, p, until)) != Some('#')
            && (exists q <- [Spaced(key), Tight(key)] ::
                  |q| <= p && text[p - |q|..p] == q && (p == |q| || text[p - |q| - 1] == '\n'))
  {
    hide Spaced, Tight, Lead, LineEnd, ValueEnd, Find, Line;
    var span := SpanOf(text, key, until);
    if AfterNeedle(text, "\n" + Spaced(key), until).Some? {
      KeyedByNeedle(text, Spaced(key), until);
    } else if AfterNeedle(text, "\n" + Tight(key), until).Some? {
      KeyedByNeedle(text, Tight(key), until);
    } else if AfterPrefix(text, Spaced(key), until).Some? {
      assert Spaced(key) in [Spaced(key), Tight(key)];
    } else {
      assert Tight(key) in [Spaced(key), Tight(key)];
    }
  }

  lemma KeyedByNeedle(text: string, q: string, until: nat)
    requires until <= |text| && AfterNeedle(text, "\n" + q, until).Some?
    ensures var p := AfterNeedle(text, "\n" + q, until).value.0;
            && p < until && Lead(Line(text, p, until)) != Some('#')
            && |q| < p && text[p - |q|..p] == q && text[p - |q| - 1] == '\n'
  {
    hide Lead, LineEnd, ValueEnd, Line;
    var k := Find(text, "\n" + q, 0, until).value;
    var slice := text[k..k + |"\n" + q|];
    assert slice == "\n" + q && slice[0] == text[k] == '\n';
    assert text[k + 1..k + 1 + |q|] == slice[1..] == q;
  }
}
