/** The three byte-level diff predicates that decide what a client frame proves.

Each compares UTF-8 bytes at offsets a client reported, which may fall inside a character.
The lemmas say what each one means on texts, in both directions. */
module Diff {
  import opened Utf8

  function Clamped(text: string, cursor: nat): nat {
    if cursor <= ByteLen(text) then cursor else ByteLen(text)
  }

  /** `EditModel::confirms_inserted_char`. */
  predicate ConfirmsInsertedChar(prev: string, text: string, cursor: nat, ch: char) {
    var cur := Clamped(text, cursor);
    var before := TextBefore(text, cur);
    && IsCharBoundary(text, cur)
    && before != []
    && before[|before| - 1] == ch
    && ByteLen(prev) + Width(ch) == ByteLen(text)
    && var start := ByteLen(before[..|before| - 1]);
    && start <= |Encode(prev)|
    && start <= cur <= |Encode(text)|
    && Encode(prev)[..start] == Encode(text)[..start]
    && Encode(prev)[start..] == Encode(text)[cur..]
  }

  predicate DetectOneCharInsertion(prev: string, prevCursor: nat, text: string, cursor: nat) {
    && prevCursor <= |Encode(prev)| && cursor <= |Encode(text)|
    && prevCursor < cursor
    && IsCharBoundary(prev, prevCursor)
    && IsCharBoundary(text, cursor)
    && IsCharBoundary(text, prevCursor)
    && Encode(text)[..prevCursor] == Encode(prev)[..prevCursor]
    && Encode(text)[cursor..] == Encode(prev)[prevCursor..]
    && CharsWithin(text, cursor) == CharsWithin(text, prevCursor) + 1
  }

  predicate DetectDeletion(prev: string, prevCursor: nat, text: string, cursor: nat) {
    && cursor <= prevCursor
    && cursor <= |Encode(text)| && prevCursor <= |Encode(prev)|
    && IsCharBoundary(text, cursor)
    && IsCharBoundary(prev, cursor)
    && IsCharBoundary(prev, prevCursor)
    && ByteLen(text) < ByteLen(prev)
    && Encode(text)[..cursor] == Encode(prev)[..cursor]
    && Encode(text)[cursor..] == Encode(prev)[prevCursor..]
    && cursor != prevCursor
  }

  /** `text` is `prev` with `mid` spliced in between `p` and `rest`. */
  predicate Spliced(prev: string, text: string, p: string, mid: string, rest: string) {
    prev == p + rest && text == p + mid + rest
  }

  lemma {:induction false} BoundarySplit(s: string, i: nat)
    requires i <= ByteLen(s)
    requires IsCharBoundary(s, i)
    ensures i <= |Encode(s)|
    ensures ByteLen(TextBefore(s, i)) == i
    ensures Encode(s)[..i] == Encode(TextBefore(s, i))
    ensures Encode(s)[i..] == Encode(s[CharsWithin(s, i)..])
  {
    BoundaryIff(s, i);
    SplitAt(s, CharsWithin(s, i));
  }

  /** Equal byte prefixes that end at boundaries are equal texts; likewise for the rests. */
  lemma {:induction false} SamePrefix(a: string, i: nat, b: string, j: nat)
    requires i <= ByteLen(a) && IsCharBoundary(a, i) && i <= |Encode(a)|
    requires j <= ByteLen(b) && IsCharBoundary(b, j) && j <= |Encode(b)|
    requires Encode(a)[..i] == Encode(b)[..j]
    ensures TextBefore(a, i) == TextBefore(b, j)
  {
    BoundarySplit(a, i);
    BoundarySplit(b, j);
    EncodeInjective(TextBefore(a, i), TextBefore(b, j));
  }

  lemma {:induction false} SameRest(a: string, i: nat, b: string, j: nat)
    requires i <= ByteLen(a) && IsCharBoundary(a, i) && i <= |Encode(a)|
    requires j <= ByteLen(b) && IsCharBoundary(b, j) && j <= |Encode(b)|
    requires Encode(a)[i..] == Encode(b)[j..]
    ensures a[CharsWithin(a, i)..] == b[CharsWithin(b, j)..]
  {
    BoundarySplit(a, i);
    BoundarySplit(b, j);
    EncodeInjective(a[CharsWithin(a, i)..], b[CharsWithin(b, j)..]);
  }

  /** A prefix of a text is a boundary of it, and the bytes split there. */
  lemma {:induction false} PrefixBoundary(a: string, b: string)
    ensures IsCharBoundary(a + b, ByteLen(a))
    ensures CharsWithin(a + b, ByteLen(a)) == |a|
    ensures |Encode(a + b)| == ByteLen(a + b) == ByteLen(a) + ByteLen(b)
    ensures Encode(a + b)[..ByteLen(a)] == Encode(a)
    ensures Encode(a + b)[ByteLen(a)..] == Encode(b)
  {
    assert (a + b)[..|a|] == a && (a + b)[|a|..] == b;
    OffsetOf(a + b, |a|);
    SplitAt(a + b, |a|);
  }

  /** A text whose bytes are those of two texts is their concatenation. */
  lemma {:induction false} BytesJoin(s: string, p: string, rest: string)
    requires ByteLen(p) <= |Encode(s)|
    requires Encode(s)[..ByteLen(p)] == Encode(p) && Encode(s)[ByteLen(p)..] == Encode(rest)
    ensures s == p + rest
  {
    EncodeConcat(p, rest);
    assert Encode(s) == Encode(p) + Encode(rest);
    EncodeInjective(s, p + rest);
  }

  lemma {:induction false} ConfirmsGivesSplice(prev: string, text: string, cursor: nat, ch: char)
    requires cursor <= ByteLen(text)
    requires ConfirmsInsertedChar(prev, text, cursor, ch)
    ensures var before := TextBefore(text, cursor);
            && before != []
            && Spliced(prev, text, before[..|before| - 1], [ch], text[|before|..])
            && cursor == ByteLen(before)
  {
    hide Encode, ByteLen, CharsWithin, EncodeChar, Width;
    var before := TextBefore(text, cursor);
    var p, rest := before[..|before| - 1], text[|before|..];
    var start := ByteLen(p);
    BoundarySplit(text, cursor);
    assert Encode(prev)[start..] == Encode(rest);
    assert Encode(prev)[..start] == Encode(p) by {
      SplitAt(before, |before| - 1);
      assert Encode(text)[..start] == Encode(before)[..start];
    }
    BytesJoin(prev, p, rest);
    assert before == p + [ch];
  }

  lemma {:induction false} SpliceGivesConfirms(prev: string, text: string, p: string, ch: char, rest: string)
    requires Spliced(prev, text, p, [ch], rest)
    ensures ConfirmsInsertedChar(prev, text, ByteLen(p + [ch]), ch)
    ensures TextBefore(text, ByteLen(p + [ch])) == p + [ch]
  {
    hide Encode, CharsWithin, EncodeChar;
    PrefixBoundary(p + [ch], rest);
    PrefixBoundary(p, rest);
    EncodeConcat(p, [ch]);
    assert (p + [ch])[..|p|] == p;
    assert text[..|p| + 1] == p + [ch];
    EncodeLength(p);
    EncodeLength(prev);
    assert Encode(text)[..ByteLen(p)] == Encode(text)[..ByteLen(p + [ch])][..ByteLen(p)];
  }

  /** `confirms_inserted_char` holds exactly when the text is the last recorded one with the
  key spliced in just before the cursor, wherever that is. */
  lemma {:induction false} ConfirmsInsertedCharExact(prev: string, text: string, cursor: nat, ch: char)
    ensures ConfirmsInsertedChar(prev, text, cursor, ch)
      <==> exists p, rest :: Spliced(prev, text, p, [ch], rest) && Clamped(text, cursor) == ByteLen(p + [ch])
  {
    var cur := Clamped(text, cursor);
    if ConfirmsInsertedChar(prev, text, cursor, ch) {
      ConfirmsGivesSplice(prev, text, cur, ch);
      var before := TextBefore(text, cur);
      var p, rest := before[..|before| - 1], text[|before|..];
      assert before == p + [ch];
      assert Spliced(prev, text, p, [ch], rest);
    }
    forall p, rest | Spliced(prev, text, p, [ch], rest) && cur == ByteLen(p + [ch])
      ensures ConfirmsInsertedChar(prev, text, cursor, ch)
    {
      SpliceGivesConfirms(prev, text, p, ch, rest);
    }
  }

  lemma {:induction false} InsertionGivesSplice(prev: string, prevCursor: nat, text: string, cursor: nat)
    requires DetectOneCharInsertion(prev, prevCursor, text, cursor)
    ensures var p := TextBefore(text, prevCursor);
            && |p| < |text|
            && Spliced(prev, text, p, [text[|p|]], text[|p| + 1..])
            && prevCursor == ByteLen(p) && cursor == ByteLen(p + [text[|p|]])
  {
    hide Encode, CharsWithin, EncodeChar;
    EncodeLength(prev);
    EncodeLength(text);
    SamePrefix(text, prevCursor, prev, prevCursor);
    SameRest(text, cursor, prev, prevCursor);
    BoundaryIff(text, prevCursor);
    BoundaryIff(text, cursor);
    var p := TextBefore(text, prevCursor);
    assert TextBefore(text, cursor) == p + [text[|p|]];
  }

  lemma {:induction false} SpliceGivesInsertion(prev: string, text: string, p: string, ch: char, rest: string)
    requires Spliced(prev, text, p, [ch], rest)
    ensures DetectOneCharInsertion(prev, ByteLen(p), text, ByteLen(p + [ch]))
  {
    hide Encode, CharsWithin, EncodeChar;
    PrefixBoundary(p, rest);
    PrefixBoundary(p + [ch], rest);
    assert text == p + ([ch] + rest);
    PrefixBoundary(p, [ch] + rest);
    EncodeConcat(p, [ch]);
  }

  /** `detect_one_char_insertion` holds exactly when one character was typed at the previous
  cursor and the new cursor is just after it. */
  lemma {:induction false} OneCharInsertionExact(prev: string, prevCursor: nat, text: string, cursor: nat)
    ensures DetectOneCharInsertion(prev, prevCursor, text, cursor)
      <==> exists p, ch, rest :: Spliced(prev, text, p, [ch], rest)
                                 && prevCursor == ByteLen(p) && cursor == ByteLen(p + [ch])
  {
    if DetectOneCharInsertion(prev, prevCursor, text, cursor) {
      InsertionGivesSplice(prev, prevCursor, text, cursor);
    }
    forall p, ch, rest | Spliced(prev, text, p, [ch], rest)
                         && prevCursor == ByteLen(p) && cursor == ByteLen(p + [ch])
      ensures DetectOneCharInsertion(prev, prevCursor, text, cursor)
    {
      SpliceGivesInsertion(prev, text, p, ch, rest);
    }
  }

  lemma {:induction false} DeletionGivesSplice(prev: string, prevCursor: nat, text: string, cursor: nat)
    requires DetectDeletion(prev, prevCursor, text, cursor)
    ensures var j, k := CharsWithin(prev, cursor), CharsWithin(prev, prevCursor);
            && j < k
            && Spliced(text, prev, prev[..j], prev[j..k], prev[k..])
            && cursor == ByteLen(prev[..j]) && prevCursor == ByteLen(prev[..j] + prev[j..k])
  {
    hide Encode, CharsWithin, EncodeChar;
    EncodeLength(prev);
    EncodeLength(text);
    SamePrefix(text, cursor, prev, cursor);
    SameRest(text, cursor, prev, prevCursor);
    BoundaryIff(prev, cursor);
    BoundaryIff(prev, prevCursor);
    CharsWithinMonotone(prev, cursor, prevCursor);
    var j, k := CharsWithin(prev, cursor), CharsWithin(prev, prevCursor);
    assert prev[..k] == prev[..j] + prev[j..k];
    assert text == TextBefore(text, cursor) + text[CharsWithin(text, cursor)..];
  }

  lemma {:induction false} SpliceGivesDeletion(prev: string, text: string, p: string, mid: string, rest: string)
    requires Spliced(text, prev, p, mid, rest)
    requires mid != []
    ensures DetectDeletion(prev, ByteLen(p + mid), text, ByteLen(p))
  {
    hide Encode, CharsWithin, EncodeChar;
    EncodeConcat(p, mid);
    var start, end := ByteLen(p), ByteLen(p + mid);
    assert start < end;
    PrefixBoundary(p, rest);
    assert IsCharBoundary(prev, end) && Encode(prev)[end..] == Encode(rest) && |Encode(prev)| == ByteLen(prev) by {
      PrefixBoundary(p + mid, rest);
    }
    assert IsCharBoundary(prev, start) && Encode(prev)[..start] == Encode(p) by {
      assert p + mid + rest == p + (mid + rest);
      PrefixBoundary(p, mid + rest);
    }
    assert ByteLen(prev) == end + ByteLen(rest) by {
      EncodeConcat(p + mid, rest);
    }
  }

  /** `detect_deletion` holds exactly when a non-empty run of whole characters ending at the
  previous cursor was removed, leaving the cursor where the run began. */
  lemma {:induction false} DeletionExact(prev: string, prevCursor: nat, text: string, cursor: nat)
    ensures DetectDeletion(prev, prevCursor, text, cursor)
      <==> exists p, mid, rest :: Spliced(text, prev, p, mid, rest) && mid != []
                                  && cursor == ByteLen(p) && prevCursor == ByteLen(p + mid)
  {
    if DetectDeletion(prev, prevCursor, text, cursor) {
      DeletionGivesSplice(prev, prevCursor, text, cursor);
    }
    forall p, mid, rest | Spliced(text, prev, p, mid, rest) && mid != []
                          && cursor == ByteLen(p) && prevCursor == ByteLen(p + mid)
      ensures DetectDeletion(prev, prevCursor, text, cursor)
    {
      SpliceGivesDeletion(prev, text, p, mid, rest);
    }
  }

  /** A typed character that is taken back reads as a deletion. */
  lemma {:induction false} InsertionReversedIsDeletion(prev: string, prevCursor: nat, text: string, cursor: nat)
    requires DetectOneCharInsertion(prev, prevCursor, text, cursor)
    ensures DetectDeletion(text, cursor, prev, prevCursor)
  {
    InsertionGivesSplice(prev, prevCursor, text, cursor);
    var p := TextBefore(text, prevCursor);
    SpliceGivesDeletion(text, prev, p, [text[|p|]], text[|p| + 1..]);
  }
}
