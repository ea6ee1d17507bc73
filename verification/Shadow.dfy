/** The shadow buffer: the daemon's own copy of the text just before the cursor. */
module Shadows {
  import opened Utf8
  import opened Texts

  datatype Shadow = Shadow(
    text: string,
    lastCursor: Option<nat>,
    selectedBeforeChars: nat,
    selectedAfterBytes: nat,
    selectedAfterChars: nat,
    pendingCommit: bool)

  const EMPTY := Shadow("", None, 0, 0, 0, false)

  /** The text a selection covers, on the side of the cursor where the anchor lies. */
  function SelectedBefore(text: string, cursor: nat, anchor: nat): string {
    var c, a := CharsWithin(text, cursor), CharsWithin(text, anchor);
    if a < c then text[a..c] else ""
  }

  function SelectedAfter(text: string, cursor: nat, anchor: nat): string {
    var c, a := CharsWithin(text, cursor), CharsWithin(text, anchor);
    if c < a then text[c..a] else ""
  }

  function Min(a: nat, b: nat): nat {
    if a <= b then a else b
  }

  /** What a frame makes of the shadow. */
  function Observed(text: string, cursor: nat, anchor: nat): Shadow {
    Shadow(
      text[..Min(CharsWithin(text, cursor), CharsWithin(text, anchor))],
      Some(cursor),
      |SelectedBefore(text, cursor, anchor)|,
      ByteLen(SelectedAfter(text, cursor, anchor)),
      |SelectedAfter(text, cursor, anchor)|,
      false)
  }

  /** What an edit makes of the shadow when `popped` characters go and `commit` comes. */
  function Edited(s: Shadow, popped: nat, commit: string): Shadow {
    s.(text := Drop(s.text, popped) + commit, pendingCommit := true)
  }

  function NoSelection(s: Shadow): Shadow {
    s.(selectedBeforeChars := 0, selectedAfterBytes := 0, selectedAfterChars := 0)
  }

  /** The bytes of the last `n` characters. */
  function TailBytes(s: string, n: nat): nat {
    ByteLen(s[|Drop(s, n)|..])
  }

  lemma TailBytesSplit(s: string, n: nat)
    ensures ByteLen(s) == ByteLen(Drop(s, n)) + TailBytes(s, n)
  {
    SplitAt(s, |Drop(s, n)|);
  }

  /** A frame with the anchor not before the cursor leaves exactly the text before the cursor. */
  lemma ObservedForward(text: string, cursor: nat, anchor: nat)
    requires cursor <= anchor
    ensures Observed(text, cursor, anchor).text == TextBefore(text, cursor)
    ensures Observed(text, cursor, anchor).selectedBeforeChars == 0
    ensures cursor == anchor ==> NoSelection(Observed(text, cursor, anchor)) == Observed(text, cursor, anchor)
  {
    CharsWithinMonotone(text, cursor, anchor);
  }

  /** What a frame selects is measured between cursor and anchor: behind the cursor in characters and bytes, before
  it in characters; the shadow ends where the first of the two stands. */
  lemma SelectionMeasured(text: string, cursor: nat, anchor: nat)
    ensures var o := Observed(text, cursor, anchor);
            var c, a := TextBefore(text, cursor), TextBefore(text, anchor);
            && (cursor <= anchor ==>
                  && o.text == c && o.selectedBeforeChars == 0
                  && |c| + o.selectedAfterChars == |a| && ByteLen(c) + o.selectedAfterBytes == ByteLen(a))
            && (anchor <= cursor ==>
                  && o.text == a && |a| + o.selectedBeforeChars == |c|
                  && o.selectedAfterChars == 0 && o.selectedAfterBytes == 0)
            && o.lastCursor == Some(cursor) && !o.pendingCommit
  {
    hide CharsWithin, ByteLen, Encode;
    if cursor <= anchor {
      CharsWithinMonotone(text, cursor, anchor);
      var c, a := CharsWithin(text, cursor), CharsWithin(text, anchor);
      SplitAt(text[..a], c);
      assert text[..a][..c] == text[..c] && text[..a][c..] == text[c..a];
      if c == a {
        assert text[c..a] == "";
      }
      NoBytes();
    }
    if anchor <= cursor {
      CharsWithinMonotone(text, anchor, cursor);
      NoBytes();
    }
  }

  lemma NoBytes()
    ensures ByteLen("") == 0
  {
  }

  class ShadowBuffer {
    var text: string
    var lastCursor: Option<nat>
    var selectedBeforeChars: nat
    var selectedAfterBytes: nat
    var selectedAfterChars: nat
    var pendingCommit: bool

    function Model(): Shadow
      reads this
    {
      Shadow(text, lastCursor, selectedBeforeChars, selectedAfterBytes, selectedAfterChars, pendingCommit)
    }

    constructor ()
      ensures Model() == EMPTY
    {
      text, lastCursor, selectedBeforeChars, selectedAfterBytes := "", None, 0, 0;
      selectedAfterChars, pendingCommit := 0, false;
    }

    method Append(s: string)
      modifies this
      ensures Model() == old(Model()).(text := old(text) + s)
    {
      text := text + s;
    }

    /** Pops `n` characters one by one and reports the bytes and characters that went. */
    method PopChars(n: nat) returns (bytes: nat, chars: nat)
      modifies this
      ensures Model() == old(Model()).(text := Drop(old(text), n))
      ensures bytes == TailBytes(old(text), n)
      ensures chars == Min(n, |old(text)|)
    {
      bytes, chars := 0, 0;
      ghost var s := text;
      for i := 0 to n
        invariant text == Drop(s, i)
        invariant Model() == old(Model()).(text := text)
        invariant bytes == TailBytes(s, i) && chars == Min(i, |s|)
      {
        if text == "" {
          break;
        }
        var last := text[|text| - 1];
        TailBytesSplit(s, i);
        TailBytesSplit(s, i + 1);
        EncodeConcat(text[..|text| - 1], [last]);
        assert text == text[..|text| - 1] + [last];
        assert ByteLen([last]) == Width(last);
        text := text[..|text| - 1];
        bytes, chars := bytes + Width(last), chars + 1;
      }
    }

    method Clear()
      modifies this
      ensures Model() == EMPTY
    {
      text, lastCursor, selectedBeforeChars, selectedAfterBytes := "", None, 0, 0;
      selectedAfterChars, pendingCommit := 0, false;
    }

    method PopDeleteSpan(backspaces: nat)
      returns (beforeBytes: nat, beforeChars: nat, afterBytes: nat, afterChars: nat)
      modifies this
      ensures var popped := backspaces + old(selectedBeforeChars);
              && Model() == NoSelection(old(Model())).(text := Drop(old(text), popped))
              && beforeBytes == TailBytes(old(text), popped)
              && beforeChars == Min(popped, |old(text)|)
      ensures afterBytes == old(selectedAfterBytes) && afterChars == old(selectedAfterChars)
    {
      beforeBytes, beforeChars := PopChars(backspaces + selectedBeforeChars);
      afterBytes, afterChars := selectedAfterBytes, selectedAfterChars;
      selectedBeforeChars, selectedAfterBytes, selectedAfterChars := 0, 0, 0;
    }

    method ObserveSurrounding(frame: string, cursor: nat, anchor: nat) returns (unexpectedMove: bool)
      modifies this
      ensures Model() == Observed(frame, cursor, anchor)
      ensures unexpectedMove <==>
              !old(pendingCommit) && old(lastCursor).Some? && old(lastCursor).value != cursor
    {
      var c, a := CharsWithin(frame, cursor), CharsWithin(frame, anchor);
      unexpectedMove := !pendingCommit && lastCursor.Some? && lastCursor.value != cursor;
      text := frame[..Min(c, a)];
      if a < c {
        var selected := frame[a..c];
        selectedBeforeChars, selectedAfterBytes, selectedAfterChars := |selected|, 0, 0;
      } else if a > c {
        var selected := frame[c..a];
        selectedBeforeChars, selectedAfterBytes, selectedAfterChars := 0, ByteLen(selected), |selected|;
      } else {
        selectedBeforeChars, selectedAfterBytes, selectedAfterChars := 0, 0, 0;
      }
      lastCursor := Some(cursor);
      pendingCommit := false;
    }
  }
}
