/** The client application's document, and what each delivery channel does to it. */
module Clients {
  import opened Utf8
  import opened Texts
  import opened Shadows
  import opened Strategies

  /** Text before the cursor, the selection that runs on from the cursor, and the rest. */
  datatype Doc = Doc(before: string, selected: string, after: string)

  /** Input-method-v2 clients apply a batch at its commit; v1 and IBus clients act at once.
  Wayland clients count deletes in bytes, IBus clients in characters. */
  datatype ClientKind = ImV2 | ImV1 | IBus

  /** A document with the batch that waits for its commit. */
  datatype Client = Client(doc: Doc, deletion: (nat, nat), insertion: string)

  function Idle(doc: Doc): Client {
    Client(doc, (0, 0), "")
  }

  function InsertText(doc: Doc, text: string): Doc {
    if text == "" then doc else Doc(doc.before + text, "", doc.after)
  }

  /** A Backspace key clears a selection if there is one, and else one character. */
  function BackspaceKey(doc: Doc): Doc {
    if doc.selected != "" then doc.(selected := "") else doc.(before := Drop(doc.before, 1))
  }

  /** A byte-counted delete; there is no meaning for one that cuts a character or overruns. */
  function DeleteBytes(doc: Doc, before: nat, after: nat): Option<Doc> {
    var tail := doc.selected + doc.after;
    if before > ByteLen(doc.before) || !IsCharBoundary(doc.before, ByteLen(doc.before) - before) then None
    else if after > ByteLen(tail) || !IsCharBoundary(tail, after) then None
    else
      var kept := TextBefore(doc.before, ByteLen(doc.before) - before);
      if after == 0 then Some(doc.(before := kept))
      else Some(Doc(kept, "", tail[CharsWithin(tail, after)..]))
  }

  /** IBus: `offset = -before`, `n = before + after`, in characters. */
  function DeleteChars(doc: Doc, before: nat, after: nat): Option<Doc> {
    var tail := doc.selected + doc.after;
    if before > |doc.before| || after > |tail| then None
    else if after == 0 then Some(doc.(before := Drop(doc.before, before)))
    else Some(Doc(Drop(doc.before, before), "", tail[after..]))
  }

  function Receive(kind: ClientKind, c: Client, op: SinkOp): Option<Client> {
    match op
    case DeleteSurrounding(beforeBytes, beforeChars, afterBytes, afterChars) =>
      if kind == ImV2 then Some(c.(deletion := (beforeBytes, afterBytes)))
      else
        var doc := if kind == IBus then DeleteChars(c.doc, beforeChars, afterChars)
                   else DeleteBytes(c.doc, beforeBytes, afterBytes);
        if doc.None? then None else Some(c.(doc := doc.value))
    case CommitString(text) =>
      if kind == ImV2 then Some(c.(insertion := text))
      else Some(c.(doc := InsertText(c.doc, text)))
    case Commit =>
      if kind != ImV2 then Some(c)
      else
        var doc := DeleteBytes(c.doc, c.deletion.0, c.deletion.1);
        if doc.None? then None else Some(Idle(InsertText(doc.value, c.insertion)))
    case VkKey(code, pressed) =>
      if code == KEY_BACKSPACE && pressed then Some(c.(doc := BackspaceKey(c.doc))) else Some(c)
    case KeyChannelText(text) => Some(c.(doc := InsertText(c.doc, text)))
    case KeysymText(text) => Some(c.(doc := InsertText(c.doc, text)))
  }

  function ReceiveAll(kind: ClientKind, c: Client, ops: seq<SinkOp>): Option<Client>
    decreases |ops|
  {
    if ops == [] then Some(c)
    else
      var c' := Receive(kind, c, ops[0]);
      if c'.None? then None else ReceiveAll(kind, c'.value, ops[1..])
  }

  lemma {:induction false} ReceiveConcat(kind: ClientKind, c: Client, a: seq<SinkOp>, b: seq<SinkOp>)
    requires ReceiveAll(kind, c, a).Some?
    ensures ReceiveAll(kind, c, a + b) == ReceiveAll(kind, ReceiveAll(kind, c, a).value, b)
    decreases |a|
  {
    if a == [] {
      assert a + b == b;
    } else {
      assert (a + b)[1..] == a[1..] + b;
      ReceiveConcat(kind, Receive(kind, c, a[0]).value, a[1..], b);
    }
  }

  lemma {:induction false} ReceivePair(kind: ClientKind, c: Client, a: SinkOp, b: SinkOp)
    requires Receive(kind, c, a).Some?
    ensures ReceiveAll(kind, c, [a, b]) == Receive(kind, Receive(kind, c, a).value, b)
  {
    var c' := Receive(kind, c, a).value;
    assert [a, b][1..] == [b] && [b][1..] == [];
    assert ReceiveAll(kind, c', [b]) == Receive(kind, c', b) by {
      if Receive(kind, c', b).Some? {
        assert ReceiveAll(kind, Receive(kind, c', b).value, []) == Receive(kind, c', b);
      }
    }
  }

  /** `n` Backspace keys: the first clears a selection, the others take a character each. */
  function AfterBackspaces(doc: Doc, n: nat): Doc {
    if n == 0 then doc
    else if doc.selected == "" then doc.(before := Drop(doc.before, n))
    else Doc(Drop(doc.before, n - 1), "", doc.after)
  }

  lemma OneMoreBackspace(doc: Doc, n: nat)
    requires n > 0
    ensures BackspaceKey(AfterBackspaces(doc, n - 1)) == AfterBackspaces(doc, n)
  {
  }

  lemma PressAndRelease(kind: ClientKind, doc: Doc)
    ensures ReceiveAll(kind, Idle(doc), [VkKey(KEY_BACKSPACE, true), VkKey(KEY_BACKSPACE, false)])
         == Some(Idle(BackspaceKey(doc)))
  {
    hide ReceiveAll, BackspaceKey;
    ReceivePair(kind, Idle(doc), VkKey(KEY_BACKSPACE, true), VkKey(KEY_BACKSPACE, false));
  }

  lemma {:induction false} BackspaceKeysDelete(kind: ClientKind, doc: Doc, n: nat)
    ensures ReceiveAll(kind, Idle(doc), BackspaceKeys(n)) == Some(Idle(AfterBackspaces(doc, n)))
  {
    if n > 0 {
      hide ReceiveAll, Receive, AfterBackspaces, BackspaceKey, Idle;
      BackspaceKeysDelete(kind, doc, n - 1);
      ReceiveConcat(kind, Idle(doc), BackspaceKeys(n - 1), [VkKey(KEY_BACKSPACE, true), VkKey(KEY_BACKSPACE, false)]);
      PressAndRelease(kind, AfterBackspaces(doc, n - 1));
      OneMoreBackspace(doc, n);
    }
  }

  lemma {:induction false} DeleteNothing(doc: Doc)
    ensures DeleteBytes(doc, 0, 0) == Some(doc)
  {
    assert doc.before[..|doc.before|] == doc.before;
    OffsetOf(doc.before, |doc.before|);
  }

  lemma {:induction false} CommitInserts(kind: ClientKind, doc: Doc, text: string)
    ensures ReceiveAll(kind, Idle(doc), [CommitString(text), Commit]) == Some(Idle(InsertText(doc, text)))
  {
    DeleteNothing(doc);
    ReceivePair(kind, Idle(doc), CommitString(text), Commit);
  }

  /** The byte length of a tail, counted back from the end, is where the tail begins. */
  lemma {:induction false} TailOffset(text: string, k: nat)
    requires k <= |text|
    ensures ByteLen(text[k..]) <= ByteLen(text)
    ensures IsCharBoundary(text, ByteLen(text) - ByteLen(text[k..]))
    ensures TextBefore(text, ByteLen(text) - ByteLen(text[k..])) == text[..k]
  {
    SplitAt(text, k);
    hide Encode, EncodeChar, CharsWithin, IsCharBoundary, ByteLen;
    OffsetOf(text, k);
  }

  /** The byte length of the shadow's last characters always ends on a character boundary of the
  document, and deletes exactly those characters. */
  lemma {:induction false} TailDeleteIsAligned(before: string, shadow: string, n: nat)
    requires IsSuffix(shadow, before)
    ensures TailBytes(shadow, n) <= ByteLen(before)
    ensures IsCharBoundary(before, ByteLen(before) - TailBytes(shadow, n))
    ensures TextBefore(before, ByteLen(before) - TailBytes(shadow, n)) == Drop(before, Min(n, |shadow|))
  {
    hide Encode, EncodeChar, CharsWithin, IsCharBoundary, TextBefore, ByteLen;
    var k := |before| - Min(n, |shadow|);
    assert shadow[|Drop(shadow, n)|..] == before[k..];
    TailOffset(before, k);
  }

  /** The shadow and the document agree about the text before the cursor and the selection. */
  predicate InSync(s: Shadow, doc: Doc) {
    && IsSuffix(s.text, doc.before)
    && s.selectedBeforeChars == 0
    && s.selectedAfterChars == |doc.selected|
    && s.selectedAfterBytes == ByteLen(doc.selected)
  }

  /** The abstract edit: delete the last `n` characters before the cursor, insert `commit`. */
  function EditDoc(doc: Doc, n: nat, commit: string): Doc {
    Doc(Drop(doc.before, n) + commit, "", doc.after)
  }

  /** An input-method-v2 batch deletes before it inserts. */
  lemma {:induction false} ReceiveBatch(doc: Doc, bytes: nat, chars: nat, commit: string)
    requires DeleteBytes(doc, bytes, 0).Some?
    ensures ReceiveAll(ImV2, Idle(doc), [DeleteSurrounding(bytes, chars, 0, 0), CommitString(commit), Commit])
         == Some(Idle(InsertText(DeleteBytes(doc, bytes, 0).value, commit)))
  {
    var del, ins := DeleteSurrounding(bytes, chars, 0, 0), CommitString(commit);
    assert [del, ins, Commit][1..] == [ins, Commit];
    ReceivePair(ImV2, Idle(doc).(deletion := (bytes, 0)), ins, Commit);
  }

  lemma {:induction false} ByteDeleteRefines(kind: ClientKind, s: Shadow, doc: Doc, n: nat, commit: string)
    requires InSync(s, doc) && doc.selected == ""
    ensures ReceiveAll(kind, Idle(doc), SurroundingOps(s, n, commit, Bytes))
         == Some(Idle(EditDoc(doc, Min(n, |s.text|), commit)))
  {
    hide TailBytes, TextBefore;
    TailDeleteIsAligned(doc.before, s.text, n);
    var bytes, chars := TailBytes(s.text, n), Min(n, |s.text|);
    var del, ins := DeleteSurrounding(bytes, chars, 0, 0), CommitString(commit);
    var kept := Doc(Drop(doc.before, chars), "", doc.after);
    assert DeleteBytes(doc, bytes, 0) == DeleteChars(doc, chars, 0) == Some(kept);
    assert InsertText(kept, commit) == EditDoc(doc, chars, commit) by {
      assert kept.before + "" == kept.before;
    }
    if kind == ImV2 {
      ReceiveBatch(doc, bytes, chars, commit);
    } else {
      assert [del, ins, Commit][1..] == [ins, Commit];
      CommitInserts(kind, kept, commit);
    }
  }

  lemma {:induction false} SelectionFallbackRefines(kind: ClientKind, s: Shadow, doc: Doc, n: nat, commit: string)
    requires InSync(s, doc) && doc.selected != ""
    ensures ReceiveAll(kind, Idle(doc), SurroundingOps(s, n, commit, Bytes)) == Some(Idle(EditDoc(doc, n, commit)))
  {
    var cleared := AfterBackspaces(doc, n + 1);
    BackspaceKeysDelete(kind, doc, n + 1);
    ReceiveConcat(kind, Idle(doc), BackspaceKeys(n + 1), [CommitString(commit), Commit]);
    CommitInserts(kind, cleared, commit);
    assert InsertText(cleared, commit) == EditDoc(doc, n, commit) by {
      assert cleared.before + "" == cleared.before;
    }
  }

  /** On every kind of client the surrounding channel, counting bytes, performs the abstract edit
  and keeps the text after the selection.  Without a selection, an edit that asks for more
  than the shadow holds deletes what the shadow holds. */
  lemma {:induction false} SurroundingRefines(kind: ClientKind, s: Shadow, doc: Doc, n: nat, commit: string)
    requires InSync(s, doc)
    ensures ReceiveAll(kind, Idle(doc), SurroundingOps(s, n, commit, Bytes))
         == Some(Idle(EditDoc(doc, if doc.selected == "" then Min(n, |s.text|) else n, commit)))
  {
    if doc.selected == "" {
      ByteDeleteRefines(kind, s, doc, n, commit);
    } else {
      SelectionFallbackRefines(kind, s, doc, n, commit);
    }
  }

  /** The Backspace channel, exactly: a selection costs the first key, and an edit that
  neither deletes nor inserts leaves it alone. */
  lemma {:induction false} ForwardExact(kind: ClientKind, ch: Channels, doc: Doc, n: nat, commit: string, prefer: bool)
    ensures ReceiveAll(kind, Idle(doc), ForwardOps(ch, n, commit, prefer))
         == Some(Idle(InsertText(AfterBackspaces(doc, n), commit)))
  {
    var tail := ForwardOps(ch, n, commit, prefer)[|BackspaceKeys(n)|..];
    BackspaceKeysDelete(kind, doc, n);
    ReceiveConcat(kind, Idle(doc), BackspaceKeys(n), tail);
    CommitInserts(kind, AfterBackspaces(doc, n), commit);
  }

  /** The Backspace channel performs the abstract edit exactly when no selection swallows one
  of its keys: there is none, or the edit deletes nothing but does insert, or there was
  nothing to delete in any case. */
  lemma {:induction false} ForwardRefinesIff(kind: ClientKind, ch: Channels, doc: Doc, n: nat, commit: string,
          prefer: bool)
    ensures ReceiveAll(kind, Idle(doc), ForwardOps(ch, n, commit, prefer)) == Some(Idle(EditDoc(doc, n, commit)))
      <==> doc.selected == "" || (if n == 0 then commit != "" else |doc.before| < n)
  {
    ForwardExact(kind, ch, doc, n, commit, prefer);
    assert Drop(doc.before, 0) == doc.before;
    assert Drop(doc.before, n) + "" == Drop(doc.before, n);
    if n > 0 {
      assert Drop(doc.before, n - 1) + "" == Drop(doc.before, n - 1);
    }
    if doc.selected != "" && 0 < n <= |doc.before| {
      assert |Drop(doc.before, n - 1) + commit| != |Drop(doc.before, n) + commit|;
    }
  }

  /** Both channels are one edit: with the shadow in sync, no selection, and no more backspaces than
  the shadow holds, every route on every client gives the same document. */
  lemma {:induction false} ChannelsAgree(kind: ClientKind, kind': ClientKind, ch: Channels, s: Shadow, doc: Doc,
          n: nat, commit: string, prefer: bool)
    requires InSync(s, doc) && doc.selected == ""
    requires n <= |s.text|
    ensures ReceiveAll(kind, Idle(doc), SurroundingOps(s, n, commit, Bytes))
         == ReceiveAll(kind', Idle(doc), ForwardOps(ch, n, commit, prefer))
         == Some(Idle(EditDoc(doc, n, commit)))
  {
    SurroundingRefines(kind, s, doc, n, commit);
    ForwardRefinesIff(kind', ch, doc, n, commit, prefer);
  }

  /** After an edit on either channel the shadow is still a suffix of the document. */
  lemma {:induction false} EditKeepsSuffix(s: Shadow, doc: Doc, n: nat, commit: string)
    requires IsSuffix(s.text, doc.before)
    ensures IsSuffix(Drop(s.text, n) + commit, Drop(doc.before, n) + commit)
    ensures IsSuffix(Drop(s.text, n) + commit, Drop(doc.before, Min(n, |s.text|)) + commit)
  {
    SuffixEdit(s.text, doc.before, n, commit);
    SuffixEdit(s.text, doc.before, Min(n, |s.text|), commit);
  }

  lemma {:induction false} AsciiBytesExact(s: string)
    ensures |s| <= ByteLen(s)
    ensures ByteLen(s) == |s| <==> IsAscii(s)
  {
    if s != "" {
      AsciiBytesExact(s[1..]);
      assert s == [s[0]] + s[1..] && (Width(s[0]) == 1 <==> s[0] as int < 0x80);
      assert IsAscii(s) <==> s[0] as int < 0x80 && IsAscii(s[1..]) by {
        assert s[0] in s && forall c <- s[1..] :: c in s;
      }
    }
  }

  lemma SameHead(a: string, b: string, tail: string)
    ensures a + tail == b + tail <==> a == b
  {
    if a + tail == b + tail {
      assert |a| == |b| && a == (a + tail)[..|a|] && b == (b + tail)[..|b|];
    }
  }

  /** `chars` bytes off the end are `chars` characters exactly when those are ASCII. */
  lemma {:induction false} CutExact(before: string, chars: nat)
    requires chars <= |before|
    ensures chars <= ByteLen(before)
    ensures var i := ByteLen(before) - chars;
            (IsCharBoundary(before, i) && TextBefore(before, i) == Drop(before, chars))
            <==> IsAscii(before[|before| - chars..])
  {
    hide Encode, EncodeChar, CharsWithin, IsCharBoundary, IsAscii, ByteLen, TextBefore;
    var k := |before| - chars;
    AsciiBytesExact(before);
    AsciiBytesExact(before[k..]);
    TailOffset(before, k);
    if IsCharBoundary(before, ByteLen(before) - chars) {
      BoundaryIff(before, ByteLen(before) - chars);
      assert before[..k] == Drop(before, chars);
      BoundaryIff(before, ByteLen(before) - ByteLen(before[k..]));
    }
  }

  lemma {:induction false} DeleteBefore(doc: Doc, bytes: nat)
    ensures DeleteBytes(doc, bytes, 0)
         == if bytes <= ByteLen(doc.before) && IsCharBoundary(doc.before, ByteLen(doc.before) - bytes) then
              Some(doc.(before := TextBefore(doc.before, ByteLen(doc.before) - bytes)))
            else None
  {
    assert IsCharBoundary(doc.selected + doc.after, 0);
    hide Encode, EncodeChar, CharsWithin, IsCharBoundary, ByteLen, TextBefore;
  }

  /** A delete of `chars` bytes where the last `chars` characters are meant. */
  lemma {:induction false} CharCountedDelete(doc: Doc, chars: nat)
    requires chars <= |doc.before| && doc.selected == ""
    ensures DeleteBytes(doc, chars, 0) == Some(doc.(before := Drop(doc.before, chars)))
       <==> IsAscii(doc.before[|doc.before| - chars..])
    ensures var after := DeleteBytes(doc, chars, 0);
            after.Some? ==> after.value.selected == "" && after.value.after == doc.after
  {
    hide TextBefore, IsCharBoundary, IsAscii, ByteLen, DeleteBytes, Drop;
    CutExact(doc.before, chars);
    DeleteBefore(doc, chars);
  }

  /** Characters are not bytes: a character count sent to a client that counts bytes performs the edit exactly
  when the characters to delete are ASCII. */
  lemma {:induction false} CharUnitExact(kind: ClientKind, s: Shadow, doc: Doc, n: nat, commit: string)
    requires InSync(s, doc) && doc.selected == "" && kind != IBus
    ensures var chars := Min(n, |s.text|);
            (ReceiveAll(kind, Idle(doc), SurroundingOps(s, n, commit, Chars)) == Some(Idle(EditDoc(doc, chars, commit)))
             <==> IsAscii(s.text[|s.text| - chars..]))
  {
    hide TailBytes, TextBefore, DeleteBytes, IsAscii, ReceiveAll;
    var chars := Min(n, |s.text|);
    CharCountedDelete(doc, chars);
    assert doc.before[|doc.before| - chars..] == s.text[|s.text| - chars..];
    var after := DeleteBytes(doc, chars, 0);
    CountedBatch(kind, doc, chars, commit);
    if after.Some? {
      SameHead(after.value.before, Drop(doc.before, chars), commit);
      assert after.value.before + "" == after.value.before;
    }
  }

  lemma {:induction false} CountedBatch(kind: ClientKind, doc: Doc, count: nat, commit: string)
    requires kind != IBus
    ensures var result := ReceiveAll(kind, Idle(doc), [DeleteSurrounding(count, count, 0, 0), CommitString(commit), Commit]);
            var after := DeleteBytes(doc, count, 0);
            if after.None? then result.None? else result == Some(Idle(InsertText(after.value, commit)))
  {
    hide DeleteBytes;
    var del, ins := DeleteSurrounding(count, count, 0, 0), CommitString(commit);
    assert [del, ins, Commit][1..] == [ins, Commit];
    if DeleteBytes(doc, count, 0).Some? {
      if kind == ImV2 {
        ReceiveBatch(doc, count, count, commit);
      } else {
        CommitInserts(kind, DeleteBytes(doc, count, 0).value, commit);
      }
    } else if kind == ImV2 {
      ReceivePair(kind, Idle(doc).(deletion := (count, 0)), ins, Commit);
    }
  }
}
