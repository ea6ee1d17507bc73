/** The edit strategy: one abstract edit, "delete the last n characters and insert a text",
delivered either as a byte-counted delete or as Backspace keys. */
module Strategies {
  import opened Utf8
  import opened Texts
  import opened Shadows

  datatype BackspaceMethod = SurroundingText | ForwardKey

  datatype DeleteUnit = Bytes | Chars

  datatype SinkOp =
    | DeleteSurrounding(beforeBytes: nat, beforeChars: nat, afterBytes: nat, afterChars: nat)
    | CommitString(text: string)
    | Commit
    | VkKey(code: nat, pressed: bool)
    | KeyChannelText(text: string)
    | KeysymText(text: string)

  const KEY_BACKSPACE: nat := 14

  /** Which whole replacements a backend takes on its key channel and on its keysym channel. */
  datatype Channels = Channels(keyChannel: string -> bool, keysym: string -> bool)

  function BackspaceKeys(n: nat): seq<SinkOp> {
    if n == 0 then []
    else BackspaceKeys(n - 1) + [VkKey(KEY_BACKSPACE, true), VkKey(KEY_BACKSPACE, false)]
  }

  /** Presses and releases of the one key, in turn. */
  lemma {:induction false} BackspaceKeysAre(n: nat)
    ensures |BackspaceKeys(n)| == 2 * n
    ensures forall i :: 0 <= i < 2 * n ==> BackspaceKeys(n)[i] == VkKey(KEY_BACKSPACE, i % 2 == 0)
    ensures forall op <- BackspaceKeys(n) :: op.VkKey?
    decreases n
  {
    if n > 0 {
      BackspaceKeysAre(n - 1);
    }
  }

  function SurroundingOps(s: Shadow, backspaces: nat, commit: string, unit: DeleteUnit): seq<SinkOp> {
    var popped := backspaces + s.selectedBeforeChars;
    var bytes, chars := TailBytes(s.text, popped), Min(popped, |s.text|);
    if s.selectedAfterBytes > 0 || s.selectedAfterChars > 0 then
      BackspaceKeys(backspaces + 1) + [CommitString(commit), Commit]
    else
      var before := if unit == Bytes then bytes else chars;
      [DeleteSurrounding(before, chars, 0, 0), CommitString(commit), Commit]
  }

  function SurroundingShadow(s: Shadow, backspaces: nat, commit: string): Shadow {
    Edited(NoSelection(s), backspaces + s.selectedBeforeChars, commit)
  }

  function ForwardOps(ch: Channels, backspaces: nat, commit: string, preferKeyChannel: bool): seq<SinkOp> {
    BackspaceKeys(backspaces)
    + if preferKeyChannel then
        if ch.keyChannel(commit) then [KeyChannelText(commit)] else [CommitString(commit), Commit]
      else if ch.keysym(commit) then [KeysymText(commit)]
      else [CommitString(commit), Commit]
  }

  /** After the Backspace keys the replacement goes out once and whole: on the channel preferred if the backend takes
  it there, and else as a committed string. */
  lemma ReplacementChannel(ch: Channels, backspaces: nat, commit: string, preferKeyChannel: bool)
    ensures var ops := ForwardOps(ch, backspaces, commit, preferKeyChannel);
            && BackspaceKeys(backspaces) <= ops
            && var rest := ops[|BackspaceKeys(backspaces)|..];
            if preferKeyChannel && ch.keyChannel(commit) then rest == [KeyChannelText(commit)]
            else if !preferKeyChannel && ch.keysym(commit) then rest == [KeysymText(commit)]
            else rest == [CommitString(commit), Commit]
  {
    BackspaceKeysAre(backspaces);
  }

  function ForwardShadow(s: Shadow, backspaces: nat, commit: string): Shadow {
    Edited(s, backspaces, commit)
  }

  /** What an edit leaves of the shadow: the tail popped and the text appended, a commit that explains the next cursor
  move, and on the byte-counted channel no selection, which it pops and forgets. */
  lemma EditedExactly(s: Shadow, backspaces: nat, commit: string)
    ensures var a, b := SurroundingShadow(s, backspaces, commit), ForwardShadow(s, backspaces, commit);
            && a == Shadow(Drop(s.text, backspaces + s.selectedBeforeChars) + commit, s.lastCursor, 0, 0, 0, true)
            && b == Shadow(Drop(s.text, backspaces) + commit, s.lastCursor, s.selectedBeforeChars, s.selectedAfterBytes,
                           s.selectedAfterChars, true)
  {
  }

  /** An `OutputSink`: records what it was asked, and answers for a backend's channels. */
  class OutputSink {
    const channels: Channels
    var ops: seq<SinkOp>

    constructor (channels: Channels)
      ensures this.channels == channels && ops == []
    {
      this.channels := channels;
      ops := [];
    }

    method Send(op: SinkOp)
      modifies this
      ensures ops == old(ops) + [op]
    {
      ops := ops + [op];
    }

    method SendBackspaces(n: nat)
      modifies this
      ensures ops == old(ops) + BackspaceKeys(n)
    {
      for i := 0 to n
        invariant ops == old(ops) + BackspaceKeys(i)
      {
        Send(VkKey(KEY_BACKSPACE, true));
        Send(VkKey(KEY_BACKSPACE, false));
      }
    }

    method CommitKeyChannelText(text: string) returns (taken: bool)
      modifies this
      ensures taken == channels.keyChannel(text)
      ensures ops == old(ops) + if taken then [KeyChannelText(text)] else []
    {
      taken := channels.keyChannel(text);
      if taken {
        Send(KeyChannelText(text));
      }
    }

    method CommitViaKeysym(text: string) returns (taken: bool)
      modifies this
      ensures taken == channels.keysym(text)
      ensures ops == old(ops) + if taken then [KeysymText(text)] else []
    {
      taken := channels.keysym(text);
      if taken {
        Send(KeysymText(text));
      }
    }
  }

  /** `surrounding::apply`. */
  method ApplySurrounding(shadow: ShadowBuffer, backspaces: nat, commit: string, sink: OutputSink, unit: DeleteUnit)
    modifies shadow, sink
    ensures sink.ops == old(sink.ops) + SurroundingOps(old(shadow.Model()), backspaces, commit, unit)
    ensures shadow.Model() == SurroundingShadow(old(shadow.Model()), backspaces, commit)
  {
    hide ByteLen, BackspaceKeys;
    var beforeBytes, beforeChars, afterBytes, afterChars := shadow.PopDeleteSpan(backspaces);
    if afterBytes > 0 || afterChars > 0 {
      sink.SendBackspaces(backspaces + 1);
    } else {
      var before, after := beforeBytes, afterBytes;
      if unit == Chars {
        before, after := beforeChars, afterChars;
      }
      sink.Send(DeleteSurrounding(before, beforeChars, after, afterChars));
    }
    sink.Send(CommitString(commit));
    sink.Send(Commit);
    shadow.Append(commit);
    shadow.pendingCommit := true;
  }

  /** `forward_key::apply`. */
  method ApplyForwardKey(shadow: ShadowBuffer, backspaces: nat, commit: string, sink: OutputSink,
          preferKeyChannel: bool)
    modifies shadow, sink
    ensures sink.ops == old(sink.ops) + ForwardOps(sink.channels, backspaces, commit, preferKeyChannel)
    ensures shadow.Model() == ForwardShadow(old(shadow.Model()), backspaces, commit)
  {
    hide ByteLen, BackspaceKeys;
    sink.SendBackspaces(backspaces);
    if preferKeyChannel {
      var taken := sink.CommitKeyChannelText(commit);
      if !taken {
        sink.Send(CommitString(commit));
        sink.Send(Commit);
      }
    } else {
      var taken := sink.CommitViaKeysym(commit);
      if !taken {
        sink.Send(CommitString(commit));
        sink.Send(Commit);
      }
    }
    var _, _ := shadow.PopChars(backspaces);
    shadow.Append(commit);
    shadow.pendingCommit := true;
  }
}
