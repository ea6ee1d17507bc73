# Vietnamese input method: a verified model of the edit core

The input method turns key presses into Vietnamese text inside other applications. Three views of one
text have to agree: the word in the composing engine, a *shadow* of the text before the cursor, and the
client application's document, which reports back only through late, repeated or stale frames. This
project models the code that keeps them together, and proves what it promises.

`dafny verify dfyconfig.toml` checks all of it.

## What is modelled

* **Text** (`Utf8`, `Texts`, `Diff`). Texts are sequences of Unicode scalars; byte offsets, character
  boundaries and byte lengths come from the UTF-8 encoding of section 3 of RFC 3629, so that bytes and
  characters are never assumed to line up.
* **The engine** (`Engines`) is a parameter: functions for a key, a Backspace and a word of context, and
  a view, the part of its text that is on screen. `Engines.Lawful` states the four laws the rest relies
  on: a consumed key deletes a tail of the view and appends; another key appends to the view or clears it;
  a Backspace that is not consumed drops the last character; feeding context is typing it from the start.
  Small composing engines meet them (`Samples.SampleIsLawful`).
* **Edits and clients** (`Shadows`, `Strategies`, `Clients`, `Firefox`). The byte-counted delete and the
  Backspace keys, the shadow they keep, the quirk that chooses between them, and three kinds of client.
* **The confirmation machine** (`Composers`, `Runs`, with the object itself in `ComposerClass`).
  `Agreement`, `Safety`, `QuirkRuns` and `Tracking` hold the theorems about its runs; `Outcomes` and `Typing` say what
  each event must do, up to the text that typing leaves on screen; `Exceptions` reaches each excluded case from a
  new composer, with two engines of `Samples`.
* **The keyboard map and the evdev adapter** (`Keymap`, `Levels`, `Evdev`, `EvdevDecode`, `EvdevRuns`,
  `EvdevKeys`, `EvdevEdits`, `EvdevExceptions`, `EvdevClass`). A printer of key events, and a client that parses them.
* **Synthetic modifiers on Wayland** (`Echo`, `EchoRuns`, `KeyChannel`).
* **Satellites**: hooks (`Hooks`), the VNI reversal (`Vni`), in-place TOML values (`Toml`, `TomlKeys`, `TomlTables`).

Where the source updates an object, a class with the same fields does, and each of its methods is proved
equal to a function on values; the theorems are about those functions. The clock enters as booleans: a
recent action, a pause, an expired echo, a third Escape within a second.

## What does not hold

Each of these is a lemma, with the exact condition where there is one.

* An outstanding edit is forgotten by a pause and by a change of tier, which keep the engine's speculative
  state: agreement ends whenever the commit text does not end the shadow (`Exceptions.StashIsForgotten`). A
  Backspace keeps the stash, though the raw key may be gone: agreement then goes on exactly when nothing is left
  in view, or the commit and the character in view before it are one character repeated
  (`Agreement.BackspaceMeetsStash`).
* A stash is released behind an equal word elsewhere in the text. An engine that keeps one word in view does
  not notice; one whose view spans words is left with the wrong text
  (`Agreement.StashReleaseIff`, `Exceptions.StashIsReleasedElsewhere`).
* A one-character insertion elsewhere moves the shadow but not the engine (`Exceptions.MovesOnlyShadowExact`).
* A selection before the cursor is left out of the shadow and popped from it too: the shadow is right exactly
  when there is none, or nothing is left to pop (`Exceptions.SelectionPopsExact`); engine and shadow agree
  exactly when the engine is seeded anew, or its view stops short of what is popped (`Agreement.ApplyEditExact`).
  A frame that repeats the shadow and selects part of it leaves the engine what the shadow loses
  (`Agreement.GateFrameExact`).
* After a stale echo a correction is promised to go by Backspace keys. It does exactly when the next key is a
  letter, the slow channel was used before, or a multibyte character is reverted; the digits of VNI and the
  bracket keys go on as byte-counted deletes (`QuirkRuns.ArmedKeyExact`). A key or Backspace that is passed on
  withdraws the slow channel (`QuirkRuns.PassedKeyDisarms`).
* A recent stale echo leaves the shadow alone unless it repeats the shadow and selects part of it
  (`Safety.StaleEchoImmunity`).
* The Backspace channel loses one deletion to a selection (`Clients.ForwardRefinesIff`). A character count sent
  to a client that counts bytes is right exactly when what it deletes is ASCII (`Clients.CharUnitExact`).
* A Backspace key that is already down swallows the first of the emitted ones
  (`EvdevDecode.FeelBackspacesHeld`); and the edit that answers a Backspace key never types its commit text
  (`EvdevEdits.EditReads`).
* Emission never lifts right Shift. While it is held a commit is typed exactly when each of its characters
  survives the shift (`EvdevEdits.EditIsTyped`), and left Shift stays behind exactly when some character is
  unshifted (`EvdevExceptions.RightShiftSticks`). Letting go of right Shift over left Shift is the one event
  that parts left Shift from the adapter's bit (`EvdevEdits.StepSyncedIff`), until an edit changes the bit; it
  leaves left Shift down with nothing held (`EvdevExceptions.ShiftIsLeftBehind`).
* Two keys share one bit of the modifier mask: releasing one while the other is held clears it
  (`EvdevExceptions.TwinReleaseExact`). The constant for right Super is 127, which is the Compose key, so
  right Super (126) is no modifier to the adapter (`EvdevExceptions.RightSuperIsNoModifier`). In both cases
  the client reads what is emitted as shortcuts (`EvdevExceptions.ShortcutsReadNothing`).
* On Wayland a character emitted over held modifiers is read as itself exactly as `Levels.EmitDecodesHeldIff`
  says, and `Levels.EmitDecodesLockedIff` under Caps Lock; a held Shift turns emitted small letters into capitals
  (`Levels.HeldShiftCapitalises`).
* A user's modifier event that equals the echo expected next is dropped; later events can then be adopted
  out of order (`EchoRuns.ClashLeavesStaleModifiers`). Echoes of the guard around a forwarded Backspace, echoes
  that outlive the time allowed, and events passed on that come back are not expected, and are adopted as the
  user's (`EchoRuns.GuardEchoesAreAdopted`). A run that takes in its echoes is separated exactly when neither
  happens (`EchoRuns.SeparatesIff`).
* A hook runner that fails, rather than a hook, skips the rollback: the hooks applied stay in effect, and where
  no set script takes back what others did the start is restored exactly when none was applied
  (`Hooks.RunnerErrorSkipsRollback`, `Hooks.FirstHookStays`).
* Digits of the text itself collide with the VNI keys of accented letters (`Vni.DigitsCollide`).
* The offset of the first table header is short by one for every line before it that ends in a carriage
  return (`TomlTables.OffsetExact`). Such a bound can fall inside a character, where every replacement aborts
  (`TomlTables.SplitIsReached`), or in front of an array that the search finds (`TomlTables.AbortIsReached`);
  with a bound at the start of a line neither happens (`Toml.NoAbortAtBoundary`).

## Model

| member | source | states |
|---|---|---|
| `Utf8.EncodeInjective` | crates/daemon/src/composer.rs:95-108 | comparing byte strings compares texts |
| `Utf8.BoundaryIff` | crates/daemon/src/composer.rs:1369-1376 | an offset is a character boundary exactly when it is the byte length of a prefix of the text |
| `Utf8.TextBeforeIsGreatestBoundary` | crates/daemon/src/composer.rs:1369-1376 | a cursor inside a character or past the end yields the text up to the greatest boundary not above it |
| `Texts.CurrentWordIsLongest` | crates/daemon/src/composer.rs:1325-1334 | the current word is the longest suffix of the text without a boundary character |
| `Diff.ConfirmsInsertedCharExact` | crates/daemon/src/composer.rs:95-108 | the byte comparison succeeds exactly when the new text is the old one with that scalar spliced in at the cursor |
| `Diff.OneCharInsertionExact` | crates/daemon/src/composer.rs:1394-1415 | detected exactly when one scalar was spliced in at the previous cursor and the cursor moved past it |
| `Diff.DeletionExact` | crates/daemon/src/composer.rs:1419-1436 | detected exactly when a non-empty span of whole characters that ended at the previous cursor is gone |
| `Diff.InsertionReversedIsDeletion` | crates/daemon/src/composer.rs:1394-1436 | a detected insertion read backwards is a detected deletion |
| `Engines.KeyKeepsSuffix` | crates/engine/src/lib.rs:120-128 | typing a key keeps the view a suffix of what is on screen |
| `Engines.GatedSeedIsVisible` | crates/engine/src/lib.rs:195-201 | whatever word is offered, the gate lets a seed through only if the engine's view is then a suffix of that word |
| `Engines.EngineState.RenderOnScratch` | crates/engine/src/lib.rs:99-115 | the loop computes what typing the keys on a new engine shows |
| `Engines.EngineState.ContextFromSurrounding` | crates/engine/src/lib.rs:222-233 | the loop computes the reversal of every character, in order |
| `Engines.EngineState.FeedContextGated` | crates/engine/src/lib.rs:195-201 | seeds only when the reconstructed keys render the very text, and changes nothing otherwise |
| `Samples.SampleIsLawful` | crates/engine/src/lib.rs:64-208 | the laws asked of the engine can be met by engines that compose, whether their view keeps one word or spans several |
| `Shadows.ObservedForward` | crates/edit-strategy/src/shadow.rs:101-149 | a frame whose cursor is not behind its anchor makes the shadow the text before the cursor, with the selection measured in bytes and characters |
| `Shadows.SelectionMeasured` | crates/edit-strategy/src/shadow.rs:101-149 | the selection is what lies between cursor and anchor, in characters and bytes behind the cursor and in characters before it; the shadow ends where the first of the two stands |
| `Shadows.ShadowBuffer.PopChars` | crates/edit-strategy/src/shadow.rs:50-63 | the loop drops the last characters and returns their bytes and their number, even past the start |
| `Shadows.ShadowBuffer.PopDeleteSpan` | crates/edit-strategy/src/shadow.rs:82-91 | adds the selection before the cursor to the pops, reports the one after it, and forgets both |
| `Shadows.ShadowBuffer.ObserveSurrounding` | crates/edit-strategy/src/shadow.rs:101-149 | takes the frame as the new shadow and reports a cursor that no commit explains |
| `Strategies.ApplySurrounding` | crates/edit-strategy/src/surrounding.rs:22-84 | sends one byte-counted batch, or one Backspace more than asked when text after the cursor is selected, and edits the shadow alike |
| `Strategies.ApplyForwardKey` | crates/edit-strategy/src/forward_key.rs:12-51 | sends the Backspaces and then the replacement on one channel, and edits the shadow alike |
| `Strategies.ReplacementChannel` | crates/edit-strategy/src/forward_key.rs:23-43 | after the Backspace keys the replacement goes out once and whole: on the preferred channel if the backend takes it, and else as a committed string |
| `Strategies.EditedExactly` | crates/edit-strategy/src/shadow.rs:82-91 | an edit leaves the popped shadow with its text appended and explains the next cursor move; the byte-counted channel pops the selection before the cursor too and forgets it, the Backspace channel keeps it |
| `Clients.TailDeleteIsAligned` | crates/edit-strategy/src/shadow.rs:82-91 | the byte length of the shadow's tail ends on a character boundary of the document and deletes exactly those characters |
| `Clients.SurroundingRefines` | crates/edit-strategy/src/surrounding.rs:22-84 | on each kind of client the byte-counted channel drops the last characters and inserts the text, and keeps what follows the selection; without a selection it deletes no more than the shadow holds |
| `Clients.ForwardRefinesIff` | crates/edit-strategy/src/forward_key.rs:12-51 | the Backspace channel performs the same edit exactly when no selection swallows one of its keys |
| `Clients.ChannelsAgree` | crates/ibus-adapter/src/sink.rs:45-56 | byte counts, character counts and Backspace keys give one document, for UTF-8 text and any pair of clients |
| `Clients.CharUnitExact` | crates/edit-strategy/src/surrounding.rs:57-72 | a character count sent to a client that counts bytes performs the edit exactly when the characters to delete are ASCII |
| `Firefox.ObserveGuarded` | crates/daemon/src/quirks/firefox.rs:95-126 | whatever is observed, deletes count characters exactly while forward deletes are in use |
| `Firefox.EchoesExactly` | crates/daemon/src/quirks/firefox.rs:95-126 | the echo of the deletion alone keeps the quirk waiting, the final echo and a late stale text clear it, and a recent stale one arms it unless a retroactive cursor has left its word |
| `Firefox.LeftWordExact` | crates/daemon/src/quirks/firefox.rs:139-141 | a cursor has left its word exactly when no word ends before it and the character there is no opener, quote or stroke |
| `Firefox.FirefoxQuirk.ObserveSurrounding` | crates/daemon/src/quirks/firefox.rs:95-126 | the object's transition is the specified one |
| `ComposerClass.Composer.FeedKey` | crates/daemon/src/composer.rs:689-738 | the object's whole new state and decision are those of the confirmation machine |
| `ComposerClass.Composer.FeedBackspace` | crates/daemon/src/composer.rs:769-805 | the object's whole new state and decision are those of the confirmation machine |
| `ComposerClass.Composer.UnrecordForwardedChar` | crates/daemon/src/composer.rs:756-767 | takes a passed key back, and with it a speculative engine state |
| `ComposerClass.Composer.ApplyToSinkInner` | crates/daemon/src/composer.rs:834-918 | sends the operations of the chosen channel and updates shadow, quirk and engine as specified |
| `ComposerClass.Composer.ApplyConfirmedRepairToSink` | crates/daemon/src/composer.rs:923-939 | applies a repair without refreshing the engine and without expecting its echo |
| `ComposerClass.Composer.ConfirmPendingRawKey` | crates/daemon/src/composer.rs:1129-1254 | answers the frame that ends in the pending key with the stash, a replay, or a fresh seed |
| `ComposerClass.Composer.ApplySurrounding` | crates/daemon/src/composer.rs:998-1123 | the whole new state and repair for any frame |
| `QuirkRuns.SkippedFrameLosesNothing` | crates/daemon/src/composer.rs:1268-1281 | a frame skipped as a repeat would have released no repair, told the quirk nothing and stayed the last frame; a recent one, with no key pending, would have left engine and shadow text alone |
| `QuirkRuns.StaleRepeatIsSeen` | crates/daemon/src/composer.rs:1264-1281 | while an echo is awaited no repeat is skipped, and the unchanged stale text reaches the quirk |
| `ComposerClass.Composer.ResetCompositionPreservingSurrounding` | crates/daemon/src/composer.rs:620-628 | clears engine, shadow and pending key and awaits a frame |
| `ComposerClass.Composer.FullReset` | crates/daemon/src/composer.rs:607-612 | also forgets the last frame |
| `ComposerClass.Composer.CheckIdleReset` | crates/daemon/src/composer.rs:655-673 | on a pause awaits a frame, or resets on the other tier |
| `ComposerClass.Composer.SetMethod` | crates/daemon/src/composer.rs:511-520 | leaving the surrounding-text tier drops the confirmation |
| `Outcomes.GateExact` | crates/engine/src/lib.rs:195-201 | a seed is taken exactly when the keys that spell the word render it and the engine accepts them; the engine is then as if they had been typed, and unchanged if they do not render it |
| `Outcomes.FreshWordIsSeeded` | crates/daemon/src/composer.rs:376-392 | a key that starts on a word of the surrounding text, no separator behind it, meets an engine seeded with that word; in a certain context its edit is applied at once, and else kept back |
| `Outcomes.OtherKeysGoOn` | crates/daemon/src/composer.rs:376-424 | after a separator, inside a word and where there is none the key meets the engine as it is |
| `Outcomes.PendingStartsOver` | crates/daemon/src/composer.rs:376-424 | behind a key that is still pending it meets a new engine |
| `Outcomes.KeyComposes` | crates/daemon/src/composer.rs:678-738 | on a word that the engine holds, or has not seen but the gate accepts, a key composes as if the word had been typed: with its edit done, at once or later, the word on screen and the engine are what typing its keys and this one afresh leads to |
| `Typing.NewComposerTypes` | crates/daemon/src/composer.rs:689-738 | from a new composer, on either tier, every channel and every kind of client, whatever the document holds: the keys add at the cursor exactly what the engine renders for them, and nothing else changes |
| `Typing.TypedTextIsOnScreen` | crates/daemon/src/composer.rs:689-738 | the same from any state in a certain context that typing led to |
| `Outcomes.ProvenStashIsReleased` | crates/daemon/src/composer.rs:1174-1193 | a proven key whose edit was composed on the word before it has that edit released, with the engine as it is |
| `Outcomes.ProvenKeyComposes` | crates/daemon/src/composer.rs:1194-1253 | any other proven key on a word that the gate accepts is replayed there: with the repair done, screen and engine are what typing word and key afresh leads to, and there is no repair exactly when the screen shows that as it is |
| `Outcomes.ForeignKeyStartsOver` | crates/daemon/src/composer.rs:1199-1223 | on no word, or one that the gate refuses, a proven key stays as it is and the engine starts over from the word and the key |
| `Outcomes.UnprovenKeyStartsOver` | crates/daemon/src/composer.rs:1154-1172 | a key that is not proven, or was not alone, is not repaired, and the engine starts over from the word on screen |
| `Outcomes.StaleFrameIsDropped` | crates/daemon/src/composer.rs:428-457 | a recent frame that neither repeats the shadow nor inserts one character ends a confirmation and does nothing else, unless forced |
| `Outcomes.RepeatConfirms` | crates/daemon/src/composer.rs:1066-1087 | a frame that repeats the shadow is taken whenever it comes, leaves the engine composing, and makes the context certain unless that rests on an earlier frame |
| `Outcomes.DeletionStartsOver` | crates/daemon/src/composer.rs:1088-1100 | a deletion that the composer did not make starts the engine over and forgets the last key |
| `Outcomes.InsertionGoesOn` | crates/daemon/src/composer.rs:1016-1087 | a one-character insertion leaves the engine composing |
| `Outcomes.JumpSeeds` | crates/daemon/src/composer.rs:1101-1121 | any other frame that is not recent, and a forced one, starts the engine over from the word before cursor and selection; the context waits for a frame exactly when the gate accepts that word |
| `Outcomes.KeyAfterJumpComposes` | crates/daemon/src/composer.rs:1101-1121 | and the key after it composes on that word as if it had been typed |
| `Outcomes.BackspaceExactly` | crates/daemon/src/composer.rs:769-805 | a Backspace that is passed on takes one character from the shadow, and has the engine start over exactly when the engine owned a character that is more than one byte |
| `Outcomes.UnrecordedKeyIsGone` | crates/daemon/src/composer.rs:756-767 | a key taken back leaves the shadow as it was, and the engine as the key left it, unless that was never shown |
| `Outcomes.EditRefreshes` | crates/daemon/src/composer.rs:637-646 | an edit that deletes in a retroactive context has the engine start over from the word it leaves, and no other edit does |
| `Outcomes.RepairKeepsEngine` | crates/daemon/src/composer.rs:923-939 | a repair leaves the engine and awaits no echo |
| `Outcomes.PauseExactly` | crates/daemon/src/composer.rs:655-673 | after a pause on the surrounding-text tier composition goes on, and every key waits for a frame unless the last one was confirmed; on the other tier everything starts over |
| `Outcomes.CheckExactly` | crates/daemon/src/composer.rs:978-984 | a frame that does not bear out a confirmation ends it, and every key then waits; no other frame does anything by being looked at |
| `Outcomes.ResetExactly` | crates/daemon/src/composer.rs:607-628 | what a reset forgets and keeps; every key after it waits for a frame |
| `Outcomes.TierExactly` | crates/daemon/src/composer.rs:511-520 | leaving the surrounding-text tier ends the waiting, and changes nothing else |
| `Outcomes.SkipExactly` | crates/daemon/src/composer.rs:1268-1281 | a repeat is skipped exactly when nothing starts or ends with it and no echo is awaited |
| `Agreement.FeedKeyAgrees` | crates/daemon/src/composer.rs:689-738 | after any key the engine's view ends the shadow, or is ahead of it by exactly the edit that was returned, which deletes only what the shadow holds, whatever is selected |
| `Agreement.UnrecordAgrees` | crates/daemon/src/transport/wayland.rs:285-318 | a passed key taken back and committed as text owes exactly that text |
| `Agreement.FeedBackspaceAgrees` | crates/daemon/src/composer.rs:769-805 | with no edit stashed, after a Backspace the view ends the shadow, or is ahead of it by exactly the edit that was returned; `BackspaceMeetsStash` has the other case |
| `Agreement.BackspaceMeetsStash` | crates/daemon/src/composer.rs:769-805 | a Backspace keeps a stashed edit; with the edit that answers it, agreement goes on exactly when: passed on, nothing is left in view, or the commit is empty, or it and the character before it, as far as they are in view, are one character repeated; answered, the two edits commute over the part in view |
| `Agreement.ApplyEditAgrees` | crates/daemon/src/composer.rs:834-939 | performing the owed edit without a selection before the cursor restores agreement, on either channel, with or without the refresh |
| `Agreement.ApplyEditExact` | crates/daemon/src/composer.rs:834-939 | with a selection before the cursor it does so exactly when the engine is seeded anew, or what the edit pops besides is not in view |
| `Agreement.RepairIsMinimal` | crates/daemon/src/composer.rs:1199-1253 | the replay repair turns the word on screen into the wanted one, no such edit deletes less, and there is none exactly when nothing needs changing |
| `Agreement.ReplayAgrees` | crates/daemon/src/composer.rs:1199-1253 | after a replay engine and shadow agree, or the returned repair is owed |
| `Agreement.ConfirmKeyAgrees` | crates/daemon/src/composer.rs:1129-1254 | the same for every answer to the frame that ends in the pending key but a released stash, whether or not they agreed before |
| `Agreement.GateFrameExact` | crates/daemon/src/composer.rs:1034-1122 | any other frame, whatever it selects, leaves engine and shadow in agreement exactly when it is dropped, or it has the engine reset or reseeded, or the view still ends the text before its cursor and selection |
| `Agreement.WordBoundMatches` | crates/daemon/src/composer.rs:1174-1193 | for an engine that keeps one word in view, the frame that releases a stash always shows what the view needs |
| `Agreement.StashReleaseIff` | crates/daemon/src/composer.rs:1174-1193 | for any engine, releasing a stash keeps the agreement exactly when the part in view stands in the frame as it does in the shadow |
| `Agreement.AnswerExact` | crates/daemon/src/composer.rs:1129-1254 | every answer to the frame that ends in the pending key, exactly |
| `Agreement.StepAgreesIff` | crates/daemon/src/transport/wayland.rs:18-338 | one event of any kind, with the edit that answers it, keeps the agreement exactly when it is allowed |
| `Agreement.RunAgreesIff` | crates/daemon/src/composer.rs:183-1254 | engine and shadow agree after every event of a run exactly when each event is allowed: the engine's view is then a suffix of the shadow, or, with an edit stashed, of the shadow with the raw key deleted and that edit done |
| `Agreement.WordBoundRunAgrees` | crates/daemon/src/composer.rs:1129-1193 | for an engine that keeps one word in view, they agree along every run of events allowed in which no Backspace meets a stash, where nothing is asked of the frames that answer a pending key |
| `Agreement.EditsStayWithinShadow` | crates/daemon/src/composer.rs:689-738 | in every reachable state a key's edit deletes only what the shadow holds |
| `Safety.StaleEchoImmunity` | crates/daemon/src/composer.rs:428-457 | with no key pending, a recent frame that is no one-character insertion and not forced leaves the engine as it was, and the shadow too, exactly unless it repeats the shadow and selects part of it |
| `Safety.UncertainRun` | crates/daemon/src/composer.rs:376-421 | from an uncertain state no key of any run is answered by an edit until a frame comes or the confirmation is withdrawn |
| `Safety.ResetIsUncertain` | crates/daemon/src/composer.rs:620-628 | a composition reset starts such a run |
| `Safety.RepairIsProven` | crates/daemon/src/composer.rs:1136-1172 | a repair comes only from a selection-free frame that differs from the last and shows the repairable pending key just before the cursor |
| `Safety.RepairableIsAlone` | crates/daemon/src/composer.rs:394-421 | in every reachable state a repairable pending key is the last key there was, passed on while no other was pending |
| `Safety.QuirkRun` | crates/daemon/src/composer.rs:845-909 | along every run each delete sent counts the bytes of one text, and `commit_string`, once found broken, stays so |
| `QuirkRuns.TruthfulEchoesArmNothing` | crates/daemon/src/quirks/firefox.rs:78-126 | after a key whose edit deletes, what is awaited is what that edit leaves, and no run of frames that report the deletion and the commit arms the slow channel |
| `QuirkRuns.StaleEchoArmsIff` | crates/daemon/src/quirks/firefox.rs:95-126 | any other recent echo arms it exactly unless a retroactive cursor has left its word |
| `QuirkRuns.ChannelExact` | crates/daemon/src/composer.rs:845-909 | which channel carries an edit: Backspace keys exactly while the slow channel is armed or was used, or when a retroactive edit takes away a character of more than one byte, though not all there is, and puts back plain ASCII; else that of the tier |
| `QuirkRuns.StaleEchoThenKey` | crates/daemon/src/composer.rs:1051-1055 | after a recent stale echo `commit_string` is no longer relied on, and the next key's edit goes by Backspace keys exactly when the key is a letter, the channel was used before, or a multibyte character is reverted |
| `QuirkRuns.ArmedKeyExact` | crates/daemon/src/composer.rs:845-909 | the edit that answers a key while the slow channel is armed: by keys exactly then, and else a byte-counted delete; the channel sticks exactly for a letter or if it did already |
| `QuirkRuns.PassedKeyDisarms` | crates/daemon/src/composer.rs:689-805 | a key or Backspace that is passed on withdraws the slow channel, unless it was used |
| `QuirkRuns.StickyRun` | crates/daemon/src/composer.rs:845-909 | once used, the slow channel carries every edit of the run until the composition is reset |
| `Tracking.EditTracks` | crates/daemon/src/composer.rs:834-918 | an edit of any size on either channel can be carried out by the client and keeps the shadow a suffix of the document |
| `Tracking.TogetherTracks` | crates/daemon/src/composer.rs:689-805 | one step of composer and client keeps the shadow a suffix of the document and never touches the text after the cursor |
| `Tracking.ShadowTracksDocument` | crates/edit-strategy/src/shadow.rs:50-149 | over any run with truthful selection-free frames every request can be carried out and the shadow stays a suffix of the document before the cursor |
| `Tracking.ThreeViewsAgree` | crates/daemon/src/composer.rs:183-1254 | engine, shadow and document agree at the end of every such run in which no Backspace, pause or change to the other tier comes while an edit is stashed; nothing else is asked of its frames |
| `Tracking.KeyIsDeferred` | crates/daemon/src/composer.rs:394-421 | in an uncertain context the stashed edit is the one a certain context would have applied |
| `Tracking.StashIsEmitted` | crates/daemon/src/composer.rs:1174-1193 | the frame that proves the key releases the stash, one deletion longer |
| `Tracking.DeferredEqualsImmediate` | crates/daemon/src/composer.rs:1129-1193 | passing the key on, receiving the frame that proves it and applying the repair leaves the document, and the shadow where both cover the same text, as applying the edit at once does, whatever channel each takes |
| `Exceptions.StashIsForgotten` | crates/daemon/src/composer.rs:511-520 | for every stash, as the key left it, whose commit does not end the shadow, a pause and a change of tier break the agreement |
| `Exceptions.StashIsReached` | crates/daemon/src/composer.rs:394-421 | a run from a new composer ends in a stash, and a pause, a tier change and a Backspace then each break the agreement |
| `Exceptions.StashIsReleasedElsewhere` | crates/daemon/src/composer.rs:1174-1193 | a run from a new composer, with an engine whose view spans words, ends in a stash that a frame releases behind an equal word elsewhere, and the agreement breaks |
| `Exceptions.SampleIsWordBound` | crates/daemon/src/composer.rs:1174-1193 | of the two composing engines that the runs here use, one keeps one word in view and the other does not |
| `Exceptions.MovesOnlyShadowExact` | crates/daemon/src/composer.rs:1016-1122 | what a one-character insertion that does not match the shadow does, in any confirmation: shadow moved, engine not |
| `Exceptions.InsertionIsReached` | crates/daemon/src/composer.rs:1016-1122 | such an insertion is reached from a new composer, and breaks the agreement |
| `Exceptions.SelectionPopsExact` | crates/edit-strategy/src/shadow.rs:82-131 | the shadow after an edit is what the edit should leave exactly when nothing is selected before the cursor, or nothing is left to pop |
| `Exceptions.SelectionIsReached` | crates/edit-strategy/src/shadow.rs:82-131 | such a selection is reached from a new composer; the frame ends the agreement, and the next edit takes from the shadow a character that the engine still owns |
| `Keymap.FillRow` | crates/keymap/src/lib.rs:427-438 | the array filled pair by pair is the row of the slot, void past the tables |
| `Keymap.AppendSymbolRows` | crates/keymap/src/lib.rs:427-459 | one row for every slot, in order |
| `Keymap.SlotRoundTrip` | crates/keymap/src/lib.rs:94-115 | no keycode serves two slots |
| `Keymap.AsciiRoundTrip` | crates/keymap/src/lib.rs:260-303 | the table covers exactly printable ASCII, and the US layout reads each key back as its character |
| `Keymap.EmitDecodes` | crates/keymap/src/lib.rs:309-320 | every character is read back from the key and modifiers that emit it, through the generated rows |
| `Keymap.InventoryExact` | crates/keymap/src/lib.rs:309-320 | what can be emitted is printable ASCII and the letters of the two tables, and nothing else |
| `Keymap.EmitsPlainKey` | crates/keymap/src/lib.rs:47-147 | no character is emitted by a modifier, Escape or Backspace |
| `Levels.LevelIsUnique` | crates/keymap/src/lib.rs:161-201 | no letter stands at two levels of a key |
| `Levels.EmitDecodesHeldIff` | crates/keymap/src/lib.rs:461-476 | over held modifiers a letter of the tables is read as itself exactly when it asks for every level modifier held, an ASCII character exactly when it asks for a held Shift or is the blank |
| `Levels.EmitDecodesLockedIff` | crates/key-emitter/src/emit_char_impl.rs:39-103 | under a locked Caps Lock too: a table letter exactly when it asks for Shift and every level modifier held, an ASCII letter exactly when it is small and Shift is held, any other character as without it |
| `Levels.HeldShiftCapitalises` | crates/keymap/src/lib.rs:470-476 | under a held Shift every small accented letter is read as the capital paired with it |
| `EvdevClass.EvdevAdapter.SetUinputMods` | crates/evdev-adapter/src/adapter.rs:257-295 | presses and releases the three navigating keys to reach the target, and records it |
| `EvdevClass.EvdevAdapter.EmitString` | crates/evdev-adapter/src/adapter.rs:297-331 | the loop sends the specified events and leaves the specified modifiers |
| `EvdevClass.EvdevAdapter.EmitBackspaces` | crates/evdev-adapter/src/adapter.rs:333-339 | the loop sends the presses and releases |
| `EvdevClass.EvdevAdapter.ForwardPressRaw` | crates/evdev-adapter/src/adapter.rs:246-250 | records the key, and turns a first repeat into a press |
| `EvdevClass.EvdevAdapter.ProcessEvent` | crates/evdev-adapter/src/adapter.rs:341-467 | the whole new state and output for any event and decision |
| `EvdevDecode.FeelMods` | crates/evdev-adapter/src/adapter.rs:257-295 | the events move each danced key of the client exactly where a bit changes; each press lands if left Shift is down only while its bit is set |
| `EvdevDecode.FeelChar` | crates/evdev-adapter/src/adapter.rs:301-328 | each key is read under exactly the modifiers its character asks for, with Shift added while right Shift, or a left Shift that its bit does not know of, is down, though the user may hold that key; under a shortcut modifier it is not read |
| `EvdevDecode.EmitStringDecodes` | crates/evdev-adapter/src/adapter.rs:297-331 | the client reads the inventory characters of the string, in order, under whatever Shift is down; every press lands on a key that is up, if left Shift goes with its bit; adapter and client modifiers end as they began, but for left Shift as stated |
| `EvdevDecode.FeelBackspacesHeld` | crates/evdev-adapter/src/adapter.rs:333-339 | with Backspace down already, one deletion is lost |
| `EvdevDecode.TextReadExact` | crates/keymap/src/lib.rs:427-459 | what was read, decoded through the rows, is the inventory text exactly when each character survives the Shift that is down as its key is pressed |
| `EvdevRuns.StepKeepsNoStuck` | crates/evdev-adapter/src/adapter.rs:341-467 | one event, whatever the decision, keeps the plain keys down at the client within the forwarded ones, and those within the held ones |
| `EvdevRuns.NoKeyIsStuck` | crates/evdev-adapter/src/adapter.rs:341-467 | so does every well-formed stream with every sequence of decisions; with no key held, no plain key is down at the client |
| `EvdevRuns.EmitStringDown` | crates/evdev-adapter/src/adapter.rs:319-328 | in any modifier state, every plain press of a string lands on a key that is up, and the string leaves down what was down less its own keys |
| `EvdevRuns.RepeatsWereForwarded` | crates/evdev-adapter/src/adapter.rs:246-250 | a repeat goes out only for a key whose press went out before |
| `EvdevKeys.ForwardedExactly` | crates/evdev-adapter/src/adapter.rs:425-467 | a key goes out, as one event, in an emergency, under a modifier other than Shift, without a symbol, and when the handler lets it through; the first time as a press |
| `EvdevKeys.ConsumedSendsNothing` | crates/evdev-adapter/src/adapter.rs:446-466 | any other key that the handler consumes sends nothing |
| `EvdevKeys.ReleaseExactly` | crates/evdev-adapter/src/adapter.rs:402-419 | a release goes out exactly when the press did |
| `EvdevKeys.ReleasedIsUp` | crates/evdev-adapter/src/adapter.rs:402-419 | and leaves the key up at the client, whatever went before |
| `EvdevKeys.ModifierExactly` | crates/evdev-adapter/src/adapter.rs:361-384 | a modifier always goes out as it is |
| `EvdevKeys.ForwardedIsFelt` | crates/evdev-adapter/src/adapter.rs:235-250 | at the client a key not forwarded before lands as a press and is read once; repeats are read where the key is still down, and mean nothing where emission has lifted it |
| `EvdevKeys.EveryPressIsRead` | crates/evdev-adapter/src/adapter.rs:341-467 | from idle, after every well-formed stream and any decisions, a press that goes out lands on a key that is up and is read once, under the modifiers down there, unless one of them makes it a shortcut |
| `EvdevEdits.MaskStep` | crates/evdev-adapter/src/adapter.rs:361-384 | a mask that says what is held goes on doing so exactly unless the key released shares its bit with one still held |
| `EvdevEdits.EditReads` | crates/evdev-adapter/src/adapter.rs:446-466 | in any sound state, left Shift with its bit or not, the client's text loses what the handler decided, less one if Backspace is down there already, and gains what the commit's keys come to; nothing under a shortcut modifier; the adapter is as before |
| `EvdevEdits.EditIsTyped` | crates/evdev-adapter/src/adapter.rs:446-466 | with no shortcut modifier down, that is the edit as decided exactly when every character survives the Shift that is down, and left Shift is left down exactly as stated |
| `EvdevEdits.StepSyncedIff` | crates/evdev-adapter/src/adapter.rs:341-467 | one event, whatever the decision, keeps Level3, Level5 and the plain keys of adapter and client together; left Shift is with its bit afterwards exactly when a Shift key moved, other than right Shift up over left Shift, or an edit changed the bit, or it was before |
| `EvdevEdits.CleanWithoutRightShift` | crates/evdev-adapter/src/adapter.rs:341-467 | without right Shift, along every well-formed stream everything down at the client is held by the user, whatever pairs of keys were held together |
| `EvdevEdits.TypedWithoutRightShift` | crates/evdev-adapter/src/adapter.rs:341-467 | and with no shortcut modifier held the next edit is typed exactly as decided |
| `EvdevEdits.EveryEditIsTyped` | crates/evdev-adapter/src/adapter.rs:341-467 | after every well-formed stream from idle, whatever was decided, the next edit is read exactly so, and is typed as decided exactly when its commit survives the Shift that is down, if no shortcut modifier is held; nothing but left Shift is down at the client that the user does not hold |
| `EvdevExceptions.RightShiftSticks` | crates/evdev-adapter/src/adapter.rs:149-151 | with only right Shift held, left Shift is left down exactly when the string has an unshifted character |
| `EvdevExceptions.StuckShiftStays` | crates/evdev-adapter/src/adapter.rs:362-383 | releasing right Shift then leaves the client shifted and the adapter unaware |
| `EvdevExceptions.ShiftIsLeftBehind` | crates/evdev-adapter/src/adapter.rs:341-467 | from idle, right Shift, any key answered by a text with an unshifted character, and both keys up: nothing is held, and left Shift is down at the client |
| `EvdevExceptions.TwinReleaseExact` | crates/evdev-adapter/src/adapter.rs:149-159 | the mask survives the release of any modifier key exactly when the key that shares its bit is not held |
| `EvdevExceptions.ShortcutsReadNothing` | crates/evdev-adapter/src/adapter.rs:252-256 | under a shortcut modifier nothing that is emitted is read as text |
| `Echo.EchoesAreTheMods` | crates/key-emitter/src/emit_char_impl.rs:72-93 | the filter expects exactly the modifiers events that were put on the wire, in order |
| `Echo.CharEchoesExact` | crates/keymap/src/lib.rs:461-476 | a character that asks for no modifier sends none; any other adds its own to those held and puts those held back |
| `Echo.SyntheticMods.EmitChar` | crates/key-emitter/src/emit_char_impl.rs:39-103 | sends the specified wire, expects its echoes, and does neither outside the inventory |
| `Echo.SyntheticMods.HandleModifiers` | crates/wayland-adapter/src/lib.rs:614-698 | expires, matches or adopts as specified, and passes on only what it adopts |
| `Echo.SyntheticMods.VkKey` | crates/wayland-adapter/src/sink.rs:182-215 | clears and restores modifiers around a Backspace when any is set |
| `EchoRuns.PendingIsLength` | crates/wayland-adapter/src/lib.rs:614-655 | whatever happens, expiry included, the count is the length of the queue |
| `EchoRuns.RunRemembers` | crates/wayland-adapter/src/lib.rs:657-678 | along every run the modifiers gone by are the last ones adopted |
| `EchoRuns.SeparatesIff` | crates/wayland-adapter/src/lib.rs:637-678 | for any interleaving that takes in its echoes, the events adopted are the user's, one by one, exactly when none equals the head of the queue on arrival and nothing comes unannounced: no Backspace is forwarded under held modifiers, no echo is forgotten, no event passed on comes back |
| `EchoRuns.RunConserves` | crates/wayland-adapter/src/lib.rs:637-678 | clashes or not, announced or not, the queue can be met in order among the echoes on their way, and no event is lost or made up |
| `EchoRuns.AllEchoesIn` | crates/wayland-adapter/src/lib.rs:637-678 | once every echo is in, the queue is empty and what was adopted is, in some order, what the user did and what came unannounced |
| `EchoRuns.ClashLeavesStaleModifiers` | crates/wayland-adapter/src/lib.rs:637-655 | after a clash the order can change and the adapter end with modifiers the user no longer holds |
| `EchoRuns.GuardEchoesAreAdopted` | crates/wayland-adapter/src/sink.rs:193-214 | the echoes of a guarded Backspace are adopted as the user's, the first one with other modifiers |
| `KeyChannel.TextReadExact` | crates/key-emitter/src/emit_char_impl.rs:39-103 | a text comes out whole exactly when each of its characters survives the held modifiers and Caps Lock: none makes up for another |
| `KeyChannel.TextDecodesIff` | crates/key-emitter/src/emit_char_impl.rs:39-103 | a text sent as keys is read as that text exactly then, and the modifiers end as the user's |
| `KeyChannel.BackspacesDecode` | crates/wayland-adapter/src/sink.rs:182-215 | whatever the user holds, each forwarded Backspace deletes one character |
| `KeyChannel.CommitKeyChannelText` | crates/wayland-adapter/src/sink.rs:303-320 | takes a text exactly when every character has a key, sends nothing otherwise, and sends all of it unless a flush fails |
| `KeyChannel.ReplacementIsWhole` | crates/edit-strategy/src/forward_key.rs:28-42 | a replacement goes whole through keys or whole through one commit, never through both |
| `KeyChannel.WireRefinesClient` | crates/edit-strategy/src/forward_key.rs:12-51 | the keys of a whole edit leave the text that the abstract client gets from the edit strategy's operations, exactly when the text survives the held modifiers |
| `Hooks.RunCleanupHooks` | crates/daemon/src/evdev_hooks.rs:139-167 | the loop gives the specified machine and error |
| `Hooks.CleanupVisitsAll` | crates/daemon/src/evdev_hooks.rs:139-167 | every hook is unset once, the i-th call for the i-th hook from the end, whatever fails, and the first error met is the one reported |
| `Hooks.RunSetupHooks` | crates/daemon/src/evdev_hooks.rs:84-130 | the loop gives the specified machine and result |
| `Hooks.SetupExact` | crates/daemon/src/evdev_hooks.rs:84-130 | refused exactly when a set script exits with neither 0 nor 10; the applied hooks are those that exited with 0, in order; a refusal by exit code unsets each of them once in reverse, a runner failure none |
| `Hooks.RollbackRestores` | crates/daemon/src/evdev_hooks.rs:116-125 | if unset inverts set, a refusal by exit code restores the machine, and so does a cleanup after success, or the cleanup that a runner's failure skips |
| `Hooks.RunnerErrorSkipsRollback` | crates/daemon/src/evdev_hooks.rs:108-108 | for every runner whose unset inverts set, a runner that fails leaves exactly the hooks applied so far in effect; the start is restored exactly when they cancel out, and only if there were none where no set script takes back what others did |
| `Vni.GlyphMeans` | crates/engine/src/vni.rs:3-141 | every entry of the table is the letter, mark and tone that compose its glyph |
| `Vni.GlyphExact` | crates/engine/src/vni.rs:3-141 | the table holds exactly the letters that a mark or a tone makes |
| `Vni.ContextReads` | crates/engine/src/lib.rs:222-247 | a text of letters and glyphs is recovered from its keys by a reader that splits at letters |
| `Vni.ContextInjective` | crates/engine/src/lib.rs:222-247 | no two such texts share their keys |
| `Vni.DigitsCollide` | crates/engine/src/lib.rs:249-317 | every accented letter shares its keys with the letter and digits that spell it |
| `Toml.ReplaceTomlValue` | crates/daemon/src/tray.rs:307-364 | for any bound in bytes, replaces the span of the first acceptable place, or nothing; aborts where the bound is past the end or inside a character, or where the array of that place opens past it |
| `TomlKeys.LaterKeyIsFound` | crates/daemon/src/tray.rs:328-347 | a key at the start of a later line is found with its value, a scalar to the end of its line or an array to its bracket: the first spaced line, and a tight one where none is spaced |
| `TomlKeys.FirstKeyIsFound` | crates/daemon/src/tray.rs:348-363 | so is a key on the first line, where no later line has it |
| `TomlKeys.FoundIsKeyed` | crates/daemon/src/tray.rs:307-364 | what is found stands behind the key at the start of a line inside the bound, and is no comment |
| `Toml.NoAbortAtBoundary` | crates/daemon/src/tray.rs:317-327 | with a bound at the end of the text or the start of a line it never aborts |
| `Toml.OutsideUntouched` | crates/daemon/src/tray.rs:302-364 | everything before the value, after it, and from the bound on stays |
| `Toml.ReplaceIsIdempotent` | crates/daemon/src/tray.rs:307-364 | for a one-line value in place of an old one on however many lines, the replacement finds its own value again and changes nothing |
| `TomlTables.FindFirstTablePos` | crates/daemon/src/tray.rs:371-390 | the loops return the summed lengths before the first header line, or nothing when there is no header |
| `TomlTables.BracketsAreHeader` | crates/daemon/src/tray.rs:371-377 | a name in brackets is a header, whatever blanks stand around it and whatever comment behind it |
| `TomlTables.HeaderOpens` | crates/daemon/src/tray.rs:371-377 | a header opens with the bracket, behind blanks |
| `TomlTables.OffsetExact` | crates/daemon/src/tray.rs:377-386 | that sum falls short of the byte offset of the line's start by one for every carriage return left out |
| `TomlTables.TablePosExact` | crates/daemon/src/tray.rs:366-390 | the position is the byte offset of the header's line exactly when no line before it ends in a carriage return, and the region before it is then whole lines |
| `TomlTables.TablesUntouched` | crates/daemon/src/tray.rs:302-390 | whatever its lines end in, a replacement bounded by the position found keeps all of the text from the header on; it does not abort when no line before the header ends in a carriage return |
| `TomlTables.AbortIsReached` | crates/daemon/src/tray.rs:317-390 | a file with carriage returns whose header is found, and where replacing a top-level array before it slices past the bound |
| `TomlTables.SplitIsReached` | crates/daemon/src/tray.rs:307-390 | a file with carriage returns and an accented letter whose header is found, and where the position lies inside the letter and every replacement aborts |

## Left out

- RunAgreesIff: the engine is any engine that keeps the laws of `Engines.Lawful`; that the `vnkey-engine` library keeps them is assumed, since its source is not part of this model.
- NewComposerTypes: the engine is taken to be inside a word after a letter (`Typing.LettersEnterWord`, which the sample engines meet by `Typing.SampleEntersWord`); keys only, in a context that no frame need confirm. `Tracking.DeferredEqualsImmediate` has the other.
- KeyAfterJumpComposes: an engine at a word beginning must accept the seed a second time; the laws do not tie what it accepts to its state.
- ThreeViewsAgree: frames are truthful about the client's document and selection-free, as `Tracking.Truthful` says; with a stash outstanding, `Agreement.StepAgreesIff` says what becomes of the three events shut out.
- DeferredEqualsImmediate: the two shadows are equal when the shadow covered the whole text before the cursor; otherwise the deferred one covers more of the same text.
- SeparatesIff: the compositor returns the modifiers of characters and guarded Backspaces, in order; which other events come back, and when an event is late, is open.
- ReplaceIsIdempotent: the new value is on one line, where the key has no blank after `=` the value does not begin with one, and no line of an old array looks like the key's own.
- RollbackRestores: a set script that does not exit with 0 is taken to leave the machine as it was.
- Telex and VIQR reversal tables, which are ambiguous by design and rely on the render gate.
- `set_input_method` and `set_modern_style`, which swap or tune the engine.
- `note_surrounding_liveness`, IBus strike counting, key repeat to the client, capability probing.
- `Composer::apply`, the direct IBus route around the sink, and conversion of IBus character offsets to bytes.
- Truncation of lengths to 32 bits, which needs texts of 4 GiB.
- Serial numbers and timestamps that only pass through.
- `commit_via_keysym` on input-method version 2 and the keysym route of version 1, which can stop half-way.
- The evdev transport never reports its edits to the composer, so there the shadow is behind the document; only the adapter's own events are modelled.
- Caps Lock at the client of the evdev adapter, whose masks have no Lock bit. On Wayland Lock is taken to act as the xkb key types have it: it inverts Shift on an ASCII letter, capitalises the letters of the tables, and leaves other keys alone.
- The text of the generated keyboard map around its symbol rows, and the xkb compiler that reads it.
- Wayland, D-Bus, uinput and X11 calls, configuration files, the supervisor, the tray and the command line.
