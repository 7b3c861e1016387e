# Fake Type — a verified model of the keystroke substitution engine

Fake Type is a VS Code extension for live-coding demos. It intercepts the
editor's `type` command. Instead of the key the presenter pressed, it inserts
the next character of text prepared in advance for the active document. A
demo terminal does the same for command output: any key reveals the next
character of a scripted transcript.

This project models two versions of the extension in Dafny.

- `src/extension.ts`, the current version:
  - the per-document mapping store (`fileContents`, keyed by document URI);
  - the `type` override with its FIFO `typeQueue` and the `processingQueue`
    guard of the single drain loop;
  - the `deleteLeft` / `deleteRight` interceptors;
  - the demo terminal's `handleInput` and the terminal-command list;
  - the small string helpers (preview, file name, status text).
- `v1-backup/extension.ts`, the first version: one global prepared text with
  `currentIndex` and `enabled`.

Files:

| file | module | contents |
|---|---|---|
| `wrappers.dfy` | `Wrappers` | `Option` |
| `text.dfy` | `Text` | control-key test, JavaScript `trim` emptiness, previews, `split(/[/\\]/).pop()`, decimal rendering |
| `document.dfy` | `Document` | the editor document as a sequence of lines, positions, ranges, and what a single edit does to the document's text |
| `edits.dfy` | `EditBuilder` | the edit lists built inside `editor.edit` callbacks: substitution, `deleteLeft`, `deleteRight` |
| `staging.dfy` | `Staging` | the engine as values: admission of one `type` call, one drain iteration, the whole drain, the rewind, and the typing and FIFO lemmas |
| `cursor.dfy` | `Cursor` | a document with one cursor: what runs of substituted keystrokes and of backspaces do to its text |
| `engine.dfy` | `Engine` | the current engine as a class `FakeType`, with methods proved against `Staging`; the status bar |
| `terminal.dfy` | `Terminal` | `Input` (one `handleInput` call), runs of keys, the class `DemoTerminal` and the command-list operations |
| `legacy.dfy` | `Legacy` | the first version: `Keystroke`, its lemmas, the class `LegacyFakeType` |

Calls the code makes into the editor or the UI are not executed by the
model. Each is appended, in order, to an `effects` log:
`default:type`, the edit handed to `editor.edit`, `saveData()`, the tree
refresh and the completion message. The result of `editor.edit`, the active
editor, the clipboard text, the picked file and the answer to a confirmation
prompt are all parameters.

The drain loop awaits `editor.edit`, and keystrokes can arrive during that
await. Each loop iteration therefore takes an `Env`: the active editor, the
edit's result, and the keystrokes that arrive during the await. Each arrival
is a nested `type` call that finds the guard set, so it only queues or
defers.

Notes on the code's behaviour:

- There is no resynchronisation step in these files: no longest-common-prefix
  match and no correction of the index on resume or before a keystroke. The
  index is trusted as it is kept, so none is modelled.
- Only the paste area's save rejects whitespace-only text
  (src/extension.ts:257). The clipboard command (src/extension.ts:944-964)
  accepts any non-empty text, whitespace included.
- The delete interceptors rewind only while the engine is enabled
  (src/extension.ts:1112, src/extension.ts:1166).
- In the demo terminal, the key that reveals a command's last character also
  moves to the next command and redraws the prompt. A transcript `"A\n"`
  therefore takes two keys, not three (`Terminal.TwoCommandSession`).
- `resetTerminalCommands` and `deleteTerminalCommand` leave the open
  session's reveal position unchanged. After a reset, the first command
  continues from that position (`Terminal.ResetKeepsRevealPosition`).
- The completion message is not once per staging. It fires whenever a
  successful substitution reaches the end, including after deletions have
  rewound the index and the last characters are typed again.

## Model

| member | source | states |
|---|---|---|
| `Text.Trim` | src/extension.ts:257 | `trim()` keeps a slice of the text whose cut-off ends are whitespace only, and the slice neither starts nor ends with whitespace |
| `Text.TrimEmptyIffBlank` | src/extension.ts:257 | the paste area rejects a text exactly when every character of it is whitespace |
| `Text.Preview` | src/extension.ts:111 | the preview keeps the first `width` characters with every line break shown as `↵` and adds `...` exactly when the text is longer; width 50 for mappings and 30 for terminal commands (src/extension.ts:176) |
| `Text.ShowNewlines` | src/extension.ts:111 | `replace(/\n/g, '↵')` keeps the length, replaces every line break and changes nothing else |
| `Text.LastSegment` | src/extension.ts:241 | the last piece of a path is its longest suffix without `/` or `\` |
| `Text.PopIsLastSegment` | src/extension.ts:241 | the last element of `split(/[/\\]/)` is that suffix |
| `Text.BaseName` | src/extension.ts:954 | the file name is that suffix, or the fallback when the suffix is empty |
| `Text.NatToStringRoundTrip` | src/extension.ts:1234 | the count shown in a status text reads back as the number itself |
| `Document.Split` | src/extension.ts:1134-1143 | every text is the text of a unique well-formed line sequence (`SplitText`), so a line join removes exactly one line break |
| `Document.SplitText` | src/extension.ts:1134-1143 | a document is determined by its text |
| `Document.SpliceText` | src/extension.ts:1033-1039 | replacing a range by a text changes the document's text by exactly that replacement and keeps it well formed |
| `Document.ApplyOp` | src/extension.ts:1033-1039 | an insert, replace or delete changes the text between its two ends and nothing else |
| `EditBuilder.SubstitutionEdits` | src/extension.ts:1032-1040 | one edit per selection, each from the selection's start to its end with the staged character as new text |
| `EditBuilder.SubstitutionReplacesSelection` | src/extension.ts:1034-1038 | an empty selection gets the character inserted; a non-empty selection's contents are replaced by it |
| `EditBuilder.DeleteLeftEdits` | src/extension.ts:1121-1150 | at most one edit per selection, each a valid deletion; the edits are exactly the deletions the selections call for (`DeleteLeftOp`), none added and none lost |
| `EditBuilder.DeleteRightEdits` | src/extension.ts:1175-1204 | the same with `DeleteRightOp` |
| `EditBuilder.DeleteLeftSingle` | src/extension.ts:1121-1150 | for one selection: no edit exactly when the selection is empty and at the document start; an empty selection loses the character before it, a non-empty one its contents |
| `EditBuilder.DeleteRightSingle` | src/extension.ts:1175-1204 | for one selection: no edit exactly when the selection is empty and at the document end; an empty selection loses the character after it, a non-empty one its contents |
| `EditBuilder.DeleteLeftMeaning` | src/extension.ts:1121-1150 | backspace on an empty selection removes the character before it (the line break at a line start) and nothing at the document start; on a non-empty selection it removes the whole selection |
| `EditBuilder.DeleteRightMeaning` | src/extension.ts:1175-1204 | delete on an empty selection removes the character after it (the line break at a line end) and nothing at the document end; on a non-empty selection it removes the whole selection |
| `Staging.UpdateInRange` | src/extension.ts:261-265 | staging an entry at index 0 keeps every index within its text |
| `Staging.Admit` | src/extension.ts:1073-1097 | control keys and keystrokes that cannot be substituted go to `default:type` with their own text; a keystroke without an editor is dropped; a substitutable one joins the back of the queue; no mapping changes |
| `Staging.AdmitAll` | src/extension.ts:1095 | keystrokes arriving during a drain join the back of the queue in arrival order |
| `Staging.AdmitAllDefers` | src/extension.ts:1075-1092 | arrivals only ever add `default:type` requests to the effects |
| `Staging.Iterate` | src/extension.ts:1012-1066 | one drain iteration removes the head of the queue, adds only the arrivals it admits and keeps the set of mapped documents |
| `Staging.IterateKeepsInRange` | src/extension.ts:1029-1046 | an iteration keeps every index within its text |
| `Staging.DrainEmptiesQueue` | src/extension.ts:1012 | given one schedule entry per iteration, the drain ends with an empty queue |
| `Staging.DrainKeepsInRange` | src/extension.ts:1012-1066 | the drain keeps every index within its text and every mapping in place |
| `Staging.DrainOrder` | src/extension.ts:1013 | what is dequeued followed by what is left is what was queued before and during the drain, in order |
| `Staging.DrainIsFifo` | src/extension.ts:1006-1068 | a complete drain handles each queued keystroke exactly once, in arrival order |
| `Staging.SubstitutionStep` | src/extension.ts:1029-1046 | a substitution types `content[index]` over every selection; the index rises by one on success and is unchanged on failure; no other mapping changes |
| `Staging.DeferredAtDequeue` | src/extension.ts:1023-1026 | a queued keystroke that finds its mapping disabled, missing or exhausted goes to `default:type` with its own text and changes no mapping |
| `Staging.Settle` | src/extension.ts:1044-1065 | settling an edit only appends effects |
| `Staging.ObservedSettle` | src/extension.ts:1049-1065 | settling shows the completion message exactly when the settled index is at the end, and saves once when that index is a multiple of 50 and once more at the end |
| `Staging.IterateObserved` | src/extension.ts:1012-1066 | an iteration types the staged character exactly when it substitutes, and completes exactly when that character was the last one and the edit succeeded |
| `Staging.KeystrokeEffect` | src/extension.ts:1073-1097 | one keystroke with nothing queued types the next staged character unless it is a control key or the mapping is exhausted |
| `Staging.TypingRun` | src/extension.ts:1029-1030 | `p` printable keystrokes move the index on by `p`, capped at the end, type exactly the staged characters in between, and complete once if the end is reached from below |
| `Staging.FreshStagingTypesPrefix` | src/extension.ts:1029-1065 | after fresh staging, `N <= length` printable keystrokes leave the index at `N` and every other mapping as it was, have typed exactly `content[..N]`, have completed exactly once when `N == length > 0`, and have saved `N / 50` times plus once at completion |
| `Staging.Rewind` | src/extension.ts:1112-1113 | the rewind keeps the set of mapped documents |
| `Staging.RewindOnlyLowers` | src/extension.ts:1112-1113 | only the active mapping's index moves, down by exactly one and only when enabled and above zero, so no index leaves its text |
| `Staging.RewindsLower` | src/extension.ts:1166-1167 | `K` deletions lower the index by `K`, floored at zero |
| `Staging.TypeThenDeleteRestores` | src/extension.ts:1029-1030 | `K` printable keystrokes followed by `K` deletions restore the mapping when `K` characters were left; the document itself is restored by `Cursor.TypeThenBackspaceRestores` |
| `Cursor.TypeAtIsSubstitution` | src/extension.ts:1032-1040 | for a single cursor the substitution callback issues one valid edit, and the document it yields is the one whose text has the staged character inserted at the cursor (`TypeAt`, with the cursor moved behind it) |
| `Cursor.BackspaceAtIsDeleteLeft` | src/extension.ts:1121-1150 | for a single cursor the `deleteLeft` callback issues no edit exactly at the document start, where nothing changes; otherwise one edit, whose document is the one with the character before the cursor removed (`BackspaceAt`, with the cursor moved back by one) |
| `Cursor.TypeRunText` | src/extension.ts:1029-1040 | a run of substituted characters lands in the text at the cursor, in order, with the cursor behind them |
| `Cursor.BackspaceRunCursor` | src/extension.ts:1121-1150 | `K` backspaces, no more than the characters before the cursor, move the cursor back by `K` |
| `Cursor.BackspaceRunText` | src/extension.ts:1121-1150 | those `K` backspaces remove exactly the `K` characters before the cursor |
| `Cursor.TypeThenBackspaceRestores` | src/extension.ts:1121-1150 | typing `K` characters and then pressing backspace `K` times gives back the same document and cursor |
| `Cursor.FreshStagingDocument` | src/extension.ts:1029-1065 | after fresh staging, `N` printable keystrokes put exactly `content[..N]` into the document at the cursor, and `N` backspaces restore both the document and the mapping |
| `Engine.Remaining` | src/extension.ts:109 | the remaining count is between 0 and the length, and is 0 exactly when fully typed |
| `Engine.StatusOf` | src/extension.ts:1214-1237 | no editor, unmapped, paused and counting each hold exactly in their own situation; the count is the length of the not-yet-typed tail of the active mapping, 0 exactly when fully typed |
| `Engine.StatusTextInjective` | src/extension.ts:1217-1234 | the four status texts tell the four situations apart, and the number shown is the remaining count |
| `Engine.FakeType.constructor` | src/extension.ts:4 | activation starts enabled with nothing mapped, an empty queue and the guard clear |
| `Engine.FakeType.Type` | src/extension.ts:1073-1097 | while a drain runs, a call only queues or defers (`Admit`); otherwise it admits and then drains to an empty queue with the guard clear |
| `Engine.FakeType.ProcessTypeQueue` | src/extension.ts:1006-1069 | returns at once when the guard is set or nothing is queued; otherwise the state afterwards is `Drain` of the state before, the queue is empty and the guard is clear |
| `Engine.FakeType.IterateOnce` | src/extension.ts:1013-1066 | one loop pass leaves the state `Iterate` of the state before |
| `Engine.FakeType.SettleEdit` | src/extension.ts:1044-1065 | the rollback on a failed edit, and the save, refresh and completion effects |
| `Engine.FakeType.ReceiveArrivals` | src/extension.ts:1073-1097 | keystrokes arriving during an await are admitted one by one |
| `Engine.FakeType.DeleteLeft` | src/extension.ts:1102-1151 | rewinds the active mapping (`Rewind`), refreshes the tree when the new index is a multiple of 10, then issues `DeleteLeftEdits`; nothing happens without an editor |
| `Engine.FakeType.DeleteRight` | src/extension.ts:1156-1205 | the same with `DeleteRightEdits` |
| `Engine.FakeType.RewindActive` | src/extension.ts:1112-1118 | the shared rewind and its refresh every tenth index |
| `Engine.FakeType.SelectFile` | src/extension.ts:232-246 | the picked file becomes the target, named by its base name or `未知文件` |
| `Engine.FakeType.SaveContent` | src/extension.ts:250-278 | without a target or with blank content nothing changes; otherwise the target is staged at index 0, the engine enabled, the data saved and the target forgotten |
| `Engine.FakeType.SetFromClipboard` | src/extension.ts:944-964 | non-empty clipboard text is staged at index 0 for the active document under its base name, and the engine is enabled; otherwise nothing changes |
| `Engine.FakeType.ResetMapping` | src/extension.ts:770-782 | a mapped document's index returns to 0 and nothing else changes |
| `Engine.FakeType.Reset` | src/extension.ts:969-982 | the same for the active document |
| `Engine.FakeType.DeleteMapping` | src/extension.ts:746-765 | after confirmation the key is removed and every other mapping is kept |
| `Engine.FakeType.ClearAll` | src/extension.ts:987-999 | after confirmation no mapping is left |
| `Engine.FakeType.Toggle` | src/extension.ts:935-939 | flips the enabled flag |
| `Terminal.Input` | src/extension.ts:862-909 | the command list and prompt never change; passthrough never moves either script index; the current index only ever moves to the next command, with the reveal position reset to 0, and never passes the end of the list |
| `Terminal.PassthroughEcho` | src/extension.ts:863-877 | with no command left, Enter writes `\r\n` and the prompt and clears the echo; backspace erases only when something is echoed; other input is appended and echoed |
| `Terminal.ScriptBackspace` | src/extension.ts:883-887 | in script mode backspace lowers the reveal position by one, floored at 0, and erases exactly when it lowered it |
| `Terminal.ScriptRevealsOne` | src/extension.ts:888-899 | any other input, however long, reveals at most the one character at the reveal position |
| `Terminal.ScriptAdvances` | src/extension.ts:901-906 | at the end of the output the next command becomes current from position 0 and the prompt is redrawn; an empty output is passed on the first key |
| `Terminal.Reveals` | src/extension.ts:890-899 | the writes for a run of transcript characters, one per character |
| `Terminal.RevealRun` | src/extension.ts:888-899 | keys short of the end reveal the characters from the reveal position on, one per key |
| `Terminal.PlayCommand` | src/extension.ts:880-907 | a command played from its start writes its output, with line breaks as `\r\n`, and then the prompt, and moves on to the next command |
| `Terminal.FeedSplit` | src/extension.ts:862 | a run of keys is its first part followed by the rest, continuing from the state the first part left |
| `Terminal.TwoCommandSession` | src/extension.ts:862-907 | commands `"A\n"` and `"B"` with prompt `"$ "` write `A`, `\r\n`, `\r\n$ `, `B`, `\r\n$ `, and then echo as typed |
| `Terminal.ResetKeepsRevealPosition` | src/extension.ts:812-813 | after a reset the first command continues from the session's reveal position |
| `Terminal.FindIndex` | src/extension.ts:790 | `findIndex`: none exactly when no command has the id; otherwise the first command with that id |
| `Terminal.ClampCurrent` | src/extension.ts:800-802 | an index past the shortened list becomes `max(0, length - 1)`; any other index is kept |
| `Terminal.DelayOrDefault` | src/extension.ts:519 | a given non-zero delay is kept; a missing or zero delay becomes 500 |
| `Terminal.PromptOrFallback` | src/extension.ts:545 | a given non-empty prompt is kept; an empty or missing prompt falls back to `PS C:\> ` |
| `Terminal.DemoTerminal.constructor` | src/extension.ts:26-28 | no commands, index 0, the initial prompt |
| `Terminal.DemoTerminal.Open` | src/extension.ts:846-857 | a new session starts at the first command with nothing revealed or echoed and writes the prompt |
| `Terminal.DemoTerminal.HandleInput` | src/extension.ts:862-909 | the new state and the writes are those of `Input`, and the current index stays within the list |
| `Terminal.DemoTerminal.AddCommand` | src/extension.ts:514-521 | the new command is appended, with missing fields defaulted |
| `Terminal.DemoTerminal.DeleteCommand` | src/extension.ts:787-807 | after confirmation the first command with the id leaves the list, the others keep their order, and the index is clamped |
| `Terminal.DemoTerminal.ResetProgress` | src/extension.ts:812-816 | back to the first command |
| `Terminal.DemoTerminal.ClearAll` | src/extension.ts:821-833 | after confirmation no command is left and the index is 0 |
| `Terminal.DemoTerminal.SetPrompt` | src/extension.ts:544-546 | the prompt becomes the given one or the fallback |
| `Legacy.Keystroke` | v1-backup/extension.ts:68-100 | only effects are appended; the index stays within the text; without an editor nothing happens |
| `Legacy.KeystrokeObserved` | v1-backup/extension.ts:75-94 | a keystroke types `content[index]` and raises the index by exactly one iff enabled, loaded and not exhausted, control keys included; otherwise the key's own text goes to `default:type` and nothing else changes |
| `Legacy.CompletionExactlyAtEnd` | v1-backup/extension.ts:97-99 | the completion message is shown exactly when a substitution makes the index reach the end |
| `Legacy.TypingRun` | v1-backup/extension.ts:81-94 | `n` keystrokes of any kind while enabled move the index on by `n`, capped at the end, type exactly the prepared characters in between, and complete once if the end is reached from below |
| `Legacy.EnterNotExempt` | v1-backup/extension.ts:75-78 | Enter is substituted by the first version and always handed to the editor by the current one (src/extension.ts:1075-1078) |
| `Legacy.SelectionText` | v1-backup/extension.ts:45-47 | a non-empty selection has non-empty text, so loading from it always loads something |
| `Legacy.StatusOf` | v1-backup/extension.ts:107-114 | empty content shows not loaded; otherwise disabled shows paused; otherwise it shows the remaining count, which is 0 exactly when fully typed |
| `Legacy.StatusTextInjective` | v1-backup/extension.ts:107-114 | the three status texts tell the situations apart, and the number shown is the remaining count |
| `Legacy.LegacyFakeType.constructor` | v1-backup/extension.ts:4-6 | load time: disabled, nothing prepared, index 0 |
| `Legacy.LegacyFakeType.Toggle` | v1-backup/extension.ts:18-22 | flips only the enabled flag |
| `Legacy.LegacyFakeType.SetFromClipboard` | v1-backup/extension.ts:27-39 | non-empty clipboard text becomes the content at index 0 and enables; empty text changes nothing |
| `Legacy.LegacyFakeType.SetFromSelection` | v1-backup/extension.ts:43-55 | a non-empty primary selection's text becomes the content at index 0 and enables; otherwise nothing changes |
| `Legacy.LegacyFakeType.Reset` | v1-backup/extension.ts:58-63 | only the index returns to 0 |
| `Legacy.LegacyFakeType.Type` | v1-backup/extension.ts:68-100 | the new state is `Keystroke` of the old one, and the index stays within the text |

## Left out

- Persistence: `saveData`, `loadData` and `globalState` (src/extension.ts:40-77) are external storage. Each `saveData()` call is logged as a `Saved` effect, and the save cadence is stated on that log (`Staging.ObservedSettle`, `Staging.FreshStagingTypesPrefix`). Loading, including the fallback to an empty state on corrupt data, is not modelled. The save in `deactivate` is not modelled.
- The webview HTML and scripts, the tree items (icons, tooltips, colours) and the status-bar item objects are UI. The model keeps the state changes that webview messages trigger, the remaining count, the previews, and the status text as a function of the state.
- `default:type` is logged, but its own effect on the document is not modelled. Neither are the information and warning messages, other than the completion message.
- `editor.edit` is modelled by the edit list it is given and a success flag; what the editor does with overlapping edits is not modelled. `editor.edit` in `deleteLeft`/`deleteRight` and in the first version is awaited; its result is ignored.
- The async interleaving is reduced to one sequential loop. Keystrokes that arrive during either await of a drain iteration (`default:type` at src/extension.ts:1024 or `editor.edit`) are given per iteration. Arrivals during the other awaits (confirmation dialogs, pickers, and the edit in `deleteLeft`/`deleteRight`) are not modelled.
- `Engine.FakeType.ProcessTypeQueue`: the drain is given one schedule entry per iteration and requires at least as many entries as the keystrokes it will handle. The real loop runs until the queue is empty, with no such bound.
- `Staging.FreshStagingTypesPrefix`: stated for keystrokes whose edits all succeed with no arrivals during the awaits. A failed edit is covered per step by `Staging.SubstitutionStep`.
- `Terminal.DemoTerminal.DeleteCommand`: the early return for a tree item without a command id (src/extension.ts:788) is not modelled; the id is always given.
- `Staging.Keystrokes` keeps one editor value for a whole run of keystrokes; the editor's own movement of the cursor after an edit is modelled separately in `Cursor`, for a single cursor. Multiple cursors are covered per edit by `EditBuilder` but not across a run.
- Command ids come from `Date.now()` (src/extension.ts:516). They are a parameter of `AddCommand`. A command's `delay` is stored but never read during playback.
- Pseudoterminal creation and disposal, the `close` callback and `jumpToFile` are not modelled. The webview messages `pasteFromClipboard`, `pasteOutput` and `openDemoTerminal` only forward text or call a command, and are not modelled either.
- Strings are sequences of Dafny characters. JavaScript strings are UTF-16 code units, so a character outside the Basic Multilingual Plane is two steps there and one step here.
- Documents are sequences of lines joined by `\n`. CRLF documents are not modelled, so a line join removes one line break rather than a counted number of characters.
- `v1-backup/extension.js` is compiler output of `v1-backup/extension.ts` and is not part of this model.
