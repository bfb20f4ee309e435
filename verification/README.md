# Collaboration-Tool widget state machine in Dafny

The widget lets one browser user upload small files, list them newest first with a
name search, and keep a timestamped chat log under a profile name. Its state is
three things: the list of uploaded file records, the chat log and the profile
name. Every event handler of `script.js` changes that state in a few list and
string steps. This project models those steps as pure functions over an
immutable `AppState` and proves what they do.

- `wrappers.dfy`, module `Wrappers`: `Option` and `Result`.
- `text.dfy`, module `Text`: the JavaScript string operations the handlers use.
  - `trim` strips exactly the ECMAScript WhiteSpace and LineTerminator code points.
  - `toLowerCase` and `toUpperCase` map ASCII letters only.
  - `indexOf`, `includes` and `startsWith` work as in JavaScript.
  - `replace` with a string pattern includes its `$`-pattern expansion (GetSubstitution, section 22.1.3.19.1 of ECMAScript 2024).
- `files.dfy`, module `Files`: the upload size guard and the file record.
  - The list `renderFiles` draws: the reversed list, filtered by name, each row carrying its `forEach` index.
  - The confirmation-gated delete, modelled twice: as written and as intended.
- `chat.dfy`, module `Chat`: sending a message, and the author-prefix rewrite run when the profile name changes (as written and as intended).
- `app.dfy`, module `App`: the state, one transition per handler, an event type with `Step`/`Run`, and the invariant `Valid`.
  - `Step` and `Run` take a `Build`: `AsWritten` runs the handlers as `script.js` has them; `Corrected` applies the two corrections listed under findings (delete and rename).
  - `Valid` says no stored file exceeds 5 MiB and every message starts with the current profile name followed by `": "`.
  - As written, every transition keeps `Valid` provided a saved profile name contains no `$`, so it holds in every state reached from empty storage by events without such a save. This condition is sufficient, not necessary: only a `$` followed by `$`, `&`, `` ` `` or `'` is expanded, and one save of `$$` breaks `Valid`.
  - With the corrections, every transition keeps `Valid`.

Inputs the browser supplies are parameters:
- the text typed into an input;
- the picked `File` (or none);
- the `confirm` answer;
- the `toLocaleString` timestamp;
- the file reader, as a function from a file and a read mode to the content string, or to nothing when the read fails and `onload` never fires.

The persistence calls (`saveFiles`, `saveChatMessages`, `localStorage.setItem`) are identity on the state.

## Model

| member | source | states |
|---|---|---|
| Text.Trim | script.js:89 | the trimmed text is empty or begins and ends with a non-whitespace character |
| Text.TrimIsFactor | script.js:30 | trimming removes whitespace and only whitespace, from the two ends: the result is a contiguous piece of the input with whitespace before and after it |
| Text.TrimEmptyIff | script.js:89-91 | a text is empty after trimming exactly when it consists of whitespace only |
| Text.ToLower | script.js:111 | lower-casing keeps the length and leaves no ASCII capital letter; each capital becomes the small letter whose capital it is, and every other character is kept |
| Text.ToUpper | script.js:111 | upper-casing keeps the length and leaves no ASCII small letter; each small letter becomes the capital whose small letter it is, and every other character is kept |
| Text.LowerOfUpper | script.js:111 | lower-casing gives the same text whether or not the input was upper-cased first |
| Text.TrimLowerIgnoresCase | script.js:111 | the search keyword `trim().toLowerCase()` is the same for a text and its upper-cased form |
| Text.TrimLowerAgrees | script.js:111 | two texts that agree after lower-casing give the same search keyword `trim().toLowerCase()` |
| Text.IndexOf | script.js:118 | a position found for the pattern lies at or after the start and leaves room for the whole pattern |
| Text.IndexOfFirst | script.js:118 | the position found is an occurrence and no earlier one exists; nothing is found only when the pattern occurs nowhere |
| Text.IncludesIff | script.js:118 | `includes` holds exactly when the pattern occurs at some position |
| Text.IncludesEmpty | script.js:118 | every name includes the empty keyword |
| Text.PrefixIsFirstOccurrence | script.js:251-254 | when a message starts with the tag, the first occurrence `replace` finds is at position 0 |
| Text.ReplaceFirstOfPrefix | script.js:254 | replacing a pattern the text starts with rewrites exactly that prefix and keeps the rest |
| Text.SubstitutionLiteral | script.js:254 | a replacement text without `$` is inserted unchanged by the `$`-pattern expansion |
| Text.JsReplaceLiteral | script.js:254 | without `$` in the replacement, JavaScript's `replace` equals literal first-occurrence replacement |
| Files.Upload | script.js:46-79 | no file gives no change; a file over 5 MiB is refused; a file whose read fails is not stored; otherwise exactly one record is appended with the file's name, size, type, date and the content read in the mode its type selects (data URL exactly for `image/` types), and the earlier records are kept |
| Files.UploadLimitIsInclusive | script.js:53-56 | a file of exactly 5 MiB is stored whenever its read succeeds, and a file of 5 MiB plus one byte is refused |
| Files.Reverse | script.js:114 | the reversed list has the same length and holds position `i` at `n-1-i` |
| Files.RowsFrom | script.js:116-118 | the rows from position `i` on are exactly the hit positions, each once, in increasing order, each showing the file at its position |
| Files.Render | script.js:106-118 | the drawn rows are exactly the files whose names match the keyword, newest first; each row's index is the file's reversed-list position and its file is `files[n-1-index]` |
| Files.RowsFromAll | script.js:116-118 | when every position is a hit, the rows are the whole reversed list with indices `0, 1, …` |
| Files.BlankInputHitsAll | script.js:111-118 | a blank search input makes every file a hit |
| Files.RenderBlankRows | script.js:111-118 | a blank search draws one row per file; row `k` has index `k` and shows the `k`-th newest file |
| Files.RenderBlankShowsAll | script.js:111-118 | a blank search shows the whole list in reverse upload order |
| Files.RenderIgnoresCase | script.js:111-118 | upper-casing the search input does not change the drawn rows |
| Files.RenderDependsOnLowerCase | script.js:111-118 | two search inputs that agree after lower-casing draw the same rows |
| Files.RenderIgnoresCaseLower | script.js:111-118 | lower-casing the search input does not change the drawn rows |
| Files.Splice | script.js:181 | `splice(i, 1)` removes position `i` and keeps the rest in order, or changes nothing when `i` is past the end |
| Files.DeleteAsWritten | script.js:178-185 | as written: a declined confirm, or an index past the end, changes nothing; a confirmed one removes `files[index]` counted from the oldest file, one record fewer, the others in order |
| Files.DeleteDisplayed | script.js:178-185 | as intended: a confirmed delete removes the displayed file `files[n-1-index]`; the others keep their order |
| Files.DeleteDisplayedRemovesRowFile | script.js:180-183 | confirming the delete on any drawn row removes exactly the file that row shows |
| Files.DeleteAsWrittenRemovesWrongFile | script.js:180-181 | after uploading A then B, the top row shows B, but the code as written deletes A and keeps B |
| Chat.Send | script.js:86-103 | a message that is whitespace only leaves the log unchanged; otherwise exactly one message `profileName + ": " + trimmed text` with the given timestamp is appended and the earlier ones are kept |
| Chat.SendKeepsAuthored | script.js:94-98 | if every message carries the sender's name prefix, they still all do after a send |
| Chat.RenameMessage | script.js:250-257 | a message not starting with `old:` is unchanged; one that does becomes `new:` followed by the rest of its text; the timestamp is kept |
| Chat.Rename | script.js:248-261 | the log keeps its length and every timestamp; a message not starting with `old:` is unchanged; each message starting with it becomes `new:` + suffix |
| Chat.RenameKeepsAuthored | script.js:249-257 | a log written entirely under the old name is written entirely under the new name after the rename |
| Chat.RenameSameName | script.js:251-254 | renaming a name to itself leaves the log identical |
| Chat.RenameFromEmptyName | script.js:251-254 | with the old name empty, every message starting with `:` gets the new name in front |
| Chat.RenameAliceToBob | script.js:251-254 | renaming Alice to Bob turns `Alice: hi` into `Bob: hi` and leaves `Carl: hello Alice` unchanged |
| Chat.RenameMessageAsWritten | script.js:250-257 | as written: a message not starting with `old:` is unchanged; one that does becomes the `$`-expansion of `new:` (with `old:` as the match, nothing before it and the rest of the message after it) followed by the rest; the timestamp is kept |
| Chat.RenameAsWritten | script.js:248-261 | as written: the log keeps its length and timestamps; messages not starting with `old:` are unchanged; each one that does becomes the `$`-expansion of `new:` followed by the rest of its text |
| Chat.RenameAsWrittenAgrees | script.js:254 | for a new name without `$`, the rename as written equals the intended rename |
| Chat.RenameAsWrittenMangles | script.js:254 | as written, renaming `A` to `$$` turns `A: hi` into `$: hi`, where the intended result is `$$: hi` |
| Chat.RenameAsWrittenSameNameChanges | script.js:251-254 | as written, renaming `$$` to itself turns `$$: hi` into `$: hi`, so saving an unchanged name can alter the log |
| App.SaveProfileName | script.js:29-36 | as written: a name that is blank after trimming changes nothing; otherwise the log is renamed from the previous name to the trimmed one with JavaScript's `replace`, and the trimmed name is stored; files are untouched |
| App.SaveProfileNameCorrected | script.js:29-36 | corrected: the same, with the new name inserted literally into each renamed message |
| App.UploadFile | script.js:46-83 | a refused or absent file, or one whose read fails, changes nothing; an accepted one appends its record; the chat and profile name are untouched |
| App.SendMessage | script.js:86-103 | sending touches only the chat log, appending under the current profile name unless the input is blank |
| App.DeleteFile | script.js:178-185 | as written: a declined delete, or one past the end, changes nothing; a confirmed one removes `files[index]` counted from the oldest file, keeping the others in order; chat and profile name are untouched |
| App.DeleteFileCorrected | script.js:178-185 | corrected: a confirmed delete removes the displayed file `files[n-1-index]` |
| App.Search | script.js:106-118 | every file a search shows is in the list and matches the keyword |
| App.SearchLeavesState | script.js:273-281 | a search event, typed or submitted, leaves files, chat and profile name unchanged |
| App.RunSnoc | script.js:29-103 | handling one more event after a sequence is one more step from the state the sequence reached |
| App.InitialValid | script.js:2-8 | the empty starting state satisfies the invariant |
| App.StepKeepsValid | script.js:29-103 | every handler keeps the invariant (no file over 5 MiB, every message carries the current profile name), the save handler as written provided the typed name has no `$` |
| App.RunKeepsValid | script.js:29-103 | any sequence of events keeps the invariant, as written provided no saved name has a `$` |
| App.ReachableStatesValid | script.js:2-8 | as written, from empty storage, every state reached by events that save no name containing `$` satisfies the invariant |
| App.ReachableStatesValidCorrected | script.js:2-8 | with the corrected handlers, every state reached from empty storage satisfies the invariant whatever the user does |
| App.AsWrittenBreaksValid | script.js:248-257 | as written, saving `A`, sending `hi` and saving `$$` leaves the message `$: hi` under the profile name `$$`, breaking the invariant |
| App.SaveDollarLetterKeepsValid | script.js:248-257 | as written, saving `a$b` over the profile `A` with the log `A: hi` gives `a$b: hi` under `a$b`, which is valid: a `$` starting no pattern is copied |
| App.SaveDollarsAfterHi | script.js:29-36 | as written, saving `$$` over the profile `A` with the log `A: hi` gives the log `$: hi` under the name `$$`, which is not valid |
| App.NovaSaysHello | script.js:86-98 | saving the name Nova and then sending `hello` stores exactly the message `Nova: hello` |
| App.HelloThenNova | script.js:248-257 | a message sent before any name was saved (`: hello`) becomes `Nova: hello` when Nova is saved |
| App.SaveNovaAfterHello | script.js:29-36 | saving Nova over the empty name with the log `: hello` gives the log `Nova: hello` |
| App.UploadTwo | script.js:46-72 | uploading A then B from empty storage stores two records, A's first and B's second |
| App.TopRowOfTwo | script.js:106-118 | with two files and a blank search, the top row shows the newer file |
| App.UploadTwoDeleteNewest | script.js:178-185 | as written, after uploading A then B, the top row shows B, and confirming its delete leaves B alone in the list |
| App.UploadTwoDeleteNewestCorrected | script.js:178-185 | with the corrected delete, the same steps remove B, the file the top row shows, and leave A |

## Left out

- Persistence: `localStorage` and `JSON.parse`/`JSON.stringify` (script.js:2-8, 217-219, 243-245) are a foreign library. Saving is identity on the state. Only the empty-storage start (`Initial`) is modelled, so `Valid` is proved for states reached from empty storage, not for arbitrary stored data.
- The `FileReader` is asynchronous (script.js:66-79). Each read is one atomic step, and its result is the `read` parameter: some content, or nothing when the read errs or is aborted, since then `onload` never runs and nothing is pushed. Two uploads whose reads complete in either order are two separate events.
- Resetting the file input field (script.js:81) and the chat input field (script.js:101) is DOM state.
- DOM construction is left out: styling, `innerHTML` clearing, scrolling, `alert`, and `renderChatMessages` (script.js:193-205). They are display only. A `confirm` answer is a boolean input.
- `formatFileSize` (script.js:208-214) is floating point (`Math.log`, `toFixed`, `parseFloat`).
- The invite link (script.js:39-43, 222-240) uses `Math.random` and the clipboard.
- The copy-code button (script.js:130-136) is clipboard only and changes no state.
- The image download prompt (script.js:150-161) only downloads and changes no state.
- Timestamps from `toLocaleString` are opaque strings passed in.
- JavaScript strings are UTF-16 code units. Here they are sequences of Unicode scalar values. No character the handlers test for lies outside the BMP.
- Text.ToLower: maps only ASCII letters and keeps every other character, because full Unicode case mapping needs the Unicode data tables. Non-ASCII names therefore match case-sensitively in this model.
- Text.ToUpper: maps only ASCII letters and keeps every other character, for the same reason.
- App.Search: states only that shown files come from the list and match. Order, completeness and positions are stated on Files.Render.
- App.StepKeepsValid: for the build as written, it needs the event not to save a name containing `$`. This is a sufficient condition, not the exact one. A name such as `a$b` also keeps the invariant, because only `$$`, `$&`, `` $` `` and `$'` are expanded, while `$$` breaks it (App.AsWrittenBreaksValid). The corrected build needs no such condition.
- App.RunKeepsValid: as written, it needs every event to meet the same condition, for the same reason.
- App.ReachableStatesValid: as written, it covers only runs that save no name containing `$`. App.ReachableStatesValidCorrected covers every run of the corrected build.

## Findings

| source | as written | input that shows it | evidently intended | confidence | as-written member | corrected member |
|---|---|---|---|---|---|---|
| script.js:116-181 | the delete handler calls `files.splice(index, 1)`, where `index` is the row's position in the reversed list, so it removes `files[index]` counted from the oldest file | upload A, then B; confirm delete on the top row, which shows B: A is removed and B stays | remove the file the row shows, `files[files.length - 1 - index]`; the confirm text names that file | high, not executed | Files.DeleteAsWritten | Files.DeleteDisplayed |
| script.js:254 | the rename passes `${newProfileName}:` to `String.prototype.replace` as replacement text, so `$$`, `$&`, `` $` `` and `$'` in the new name are expanded | profile `A` with message `A: hi`; save the name `$$`: the message becomes `$: hi` while the stored name is `$$` | insert the new name literally, giving `$$: hi` | high, not executed | Chat.RenameAsWritten | Chat.Rename |
