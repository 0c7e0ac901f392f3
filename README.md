# weNote core, modelled in Dafny

weNote is a collaborative note-taking application: a React front end and an
Express back end over a Supabase `notes` table, with a socket server that
tells the editors of a note who else is viewing it and relays their edits.
This project models the parts of it that are sequential logic, and proves
what they promise.

- **Presence rooms** (`presence.dfy`, module `Presence`). The socket server
  keeps two process-wide maps:
  - `rooms`: note id to the usernames viewing that note;
  - `users`: socket id to the username bound on the socket's first
    "OpenNote".

  Every socket also has its joined room keys. `PresenceServer` holds all
  three, and its methods are the handlers: "OpenNote", the
  `disconnectUser` leave routine, "disconnect", "logout" and the
  "ContentChange" relay. Each method returns the events it emits, with the
  room, the receiving sockets and the payload. Pure functions
  (`JoinRoom`, `LeaveRooms`, `LeaveEvents`, `OpenedRooms`, `OpenedJoined`)
  specify the new state and the events. Lemmas prove what they keep:
  - no duplicate usernames in a room;
  - no room key ever removed;
  - the leaving socket still receives the last "Online" update.
- **Note access lists** (`notes_repository.dfy`, `note_controller.dfy`).
  - The notes table is a class over a map from note id to row. Its methods
    are the repository operations.
  - Deleting a note removes the caller's first entry from the row's access
    list (`user_ids`). The row itself is deleted only when that list becomes
    empty.
  - The controller's handlers decide the HTTP status from what the
    repository gives back: a thrown error or a possibly missing value.
- **Editor text transforms** (`editor.dfy`).
  - Bold, italic and underline wrapping.
  - Markdown table insertion, built by a loop as in the source.
  - Link insertion and heading prefixes.
  - The payload sent on every content change.
  - The textarea's length cap and the save-time length guards.

  Each transform is a function of the content and the selection, giving
  the new content and the selection requested for it.
- **Sidebar and note list helpers** (`sidebar_item.dfy`,
  `sidebar_section.dfy`, `sidebar.dfy`, `note_list_item.dfy`).
  - Name and tooltip truncation.
  - The search and add-folder panels as a small state machine.
  - Folder-name normalisation.
  - The case-insensitive filter.
  - Folder selection and the folder entries.
  - Cutting a note preview into at most three lines.

`text.dfy` holds the JavaScript string operations these use: `slice` and
`substring` from the start, `trim` (with the ECMAScript whitespace set),
`toLowerCase` (for ASCII) and `includes`. `wrappers.dfy` holds `Option`, and
`wire.dfy` holds the note object the editors exchange.

Cutting a folder name comes after trimming it, so a long name can be sent
ending in a space. `SidebarSection.FolderNameMayEndInSpace` exhibits one.

## Model

| member | source | states |
|---|---|---|
| JsText.Prefix | group40/src/components/SidebarItem.tsx:35 | `substring(0, n)`, and `slice(0, n)` for the non-negative bounds the components pass: the result is a prefix of the string, `n` characters long when the string has that many, the whole string for a larger bound and empty for a negative one |
| JsText.Trim | group40/src/components/SidebarSection.tsx:53 | `trim()`: the result has no whitespace at either end and occurs in the input with only whitespace before and after it, so only whitespace was removed |
| JsText.TrimIdempotent | group40/src/components/SidebarSection.tsx:53 | trimming a trimmed string changes nothing |
| JsText.TrimEmptyIff | group40/src/components/SidebarSection.tsx:53-58 | a string trims to empty exactly when every character is whitespace |
| JsText.Lower | group40/src/components/SidebarSection.tsx:85 | `toLowerCase()` keeps the length and lower-cases each ASCII capital, leaving other characters alone |
| JsText.IncludesAt | group40/src/components/SidebarSection.tsx:85 | `includes(t)` holds exactly when `t` occurs at some index |
| JsText.IncludesEmpty | group40/src/components/SidebarSection.tsx:85 | every string includes the empty string |
| Presence.WithoutFacts | group40/backend/server.js:60 | the filter removes every occurrence of the username and nothing else; an unbound username removes nothing |
| Presence.WithoutNoDuplicates | group40/backend/server.js:60 | filtering never introduces a duplicate |
| Presence.WithoutIdempotent | group40/backend/server.js:60 | filtering a username out twice is filtering it out once |
| Presence.KeepAbsentFacts | group40/backend/server.js:57-63 | the socket stays joined exactly to the keys `rooms` does not have, without duplicates |
| Presence.JoinRoom | group40/backend/server.js:76-84 | the room gains the username only when absent (old list is a prefix), a missing room becomes `[username]`, no duplicate appears, other rooms are untouched |
| Presence.LeaveRoomsFilters | group40/backend/server.js:57-61 | after a leave, every key is still in `rooms`; each joined key's list has the username filtered out, every other list is unchanged |
| Presence.LeaveRoomsNoDuplicates | group40/backend/server.js:57-61 | a leave keeps every room free of duplicates |
| Presence.LeaveKeepsNoDuplicates | group40/backend/server.js:56-66 | the rooms and the joined keys after `disconnectUser` stay duplicate-free |
| Presence.LeaveEventsReachLeaver | group40/backend/server.js:56-66 | every "Online" event of a leave targets a room the socket joined, carries that room's filtered list, and reaches the leaving socket; every joined room that `rooms` holds gets an event |
| Presence.LeaveEventsOnePerRoom | group40/backend/server.js:56-66 | when the socket is in each room once, no two events target the same room, so each such room gets exactly one event |
| Presence.OpenNoteOutcome | group40/backend/server.js:75-89 | after switching to note `n`, no room key is gone, `rooms[n]` holds the username, and among the keys of `rooms` the socket is joined to exactly `n` |
| Presence.OpenNoteKeepsNoDuplicates | group40/backend/server.js:75-89 | switching notes keeps rooms and joined keys duplicate-free |
| Presence.PresenceServer.constructor | group40/backend/server.js:47-48 | both maps start empty, with no socket connected |
| Presence.PresenceServer.Lookup | group40/backend/server.js:98 | `users.get(socket.id)`: the bound username, or none when unbound |
| Presence.PresenceServer.Connect | group40/backend/server.js:69 | a new socket is joined to its own id room only; the maps are unchanged |
| Presence.PresenceServer.LeaveRoom | group40/backend/server.js:58-63 | one visit of the leave loop: the list is filtered, "Online" goes to the room's members before the socket leaves it |
| Presence.PresenceServer.DisconnectUser | group40/backend/server.js:56-66 | the new `rooms` is `LeaveRooms` of the old, with the same keys; the socket keeps only the keys `rooms` lacks; `users` is unchanged; the events are `LeaveEvents`, in joined order |
| Presence.PresenceServer.Join | group40/backend/server.js:76-84 | in place, `rooms` becomes `JoinRoom` of the old; nothing else changes |
| Presence.PresenceServer.OpenNote | group40/backend/server.js:70-91 | the username is bound only when unbound; re-opening a joined note changes nothing and emits nothing; otherwise: join, leave with the argument's username, join the socket, then announce the note's final list to its room |
| Presence.PresenceServer.RelayContent | group40/backend/server.js:93-95 | one event to room `note.id`, carrying the note unchanged, received by exactly the other sockets in that room |
| Presence.PresenceServer.Disconnect | group40/backend/server.js:97-99 | the leave filters `users[socket]` (or nothing when unbound); `users` keeps its entry; the socket is gone afterwards |
| Presence.PresenceServer.Logout | group40/backend/server.js:101-103 | the same leave as on disconnect; the socket stays connected and joined to the keys `rooms` lacks |
| NotesRepository.FirstIndex | group40/backend/Note-service/note.repository.js:102 | `indexOf`: -1 exactly when absent; otherwise an index holding the user with no earlier occurrence |
| NotesRepository.RemoveFirstFacts | group40/backend/Note-service/note.repository.js:102-105 | removing a member shortens the list by one, removes one copy only, and keeps the order around it; a non-member leaves the list as it was |
| NotesRepository.RemoveFirstMultiset | group40/backend/Note-service/note.repository.js:102-105 | the removal takes away exactly one copy of the user when the list holds one, and nothing otherwise |
| NotesRepository.RemoveFirstEmptyIff | group40/backend/Note-service/note.repository.js:102-108 | the list is empty after the removal exactly when it was empty or held only that user |
| NotesRepository.RemoveFirstMembership | group40/backend/Note-service/note.repository.js:102-105 | after the removal the user is still listed exactly when listed at least twice before |
| NotesRepository.AfterDeleteFacts | group40/backend/Note-service/note.repository.js:98-127 | a delete touches only its row; the row is dropped exactly when the list was empty or only the caller; a surviving row keeps text and category, loses one copy of the caller and gets the time |
| NotesRepository.AfterDeleteFrame | group40/backend/Note-service/note.repository.js:98-127 | a delete adds no row and leaves every other row as it was |
| NotesRepository.AfterDeleteRow | group40/backend/Note-service/note.repository.js:102-127 | the deleted-from row is never left with an empty list, is dropped exactly when the list was empty or only the caller, and otherwise keeps its text, loses one copy of the caller and gets the time |
| JsText.TrimmedAwayIsWhitespace | group40/src/components/SidebarSection.tsx:53-58 | when trimming leaves nothing, every character was whitespace |
| JsText.WhitespaceTrimsAway | group40/src/components/SidebarSection.tsx:53-58 | a string of whitespace only trims to nothing |
| NotesRepository.AfterDeleteKeepsAclsNonEmpty | group40/backend/Note-service/note.repository.js:107-127 | no delete leaves a row with an empty access list |
| NotesRepository.NotesForUser | group40/backend/Note-service/note.repository.js:18-25 | exactly the rows whose access list contains the user, as stored |
| NotesRepository.CreatedNoteVisibleToCreatorOnly | group40/backend/Note-service/note.repository.js:41-44 | a new note is listed for its creator, for nobody else, and no other user's list changes |
| NotesRepository.DeleteRevokesAccess | group40/backend/Note-service/note.repository.js:98-127 | the caller loses the note exactly when listed once; other users keep access while the row survives |
| NotesRepository.NotesTable.GetNoteById | group40/backend/Note-service/note.repository.js:139-148 | the row when present, nothing otherwise |
| NotesRepository.NotesTable.CreateNote | group40/backend/Note-service/note.repository.js:41-49 | the new row holds the given text, the access list `[userId]` and no edit time; other rows are unchanged |
| NotesRepository.NotesTable.UpdateNote | group40/backend/Note-service/note.repository.js:64-74 | the edit time and each text field present in the body are written, a field missing from the body keeps its stored value, and the access list is kept; a missing id changes nothing |
| NotesRepository.NotesTable.UpdateNoteUserIds | group40/backend/Note-service/note.repository.js:160-169 | only the row's access list is replaced; a missing id changes nothing |
| NotesRepository.NotesTable.RemoveUser | group40/backend/Note-service/note.repository.js:84-86 | the stub changes nothing |
| NotesRepository.NotesTable.DeleteNoteById | group40/backend/Note-service/note.repository.js:98-128 | the table becomes `AfterDelete` of the old; the result tells missing note, deleted row (as stored) and rewritten access list apart |
| NoteController.PlainStatus | group40/backend/Note-service/note.controller.js:15-22 | 500 exactly when the repository threw; the success code otherwise |
| NoteController.DeleteNoteStatus | group40/backend/Note-service/note.controller.js:74-87 | 500 on an error, 404 exactly for a falsy result, 200 exactly for a present one |
| NoteController.ShareStep | group40/backend/Note-service/note.controller.js:98-115 | 500 / 404 / 400 each exactly in its case; otherwise the list with the user appended, which then holds the user exactly once |
| NoteController.CollaboratorsStep | group40/backend/Note-service/note.controller.js:127-143 | 500 / 404 in their cases; otherwise the users looked up are exactly the note's access list |
| NoteController.ShareTwice | group40/backend/Note-service/note.controller.js:106-111 | sharing again with the same user answers 400 |
| NoteController.ShareNoteWithUser | group40/backend/Note-service/note.controller.js:98-116 | missing note: 404, nothing written; listed user: 400, nothing written; otherwise 200 and the user appended to the stored list |
| NoteController.DeleteNote | group40/backend/Note-service/note.controller.js:74-87 | the table becomes `AfterDelete`; a missing note is 500; a deleted row is 200; a rewritten list is 200 or 404 by what the store returns |
| NoteController.CreateNote | group40/backend/Note-service/note.controller.js:34-43 | 201, and the new note's access list is the authenticated caller alone |
| Editor.Splice | group40/src/components/NoteEditor.tsx:356-358 | before the selection, then the inserted text, then after it; nothing else |
| Editor.FormatText | group40/src/components/NoteEditor.tsx:351-386 | formatting as written: the content grows by the two markers, and the new selection is the old one shifted by the format's `cursorOffset` (2, 1, 2), inside the content |
| Editor.FormatTextRoundTrip | group40/src/components/NoteEditor.tsx:356-374 | the markers sit exactly around the selected text, and removing them gives back the original content |
| Editor.FormatTextKeepsSelection | group40/src/components/NoteEditor.tsx:362-383 | for bold and italic the new selection covers exactly the originally selected text |
| Editor.UnderlineSelectionShifted | group40/src/components/NoteEditor.tsx:371-383 | as written, underlining "ab" selects ">a" instead of "ab" |
| Editor.FormatTextIntended | group40/src/components/NoteEditor.tsx:371-383 | the same content as `formatText`, with the selection shifted by the opening marker's length |
| Editor.FormatTextIntendedKeepsSelection | group40/src/components/NoteEditor.tsx:362-383 | with that offset every format, underline included, selects exactly the original text |
| Editor.TableLength | group40/src/components/NoteEditor.tsx:394-402 | the table block is `1 + (9c+2) + (6c+2) + rows*(7c+2)` characters long |
| Editor.TableLineBreaks | group40/src/components/NoteEditor.tsx:394-402 | the table block holds `rows + 3` line breaks |
| Editor.HandleTable | group40/src/components/NoteEditor.tsx:388-423 | nothing happens exactly when rows or columns are not positive; otherwise the loop builds the header, separator and `rows` data lines, which replace the selection, with the cursor just after them |
| Editor.HandleLink | group40/src/components/NoteEditor.tsx:425-446 | the selection (or `link text`) becomes `[text](url)` in place, and the new selection runs from `start + 1` over exactly that text |
| Editor.HandleParagraph | group40/src/components/NoteEditor.tsx:468-500 | the three heading options insert their prefix (`# `, `## `, `### `) at the start of the selection, keep the text on both sides, and become the current format; the cursor requested is `start` plus the whole new content's length; any other option changes nothing |
| Editor.ParagraphCursorPastEnd | group40/src/components/NoteEditor.tsx:494-498 | as written, with text before the selection the requested cursor lies past the end of the content |
| Editor.ParagraphCursorExample | group40/src/components/NoteEditor.tsx:494-498 | heading "ab" at position 1 gives "a# b" and asks for position 5 |
| Editor.HandleParagraphIntended | group40/src/components/NoteEditor.tsx:494-498 | the same content and format as `handleParagraph`, with the cursor after the inserted prefix and selected text |
| Editor.HandleParagraphIntendedCursor | group40/src/components/NoteEditor.tsx:494-498 | that cursor lies inside the content, just after the prefix and the selected text |
| Editor.ContentChangePayload | group40/src/components/NoteEditor.tsx:170-173 | the relayed note is the note prop with the new content and folder; the title is the prop's, not the title field's |
| Editor.TypeInTextarea | group40/src/components/NoteEditor.tsx:939-942 | a value within 100000 characters replaces the content, a longer one is ignored; the cap is kept |
| Editor.SaveNote | group40/src/components/NoteEditor.tsx:220-253 | no request exactly when the title exceeds 100 or the content 100000 characters; PUT exactly for a non-empty note id, POST otherwise, carrying title and content |
| Editor.TypedContentSaves | group40/src/components/NoteEditor.tsx:220-230 | content that only changed by typing always passes the save guard |
| Editor.TypedWithinCap | group40/src/components/NoteEditor.tsx:939-942 | any sequence of typing keeps the content within 100000 characters |
| NoteListItem.Chunks | group40/src/components/NoteListItem.tsx:28 | every match of `.{1,n}` has 1 to `n` characters and no line terminator |
| NoteListItem.ChunksConcat | group40/src/components/NoteListItem.tsx:28 | the matches joined together are the content minus its line terminators, in order |
| NoteListItem.ChunksRoundTrip | group40/src/components/NoteListItem.tsx:28 | content without line terminators is its matches joined |
| NoteListItem.ChunksFull | group40/src/components/NoteListItem.tsx:28 | for content without line terminators every match but the last has exactly `n` characters |
| NoteListItem.ChunksEmpty | group40/src/components/NoteListItem.tsx:28 | empty content has no match |
| NoteListItem.Preview | group40/src/components/NoteListItem.tsx:27-35 | at most three lines; the first two are the first two matches; the third is cut to `n - 3` characters plus `...` exactly when there are more than three matches |
| NoteListItem.PreviewEmpty | group40/src/components/NoteListItem.tsx:28-29 | empty content shows no line |
| NoteListItem.PreviewFitsWidth | group40/src/components/NoteListItem.tsx:29-34 | with at least three characters per line, no preview line is longer than a line |
| NoteListItem.PreviewShowsShortContent | group40/src/components/NoteListItem.tsx:28-34 | content of at most three matches without line terminators is shown whole |
| SidebarItem.Truncate | group40/src/components/SidebarItem.tsx:29-35 | a string that fits is kept; a longer one becomes its first `limit` characters and `...` |
| SidebarItem.DisplayName | group40/src/components/SidebarItem.tsx:35 | a name of at most 16 characters is shown unchanged, a longer one as its first 16 and `...`; never more than 19 |
| SidebarItem.LongNamesCollide | group40/src/components/SidebarItem.tsx:35 | long names with the same first 16 characters are shown alike |
| SidebarItem.Tooltip | group40/src/components/SidebarItem.tsx:29 | a missing or empty description gives `No description`, 1 to 40 characters are kept, more become 40 and `...`; never empty, at most 43 |
| SidebarItem.TooltipShowsDescription | group40/src/components/SidebarItem.tsx:29 | a non-empty description's first 40 characters start the tooltip |
| SidebarItem.IsSelected | group40/src/components/SidebarItem.tsx:17 | an omitted flag reads as false |
| SidebarSection.FolderName | group40/src/components/SidebarSection.tsx:53-56 | the name sent is the trimmed name itself when it fits and exactly its first 50 characters otherwise; it is empty exactly when the trimmed name is, and does not start with whitespace |
| SidebarSection.NormalizeFolderName | group40/src/components/SidebarSection.tsx:53-56 | trimming, then reassigning a cut copy when over 50, yields `FolderName` |
| SidebarSection.FolderRequestFor | group40/src/components/SidebarSection.tsx:53-69 | no request exactly when the name trims to nothing; otherwise the normalised name and the trimmed description |
| SidebarSection.FolderNameEmptyIff | group40/src/components/SidebarSection.tsx:53-58 | nothing is sent exactly when the typed name is whitespace only |
| SidebarSection.FolderNameMayEndInSpace | group40/src/components/SidebarSection.tsx:53-56 | a trimmed name cut at 50 can end in a space |
| SidebarSection.FilterItems | group40/src/components/SidebarSection.tsx:84-86 | keeps exactly the entries whose lower-cased name includes the lower-cased term |
| SidebarSection.FilterConcat | group40/src/components/SidebarSection.tsx:84-86 | filtering keeps the entries' order |
| SidebarSection.FilterEmptyTerm | group40/src/components/SidebarSection.tsx:84-86 | the empty term keeps every entry, in order |
| SidebarSection.MatchIgnoresTermCase | group40/src/components/SidebarSection.tsx:85 | the case of the term does not matter |
| SidebarSection.Section.constructor | group40/src/components/SidebarSection.tsx:10-14 | both panels closed, every input empty |
| SidebarSection.Section.ToggleSearch | group40/src/components/SidebarSection.tsx:16-26 | an open add-folder form closes with its inputs cleared; search flips; the term is cleared when search was open; afterwards at most one panel is open |
| SidebarSection.Section.ToggleAddFolder | group40/src/components/SidebarSection.tsx:32-42 | the mirror image: search closes with its term cleared; the form flips; its inputs are cleared when it was open; at most one panel is open |
| SidebarSection.Section.SearchChange | group40/src/components/SidebarSection.tsx:28-30 | typing sets the term and nothing else |
| SidebarSection.Section.NewFolderNameChange | group40/src/components/SidebarSection.tsx:44-46 | typing sets the folder name and nothing else |
| SidebarSection.Section.NewFolderDescriptionChange | group40/src/components/SidebarSection.tsx:48-50 | typing sets the description and nothing else |
| SidebarSection.Section.FolderAdded | group40/src/components/SidebarSection.tsx:71-74 | both inputs cleared and the form closed; search untouched |
| SidebarSection.Section.HandleAddFolder | group40/src/components/SidebarSection.tsx:52-82 | an empty normalised name sends nothing and changes nothing; otherwise the request is sent, and only a successful post clears both inputs and closes the form; at most one panel stays open |
| SidebarSection.Section.FilteredItems | group40/src/components/SidebarSection.tsx:84-86 | the entries shown for the current term; all of them when the term is empty |
| Sidebar.InitialSelection | group40/src/components/Sidebar.tsx:22 | the first category's name, or empty with no category |
| Sidebar.Synced | group40/src/components/Sidebar.tsx:25-29 | a selection some category carries is kept; with categories present the result always names one; with none the selection is kept |
| Sidebar.SyncedStable | group40/src/components/Sidebar.tsx:25-29 | running the effect again changes nothing |
| Sidebar.InitialIsSynced | group40/src/components/Sidebar.tsx:22-29 | the initial selection already satisfies the effect |
| Sidebar.FolderItems | group40/src/components/Sidebar.tsx:47-63 | one entry per category in order, with name and description copied, selected and drawn open exactly when named as the selection; with no category the single selected `No folders found` entry without a description |
| Sidebar.SyncedSelectionShown | group40/src/components/Sidebar.tsx:25-63 | once the effect has run, some entry is drawn selected |
| Sidebar.ClickSelects | group40/src/components/Sidebar.tsx:31-54 | after clicking an entry, the entries drawn selected are exactly those with its name |
| Sidebar.SidebarState.constructor | group40/src/components/Sidebar.tsx:22 | the selection starts as `InitialSelection` |
| Sidebar.SidebarState.SyncSelection | group40/src/components/Sidebar.tsx:25-29 | the selection becomes `Synced` of the old one |
| Sidebar.SidebarState.HandleItemClick | group40/src/components/Sidebar.tsx:31-35 | the selection becomes the clicked name and the category goes to the callback |

## Left out

- Network and storage:
  - the socket transport, HTTP and Supabase are not modelled;
  - the socket library's `rooms` bookkeeping is explicit state (`joined`), removed on disconnect;
  - the store picks the id of a new note (a fresh id is a requirement of `NotesTable.CreateNote`);
  - the clock is the `now` input.
- NoteController.DeleteNote: what the store returns for a rewritten access list is not known, so it is the input `rewriteResult` and the status follows it.
- NotesRepository.NotesTable.CreateNote: takes every text field as given. A body without a category leaves the column to the table's default, which belongs to the database schema and is not part of this model.
- NotesRepository.NotesTable.GetNoteById: a missing note comes back as nothing (the falsy value the handlers test). The store's own answer for a missing row is not modelled. `getNoteById` ends in `.single()`, which reports an error when no row matches, so the deployed share and collaborators handlers answer 500 for a missing note where the model's `NoteController.ShareStep` and `NoteController.CollaboratorsStep` answer 404. In `deleteNoteById` a missing row makes reading its access list fail, modelled as an error (500).
- NoteController.CollaboratorsStep: stops at the ids to resolve. `getUsersByIds` is not part of this model.
- `getNotesForUser` and `updateNote` failures are only the `Threw` case of the reply; the error messages are not modelled.
- Authentication, request validation, routing, toasts, console logging, focus and `setTimeout` are not modelled.
- The editor handlers do nothing when the textarea is not mounted. The model assumes it is. `handleTable` also resets its two inputs to 0, which is not modelled.
- `handleSaveNote` after the request (reading the reply, linking the note to a category) is not modelled.
- NoteListItem.Preview and NoteListItem.Chunks require at least one character per line. With a zero width the regular expression `.{1,0}` is invalid and the effect throws, which is not modelled. Measuring the width is also left out; `charsPerLine` is an input.
- JsText.Lower lower-cases ASCII capitals only; other case mappings of `toLowerCase` are not modelled.
- Strings are sequences of Unicode scalar values (Dafny's `char`), while a JavaScript string is a sequence of UTF-16 code units. A character outside the Basic Multilingual Plane counts as one here and as two in JavaScript. For text holding such characters the model therefore differs from the program in:
  - every length limit: 16, 40, 50, 100 and 100000;
  - every `slice` and `substring` cut, which in JavaScript can split a surrogate pair;
  - the `.{1,n}` matches of the note preview, where `.` takes one code unit.
- Editor.HandleTable takes whole numbers of rows and columns. The program's inputs are `Number(e.target.value)`, so a fraction or `NaN` can reach the handler. A fractional or `NaN` column count makes `Array(cols)` throw a RangeError, and a fractional row count makes the loop write the next whole number of data rows. Neither behaviour is modelled.
- SidebarSection.Section.HandleAddFolder treats the awaited request as one atomic step. While the request is in flight, the form can be typed into or a panel reopened. The reply then still clears both inputs and closes the form. That interleaving is not modelled.
- React batches state updates within an event. The toggles read the flags as they were before the click, which the methods model explicitly.
- Icons, class names and other rendering are not modelled, except which folder icon an entry gets.

## Findings

| source | as written | input that shows it | evidently intended | confidence | as-written member | corrected member |
|---|---|---|---|---|---|---|
| group40/src/components/NoteEditor.tsx:371-383 | underline wraps the selection in the three-character `<u>` but shifts the selection by 2 | content "ab", selection 0..2, underline: the new content is "<u>ab</u>" and the selection covers ">a" | shift by the opening marker's length (3), so the selection still covers the formatted text, as it does for bold and italic | not executed | Editor.UnderlineSelectionShifted | Editor.FormatTextIntendedKeepsSelection |
| group40/src/components/NoteEditor.tsx:494-498 | the cursor goes to `start + newText.length`, where `newText` is the whole new content | content "ab", cursor at 1, option Title: the content becomes "a# b" (4 characters) and position 5 is requested, so the browser puts the cursor at the end | the cursor just after the inserted heading marker and selection, `start + marker.length + selectedText.length`, as `handleTable` moves it to `start + tableMarkdown.length` (line 420); the comment above the call ("just after the newText") also fits the end of the content, so this reading is plausible rather than certain | not executed | Editor.ParagraphCursorPastEnd | Editor.HandleParagraphIntendedCursor |
