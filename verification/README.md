# Private Notes — a Dafny model of the notes core

Private Notes is a small notes application. Each signed-in user keeps a private
list of notes, and each note has a title and content. There are two parts:

- **The backend.** An Express router serves `/api/notes`. It covers list, get,
  create, update and delete. Every route runs behind a bearer-token
  authentication gate, and every query is scoped to the caller's user id.
- **The frontend.** A React page lists the notes, searches them, and shows a
  relative creation date. An editor saves a note manually or by autosave,
  2000 ms after the user stops typing.

This project models that core as pure Dafny functions over immutable data and
proves what it promises. The properties are:

- Ownership isolation: another user's note is answered exactly like a missing
  note.
- The status code each route returns, and what each route writes to the store.
- The authentication gate admits a request if and only if the verifier accepts
  the bearer token.
- The debounced autosave sends at most one request per burst of typing. It
  sends nothing until 2000 ms after the last keystroke, and it carries the final
  title and content.
- The page's list updates on create, update and delete.
- The search is case-insensitive and subsequence-preserving, and a longer query
  never shows more notes.
- The day and "saved ... ago" captions name the elapsed interval correctly.
- Switching notes: the page does not remount the editor, so the old text stays
  and is autosaved into the newly selected note. A keyed remount is proved to
  send only the selected note's own text or text typed for it.

Modules:

| file | module | models |
|---|---|---|
| `wrappers.dfy` | `Wrappers` | `Option` |
| `text.dfy` | `Text` | ASCII lower-casing, `includes`, JavaScript `trim`, `split`, decimal rendering |
| `seqs.dfy` | `Seqs` | `Array.prototype.filter` and subsequences |
| `records.dfy` | `Records` | the `notes` table as a map from id to row; ownership |
| `routes.dfy` | `Routes` | the five route handlers |
| `auth.dfy` | `Auth` | the `authenticate` middleware |
| `server.dfy` | `Server` | gate plus route, end to end; the isolation and round-trip lemmas |
| `notes_page.dfy` | `NotesPage` | the notes page: create/update/delete reactions, search, `formatDate` |
| `note_editor.dfy` | `NoteEditor` | the editor: autosave guard, debounce timer, `handleSave`, `formatLastSaved`, button enablement |

Everything outside the program is a parameter:

- **The hosted store.** Its data is a `map<Id, Row>`. A failure other than
  "no row" is the parameter `fault: Option<string>`, which holds the store's
  error message.
- **Ids and timestamps on insert.** The id the store assigns is `newId`, and the
  time it stamps is `now`.
- **The identity verifier.** It is a function from token to `Verdict`. The
  verdict is a resolved answer with a user and an error, or a thrown failure.
- **The frontend API.** It is a function from `SaveCall` to `Option<Note>`.
- **Time.** It is a parameter throughout.

## Model

| member | source | states |
|---|---|---|
| Routes.ListNotes | backend/src/routes/notes.ts:8-23 | A store fault answers 500 with the store's message. Otherwise the answer is 200 with a list that is ordered newest first by `created_at` and holds every note of the caller exactly once and nothing else. |
| Routes.NewestFirstOwned | backend/src/routes/notes.ts:10-14 | The query `user_id = caller ORDER BY created_at DESC` yields each of the caller's notes exactly once and the list is ordered newest first. |
| Routes.InsertNewestFirst | backend/src/routes/notes.ts:14 | Adding a note to a newest-first list keeps it newest first and keeps every other note (as a multiset). |
| Routes.GetNote | backend/src/routes/notes.ts:26-47 | 200 exactly when no fault and the id belongs to the caller, and then the body is that stored note; a note missing or owned by another user is 404 "Note not found"; a store fault is 500 with its message. |
| Routes.CreateNote | backend/src/routes/notes.ts:50-77 | A missing or empty title or content is 400 "Title and content are required" with nothing written; a fault is 500 with nothing written; 201 exactly when valid and no fault, in which case exactly one row is added, owned by the caller with the sent title and content, no other row changes, and the body is the inserted note. |
| Routes.UpdateNote | backend/src/routes/notes.ts:80-108 | 400 for a missing or empty field, 500 on a fault, 404 when the note is not the caller's, each leaving the store unchanged; 200 exactly when valid, no fault and owned, in which case only title and content of that one row change and the body is the updated note. |
| Routes.DeleteNote | backend/src/routes/notes.ts:111-126 | Without a fault the answer is always 204 with no body and afterwards the caller owns no note with that id; exactly the caller's row with that id is removed and every other row survives unchanged; a fault is 500 with nothing removed. |
| Auth.Authenticate | backend/dist/middleware/auth.js:14-35 | `next` is called at most once and exactly when the header starts with `Bearer ` and the verifier answers with a user and no error, and then the request carries that user's id and email; otherwise a 401 is sent: the missing-header message for an absent or non-bearer header, "Invalid or expired token" for a rejected token, "Authentication failed" when the verifier throws. |
| Auth.Token | backend/dist/middleware/auth.js:20 | `split(' ')[1]` of a bearer header always exists and is the text after `Bearer ` up to the next space, possibly empty, and contains no space. |
| Auth.TokenAfterPrefix | backend/dist/middleware/auth.js:20 | The token of `Bearer ` followed by some text is that text up to its first space. |
| Auth.TokenExamples | backend/dist/middleware/auth.js:20 | `Bearer ` alone and `Bearer ` followed by a space yield the empty token; `Bearer a b` yields `a`. |
| Server.Serve | backend/src/routes/notes.ts:8-126 | A request the gate refuses is answered 401 and the store is untouched; an admitted request is handled by its route for the user the gate attached; a list request never writes and lists each note the caller owns exactly once, and nothing else, newest first. |
| Server.OwnershipIsolation | backend/src/routes/notes.ts:28-117 | For a note of another user, get and update answer exactly as if the note did not exist (404 without a fault), and neither update nor delete changes the store. |
| Server.CreateThenGet | backend/src/routes/notes.ts:28-72 | A note just created is read back by id with status 200, the same body, the creator as owner and the sent title and content. |
| Server.DeleteIsIdempotent | backend/src/routes/notes.ts:113-121 | Deleting twice answers 204 both times and the second delete leaves the store as the first left it. |
| Server.StoreFaultIs500 | backend/src/routes/notes.ts:35-46 | On any single-note route with a valid payload, a store failure other than "no row" is answered 500 with the store's message and nothing is written. |
| Seqs.Filter | frontend/src/pages/Note.tsx:64-67 | `filter` keeps a subsequence of its input in which every element satisfying the predicate occurs as often as in the input and no other element occurs. |
| Seqs.FilterIdempotent | frontend/src/pages/Note.tsx:55 | Filtering twice by the same predicate is filtering once. |
| Seqs.FilterNarrows | frontend/src/pages/Note.tsx:64-67 | Filtering by a stronger predicate yields a subsequence of filtering by a weaker one. |
| Text.IncludesSpec | frontend/src/pages/Note.tsx:65-66 | `includes(t)` holds exactly when `t` occurs at some position of the string. |
| Text.IncludesPrefix | frontend/src/pages/Note.tsx:65-66 | A string that includes `t + u` includes `t`. |
| Text.Lower | frontend/src/pages/Note.tsx:65-66 | `toLowerCase` keeps the length and lowers each character. |
| Text.BlankIffAllSpace | frontend/src/components/NoteEditor.tsx:23 | `trim()` is empty exactly when every character is JavaScript white space. |
| Text.JoinSplit | backend/dist/middleware/auth.js:20 | Joining the fields of `split(sep)` with `sep` gives the original string back. |
| Text.DecimalRoundTrip | frontend/src/pages/Note.tsx:77 | The decimal text of a number reads back as that number. |
| NotesPage.NoteCreated | frontend/src/pages/Note.tsx:39-43 | The new note is put in front of the unchanged list, becomes the selection, and creation mode ends. |
| NotesPage.ReplaceById | frontend/src/pages/Note.tsx:46 | The list keeps its length and ids; every entry with the note's id becomes the note and every other entry is unchanged. |
| NotesPage.NoteUpdated | frontend/src/pages/Note.tsx:45-48 | The updated note replaces its namesakes in the list and becomes the selection; creation mode is untouched. |
| NotesPage.ReplaceByIdIdempotent | frontend/src/pages/Note.tsx:46 | Applying the same update twice is applying it once. |
| NotesPage.RemoveById | frontend/src/pages/Note.tsx:55 | The list without the deleted id keeps the other notes in order, each as often as before, and holds no note with that id. |
| NotesPage.RemoveByIdSpec | frontend/src/pages/Note.tsx:55 | A note is left after removal exactly when it was in the list with another id. |
| NotesPage.RemoveByIdIdempotent | frontend/src/pages/Note.tsx:55 | Removing the same id twice is removing it once. |
| NotesPage.CreateThenRemoveRestores | frontend/src/pages/Note.tsx:39-55 | Deleting a note just created, whose id was new to the list, restores the previous list. |
| NotesPage.HandleDelete | frontend/src/pages/Note.tsx:50-62 | The API is asked to delete exactly when the user confirms; declining or a failed request leaves the page as it was; a successful delete removes the note and clears the selection exactly when the selected note was the deleted one. |
| NotesPage.Search | frontend/src/pages/Note.tsx:64-67 | The shown notes are the matching notes in list order, each as often as in the list, and no other note. |
| NotesPage.SearchSpec | frontend/src/pages/Note.tsx:64-67 | A note is shown exactly when it is in the list and its lower-cased title or content contains the lower-cased query. |
| NotesPage.EmptyQueryKeepsAll | frontend/src/pages/Note.tsx:64-67 | An empty search box shows every note. |
| NotesPage.SearchNarrows | frontend/src/pages/Note.tsx:64-67 | Extending the query never shows a note that the shorter query hid. |
| NotesPage.SearchIgnoresCase | frontend/src/pages/Note.tsx:64-67 | Queries equal up to the case of ASCII letters show the same notes. |
| NotesPage.DayBucket | frontend/src/pages/Note.tsx:69-79 | "Today" exactly for less than one day elapsed, "Yesterday" exactly for one to two days, the calendar date exactly from seven days on; "n days ago" names the whole days elapsed, and every creation time in the future falls into it with a negative n. |
| NotesPage.FutureDateExample | frontend/src/pages/Note.tsx:72-77 | A creation time one millisecond ahead of the browser's clock is captioned "-1 days ago". |
| NotesPage.TwoDaysAgoExample | frontend/src/pages/Note.tsx:72-77 | Exactly two days elapsed is captioned "2 days ago". |
| NotesPage.DayBucketClamped | frontend/src/pages/Note.tsx:72-77 | The corrected caption: anything under one day, including the future, is "Today", and it agrees with the original for every non-negative interval. |
| NotesPage.DayBucketClampedSpec | frontend/src/pages/Note.tsx:69-79 | With the correction, "Today" exactly below one day, "Yesterday" exactly for one to two days, and "n days ago" only for a non-negative number of whole days really elapsed. |
| NoteEditor.Open | frontend/src/components/NoteEditor.tsx:15-19 | The editor starts with the note's title and content (empty for a new note), no save in flight, a last-saved time exactly when a note exists, and the debounce timer armed exactly when a note exists. |
| NoteEditor.Type | frontend/src/components/NoteEditor.tsx:38-48 | A keystroke that changes nothing leaves the editor as it was; one that changes a field re-arms the timer 2000 ms ahead when a note exists and leaves it unarmed otherwise. |
| NoteEditor.Select | frontend/src/components/NoteEditor.tsx:15-48 | Handing the mounted editor another `note` prop keeps the fields, the flags and the last-saved time (the state initialisers do not run again) and re-arms the debounce timer exactly when there is a note. |
| NoteEditor.Saved | frontend/src/components/NoteEditor.tsx:28-29 | After a successful save the returned note becomes the prop and the time is recorded; the editor is in step with the note exactly when the server stored the fields as they stand. |
| NoteEditor.BeginAutoSave | frontend/src/components/NoteEditor.tsx:22-27 | Without a note or with a blank field the autosave sends nothing and changes nothing; otherwise it sends one update of the existing note with the current fields; it never creates. |
| NoteEditor.FinishAutoSave | frontend/src/components/NoteEditor.tsx:27-34 | The autosave flag clears and no input is lost; a failure changes nothing else; a success records the returned note and the save time. |
| NoteEditor.AutoSave | frontend/src/components/NoteEditor.tsx:22-35 | Without a note or with a blank field nothing is sent and nothing changes; otherwise exactly one update of the note with the current fields is sent, the fields are kept and the flag clears; a failed answer leaves the editor as it was, a successful one records the returned note and the time; the timer ends unarmed or armed 2000 ms after. |
| NoteEditor.Advance | frontend/src/components/NoteEditor.tsx:41-45 | Letting time pass fires every due timer: nothing happens before the deadline, the fields and the manual-save flag are kept, no timer stays overdue, every request is an update carrying the current fields, and without a note nothing is sent. |
| NoteEditor.Run | frontend/src/components/NoteEditor.tsx:38-48 | After a sequence of keystrokes the editor holds the last keystroke's text, no timer is overdue, every request is an update, and while no note exists nothing is sent however long one types or waits. |
| NoteEditor.RunSendsShownText | frontend/src/components/NoteEditor.tsx:27 | Every autosave request carries a title and content that were on screen, at the start or after some keystroke. |
| NoteEditor.SettledAdvance | frontend/src/components/NoteEditor.tsx:41-45 | An armed timer sends nothing before its deadline and, once it has passed, exactly the due update (if the fields differ from the note and neither is blank) and nothing more. |
| NoteEditor.BurstRun | frontend/src/components/NoteEditor.tsx:38-48 | Throughout a burst of keystrokes each less than 2000 ms apart no timer fires, and the editor ends holding the last keystroke with the timer armed 2000 ms after it. |
| NoteEditor.DebounceSendsAtMostOnce | frontend/src/components/NoteEditor.tsx:38-48 | A burst of typing on an existing note sends at most one request: none before 2000 ms after the last keystroke, and afterwards one exactly when the final title or content differs from the note and neither is blank, namely the update of that note with the final title and content. |
| NoteEditor.SelectOverwritesOtherNote | frontend/src/pages/Note.tsx:188-198 | Selecting another note while the editor holds different non-blank text, then waiting 2000 ms, sends an update of the newly selected note carrying the old text. |
| NoteEditor.NewNoteKeepsOpenText | frontend/src/pages/Note.tsx:119-122 | "New Note" clicked while a note is open leaves that note's text in the editor, and saving then sends a create with it. |
| NoteEditor.SelectKeyed | frontend/src/pages/Note.tsx:188-198 | The corrected selection: a different note remounts the editor with that note's text (empty for a new note) and nothing in flight; the same note keeps the fields. |
| NoteEditor.KeyedSelectSendsOnlyItsOwnText | frontend/src/pages/Note.tsx:188-198 | After a corrected switch to another note every autosave request carries that note's own text or text typed after the switch, and without typing nothing is sent. |
| NoteEditor.ServerApiEchoes | backend/src/routes/notes.ts:80-103 | An API answered by the note routes returns the title and content it was sent, the assumption the debounce lemmas make of the API. |
| NoteEditor.ClickSave | frontend/src/components/NoteEditor.tsx:50-64 | A click on the disabled button (a save or autosave in flight) does nothing; with a blank field it alerts and sends nothing; otherwise it marks the save in flight and sends exactly one request with the current fields, an update of the note exactly when one exists and a create otherwise. |
| NoteEditor.FinishSave | frontend/src/components/NoteEditor.tsx:56-71 | The save flag clears and the fields are kept; a failure alerts "Failed to save note. Please try again." and changes nothing else; a success records the returned note and the save time. |
| NoteEditor.SaveButtonBlocksDoubleSubmit | frontend/src/components/NoteEditor.tsx:121 | The button, disabled while a manual save or an autosave is in flight, cannot send twice: a click that sends disables it, a click during an autosave sends nothing, and the answer to a manual save re-enables it when no autosave is running. |
| NoteEditor.LastSavedOnlyOnSuccess | frontend/src/components/NoteEditor.tsx:29 | The last-saved time moves only on a successful manual save or autosave, and then to the moment of the answer. |
| NoteEditor.EditorRequestsPassServerValidation | frontend/src/components/NoteEditor.tsx:51 | Every request the editor sends has a non-empty title and content, so it passes the server's payload check. |
| NoteEditor.ServerAcceptsBlankFields | backend/src/routes/notes.ts:54 | The server accepts a title and content of white space alone, which the editor refuses to send. |
| NoteEditor.SavedBucket | frontend/src/components/NoteEditor.tsx:74-83 | No caption exactly without a save; "just now" exactly under ten seconds; whole seconds from 10 to 59; whole minutes from 1 to 59; the clock time exactly from one hour on. |
| NoteEditor.SecondsExample | frontend/src/components/NoteEditor.tsx:80 | Forty-two seconds after a save the caption reads "42s ago". |
| NoteEditor.MinutesExample | frontend/src/components/NoteEditor.tsx:81 | Ninety seconds after a save the caption reads "1m ago". |

## Left out

- The hosted database and its client are not modelled: the query builder, the row-level security, the `PGRST116` error code and the table's column defaults. A single-row query that finds no row becomes "not owned"; every other error becomes `fault`.
- Request bodies whose `title` or `content` is present but not a string (a number, an object) are not modelled. A payload field is either absent or a string.
- Routes.CreateNote: requires that the store assign a fresh `newId`. The real store generates a UUID, and that guarantee is outside the program.
- Routes.UpdateNote: leaves `updatedAt` as stored. Any database trigger that bumps `updated_at` is outside the program.
- Text.Lower: lowers ASCII letters only. `toLowerCase` also maps other Unicode letters, so NotesPage.SearchIgnoresCase is stated for ASCII case.
- The `index.ts` server setup and the `api.ts` client wrapper are not modelled: the client's token header, its base URL, and the JSON parsing. `backend/dist/routes/notes.js` is the compiled form of `notes.ts` and behaves the same.
- Auth.Authenticate: an exception thrown by `next()` inside the gate's `try` is not modelled. Only the verifier's own failure maps to "Authentication failed".
- Concurrency between the editor's saves is not modelled:
  - an autosave in flight while a manual save starts;
  - an answer arriving after the editor has unmounted;
  - several requests racing.
  Each request is answered before the next event.
- The debounce effect also re-runs when the `onSave` callback changes identity. The page creates a new callback on every render, for example a keystroke in the search box, so each page render re-arms the timer. This re-arming is not modelled. In the model the timer re-arms on a keystroke that changes a field (`Type`) and on a new `note` prop (`Select`, `Saved`).
- NoteEditor.DebounceSendsAtMostOnce: assumes the API stores what it is sent (`Echoes`). Against an API that stored other text, the re-armed timer could send a second update. NoteEditor.ServerApiEchoes proves that the note routes satisfy the assumption.
- The stale list captured by `handleDeleteNote` across an awaited request is not modelled. The page state is read when the answer arrives.
- Rendering is not modelled: JSX, the loading spinner, `confirm` and `alert` dialogs as UI, console logging, sign-out and navigation. A confirmation becomes the boolean `confirmed`, and an alert becomes its message.
- Locale formatting is not modelled. `toLocaleDateString` and `toLocaleTimeString` become the `CalendarDate` and `ClockTime` captions, whose text is not computed.
- Latency: the time of a successful save is the time its answer arrives.
- NoteEditor.Run: orders a timer that falls due at the very instant of a keystroke before that keystroke. In the browser the two race. The debounce lemmas do not depend on the order, because a burst's keystrokes come strictly less than 2000 ms apart.

## Findings

| source | as written | input that shows it | evidently intended | confidence | as-written member | corrected member |
|---|---|---|---|---|---|---|
| frontend/src/pages/Note.tsx:188-198 | Both branches render `<NoteEditor>` at the same place with no `key`. React therefore keeps the mounted editor when the selection changes: its `useState` initialisers (NoteEditor.tsx:15-19) do not run again, so it keeps the old title and content under the new `note` prop. The re-armed timer then autosaves the old text into the newly selected note; "New Note" likewise opens pre-filled with the old text (NoteEditor.NewNoteKeepsOpenText). | note A open with its own text; select note B with another title; wait 2000 ms: `update(B.id, A.title, A.content)` is sent | switching notes shows the selected note's text, and nothing is written to a note that was not edited | high, not executed | NoteEditor.SelectOverwritesOtherNote | NoteEditor.KeyedSelectSendsOnlyItsOwnText |
| frontend/src/pages/Note.tsx:72-77 | `Math.floor(diff / day)` is negative when the stored `created_at`, stamped by the database's clock, is ahead of the browser's clock. `days < 7` then holds, so the caption reads "-1 days ago". | `diff = -1` ms, a note created a moment ago by a server whose clock runs slightly ahead | a note created in the last day reads "Today" | medium, not executed | NotesPage.FutureDateExample | NotesPage.DayBucketClampedSpec |
