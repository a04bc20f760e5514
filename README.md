# Reading tracker: timer, book list and form logic

A Dafny model of the logic inside a single-page reading-tracker app. Users keep a
bookshelf, time reading sessions with a countdown, and attach notes to a book. All
persistence goes to a hosted database and file store; here every remote call is an
input to the model (the reply it returned, or success/failure), and every wall-clock
reading (`Date.now()`) is an integer-millisecond `now` argument.

Modules, one per source file plus shared helpers:

- `Timer` (`timer.dfy`) — the timer-and-notes page as a class, `TimerSession`. Its
  fields are the page's state: `timeLeft`, `isRunning`, `pauseStartTime`,
  `totalPausedTime`, `notes` and `noteContent`; `startTime` is a constant.
  - The one-second interval is the method `Tick`.
  - The effect that runs after every change is the method `Settle`. It folds an
    open pause into the paused total, or stops the timer at zero.
  - `Valid()` carries the accounting invariant: the paused time lies inside
    `[startTime, clock]`, where `clock` is the latest time seen. From it,
    `Complete` proves that the seconds it reports are between 0 and the
    wall-clock seconds since the start.
- `Books` (`books.dfy`) — the `useBooks` hook as `BookCache`. Its list operations
  are pure functions: merge-by-id, filter-by-id and count flattening.
- `BookForm`, `EditBook`, `AddBook` — the shared extension check and field test,
  and the two form pages as classes.
- `Reading` (`reading.dfy`) — the book page as `ReadingPage`.
- `Notes` — the note row and the query both pages load notes with.
- `JsText` — the JavaScript behaviour the pages depend on: `trim` with the
  ECMAScript whitespace set, `split`/`pop`, `toLowerCase` on A–Z, integer
  `toString`, `padStart`, and the truncating `%`.
- `Wrappers` — `Option` and `Result`.

Points where the model follows the code:

- **Reset.** `Reset` stops the timer and restores the countdown. It leaves
  `startTime`, the paused total and any open pause alone. So time spent stopped
  after a reset, or after the countdown reaches zero, is counted as reading time
  when the session completes (`ResetExample`), unless a pause was open when
  reset was pressed. That pause stays open until play is pressed again, which
  closes it (`ResetThenResumeExample`). If the session is completed first,
  everything from the pause's start to the end counts as paused
  (`ResetWhilePausedExample`).
- **Completing twice.** Nothing guards a second `Complete`: each call computes its
  seconds and writes stored-total + seconds again (`DoubleCompleteExample`).
  Nothing prevents a second read-then-write of the stored total.
- **Timer-page note callbacks.** The timer page hands `onEdit` and `onDelete`
  callbacks to its `Note` component, but that component takes only the content
  and the timestamp and never calls them. `AfterNoteWrite` models what the
  callbacks would do; on that page nothing reaches them. Notes are edited and
  deleted from the book page.
- **Buttons inside a note.** On the book page the edit and delete buttons sit
  inside the note's clickable area and do not stop the click. So a click on
  either also toggles the note's highlight (`ClickEdit`, `ClickDelete`). A
  failed delete therefore leaves the clicked note highlighted if it was not,
  and clears it if it was.
- **Pause at time 0.** The pause test is JavaScript truthiness, so a pause start
  of `0` counts as no pause (`PauseOpen`).
- **Environment assumption.** `Settle`, `PlayPause` and `Complete` require
  `now >= clock`, i.e. a wall clock that does not run backwards.

## Model

| member | source | states |
|---|---|---|
| `Timer.TimerSession.constructor` | src/components/TimerNotePage/TimerNotePage.tsx:25-32 | a new session counts down from `minutes*60`, is running, has no open pause and nothing paused, no notes and an empty note box |
| `Timer.TimerSession.Tick` | src/components/TimerNotePage/TimerNotePage.tsx:94-104 | an interval firing decrements `timeLeft` by exactly 1 and only while running with time left; `timeLeft` stays within `0..minutes*60` |
| `Timer.TimerSession.Settle` | src/components/TimerNotePage/TimerNotePage.tsx:91-115 | running with time left, an open pause is added to the paused total as `now - pauseStartTime` and cleared; at zero the timer stops; the active time at `now` is unchanged and the accounting invariant holds |
| `Timer.TimerSession.PlayPause` | src/components/TimerNotePage/TimerNotePage.tsx:117-123 | pausing while running records `now` as the pause start; the running flag always flips |
| `Timer.TimerSession.Reset` | src/components/TimerNotePage/TimerNotePage.tsx:125-128 | stops the timer and restores `timeLeft` to `minutes*60`; start time, paused total and open pause are unchanged |
| `Timer.TimerSession.Complete` | src/components/TimerNotePage/TimerNotePage.tsx:155-205 | without a book id nothing happens; otherwise the timer stops, the seconds are `floor(active ms / 1000)` within `0..(end-start)/1000`, and the written total is stored-or-0 plus those seconds, none when the read failed; it always navigates back |
| `Timer.ReadingSecondsBounds` | src/components/TimerNotePage/TimerNotePage.tsx:162-170 | with a monotone clock the active time is within `[0, end - start]` ms and the reading seconds within `[0, (end - start)/1000]` |
| `Timer.NewTotal` | src/components/TimerNotePage/TimerNotePage.tsx:179-184 | a failed read writes nothing; a missing total counts as 0; otherwise stored total plus the session's seconds |
| `Timer.NoteToSend` | src/components/TimerNotePage/TimerNotePage.tsx:131-140 | nothing is sent without a book id or for whitespace-only text; otherwise the non-empty trimmed text with `duration_min` 0 |
| `Timer.TimerSession.SaveNote` | src/components/TimerNotePage/TimerNotePage.tsx:130-153 | a returned row is prepended to the notes and the box cleared; an error, an empty reply or a rejected text leaves both unchanged |
| `Timer.TimerSession.TypeNote` | src/components/TimerNotePage/TimerNotePage.tsx:247 | typing replaces the note box text |
| `Timer.TimerSession.LoadNotes` | src/components/TimerNotePage/TimerNotePage.tsx:44-63 | a successful load makes the list this book's notes newest first; a failed load or no book id keeps it |
| `Timer.TimerSession.AfterNoteWrite` | src/components/TimerNotePage/TimerNotePage.tsx:273-298 | a successful note edit or delete reloads the list; a failed one keeps it |
| `Timer.FormatTimeReadsBack` | src/components/TimerNotePage/TimerNotePage.tsx:67-71 | for `s >= 0` the display is at least two minute digits, a colon and two second digits, which read back as `M*60 + SS = s` with `SS < 60` |
| `Notes.ForBookSpec` | src/components/ReadingPage/ReadingPage.tsx:36-39 | the filter keeps exactly the book's rows, each as often as in the table |
| `Notes.InsertNewestSpec` | src/components/ReadingPage/ReadingPage.tsx:40 | inserting into a newest-first list keeps it newest first and adds exactly that note |
| `Notes.SortNewestSpec` | src/components/ReadingPage/ReadingPage.tsx:40 | the sorted list is newest first and a permutation of the input |
| `Notes.SelectNotesSpec` | src/components/ReadingPage/ReadingPage.tsx:36-47 | a loaded note list is exactly this book's notes, with multiplicity, ordered newest first by creation time |
| `Notes.DeleteNoteRows` | src/components/ReadingPage/ReadingPage.tsx:67-70 | after a delete no row has that id |
| `Notes.DeleteAppended` | src/components/ReadingPage/ReadingPage.tsx:67-70 | deleting a row appended under a fresh id restores the table |
| `Notes.DeleteNoteRowsKeepsOthers` | src/components/ReadingPage/ReadingPage.tsx:67-70 | every row with another id stays, as often as it occurred |
| `Notes.UpdateNoteContent` | src/components/ReadingPage/ReadingPage.tsx:86-90 | same rows in the same order; rows with the edited id get the new content, every other row and column is kept |
| `Notes.EditedNoteShowsContent` | src/components/ReadingPage/ReadingPage.tsx:86-96 | the list reloaded after an edit shows the new content for the edited note, and lists no other note that was not in the table |
| `Notes.DeletedNoteNotLoaded` | src/components/ReadingPage/ReadingPage.tsx:65-76 | the list reloaded after a delete holds no note with the deleted id |
| `Notes.SaveThenDeleteRestores` | src/components/ReadingPage/ReadingPage.tsx:65-76 | saving a note and then deleting it leaves every book's loaded list as it was |
| `Books.MergeById` | src/hooks/useBooks.ts:99 | same length and order; exactly the entries with the id are merged with the reply's fields, the rest are unchanged |
| `Books.MergeIdempotent` | src/hooks/useBooks.ts:99 | merging the same reply twice equals merging it once |
| `Books.RemoveById` | src/hooks/useBooks.ts:116 | no entry with the deleted id remains |
| `Books.RemoveByIdKeepsOthers` | src/hooks/useBooks.ts:116 | every entry with another id is kept as often as it occurred |
| `Books.RemoveByIdAppend` | src/hooks/useBooks.ts:116 | the filter distributes over concatenation, so the kept entries stay in their original order |
| `Books.RemoveAbsent` | src/hooks/useBooks.ts:116 | deleting an id no entry has leaves the list unchanged |
| `Books.RemoveIdempotent` | src/hooks/useBooks.ts:116 | deleting twice equals deleting once |
| `Books.AddThenDeleteRestores` | src/hooks/useBooks.ts:78-116 | prepending a book with a fresh id and then deleting it gives the old list back |
| `Books.NormaliseCounts` | src/hooks/useBooks.ts:33-36 | same rows in the same order; `notes_count` becomes the first count or 0; every other column is as fetched |
| `Books.BookCache.constructor` | src/hooks/useBooks.ts:10-12 | empty list, loading, no error |
| `Books.BookCache.FetchBooks` | src/hooks/useBooks.ts:15-48 | rows replace the list with counts normalised; an error keeps the list and sets the message; an empty reply keeps both; loading ends |
| `Books.BookCache.AddBook` | src/hooks/useBooks.ts:59-86 | the inserted row has `total_read_time` 0 and `notes_count` 0; on success the list is `[new] + old`; on error the list is kept, `error` set and the error passed on |
| `Books.BookCache.UpdateBook` | src/hooks/useBooks.ts:89-105 | on success the list is the id-matched merge of the reply; on error the list is kept, `error` set and the error passed on |
| `Books.BookCache.DeleteBook` | src/hooks/useBooks.ts:108-121 | on success exactly the entries with the id leave the list; on error the list is kept, `error` set and the error passed on |
| `BookForm.ExtensionSpec` | src/components/EditBookPage/EditBookPage.tsx:107 | the extension is `t` iff the lower-cased name is `t` or ends in `.t` |
| `BookForm.IsJpegNameSpec` | src/components/EditBookPage/EditBookPage.tsx:107-108 | a cover is accepted iff the lower-cased name is `jpg`/`jpeg` or ends in `.jpg`/`.jpeg` |
| `EditBook.ChosenCoverUrl` | src/components/EditBookPage/EditBookPage.tsx:174 | the uploaded URL when a file was chosen, else the preview, with an empty preview written as null |
| `EditBook.FreshFormHasNoChanges` | src/components/EditBookPage/EditBookPage.tsx:322-327 | a form just initialised from a book shows no changes |
| `EditBook.CoverEditsAreChanges` | src/components/EditBookPage/EditBookPage.tsx:322-327 | removing an existing cover, or choosing a file, is a change |
| `EditBook.UntouchedCoverIsKept` | src/components/EditBookPage/EditBookPage.tsx:174 | submitting without touching the cover writes the stored cover URL back (an empty one as null) |
| `EditBook.EditBookForm.constructor` | src/components/EditBookPage/EditBookPage.tsx:19-24 | no values, no initial values, empty previews, not loading, initialising |
| `EditBook.EditBookForm.InitFromBookData` | src/components/EditBookPage/EditBookPage.tsx:31-47 | title, author and publisher are copied; both previews become the cover URL or `''` |
| `EditBook.EditBookForm.InitFromStore` | src/components/EditBookPage/EditBookPage.tsx:50-92 | without a book id or on a load error the page goes home; a row found fills the form; initialisation ends once a load was tried |
| `EditBook.EditBookForm.SetFields` | src/components/EditBookPage/EditBookPage.tsx:242-267 | typing sets the three text fields |
| `EditBook.EditBookForm.ChooseCover` | src/components/EditBookPage/EditBookPage.tsx:280-286 | the chosen file is set and its object URL is the preview |
| `EditBook.EditBookForm.RemoveCover` | src/components/EditBookPage/EditBookPage.tsx:294-296 | the cover file and the preview are cleared |
| `EditBook.EditBookForm.Submit` | src/components/EditBookPage/EditBookPage.tsx:95-207 | each outcome exactly when its condition holds: no book id gives nothing; a non-jpg file stops before upload; a failed upload stops before the write; otherwise the fields and the chosen cover URL are written, ending in `Updated` iff the write succeeds and `UpdateFailed` iff it fails; loading ends |
| `AddBook.AddBookForm.constructor` | src/components/AddBookPage/AddBookPage.tsx:17-20 | empty form, no cover, no preview, not loading |
| `AddBook.AddBookForm.SetFields` | src/components/AddBookPage/AddBookPage.tsx:157-182 | typing sets the three text fields |
| `AddBook.AddBookForm.ChooseCover` | src/components/AddBookPage/AddBookPage.tsx:195-201 | the chosen file is set and its object URL is the preview |
| `AddBook.AddBookForm.RemoveCover` | src/components/AddBookPage/AddBookPage.tsx:209-211 | the cover file and the preview are cleared |
| `AddBook.AddBookForm.Submit` | src/components/AddBookPage/AddBookPage.tsx:22-138 | each outcome exactly when its condition holds: a non-jpg file stops before any insert; a failed upload stops before the insert; otherwise the row (`total_read_time` 0, a null cover without a file) is always sent, ending in `Added` iff the reply holds rows and `InsertFailed` otherwise; loading ends |
| `Reading.ReadTimeTextReadsBack` | src/components/ReadingPage/ReadingPage.tsx:195 | for `t >= 0` the text is the unpadded minutes, a colon and two second digits that read back to `t`; a missing total shows `0:00` |
| `Reading.NextActive` | src/components/ReadingPage/ReadingPage.tsx:244 | the clicked note becomes active iff it was not already; it is cleared iff it was |
| `Reading.ClickTwice` | src/components/ReadingPage/ReadingPage.tsx:244 | clicking the same note twice restores the state, unless another note was active |
| `Reading.ReadingPage.ShownReadTime` | src/components/ReadingPage/ReadingPage.tsx:188-196 | the read time is shown iff loading has ended and a book was found, and then it is `ReadTimeText` of the book's total |
| `Reading.ReadingPage.constructor` | src/components/ReadingPage/ReadingPage.tsx:24-30 | the book id is the trimmed route parameter; no notes, nothing active or being edited, dialog closed, loading |
| `Reading.ReadingPage.LoadBook` | src/components/ReadingPage/ReadingPage.tsx:129-169 | without a book id nothing happens; otherwise a row found is kept and loading ends |
| `Reading.ReadingPage.LoadNotes` | src/components/ReadingPage/ReadingPage.tsx:32-51 | a successful load makes the list this book's notes newest first; on a load error the list is unchanged |
| `Reading.ReadingPage.ClickNote` | src/components/ReadingPage/ReadingPage.tsx:244 | the active note becomes `NextActive` of the old one |
| `Reading.ReadingPage.HandleEdit` | src/components/ReadingPage/ReadingPage.tsx:59-63 | the note is being edited, its content fills the edit box, the dialog opens |
| `Reading.ReadingPage.TypeEdit` | src/components/ReadingPage/ReadingPage.tsx:298 | typing replaces the edit box text |
| `Reading.ReadingPage.CancelEdit` | src/components/ReadingPage/ReadingPage.tsx:292 | cancelling closes the dialog |
| `Reading.ReadingPage.HandleDelete` | src/components/ReadingPage/ReadingPage.tsx:65-80 | a successful delete of `noteId` clears the active note and reloads the list from the table with that note's rows removed; a failed one changes nothing |
| `Reading.ReadingPage.ClickEdit` | src/components/ReadingPage/ReadingPage.tsx:241-256 | the edit button opens the dialog on the note and, the click reaching the note, toggles its highlight with `NextActive` |
| `Reading.ReadingPage.ClickDelete` | src/components/ReadingPage/ReadingPage.tsx:241-262 | the delete button toggles the note's highlight; a successful delete then clears it and reloads without the note, a failed one leaves the toggled highlight and the list |
| `Reading.ReadingPage.HandleEditSubmit` | src/components/ReadingPage/ReadingPage.tsx:82-100 | with no note being edited nothing is sent; otherwise the note's id and the box text are sent, and on success the dialog closes and the list reloads from the table with that content written; on failure both stay |
| `JsText.TrimShape` | src/components/TimerNotePage/TimerNotePage.tsx:131 | `trim` gives the contiguous piece of the text that starts after the leading whitespace, and only whitespace was cut away on either side |
| `JsText.TrimEdges` | src/components/TimerNotePage/TimerNotePage.tsx:131 | the trimmed text neither starts nor ends with whitespace |
| `JsText.TrimEmptyIffBlank` | src/components/TimerNotePage/TimerNotePage.tsx:131 | the trimmed text is empty iff the text is whitespace only |
| `JsText.ToLower` | src/components/EditBookPage/EditBookPage.tsx:107 | same length; each letter A–Z lowered, every other character kept |
| `JsText.Split` | src/components/EditBookPage/EditBookPage.tsx:107 | at least one piece, no piece holds the separator, exactly one piece iff the text has no separator, and that piece is the text |
| `JsText.JoinSplit` | src/components/EditBookPage/EditBookPage.tsx:107 | joining the pieces with the separator gives the text back |
| `JsText.LastPiece` | src/components/EditBookPage/EditBookPage.tsx:107 | the popped piece is the text after the last separator, or the whole text when there is none |
| `JsText.NatToString` | src/components/TimerNotePage/TimerNotePage.tsx:70 | at least one digit, and a single digit iff the number is below 10 |
| `JsText.ParseNatToString` | src/components/TimerNotePage/TimerNotePage.tsx:70 | the printed digits read back as the number |
| `JsText.PaddedDigits` | src/components/TimerNotePage/TimerNotePage.tsx:70 | zero-padding a digit string keeps it a digit string of the same value |
| `JsText.PaddedNumber` | src/components/TimerNotePage/TimerNotePage.tsx:70 | zero-padding gives at least `width` digits with the same value |
| `JsText.JsRem` | src/components/TimerNotePage/TimerNotePage.tsx:69 | equals Dafny's `%` for non-negative operands, and lies in `(-b, 0]` for negative ones |
| `EditBook.HasChanges` | src/components/EditBookPage/EditBookPage.tsx:322-327 | a text field differs from its initial value, a cover file is set, or a cover preview existed and is now empty |
| `EditBook.EditBookForm.SubmitEnabled` | src/components/EditBookPage/EditBookPage.tsx:319-334 | the update button is enabled iff the three fields are filled and `HasChanges` |
| `AddBook.AddBookForm.SubmitEnabled` | src/components/AddBookPage/AddBookPage.tsx:232-239 | the add button is enabled iff the three fields are filled |
| `BookForm.FieldsFilled` | src/components/EditBookPage/EditBookPage.tsx:319 | title, author and publisher are all present and non-empty |
| `BookForm.IsJpegName` | src/components/EditBookPage/EditBookPage.tsx:107-108 | the lower-cased last `.`-piece of the name is `jpg` or `jpeg` |
| `AddBook.RowFor` | src/components/AddBookPage/AddBookPage.tsx:93-104 | the inserted row carries the three fields, the given cover URL, `total_read_time` 0 and the creation time |
| `Timer.FormatTime` | src/components/TimerNotePage/TimerNotePage.tsx:67-71 | minutes and seconds, each zero-padded to two digits, around a colon |
| `Timer.ReadingSeconds` | src/components/TimerNotePage/TimerNotePage.tsx:162-170 | whole seconds of the elapsed time less the paused total and any open pause |
| `Reading.ReadTimeText` | src/components/ReadingPage/ReadingPage.tsx:195 | unpadded minutes, a colon and the seconds padded to two digits, a missing total read as 0 |
| `JsText.Trim` | src/components/TimerNotePage/TimerNotePage.tsx:131 | the text without its leading and trailing ECMAScript whitespace |

The enabled state of the update and add buttons is the predicate `SubmitEnabled` of
`EditBook.EditBookForm` (fields filled and `HasChanges`) and of `AddBook.AddBookForm`
(fields filled). `PausedSessionExample`, `ResetExample`, `ResetWhilePausedExample`,
`ResetThenResumeExample` and `DoubleCompleteExample` in `Timer` pin concrete sessions: 600 s of reading, a 120 s pause and 300 s more add 900 s.

## Left out

- Remote calls (table selects, inserts, updates and deletes, the storage upload and
  `getPublicUrl`, authentication): each is an input to the method that makes it.
  Note loads take the table's rows and run the query on them.
- The `setInterval` mechanism and real time. They become `Tick`, `Settle` and `now`
  arguments. Interval drift, and the order in which React runs effects against
  ticks, are not modelled.
- Async interleaving of handlers. Each handler is atomic. This leaves out the
  lost-update race between two sessions in `Complete`'s read-then-write.
- `Timer.TimerSession.Settle`, `PlayPause`, `Complete`: a wall clock that runs backwards
  (`now < clock`) is excluded by their preconditions.
- `FileReader`/`Blob` conversion, the random upload file name, and
  `URL.createObjectURL`/`revokeObjectURL`: the object URL is an argument of `ChooseCover`.
- The distinct error toasts for upload and update failures, and every toast text.
  The `error` messages of `useBooks` are kept.
- The 800 ms delay before `useBooks` clears `loading`. `FetchBooks` ends with loading off.
- The effect that fetches books when a user signs in. It is authentication plumbing.
- `Notes.SortNewest`: notes created at the same instant come in a fixed order (an
  inserted note before an equal one, otherwise table order). The store's
  `created_at` descending order leaves their order open, so the list equalities of
  `LoadNotes` and `SaveThenDeleteRestores` hold for this tie order only.
- Locale formatting of note dates. A note's `created_at` is an integer timestamp, and
  only its order is used.
- The unmount flag in the book page's loader. The book title fetched for the timer
  page's header is display only.
- `parseInt` of a non-numeric minutes parameter (NaN). `minutes` is a natural number.
- `JsText.ToLower`: only A–Z are lowered. No other character lowercases to `j`, `p`,
  `e`, `g` or `.`, so the cover check is decided the same way as with full Unicode
  lowering.
- `BookForm.FormValues`: `null` and `undefined` field values are both `None`.
- `AddBook.AddBookForm.Submit`: a reply with `data` null is treated as zero rows,
  which the page also treats as a failure.
- `src/lib/supabase.ts`, the login and account pages, the bookshelf, header and note
  components, and `App.tsx` are not part of this model: they are client setup,
  authentication calls or rendering.
