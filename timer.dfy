/** The reading-session timer page: a countdown of the chosen number of
    minutes, pause/resume bookkeeping in wall-clock milliseconds, the note
    box, and "complete", which adds the session's reading seconds to the
    book's stored total.

    Every wall-clock reading (`Date.now()`) is a `now` argument; the
    one-second interval is the `Tick` method, and the effect that runs after
    each change of `isRunning`, `timeLeft` or `pauseStartTime` is `Settle`. */
module Timer {
  import opened Wrappers
  import opened JsText
  import opened Notes

  // ---------------------------------------------------------------------
  // Elapsed-time arithmetic
  // ---------------------------------------------------------------------

  /** The pause start is tested for truthiness (`if (pauseStartTime)`), so a
      pause recorded at time 0 counts as no pause. */
  predicate PauseOpen(pause: Option<int>) {
    pause.Some? && pause.value != 0
  }

  /** Milliseconds paused by `end`: the folded total plus an open pause up to `end`. */
  function FinalPaused(totalPaused: int, pause: Option<int>, end: int): int {
    totalPaused + (if PauseOpen(pause) then end - pause.value else 0)
  }

  /** Milliseconds of active reading between `start` and `end`. */
  function ActiveMs(start: int, totalPaused: int, pause: Option<int>, end: int): int {
    end - start - FinalPaused(totalPaused, pause, end)
  }

  /** `Math.floor((totalTime - finalPausedTime) / 1000)`; the divisor is
      positive, so Dafny's division is the floor. */
  function ReadingSeconds(start: int, totalPaused: int, pause: Option<int>, end: int): int {
    ActiveMs(start, totalPaused, pause, end) / 1000
  }

  /** The paused time recorded so far fits inside the session up to `clock`:
      the folded total lies within [start, clock], and an open pause began
      after all of it. */
  predicate PausesWithin(start: int, totalPaused: int, pause: Option<int>, clock: int) {
    0 <= totalPaused && start <= clock &&
    match pause
    case None => start + totalPaused <= clock
    case Some(p) => start + totalPaused <= p <= clock
  }

  /** With a clock that does not run backwards, active reading time is never
      negative and never more than the wall-clock time since the start, in
      milliseconds and in whole seconds. */
  lemma ReadingSecondsBounds(start: int, totalPaused: int, pause: Option<int>, clock: int, end: int)
    requires PausesWithin(start, totalPaused, pause, clock) && clock <= end
    ensures 0 <= ActiveMs(start, totalPaused, pause, end) <= end - start
    ensures 0 <= ReadingSeconds(start, totalPaused, pause, end) <= (end - start) / 1000
  {
    var a := ActiveMs(start, totalPaused, pause, end);
    assert 0 <= a <= end - start;
  }

  // ---------------------------------------------------------------------
  // Display
  // ---------------------------------------------------------------------

  /** `formatTime`: minutes and seconds, each `toString().padStart(2, '0')`. */
  function FormatTime(seconds: int): string {
    PadStart(IntToString(seconds / 60), 2, '0') + ":" + PadStart(IntToString(JsRem(seconds, 60)), 2, '0')
  }

  /** For a non-negative count the display is `MM:SS`: at least two minute
      digits, a colon, exactly two second digits, and the two numbers read
      back give the count (`M * 60 + SS == seconds`, `SS < 60`). */
  lemma FormatTimeReadsBack(seconds: nat)
    ensures var r := FormatTime(seconds);
      |r| >= 5 && r[|r| - 3] == ':' &&
      AllDigits(r[..|r| - 3]) && AllDigits(r[|r| - 2..]) &&
      ParseDigits(r[|r| - 2..]) < 60 &&
      ParseDigits(r[..|r| - 3]) * 60 + ParseDigits(r[|r| - 2..]) == seconds
  {
    var q, rem := seconds / 60, seconds % 60;
    MinutesAndSeconds(seconds);
    var m := PadStart(NatToString(q), 2, '0');
    var s := PadStart(NatToString(rem), 2, '0');
    assert FormatTime(seconds) == m + ":" + s by {
      assert IntToString(q) == NatToString(q);
      assert IntToString(JsRem(seconds, 60)) == NatToString(rem);
    }
    PaddedNumber(q, 2);
    PaddedNumber(rem, 2);
    ShortNumber(rem);
    ColonParts(m, s);
  }

  lemma MinutesAndSeconds(n: nat)
    ensures (n / 60) * 60 + n % 60 == n && n % 60 < 60
  {
  }

  // ---------------------------------------------------------------------
  // Collaborator replies
  // ---------------------------------------------------------------------

  /** The reply to reading the book's `total_read_time`. */
  datatype ReadTimeFetch =
    | FetchFailed
    | Fetched(total: Option<int>)   // None: no row, or a null column

  /** What `handleComplete` did. Every `Finished` navigates back to the book
      page, whether or not the fetch or the write failed. */
  datatype CompleteOutcome =
    | NoBook                                      // no book id: nothing happens
    | Finished(seconds: int, written: Option<int>) // the total written, if any

  /** The insert of a note, as sent. */
  datatype NoteDraft = NoteDraft(bookId: string, content: string, durationMin: int)

  /** The reply to a note insert. */
  datatype InsertReply = InsertFailed | InsertedNoRow | Inserted(note: Note)

  /** The value `handleComplete` writes: the stored total (0 when missing)
      plus this session's seconds; nothing when the fetch failed. */
  function NewTotal(fetch: ReadTimeFetch, seconds: int): (w: Option<int>)
    ensures fetch.FetchFailed? <==> w.None?
    ensures fetch.Fetched? && fetch.total.None? ==> w == Some(seconds)
    ensures fetch.Fetched? && fetch.total.Some? ==> w == Some(fetch.total.value + seconds)
  {
    match fetch
    case FetchFailed => None
    case Fetched(total) => Some(total.GetOr(0) + seconds)
  }

  /** What `handleSaveNote` sends: the trimmed text with `duration_min` 0,
      or nothing without a book id or with blank text. */
  function NoteToSend(bookId: string, text: string): (d: Option<NoteDraft>)
    ensures d.None? <==> bookId == "" || IsBlank(text)
    ensures d.Some? ==> d.value.bookId == bookId && d.value.content == Trim(text) &&
                        d.value.durationMin == 0 && d.value.content != ""
  {
    TrimEmptyIffBlank(text);
    if bookId == "" || Trim(text) == "" then None else Some(NoteDraft(bookId, Trim(text), 0))
  }

  // ---------------------------------------------------------------------
  // The session
  // ---------------------------------------------------------------------

  class TimerSession {
    const bookId: string        // route parameter; "" when absent
    const minutes: nat          // route parameter, already parsed
    const startTime: int        // wall clock when the page was entered
    var timeLeft: int           // countdown, in seconds
    var isRunning: bool
    var pauseStartTime: Option<int>
    var totalPausedTime: int    // milliseconds
    var notes: seq<Note>
    var noteContent: string
    ghost var clock: int        // the latest wall-clock reading seen

    ghost predicate Valid()
      reads this
    {
      0 <= timeLeft <= minutes * 60 &&
      PausesWithin(startTime, totalPausedTime, pauseStartTime, clock)
    }

    /** Active reading milliseconds at `end`, as `handleComplete` computes them. */
    ghost function Active(end: int): int
      reads this`totalPausedTime, this`pauseStartTime
    {
      ActiveMs(startTime, totalPausedTime, pauseStartTime, end)
    }

    /** Entering the page: the countdown starts at `minutes * 60`, running,
        with no pause and nothing paused so far. */
    constructor (bookId: string, minutes: nat, now: int)
      ensures Valid()
      ensures this.bookId == bookId && this.minutes == minutes && startTime == now && clock == now
      ensures timeLeft == minutes * 60 && isRunning
      ensures pauseStartTime == None && totalPausedTime == 0
      ensures notes == [] && noteContent == ""
    {
      this.bookId := bookId;
      this.minutes := minutes;
      startTime := now;
      timeLeft := minutes * 60;
      isRunning := true;
      pauseStartTime := None;
      totalPausedTime := 0;
      notes := [];
      noteContent := "";
      clock := now;
    }

    /** One firing of the one-second interval, which exists only while the
        timer runs with time left: the countdown drops by exactly one. */
    method Tick()
      requires Valid()
      modifies this`timeLeft
      ensures Valid()
      ensures old(isRunning && timeLeft > 0) ==> timeLeft == old(timeLeft) - 1
      ensures !old(isRunning && timeLeft > 0) ==> timeLeft == old(timeLeft)
    {
      if isRunning && timeLeft > 0 {
        timeLeft := timeLeft - 1;
      }
    }

    /** The effect: when running with time left, an open pause is folded into
        the paused total at `now`; at zero the timer stops. */
    method Settle(now: int)
      requires Valid() && clock <= now
      modifies this`totalPausedTime, this`pauseStartTime, this`isRunning, this`clock
      ensures Valid() && clock == now
      ensures old(isRunning && timeLeft > 0 && PauseOpen(pauseStartTime)) ==>
        totalPausedTime == old(totalPausedTime + (now - pauseStartTime.value)) &&
        pauseStartTime == None && isRunning
      ensures !old(isRunning && timeLeft > 0 && PauseOpen(pauseStartTime)) ==>
        totalPausedTime == old(totalPausedTime) && pauseStartTime == old(pauseStartTime)
      ensures isRunning == (old(isRunning) && timeLeft != 0)
      ensures Active(now) == old(Active(now))
      ensures isRunning ==> !PauseOpen(pauseStartTime)
    {
      clock := now;
      if isRunning && timeLeft > 0 {
        if PauseOpen(pauseStartTime) {
          totalPausedTime := totalPausedTime + (now - pauseStartTime.value);
          pauseStartTime := None;
        }
      } else if timeLeft == 0 {
        isRunning := false;
      }
    }

    /** `handlePlayPause`: pausing records `now` as the pause start; either
        way the running flag flips. */
    method PlayPause(now: int)
      requires Valid() && clock <= now
      modifies this`pauseStartTime, this`isRunning, this`clock
      ensures Valid() && clock == now
      ensures isRunning == !old(isRunning)
      ensures pauseStartTime == if old(isRunning) then Some(now) else old(pauseStartTime)
    {
      clock := now;
      if isRunning {
        pauseStartTime := Some(now);
      }
      isRunning := !isRunning;
    }

    /** `handleReset`: stops the timer and restores the full countdown; the
        start time, the paused total and an open pause are left as they are. */
    method Reset()
      requires Valid()
      modifies this`isRunning, this`timeLeft
      ensures Valid()
      ensures !isRunning && timeLeft == minutes * 60
    {
      isRunning := false;
      timeLeft := minutes * 60;
    }

    /** `handleComplete` at wall-clock `end`, given the reply to reading the
        stored total: stops the timer, computes the session's reading
        seconds, and writes stored total + seconds unless the read failed.
        Nothing guards a second call. */
    method Complete(end: int, fetch: ReadTimeFetch) returns (outcome: CompleteOutcome)
      requires Valid() && clock <= end
      modifies this`isRunning, this`clock
      ensures Valid()
      ensures bookId == "" ==> outcome == NoBook && isRunning == old(isRunning) && clock == old(clock)
      ensures bookId != "" ==> !isRunning && clock == end && outcome.Finished?
      ensures outcome.Finished? ==>
        outcome.seconds == ReadingSeconds(startTime, totalPausedTime, pauseStartTime, end) &&
        0 <= outcome.seconds <= (end - startTime) / 1000 &&
        outcome.written == NewTotal(fetch, outcome.seconds)
    {
      if bookId == "" {
        return NoBook;
      }
      isRunning := false;
      clock := end;
      var seconds := ReadingSeconds(startTime, totalPausedTime, pauseStartTime, end);
      ReadingSecondsBounds(startTime, totalPausedTime, pauseStartTime, old(clock), end);
      outcome := Finished(seconds, NewTotal(fetch, seconds));
    }

    /** Typing into the note box. */
    method TypeNote(text: string)
      modifies this`noteContent
      ensures noteContent == text
    {
      noteContent := text;
    }

    /** `handleSaveNote`: sends the trimmed text (nothing without a book id
        or with blank text); a returned row is put first in the list and the
        box is cleared; on an error or an empty reply nothing changes. */
    method SaveNote(reply: InsertReply) returns (sent: Option<NoteDraft>)
      modifies this`notes, this`noteContent
      ensures sent == NoteToSend(bookId, old(noteContent))
      ensures sent.Some? && reply.Inserted? ==> notes == [reply.note] + old(notes) && noteContent == ""
      ensures !(sent.Some? && reply.Inserted?) ==> notes == old(notes) && noteContent == old(noteContent)
    {
      sent := NoteToSend(bookId, noteContent);
      if sent.None? {
        return;
      }
      if reply.Inserted? {
        notes := [reply.note] + notes;
        noteContent := "";
      }
    }

    /** `loadNotes` against the store's `table`: when the query succeeds
        the list becomes this book's notes, newest first. */
    method LoadNotes(table: seq<Note>, ok: bool)
      modifies this`notes
      ensures notes == if bookId != "" && ok then SelectNotes(table, bookId) else old(notes)
    {
      if bookId == "" || !ok {
        return;
      }
      notes := SelectNotes(table, bookId);
    }

    /** A note's edit or delete callback: after a successful write to the
        store the list is reloaded; after a failed one nothing changes. */
    method AfterNoteWrite(writeOk: bool, table: seq<Note>, loadOk: bool)
      modifies this`notes
      ensures notes == if writeOk && bookId != "" && loadOk then SelectNotes(table, bookId) else old(notes)
    {
      if writeOk {
        LoadNotes(table, loadOk);
      }
    }
  }

  // ---------------------------------------------------------------------
  // Sessions pinned down
  // ---------------------------------------------------------------------

  /** Thirty minutes planned; 600 s of reading, a 120 s pause, 300 s more:
      completing adds 900 s to a stored total of 50. */
  method PausedSessionExample() {
    var t := new TimerSession("b", 30, 1000);
    t.PlayPause(601000);
    t.Settle(601000);
    t.PlayPause(721000);
    t.Settle(721000);
    var outcome := t.Complete(1021000, Fetched(Some(50)));
    assert outcome == Finished(900, Some(950));
  }

  /** Time spent stopped after a reset is not a pause: it counts as reading. */
  method ResetExample() {
    var t := new TimerSession("b", 15, 0);
    t.Reset();
    assert t.timeLeft == 900 && !t.isRunning;
    t.Settle(0);
    var outcome := t.Complete(60000, Fetched(None));
    assert outcome == Finished(60, Some(60));
  }

  /** A pause still open when reset is pressed stays open: everything from
      the pause to the end counts as paused, so 61 s on the clock with a
      pause from 1 s on and a reset after it yields 1 s of reading. */
  method ResetWhilePausedExample() {
    var t := new TimerSession("b", 15, 0);
    t.PlayPause(1000);
    t.Reset();
    var outcome := t.Complete(61000, Fetched(None));
    assert outcome == Finished(1, Some(1));
  }

  /** Pressing play after a reset closes the open pause: paused at 1 s,
      reset, resumed at 31 s and completed at 61 s, the last 30 s count as
      reading and only the 30 s in between as paused. */
  method ResetThenResumeExample() {
    var t := new TimerSession("b", 15, 0);
    t.PlayPause(1000);
    t.Reset();
    t.PlayPause(31000);
    t.Settle(31000);
    var outcome := t.Complete(61000, Fetched(None));
    assert outcome == Finished(31, Some(31));
  }

  /** Completing twice writes twice: nothing stops a second write of the
      stored total plus the same session's seconds. */
  method DoubleCompleteExample() {
    var t := new TimerSession("b", 15, 0);
    var first := t.Complete(1000, Fetched(Some(0)));
    assert first == Finished(1, Some(1));
    var second := t.Complete(1000, Fetched(Some(1)));
    assert second == Finished(1, Some(2));
  }
}
