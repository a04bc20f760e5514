/** The book page: the accumulated reading time, the book's notes (newest
    first) with one of them highlighted, and the edit dialog. */
module Reading {
  import opened Wrappers
  import opened JsText
  import opened Notes
  import Books

  /** The accumulated-time text: whole minutes unpadded, a colon, and the
      seconds padded to two digits; a missing total reads as 0. */
  function ReadTimeText(total: Option<int>): string {
    var t := total.GetOr(0);
    IntToString(t / 60) + ":" + PadStart(IntToString(JsRem(t, 60)), 2, '0')
  }

  /** For a non-negative total the text is `M:SS`: the minutes with no
      padding, a colon, two second digits, and the two numbers read back
      give the total. A missing total shows `0:00`. */
  lemma ReadTimeTextReadsBack(total: Option<int>)
    requires total.GetOr(0) >= 0
    ensures var t := total.GetOr(0); var r := ReadTimeText(total);
      |r| >= 4 && r[|r| - 3] == ':' &&
      r[..|r| - 3] == NatToString(t / 60) &&
      AllDigits(r[|r| - 2..]) && ParseDigits(r[|r| - 2..]) < 60 &&
      ParseDigits(r[..|r| - 3]) * 60 + ParseDigits(r[|r| - 2..]) == t
    ensures total.None? ==> ReadTimeText(total) == "0:00"
  {
    var t: nat := total.GetOr(0);
    var q, rem := t / 60, t % 60;
    assert q * 60 + rem == t && rem < 60;
    var m := NatToString(q);
    var s := PadStart(NatToString(rem), 2, '0');
    assert ReadTimeText(total) == m + ":" + s by {
      assert IntToString(q) == m;
      assert IntToString(JsRem(t, 60)) == NatToString(rem);
    }
    ParseNatToString(q);
    PaddedNumber(rem, 2);
    ShortNumber(rem);
    ColonParts(m, s);
    if total.None? {
      assert s == "00" by {
        assert NatToString(0) == "0";
      }
    }
  }

  /** Clicking a note: it stops being highlighted if it was, otherwise it
      becomes the highlighted one. */
  function NextActive(active: Option<string>, noteId: string): (r: Option<string>)
    ensures r == Some(noteId) <==> active != Some(noteId)
    ensures r.None? <==> active == Some(noteId)
  {
    if active == Some(noteId) then None else Some(noteId)
  }

  /** Clicking the same note twice restores the highlight, unless another
      note was highlighted before (then none is). */
  lemma ClickTwice(active: Option<string>, noteId: string)
    ensures active.None? || active == Some(noteId) ==> NextActive(NextActive(active, noteId), noteId) == active
    ensures active.Some? && active != Some(noteId) ==> NextActive(NextActive(active, noteId), noteId) == None
  {
  }

  /** The content update the edit dialog sends. */
  datatype NoteEdit = NoteEdit(noteId: string, content: string)

  class ReadingPage {
    const bookId: string               // the route parameter, trimmed
    var notes: seq<Note>
    var activeNoteId: Option<string>
    var editingNote: Option<Note>
    var editedContent: string
    var editModalVisible: bool
    var book: Option<Books.Book>
    var loading: bool

    constructor (rawBookId: string)
      ensures bookId == Trim(rawBookId)
      ensures notes == [] && activeNoteId == None && editingNote == None && editedContent == ""
      ensures !editModalVisible && book == None && loading
    {
      bookId := Trim(rawBookId);
      notes := [];
      activeNoteId := None;
      editingNote := None;
      editedContent := "";
      editModalVisible := false;
      book := None;
      loading := true;
    }

    /** The accumulated-time text on show: a spinner while loading, the
        text once a book was found, nothing when none was. */
    function ShownReadTime(): (r: Option<string>)
      reads this
      ensures r.Some? <==> !loading && book.Some?
      ensures r.Some? ==> r.value == ReadTimeText(Some(book.value.totalReadTime))
    {
      if !loading && book.Some? then Some(ReadTimeText(Some(book.value.totalReadTime))) else None
    }

    /** `loadData`: without a book id nothing happens; otherwise a row found
        is kept, and loading ends whatever the reply. */
    method LoadBook(reply: Books.BookLoad)
      modifies this`book, this`loading
      ensures bookId == "" ==> book == old(book) && loading == old(loading)
      ensures bookId != "" ==> !loading && book == if reply.Loaded? then Some(reply.book) else old(book)
    {
      if bookId == "" {
        return;
      }
      loading := true;
      if reply.Loaded? {
        book := Some(reply.book);
      }
      loading := false;
    }

    /** `loadNotes` against the store's `table`: when the query succeeds the
        list becomes this book's notes, newest first; otherwise it is kept. */
    method LoadNotes(table: seq<Note>, ok: bool)
      modifies this`notes
      ensures notes == if bookId != "" && ok then SelectNotes(table, bookId) else old(notes)
    {
      if bookId == "" || !ok {
        return;
      }
      notes := SelectNotes(table, bookId);
    }

    /** Clicking a note. */
    method ClickNote(noteId: string)
      modifies this`activeNoteId
      ensures activeNoteId == NextActive(old(activeNoteId), noteId)
    {
      activeNoteId := if activeNoteId == Some(noteId) then None else Some(noteId);
    }

    /** `handleEdit`: the note is the one being edited, its content fills
        the edit box, and the dialog opens. */
    method HandleEdit(note: Note)
      modifies this`editingNote, this`editedContent, this`editModalVisible
      ensures editingNote == Some(note) && editedContent == note.content && editModalVisible
    {
      editingNote := Some(note);
      editedContent := note.content;
      editModalVisible := true;
    }

    /** Typing into the edit box. */
    method TypeEdit(text: string)
      modifies this`editedContent
      ensures editedContent == text
    {
      editedContent := text;
    }

    /** Cancelling the dialog. */
    method CancelEdit()
      modifies this`editModalVisible
      ensures !editModalVisible
    {
      editModalVisible := false;
    }

    /** `handleDelete` for `noteId`: the store deletes that note's rows from
        `table`; after a successful delete no note is highlighted and the
        list is reloaded from what is left; after a failed one nothing
        changes. */
    method HandleDelete(noteId: string, reply: WriteReply, table: seq<Note>, loadOk: bool)
      modifies this`activeNoteId, this`notes
      ensures reply.WriteOk? ==> (activeNoteId == None &&
        notes == if bookId != "" && loadOk then SelectNotes(DeleteNoteRows(table, noteId), bookId) else old(notes))
      ensures reply.WriteFailed? ==> activeNoteId == old(activeNoteId) && notes == old(notes)
    {
      if reply.WriteFailed? {
        return;
      }
      activeNoteId := None;
      LoadNotes(DeleteNoteRows(table, noteId), loadOk);
    }

    /** A click on a note's edit button: `handleEdit` runs, and as the
        button does not stop the click from reaching the note around it,
        the note's highlight toggles as well. */
    method ClickEdit(note: Note)
      modifies this`editingNote, this`editedContent, this`editModalVisible, this`activeNoteId
      ensures editingNote == Some(note) && editedContent == note.content && editModalVisible
      ensures activeNoteId == NextActive(old(activeNoteId), note.id)
    {
      HandleEdit(note);
      ClickNote(note.id);
    }

    /** A click on a note's delete button: the delete is sent, the click
        reaches the note around the button and toggles its highlight, and
        when the delete succeeds the highlight is then cleared. So a failed
        delete still toggles the clicked note's highlight. */
    method ClickDelete(noteId: string, reply: WriteReply, table: seq<Note>, loadOk: bool)
      modifies this`activeNoteId, this`notes
      ensures activeNoteId == if reply.WriteOk? then None else NextActive(old(activeNoteId), noteId)
      ensures notes == if reply.WriteOk? && bookId != "" && loadOk
                       then SelectNotes(DeleteNoteRows(table, noteId), bookId) else old(notes)
    {
      ClickNote(noteId);
      HandleDelete(noteId, reply, table, loadOk);
    }

    /** `handleEditSubmit`: with no note being edited nothing happens;
        otherwise the edit box's text is sent for that note, and on success
        the dialog closes and the list is reloaded from `table` with that
        note's content replaced. On failure the dialog stays open and the
        list is kept. */
    method HandleEditSubmit(reply: WriteReply, table: seq<Note>, loadOk: bool) returns (sent: Option<NoteEdit>)
      modifies this`editModalVisible, this`notes
      ensures editingNote.None? ==> sent == None
      ensures editingNote.Some? ==> sent == Some(NoteEdit(editingNote.value.id, editedContent))
      ensures editingNote.Some? && reply.WriteOk? ==> (!editModalVisible &&
        notes == if bookId != "" && loadOk
                 then SelectNotes(UpdateNoteContent(table, editingNote.value.id, editedContent), bookId)
                 else old(notes))
      ensures editingNote.None? || reply.WriteFailed? ==> editModalVisible == old(editModalVisible) && notes == old(notes)
    {
      var editing := editingNote;
      if editing.None? {
        return None;
      }
      sent := Some(NoteEdit(editing.value.id, editedContent));
      if reply.WriteFailed? {
        return;
      }
      editModalVisible := false;
      LoadNotes(UpdateNoteContent(table, editing.value.id, editedContent), loadOk);
    }
  }
}
