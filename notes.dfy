/** A row of the `notes` table and the query both note lists are loaded
    with: this book's notes, newest first by creation time. */
module Notes {

  /** `created_at` is kept as a timestamp in milliseconds: only its order
      matters to the pages (its locale formatting is not modelled). */
  datatype Note = Note(id: string, bookId: string, content: string, durationMin: int, createdAt: int)

  /** The rows of `table` that belong to `bookId` (`.eq('book_id', bookId)`),
      in table order. */
  function ForBook(table: seq<Note>, bookId: string): seq<Note> {
    if table == [] then []
    else
      var rest := ForBook(table[1..], bookId);
      if table[0].bookId == bookId then [table[0]] + rest else rest
  }

  /** The filter keeps exactly the book's rows, each as often as in the table. */
  lemma {:induction false} ForBookSpec(table: seq<Note>, bookId: string)
    ensures var r := ForBook(table, bookId);
      (forall i :: 0 <= i < |r| ==> r[i].bookId == bookId) &&
      (forall n :: multiset(r)[n] == if n.bookId == bookId then multiset(table)[n] else 0)
    decreases |table|
  {
    if table != [] {
      ForBookSpec(table[1..], bookId);
      assert table == [table[0]] + table[1..];
    }
  }

  /** Newest first: creation times never increase along the list. */
  predicate NewestFirst(s: seq<Note>) {
    forall i, j :: 0 <= i < j < |s| ==> s[i].createdAt >= s[j].createdAt
  }

  /** Puts `n` into a list, before the first note that is not newer. */
  function InsertNewest(n: Note, s: seq<Note>): seq<Note> {
    if s == [] || n.createdAt >= s[0].createdAt then [n] + s
    else [s[0]] + InsertNewest(n, s[1..])
  }

  /** Inserting into a newest-first list keeps it newest first and adds
      exactly that note; the head is the new note or the old head. */
  lemma {:induction false} InsertNewestSpec(n: Note, s: seq<Note>)
    requires NewestFirst(s)
    ensures var r := InsertNewest(n, s);
      NewestFirst(r) && multiset(r) == multiset(s) + multiset{n} &&
      r != [] && (r[0] == n || (s != [] && r[0] == s[0]))
    decreases |s|
  {
    if s == [] || n.createdAt >= s[0].createdAt {
      ConsNewest(n, s);
    } else {
      InsertNewestSpec(n, s[1..]);
      assert s == [s[0]] + s[1..];
      ConsNewest(s[0], InsertNewest(n, s[1..]));
    }
  }

  /** A note no older than the head of a newest-first list can go in front. */
  lemma ConsNewest(x: Note, s: seq<Note>)
    requires NewestFirst(s)
    requires s == [] || x.createdAt >= s[0].createdAt
    ensures NewestFirst([x] + s)
  {
    var r := [x] + s;
    forall i, j | 0 <= i < j < |r| ensures r[i].createdAt >= r[j].createdAt {
      if i == 0 {
        assert r[j] == s[j - 1];
        assert s[0].createdAt >= s[j - 1].createdAt || j == 1;
      } else {
        assert r[i] == s[i - 1] && r[j] == s[j - 1];
      }
    }
  }

  /** Orders a list newest first (`.order('created_at', { ascending: false })`). */
  function SortNewest(s: seq<Note>): seq<Note> {
    if s == [] then [] else InsertNewest(s[0], SortNewest(s[1..]))
  }

  /** Sorting gives a newest-first permutation of the list. */
  lemma {:induction false} SortNewestSpec(s: seq<Note>)
    ensures NewestFirst(SortNewest(s)) && multiset(SortNewest(s)) == multiset(s)
    decreases |s|
  {
    if s != [] {
      SortNewestSpec(s[1..]);
      InsertNewestSpec(s[0], SortNewest(s[1..]));
      assert s == [s[0]] + s[1..];
    }
  }

  /** The reply to the notes query of both pages: this book's notes, newest first. */
  function SelectNotes(table: seq<Note>, bookId: string): seq<Note> {
    SortNewest(ForBook(table, bookId))
  }

  /** A loaded list holds exactly this book's notes of the table, each as
      often as in the table, ordered newest first. */
  lemma SelectNotesSpec(table: seq<Note>, bookId: string)
    ensures var r := SelectNotes(table, bookId);
      NewestFirst(r) &&
      (forall i :: 0 <= i < |r| ==> r[i].bookId == bookId) &&
      (forall n :: multiset(r)[n] == if n.bookId == bookId then multiset(table)[n] else 0)
  {
    var f := ForBook(table, bookId);
    var r := SortNewest(f);
    ForBookSpec(table, bookId);
    SortNewestSpec(f);
    forall i | 0 <= i < |r| ensures r[i].bookId == bookId {
      assert r[i] in multiset(r);
      assert r[i] in multiset(f);
      var k :| 0 <= k < |f| && f[k] == r[i];
    }
  }

  /** The store's delete: every row with that id goes. */
  function DeleteNoteRows(table: seq<Note>, noteId: string): (r: seq<Note>)
    ensures forall i :: 0 <= i < |r| ==> r[i].id != noteId
  {
    if table == [] then []
    else
      var rest := DeleteNoteRows(table[1..], noteId);
      if table[0].id == noteId then rest else [table[0]] + rest
  }

  /** Deleting a row that was appended under a fresh id restores the table. */
  lemma {:induction false} DeleteAppended(table: seq<Note>, n: Note)
    requires forall i :: 0 <= i < |table| ==> table[i].id != n.id
    ensures DeleteNoteRows(table + [n], n.id) == table
    decreases |table|
  {
    if table == [] {
      assert [] + [n] == [n];
      assert DeleteNoteRows([n], n.id) == DeleteNoteRows([], n.id);
    } else {
      DeleteAppended(table[1..], n);
      assert (table + [n])[0] == table[0];
      assert (table + [n])[1..] == table[1..] + [n];
      assert table == [table[0]] + table[1..];
    }
  }

  /** The delete keeps every row with another id, as often as it occurred. */
  lemma {:induction false} DeleteNoteRowsKeepsOthers(table: seq<Note>, noteId: string, n: Note)
    requires n.id != noteId
    ensures multiset(DeleteNoteRows(table, noteId))[n] == multiset(table)[n]
    decreases |table|
  {
    if table != [] {
      DeleteNoteRowsKeepsOthers(table[1..], noteId, n);
      assert table == [table[0]] + table[1..];
    }
  }

  /** The store's update of a note's content (`.update({ content }).eq('id', noteId)`):
      rows with that id get the new content, every other row and column stays. */
  function UpdateNoteContent(table: seq<Note>, noteId: string, content: string): (r: seq<Note>)
    ensures |r| == |table|
    ensures forall i :: 0 <= i < |r| ==>
      r[i] == if table[i].id == noteId then table[i].(content := content) else table[i]
  {
    if table == [] then []
    else
      var rest := UpdateNoteContent(table[1..], noteId, content);
      [if table[0].id == noteId then table[0].(content := content) else table[0]] + rest
  }

  /** After an edit, the reloaded list of any book shows the new content
      for the edited note, and every other note it lists was in the table. */
  lemma EditedNoteShowsContent(table: seq<Note>, noteId: string, content: string, bookId: string)
    ensures var r := SelectNotes(UpdateNoteContent(table, noteId, content), bookId);
      forall i :: 0 <= i < |r| ==>
        (r[i].id == noteId ==> r[i].content == content) &&
        (r[i].id != noteId ==> r[i] in table)
  {
    var u := UpdateNoteContent(table, noteId, content);
    var r := SelectNotes(u, bookId);
    SelectNotesSpec(u, bookId);
    forall i | 0 <= i < |r| ensures (r[i].id == noteId ==> r[i].content == content) && (r[i].id != noteId ==> r[i] in table) {
      assert r[i] in multiset(r);
      assert r[i] in multiset(u);
      var k :| 0 <= k < |u| && u[k] == r[i];
    }
  }

  /** After a delete, the reloaded list of any book no longer holds the
      deleted note. */
  lemma DeletedNoteNotLoaded(table: seq<Note>, noteId: string, bookId: string)
    ensures var r := SelectNotes(DeleteNoteRows(table, noteId), bookId);
      forall i :: 0 <= i < |r| ==> r[i].id != noteId
  {
    var d := DeleteNoteRows(table, noteId);
    var r := SelectNotes(d, bookId);
    SelectNotesSpec(d, bookId);
    forall i | 0 <= i < |r| ensures r[i].id != noteId {
      assert r[i] in multiset(r);
      assert r[i] in multiset(d);
      var k :| 0 <= k < |d| && d[k] == r[i];
    }
  }

  /** Saving a note and then deleting it leaves every book's note list as
      it was, provided the store gave the new note an id no other row has. */
  lemma SaveThenDeleteRestores(table: seq<Note>, n: Note, bookId: string)
    requires forall i :: 0 <= i < |table| ==> table[i].id != n.id
    ensures SelectNotes(DeleteNoteRows(table + [n], n.id), bookId) == SelectNotes(table, bookId)
  {
    DeleteAppended(table, n);
  }
}
