/** The signed-in user's book list as the `useBooks` hook keeps it: a local
    copy of the `books` rows that is patched after each successful remote
    write (prepend on add, merge on update, filter on delete) and replaced
    on fetch. */
module Books {
  import opened Wrappers

  datatype Book = Book(
    id: string,
    title: string,
    author: Option<string>,
    publisher: Option<string>,
    coverUrl: Option<string>,
    totalReadTime: int,
    notesCount: int,
    createdAt: string)

  /** Some of a row's fields, as returned by an update (`{ ...book, ...data }`
      keeps a field of `book` exactly where `data` has none). A nullable
      column is `Some(None)` when the reply holds `null`. */
  datatype BookPatch = BookPatch(
    id: Option<string>,
    title: Option<string>,
    author: Option<Option<string>>,
    publisher: Option<Option<string>>,
    coverUrl: Option<Option<string>>,
    totalReadTime: Option<int>,
    notesCount: Option<int>,
    createdAt: Option<string>)

  /** What `addBook` is given: a row without id, creation time and counters. */
  datatype BookDraft = BookDraft(
    title: string,
    author: Option<string>,
    publisher: Option<string>,
    coverUrl: Option<string>)

  /** The row `addBook` inserts. */
  datatype BookInsert = BookInsert(
    title: string,
    author: Option<string>,
    publisher: Option<string>,
    coverUrl: Option<string>,
    totalReadTime: int,
    notesCount: int)

  /** A fetched row: the book's columns plus the `notes(count)` aggregate,
      a list of counts, absent when the relation gave nothing. */
  datatype FetchedBook = FetchedBook(row: Book, noteCounts: Option<seq<int>>)

  /** The reply to loading one book row by id. */
  datatype BookLoad = LoadFailed | LoadedNothing | Loaded(book: Book)

  const FetchFallback: string := "發生錯誤"
  const AddFallback: string := "新增書籍時發生錯誤"
  const UpdateFallback: string := "更新書籍時發生錯誤"
  const DeleteFallback: string := "刪除書籍時發生錯誤"

  /** `err instanceof Error ? err.message : fallback` */
  function ErrorText(f: Failure, fallback: string): string {
    f.message.GetOr(fallback)
  }

  // ---------------------------------------------------------------------
  // The list operations
  // ---------------------------------------------------------------------

  /** `{ ...book, ...data }` */
  function Merge(b: Book, p: BookPatch): Book {
    Book(p.id.GetOr(b.id), p.title.GetOr(b.title), p.author.GetOr(b.author),
         p.publisher.GetOr(b.publisher), p.coverUrl.GetOr(b.coverUrl),
         p.totalReadTime.GetOr(b.totalReadTime), p.notesCount.GetOr(b.notesCount),
         p.createdAt.GetOr(b.createdAt))
  }

  /** `list.map(book => book.id === id ? { ...book, ...data } : book)`: same
      length and order; exactly the entries with that id are merged. */
  function MergeById(list: seq<Book>, id: string, p: BookPatch): (r: seq<Book>)
    ensures |r| == |list|
    ensures forall i :: 0 <= i < |list| ==> r[i] == if list[i].id == id then Merge(list[i], p) else list[i]
  {
    if list == [] then []
    else [if list[0].id == id then Merge(list[0], p) else list[0]] + MergeById(list[1..], id, p)
  }

  /** `list.filter(book => book.id !== id)`: no entry with that id is left. */
  function RemoveById(list: seq<Book>, id: string): (r: seq<Book>)
    ensures forall i :: 0 <= i < |r| ==> r[i].id != id
  {
    if list == [] then []
    else
      var rest := RemoveById(list[1..], id);
      if list[0].id == id then rest else [list[0]] + rest
  }

  /** The count a fetched row ends up with: `notes_count?.[0]?.count || 0`. */
  function FirstCount(counts: Option<seq<int>>): int {
    if counts.Some? && |counts.value| > 0 then counts.value[0] else 0
  }

  /** The fetched rows with `notes_count` flattened: the same rows in the
      same order, each with its first count (or 0) and every other column
      as fetched. */
  function NormaliseCounts(rows: seq<FetchedBook>): (r: seq<Book>)
    ensures |r| == |rows|
    ensures forall i :: 0 <= i < |rows| ==>
      r[i].notesCount == FirstCount(rows[i].noteCounts) &&
      r[i].(notesCount := 0) == rows[i].row.(notesCount := 0)
  {
    if rows == [] then []
    else [rows[0].row.(notesCount := FirstCount(rows[0].noteCounts))] + NormaliseCounts(rows[1..])
  }

  // ---------------------------------------------------------------------
  // Properties of the list operations
  // ---------------------------------------------------------------------

  /** Filtering keeps the original order: it distributes over concatenation. */
  lemma {:induction false} RemoveByIdAppend(a: seq<Book>, b: seq<Book>, id: string)
    ensures RemoveById(a + b, id) == RemoveById(a, id) + RemoveById(b, id)
    decreases |a|
  {
    if a == [] {
      assert a + b == b;
    } else {
      RemoveByIdAppend(a[1..], b, id);
      var ab := a + b;
      assert ab[0] == a[0] && ab[1..] == a[1..] + b;
      var restAB, restA := RemoveById(ab[1..], id), RemoveById(a[1..], id);
      assert restAB == restA + RemoveById(b, id);
      if a[0].id == id {
        assert RemoveById(ab, id) == restAB;
        assert RemoveById(a, id) == restA;
      } else {
        assert RemoveById(ab, id) == [a[0]] + restAB;
        assert RemoveById(a, id) == [a[0]] + restA;
      }
    }
  }

  /** Deleting keeps every entry with another id, as often as it occurred. */
  lemma {:induction false} RemoveByIdKeepsOthers(list: seq<Book>, id: string, b: Book)
    requires b.id != id
    ensures multiset(RemoveById(list, id))[b] == multiset(list)[b]
    decreases |list|
  {
    if list != [] {
      RemoveByIdKeepsOthers(list[1..], id, b);
      assert list == [list[0]] + list[1..];
    }
  }

  /** Deleting an id no entry has changes nothing. */
  lemma {:induction false} RemoveAbsent(list: seq<Book>, id: string)
    requires forall i :: 0 <= i < |list| ==> list[i].id != id
    ensures RemoveById(list, id) == list
    decreases |list|
  {
    if list != [] {
      RemoveAbsent(list[1..], id);
      assert list == [list[0]] + list[1..];
    }
  }

  /** Deleting twice is deleting once. */
  lemma RemoveIdempotent(list: seq<Book>, id: string)
    ensures RemoveById(RemoveById(list, id), id) == RemoveById(list, id)
  {
    RemoveAbsent(RemoveById(list, id), id);
  }

  /** Adding a book under a fresh id and then deleting that id gives the
      list back as it was. */
  lemma AddThenDeleteRestores(list: seq<Book>, b: Book)
    requires forall i :: 0 <= i < |list| ==> list[i].id != b.id
    ensures RemoveById([b] + list, b.id) == list
  {
    RemoveByIdAppend([b], list, b.id);
    RemoveAbsent(list, b.id);
    assert RemoveById([b], b.id) == [];
  }

  /** Merging the same reply twice is merging it once, as long as the reply
      does not rename the row (the update's reply is the row with that id). */
  lemma MergeIdempotent(list: seq<Book>, id: string, p: BookPatch)
    requires p.id.None? || p.id == Some(id)
    ensures MergeById(MergeById(list, id, p), id, p) == MergeById(list, id, p)
  {
    var once := MergeById(list, id, p);
    var twice := MergeById(once, id, p);
    forall i | 0 <= i < |list| ensures twice[i] == once[i] {
      if list[i].id == id {
        assert once[i].id == id;
      }
    }
  }

  // ---------------------------------------------------------------------
  // The hook's state
  // ---------------------------------------------------------------------

  class BookCache {
    var books: seq<Book>
    var loading: bool
    var error: Option<string>

    constructor ()
      ensures books == [] && loading && error == None
    {
      books := [];
      loading := true;
      error := None;
    }

    /** `fetchBooks`: a reply with rows replaces the list with the rows,
        counts flattened; an error keeps the list and records its message;
        an empty reply keeps both. Loading ends afterwards (the fixed 800 ms
        delay before it does is not modelled). */
    method FetchBooks(reply: Result<Option<seq<FetchedBook>>, Failure>)
      modifies this
      ensures !loading
      ensures reply.Err? ==> books == old(books) && error == Some(ErrorText(reply.error, FetchFallback))
      ensures reply.Ok? && reply.value.Some? ==> books == NormaliseCounts(reply.value.value) && error == old(error)
      ensures reply.Ok? && reply.value.None? ==> books == old(books) && error == old(error)
    {
      loading := true;
      match reply {
        case Err(f) =>
          error := Some(ErrorText(f, FetchFallback));
        case Ok(rows) =>
          if rows.Some? {
            books := NormaliseCounts(rows.value);
          }
      }
      loading := false;
    }

    /** `addBook`: inserts the draft with both counters at 0; the returned
        row goes first in the list. On an error the list is kept, the
        message recorded, and the error passed on to the caller. */
    method AddBook(draft: BookDraft, reply: Result<Book, Failure>) returns (sent: BookInsert, result: Result<Book, Failure>)
      modifies this`books, this`error
      ensures sent.title == draft.title && sent.author == draft.author &&
              sent.publisher == draft.publisher && sent.coverUrl == draft.coverUrl
      ensures sent.totalReadTime == 0 && sent.notesCount == 0
      ensures result == reply
      ensures reply.Ok? ==> books == [reply.value] + old(books) && error == old(error)
      ensures reply.Err? ==> books == old(books) && error == Some(ErrorText(reply.error, AddFallback))
    {
      sent := BookInsert(draft.title, draft.author, draft.publisher, draft.coverUrl, 0, 0);
      result := reply;
      match reply {
        case Ok(row) =>
          books := [row] + books;
        case Err(f) =>
          error := Some(ErrorText(f, AddFallback));
      }
    }

    /** `updateBook(id, …)`: the reply's fields are merged into the entries
        with that id; the rest of the list is untouched. On an error the
        list is kept, the message recorded, and the error passed on. */
    method UpdateBook(id: string, reply: Result<BookPatch, Failure>) returns (result: Result<BookPatch, Failure>)
      modifies this`books, this`error
      ensures result == reply
      ensures reply.Ok? ==> books == MergeById(old(books), id, reply.value) && error == old(error)
      ensures reply.Err? ==> books == old(books) && error == Some(ErrorText(reply.error, UpdateFallback))
    {
      result := reply;
      match reply {
        case Ok(p) =>
          books := MergeById(books, id, p);
        case Err(f) =>
          error := Some(ErrorText(f, UpdateFallback));
      }
    }

    /** `deleteBook(id)`: the entries with that id leave the list, the others
        keep their order. On an error the list is kept, the message
        recorded, and the error passed on. */
    method DeleteBook(id: string, reply: WriteReply) returns (result: WriteReply)
      modifies this`books, this`error
      ensures result == reply
      ensures reply.WriteOk? ==> books == RemoveById(old(books), id) && error == old(error)
      ensures reply.WriteFailed? ==> books == old(books) && error == Some(ErrorText(reply.failure, DeleteFallback))
    {
      result := reply;
      match reply {
        case WriteOk =>
          books := RemoveById(books, id);
        case WriteFailed(f) =>
          error := Some(ErrorText(f, DeleteFallback));
      }
    }
  }
}
