/** The add-book page: the three-field form with an optional cover, and
    the submit handler that uploads the cover and inserts the row. */
module AddBook {
  import opened Wrappers
  import opened BookForm

  /** The row the page inserts. */
  datatype NewBookRow = NewBookRow(
    title: Option<string>,
    author: Option<string>,
    publisher: Option<string>,
    coverUrl: Option<string>,
    totalReadTime: int,
    createdAt: string)

  /** The reply to the insert: an error, or the inserted rows (none when
      the reply held no data). */
  datatype InsertReply = InsertError | InsertedRows(count: nat)

  datatype SubmitOutcome =
    | WrongExtension               // nothing uploaded or inserted
    | UploadFailed                 // nothing inserted
    | InsertFailed(sent: NewBookRow)
    | Added(sent: NewBookRow)      // navigates to the bookshelf

  /** The row for the current form: `cover_url` is the uploaded URL when a
      file was chosen and null otherwise; the read time starts at 0. */
  function RowFor(values: FormValues, coverUrl: Option<string>, nowIso: string): (row: NewBookRow)
    ensures row.totalReadTime == 0 && row.coverUrl == coverUrl && row.createdAt == nowIso
    ensures row.title == values.title && row.author == values.author && row.publisher == values.publisher
  {
    NewBookRow(values.title, values.author, values.publisher, coverUrl, 0, nowIso)
  }

  class AddBookForm {
    var values: FormValues
    var coverFile: Option<CoverFile>
    var previewUrl: Option<string>
    var loading: bool

    constructor ()
      ensures values == FormValues(None, None, None) && coverFile == None && previewUrl == None && !loading
    {
      values := FormValues(None, None, None);
      coverFile := None;
      previewUrl := None;
      loading := false;
    }

    /** The add button is enabled exactly when the three fields are filled. */
    predicate SubmitEnabled()
      reads this
    {
      FieldsFilled(values)
    }

    /** Typing into the three text fields. */
    method SetFields(v: FormValues)
      modifies this`values
      ensures values == v
    {
      values := v;
    }

    /** Choosing a file: it becomes the form's cover file and its object URL
        the preview. */
    method ChooseCover(file: CoverFile, objectUrl: string)
      modifies this`coverFile, this`previewUrl
      ensures coverFile == Some(file) && previewUrl == Some(objectUrl)
    {
      coverFile := Some(file);
      previewUrl := Some(objectUrl);
    }

    /** The remove button: no cover file and no preview. */
    method RemoveCover()
      modifies this`coverFile, this`previewUrl
      ensures coverFile == None && previewUrl == None
    {
      coverFile := None;
      previewUrl := None;
    }

    /** `handleSubmit` at `nowIso`: a chosen file whose name is not jpg/jpeg
        stops before anything is uploaded or inserted, a failed upload stops
        before the insert; otherwise the row is inserted, and an error or an
        empty reply counts as a failure. Loading is off again in every case. */
    method Submit(nowIso: string, upload: UploadReply, reply: InsertReply) returns (outcome: SubmitOutcome)
      modifies this`loading
      ensures !loading
      ensures outcome == WrongExtension <==> coverFile.Some? && !IsJpegName(coverFile.value.name)
      ensures outcome == UploadFailed <==>
        coverFile.Some? && IsJpegName(coverFile.value.name) && !upload.Uploaded?
      ensures outcome.InsertFailed? || outcome.Added? ==>
        (coverFile.Some? ==> IsJpegName(coverFile.value.name) && upload.Uploaded?) &&
        outcome.sent == RowFor(values, if coverFile.Some? then Some(upload.publicUrl) else None, nowIso)
      ensures outcome.InsertFailed? <==>
        (coverFile.Some? ==> IsJpegName(coverFile.value.name) && upload.Uploaded?) &&
        !(reply.InsertedRows? && reply.count > 0)
      ensures outcome.Added? <==>
        (coverFile.Some? ==> IsJpegName(coverFile.value.name) && upload.Uploaded?) &&
        reply.InsertedRows? && reply.count > 0
    {
      loading := true;
      var coverUrl: Option<string> := None;
      if coverFile.Some? {
        if !IsJpegName(coverFile.value.name) {
          loading := false;
          return WrongExtension;
        }
        if !upload.Uploaded? {
          loading := false;
          return UploadFailed;
        }
        coverUrl := Some(upload.publicUrl);
      }
      var sent := RowFor(values, coverUrl, nowIso);
      if reply.InsertError? || reply.count == 0 {
        loading := false;
        return InsertFailed(sent);
      }
      outcome := Added(sent);
      loading := false;
    }
  }
}
