/** The edit-book page: a form initialised from a given book or from the
    stored row, a cover preview, the `hasChanges` test that enables the
    update button, and the submit handler that uploads a new cover and
    writes the row. */
module EditBook {
  import opened Wrappers
  import opened BookForm
  import Books

  /** The `bookData` property the page may be given. */
  datatype BookData = BookData(title: string, author: string, publisher: string, coverUrl: Option<string>)

  /** The update the page sends for the book. */
  datatype BookUpdate = BookUpdate(title: Option<string>, author: Option<string>, publisher: Option<string>, coverUrl: Option<string>)

  /** What happens after a successful update: the `onSuccess` callback when
      the page has one, else navigation to the book page. */
  datatype AfterUpdate = CallOnSuccess | NavigateToBook

  datatype SubmitOutcome =
    | NoBookId                                         // nothing happens
    | WrongExtension                                   // nothing uploaded or written
    | UploadFailed                                     // nothing written
    | UpdateFailed(sent: BookUpdate)
    | Updated(sent: BookUpdate, after: AfterUpdate)

  /** The preview a stored cover starts as: `cover_url || ''`. */
  function CoverPreview(coverUrl: Option<string>): string {
    coverUrl.GetOr("")
  }

  /** The initial values as `initialValues?.title` and the like read them:
      every field unset while there are none. */
  function InitialOrUnset(initial: Option<FormValues>): FormValues {
    initial.GetOr(FormValues(None, None, None))
  }

  /** `hasChanges`: a text field differs from its initial value, a new cover
      file is set, or there was a cover and the preview is now empty. */
  predicate HasChanges(values: FormValues, initial: Option<FormValues>, coverFile: Option<CoverFile>,
                       originalPreview: string, preview: string)
  {
    values.title != InitialOrUnset(initial).title ||
    values.author != InitialOrUnset(initial).author ||
    values.publisher != InitialOrUnset(initial).publisher ||
    coverFile.Some? ||
    (originalPreview != "" && preview == "")
  }

  /** The `cover_url` written: the uploaded file's URL when a new file was
      chosen, otherwise the current preview, with an empty preview written
      as null. */
  function ChosenCoverUrl(coverFile: Option<CoverFile>, publicUrl: string, preview: string): (url: Option<string>)
    ensures coverFile.Some? ==> url == Some(publicUrl)
    ensures coverFile.None? ==> (url.None? <==> preview == "")
    ensures coverFile.None? && url.Some? ==> url.value == preview
  {
    if coverFile.Some? then Some(publicUrl) else if preview != "" then Some(preview) else None
  }

  /** A form just initialised from a book, with nothing typed or chosen,
      shows no changes: the update button stays disabled. */
  lemma FreshFormHasNoChanges(values: FormValues, coverUrl: Option<string>)
    ensures !HasChanges(values, Some(values), None, CoverPreview(coverUrl), CoverPreview(coverUrl))
  {
  }

  /** Removing an existing cover is a change, as is choosing a new file;
      either enables the update button once the three fields are filled. */
  lemma CoverEditsAreChanges(values: FormValues, initial: Option<FormValues>, file: CoverFile,
                             originalPreview: string, preview: string)
    ensures originalPreview != "" ==> HasChanges(values, initial, None, originalPreview, "")
    ensures HasChanges(values, initial, Some(file), originalPreview, preview)
  {
  }

  /** Submitting without touching the cover writes the stored cover back
      unchanged (an empty stored URL is written as null). */
  lemma UntouchedCoverIsKept(coverUrl: Option<string>, publicUrl: string)
    ensures coverUrl != Some("") ==> ChosenCoverUrl(None, publicUrl, CoverPreview(coverUrl)) == coverUrl
    ensures coverUrl == Some("") ==> ChosenCoverUrl(None, publicUrl, CoverPreview(coverUrl)) == None
  {
  }

  class EditBookForm {
    const bookId: string             // route parameter; "" when absent
    const hasOnSuccess: bool
    var values: FormValues
    var coverFile: Option<CoverFile>
    var initialValues: Option<FormValues>
    var previewUrl: string
    var originalPreviewUrl: string
    var loading: bool
    var initializing: bool

    constructor (bookId: string, hasOnSuccess: bool)
      ensures this.bookId == bookId && this.hasOnSuccess == hasOnSuccess
      ensures values == FormValues(None, None, None) && coverFile == None && initialValues == None
      ensures previewUrl == "" && originalPreviewUrl == "" && !loading && initializing
    {
      this.bookId := bookId;
      this.hasOnSuccess := hasOnSuccess;
      values := FormValues(None, None, None);
      coverFile := None;
      initialValues := None;
      previewUrl := "";
      originalPreviewUrl := "";
      loading := false;
      initializing := true;
    }

    /** The update button is enabled: fields filled and something changed. */
    predicate SubmitEnabled()
      reads this
    {
      FieldsFilled(values) && HasChanges(values, initialValues, coverFile, originalPreviewUrl, previewUrl)
    }

    /** Initialisation from a given `bookData`: the three fields are copied
        and both previews become the cover URL, or `''` without one. */
    method InitFromBookData(data: BookData)
      modifies this`values, this`initialValues, this`previewUrl, this`originalPreviewUrl, this`initializing
      ensures values == FormValues(Some(data.title), Some(data.author), Some(data.publisher))
      ensures initialValues == Some(values)
      ensures previewUrl == CoverPreview(data.coverUrl) && originalPreviewUrl == previewUrl
      ensures !initializing
    {
      values := FormValues(Some(data.title), Some(data.author), Some(data.publisher));
      initialValues := Some(values);
      if data.coverUrl.Some? && data.coverUrl.value != "" {
        previewUrl := data.coverUrl.value;
        originalPreviewUrl := data.coverUrl.value;
      } else {
        previewUrl := "";
        originalPreviewUrl := "";
      }
      initializing := false;
    }

    /** Initialisation without `bookData`: without a book id the page goes
        home at once; otherwise the stored row is loaded, a load error also
        goes home, and a row found fills the form like `bookData` does. */
    method InitFromStore(reply: Books.BookLoad) returns (goHome: bool)
      modifies this`values, this`initialValues, this`previewUrl, this`originalPreviewUrl, this`initializing
      ensures goHome <==> bookId == "" || reply.LoadFailed?
      ensures bookId == "" ==> initializing == old(initializing)
      ensures bookId != "" ==> !initializing
      ensures bookId != "" && reply.Loaded? ==>
        values == FormValues(Some(reply.book.title), reply.book.author, reply.book.publisher) &&
        initialValues == Some(values) &&
        previewUrl == CoverPreview(reply.book.coverUrl) && originalPreviewUrl == previewUrl
      ensures !(bookId != "" && reply.Loaded?) ==>
        values == old(values) && initialValues == old(initialValues) &&
        previewUrl == old(previewUrl) && originalPreviewUrl == old(originalPreviewUrl)
    {
      if bookId == "" {
        return true;
      }
      goHome := reply.LoadFailed?;
      if reply.Loaded? {
        var book := reply.book;
        values := FormValues(Some(book.title), book.author, book.publisher);
        initialValues := Some(values);
        previewUrl := CoverPreview(book.coverUrl);
        originalPreviewUrl := previewUrl;
      }
      initializing := false;
    }

    /** Typing into the three text fields. */
    method SetFields(v: FormValues)
      modifies this`values
      ensures values == v
    {
      values := v;
    }

    /** Choosing a file: it becomes the form's cover file and its object URL
        the preview. */
    method ChooseCover(file: CoverFile, objectUrl: string)
      modifies this`coverFile, this`previewUrl
      ensures coverFile == Some(file) && previewUrl == objectUrl
    {
      coverFile := Some(file);
      previewUrl := objectUrl;
    }

    /** The remove button: no cover file and an empty preview. */
    method RemoveCover()
      modifies this`coverFile, this`previewUrl
      ensures coverFile == None && previewUrl == ""
    {
      coverFile := None;
      previewUrl := "";
    }

    /** `handleSubmit`: without a book id nothing happens. A new file with a
        name other than jpg/jpeg stops before any upload; a failed upload
        stops before the write. Otherwise the fields are written with the
        chosen cover URL. Loading is off again in every case. */
    method Submit(upload: UploadReply, reply: WriteReply) returns (outcome: SubmitOutcome)
      modifies this`loading
      ensures bookId == "" ==> loading == old(loading)
      ensures bookId != "" ==> !loading
      ensures outcome == NoBookId <==> bookId == ""
      ensures outcome == WrongExtension <==>
        bookId != "" && coverFile.Some? && !IsJpegName(coverFile.value.name)
      ensures outcome == UploadFailed <==>
        bookId != "" && coverFile.Some? && IsJpegName(coverFile.value.name) && !upload.Uploaded?
      ensures outcome.UpdateFailed? || outcome.Updated? ==>
        bookId != "" && (coverFile.Some? ==> IsJpegName(coverFile.value.name) && upload.Uploaded?) &&
        outcome.sent.title == values.title && outcome.sent.author == values.author &&
        outcome.sent.publisher == values.publisher &&
        outcome.sent.coverUrl == ChosenCoverUrl(coverFile, if upload.Uploaded? then upload.publicUrl else "", previewUrl)
      ensures outcome.UpdateFailed? <==>
        bookId != "" && (coverFile.Some? ==> IsJpegName(coverFile.value.name) && upload.Uploaded?) && reply.WriteFailed?
      ensures outcome.Updated? <==>
        bookId != "" && (coverFile.Some? ==> IsJpegName(coverFile.value.name) && upload.Uploaded?) && reply.WriteOk?
      ensures outcome.Updated? ==> outcome.after == if hasOnSuccess then CallOnSuccess else NavigateToBook
    {
      if bookId == "" {
        return NoBookId;
      }
      loading := true;
      var publicUrl := "";
      if coverFile.Some? {
        if !IsJpegName(coverFile.value.name) {
          loading := false;
          return WrongExtension;
        }
        if !upload.Uploaded? {
          loading := false;
          return UploadFailed;
        }
        publicUrl := upload.publicUrl;
      }
      var sent := BookUpdate(values.title, values.author, values.publisher,
                             ChosenCoverUrl(coverFile, publicUrl, previewUrl));
      if reply.WriteFailed? {
        loading := false;
        return UpdateFailed(sent);
      }
      outcome := Updated(sent, if hasOnSuccess then CallOnSuccess else NavigateToBook);
      loading := false;
    }
  }
}
