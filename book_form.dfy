/** What the add-book and edit-book pages share: the cover file's extension
    check, the three-field validity test, and the values the form holds. */
module BookForm {
  import opened Wrappers
  import opened JsText

  /** The form's title, author and publisher; `None` is an unset field
      (`undefined`, or `null` from a nullable column). */
  datatype FormValues = FormValues(title: Option<string>, author: Option<string>, publisher: Option<string>)

  /** A chosen file; only its name matters here. */
  datatype CoverFile = CoverFile(name: string)

  /** The reply to the cover upload followed by `getPublicUrl`. */
  datatype UploadReply = UploadError | UploadNoData | Uploaded(publicUrl: string)

  /** A truthy text: present and non-empty. */
  predicate Filled(field: Option<string>) {
    field.Some? && field.value != ""
  }

  /** `isValid`: title, author and publisher are all filled in. */
  predicate FieldsFilled(v: FormValues) {
    Filled(v.title) && Filled(v.author) && Filled(v.publisher)
  }

  /** `file.name.split('.').pop()?.toLowerCase()` */
  function Extension(fileName: string): string {
    var parts := Split(fileName, '.');
    ToLower(parts[|parts| - 1])
  }

  /** The cover check: the extension is `jpg` or `jpeg`. */
  predicate IsJpegName(fileName: string) {
    var e := Extension(fileName);
    e == "jpg" || e == "jpeg"
  }

  predicate EndsWith(s: string, suffix: string) {
    |suffix| <= |s| && s[|s| - |suffix|..] == suffix
  }

  lemma ToLowerSuffix(s: string, j: nat)
    requires j <= |s|
    ensures ToLower(s[j..]) == ToLower(s)[j..]
    ensures forall i :: 0 <= i < |s| ==> (ToLower(s)[i] == '.' <==> s[i] == '.')
  {
  }

  /** A file name has extension `t` (a text without dots) exactly when the
      lower-cased name is `t` itself or ends in `.t`. */
  lemma ExtensionSpec(fileName: string, t: string)
    requires '.' !in t
    ensures Extension(fileName) == t <==>
      (ToLower(fileName) == t || EndsWith(ToLower(fileName), "." + t))
  {
    if Extension(fileName) == t {
      ExtensionForward(fileName, t);
    }
    if ToLower(fileName) == t || EndsWith(ToLower(fileName), "." + t) {
      ExtensionBackward(fileName, t);
    }
  }

  lemma ExtensionForward(fileName: string, t: string)
    requires Extension(fileName) == t
    ensures ToLower(fileName) == t || EndsWith(ToLower(fileName), "." + t)
  {
    var p := Split(fileName, '.');
    var last := p[|p| - 1];
    LastPiece(fileName, '.');
    var n, l := |fileName|, ToLower(fileName);
    ToLowerSuffix(fileName, n - |last|);
    if |last| < n {
      assert l[n - |last| - 1] == '.';
      assert l[n - |last| - 1..] == "." + t;
    } else {
      assert last == fileName;
    }
  }

  lemma ExtensionBackward(fileName: string, t: string)
    requires '.' !in t
    requires ToLower(fileName) == t || EndsWith(ToLower(fileName), "." + t)
    ensures Extension(fileName) == t
  {
    var p := Split(fileName, '.');
    var last := p[|p| - 1];
    LastPiece(fileName, '.');
    var n, l, m := |fileName|, ToLower(fileName), |t|;
    ToLowerSuffix(fileName, 0);
    if l == t {
      assert '.' !in fileName by {
        forall i | 0 <= i < n ensures fileName[i] != '.' { assert l[i] == t[i]; }
      }
      assert last == fileName;
    } else {
      assert l[n - m - 1] == '.' && l[n - m..] == t;
      assert fileName[n - m - 1] == '.';
      assert |last| == m;
      ToLowerSuffix(fileName, n - m);
    }
  }

  /** The cover check in plain terms: the name, in lower case, is `jpg` or
      `jpeg` itself, or ends in `.jpg` or `.jpeg`. */
  lemma IsJpegNameSpec(fileName: string)
    ensures IsJpegName(fileName) <==>
      var l := ToLower(fileName);
      l == "jpg" || l == "jpeg" || EndsWith(l, ".jpg") || EndsWith(l, ".jpeg")
  {
    assert "." + "jpg" == ".jpg" && "." + "jpeg" == ".jpeg";
    ExtensionSpec(fileName, "jpg");
    ExtensionSpec(fileName, "jpeg");
  }
}
