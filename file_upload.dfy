/** The upload form: which files it accepts and as what format, the title it suggests from
    the file name, and what it hands to the library on submit. */
module FileUpload {
  import opened Wrappers
  import opened JsString
  import opened Books

  // ---------------------------------------------------------------- format detection

  /** The MIME types the form accepts without looking at the file name. */
  const MimeTypes: set<string> := {"application/epub+zip", "application/pdf", "text/markdown", "text/plain"}

  /** The extensions the form accepts when the MIME type is not one of `MimeTypes`. */
  const Extensions: set<string> := {"epub", "pdf", "md", "markdown"}

  /** The `acceptedFormats` table, keyed by MIME type. */
  function AcceptedMime(mime: string): (r: Option<Format>)
    ensures r.Some? <==> mime in MimeTypes
    ensures r == Some(Md) <==> mime == "text/markdown" || mime == "text/plain"
  {
    if mime == "application/epub+zip" then Some(Epub)
    else if mime == "application/pdf" then Some(Pdf)
    else if mime == "text/markdown" || mime == "text/plain" then Some(Md)
    else None
  }

  /** The `switch` on the extension. */
  function ExtensionFormat(ext: string): (r: Option<Format>)
    ensures r.Some? <==> ext in Extensions
  {
    if ext == "epub" then Some(Epub)
    else if ext == "pdf" then Some(Pdf)
    else if ext == "md" || ext == "markdown" then Some(Md)
    else None
  }

  /** `getFileFormat`: a recognised MIME type decides, otherwise the extension does;
      `null` (here `None`) when neither is recognised. */
  function GetFileFormat(file: FileInfo): (r: Option<Format>)
    ensures file.mime in MimeTypes ==> r == AcceptedMime(file.mime)
    ensures file.mime !in MimeTypes ==> (r.Some? <==> Extension(file.name) in Extensions)
  {
    var byMime := AcceptedMime(file.mime);
    if byMime.Some? then byMime else ExtensionFormat(Extension(file.name))
  }

  lemma ExtensionSuffix(name: string, e: string)
    requires '.' in name && '.' !in e
    ensures Extension(name) == e <==> EndsWith(Lower(name), "." + e)
  {
    ExtensionIs(name, e);
  }

  lemma ExtensionEpub(name: string)
    requires '.' in name
    ensures Extension(name) == "epub" <==> EndsWith(Lower(name), ".epub")
  {
    assert "." + "epub" == ".epub";
    ExtensionSuffix(name, "epub");
  }

  lemma ExtensionPdf(name: string)
    requires '.' in name
    ensures Extension(name) == "pdf" <==> EndsWith(Lower(name), ".pdf")
  {
    assert "." + "pdf" == ".pdf";
    ExtensionSuffix(name, "pdf");
  }

  lemma ExtensionMd(name: string)
    requires '.' in name
    ensures Extension(name) == "md" <==> EndsWith(Lower(name), ".md")
  {
    assert "." + "md" == ".md";
    ExtensionSuffix(name, "md");
  }

  lemma ExtensionMarkdown(name: string)
    requires '.' in name
    ensures Extension(name) == "markdown" <==> EndsWith(Lower(name), ".markdown")
  {
    assert "." + "markdown" == ".markdown";
    ExtensionSuffix(name, "markdown");
  }

  /** Without a recognised MIME type, a name with a dot is classified by what follows its
      last dot, case-insensitively: `.epub`, `.pdf`, `.md` or `.markdown`; anything else,
      `.txt` included, is rejected. */
  lemma FormatBySuffix(file: FileInfo)
    requires AcceptedMime(file.mime) == None && '.' in file.name
    ensures var l := Lower(file.name);
      && (GetFileFormat(file) == Some(Epub) <==> EndsWith(l, ".epub"))
      && (GetFileFormat(file) == Some(Pdf) <==> EndsWith(l, ".pdf"))
      && (GetFileFormat(file) == Some(Md) <==> EndsWith(l, ".md") || EndsWith(l, ".markdown"))
      && (GetFileFormat(file) == None <==>
            !EndsWith(l, ".epub") && !EndsWith(l, ".pdf")
            && !EndsWith(l, ".md") && !EndsWith(l, ".markdown"))
  {
    var ext := Extension(file.name);
    assert GetFileFormat(file) == ExtensionFormat(ext);
    ExtensionEpub(file.name);
    ExtensionPdf(file.name);
    ExtensionMd(file.name);
    ExtensionMarkdown(file.name);
  }

  /** A name without a dot is its own extension: a file called `pdf` counts as a PDF. */
  lemma DotlessNameIsExtension(file: FileInfo)
    requires AcceptedMime(file.mime) == None && '.' !in file.name
    ensures GetFileFormat(file) == ExtensionFormat(Lower(file.name))
  {
  }

  /** Detection does not depend on the case of the file name. */
  lemma FormatIgnoresCase(file: FileInfo)
    ensures GetFileFormat(file) == GetFileFormat(file.(name := Lower(file.name)))
  {
    LowerIdempotent(file.name);
  }

  // ---------------------------------------------------------------- suggested title

  /** The lower-cased endings that `/\.(epub|pdf|md|markdown)$/i` matches. */
  const BookSuffixes: set<string> := {".epub", ".pdf", ".md", ".markdown"}

  /** `fileName.replace(/\.(epub|pdf|md|markdown)$/i, '')`: the name with one trailing
      book extension removed, in any letter case; any other name unchanged. */
  function SuggestedTitle(name: string): (r: string)
    ensures r <= name
    ensures r != name ==> Lower(name)[|r|..] in BookSuffixes
    ensures r == name ==> forall e :: e in BookSuffixes ==> !EndsWith(Lower(name), e)
  {
    StripBySuffix(name, Lower(name))
  }

  /** The replacement, given the lower-cased name `l` that the case-insensitive match looks
      at. */
  function StripBySuffix(name: string, l: string): (r: string)
    requires |l| == |name|
    ensures r <= name
    ensures r != name ==> l[|r|..] in BookSuffixes
    ensures r == name ==> forall e :: e in BookSuffixes ==> !EndsWith(l, e)
  {
    if EndsWith(l, ".epub") then name[..|name| - 5]
    else if EndsWith(l, ".pdf") then name[..|name| - 4]
    else if EndsWith(l, ".md") then name[..|name| - 3]
    else if EndsWith(l, ".markdown") then name[..|name| - 9]
    else name
  }

  lemma LowerAppend(a: string, b: string)
    ensures Lower(a + b) == Lower(a) + Lower(b)
  {
    assert forall i :: 0 <= i < |a| ==> (a + b)[i] == a[i];
    assert forall i :: |a| <= i < |a + b| ==> (a + b)[i] == b[i - |a|];
  }

  lemma StripsEpub(name: string, l: string)
    requires |l| == |name| && EndsWith(l, ".epub")
    ensures StripBySuffix(name, l) == name[..|name| - 5]
  {
  }

  lemma StripsPdf(name: string, l: string)
    requires |l| == |name| && EndsWith(l, ".pdf")
    ensures StripBySuffix(name, l) == name[..|name| - 4]
  {
    EndsWithLastChar(l, ".pdf");
    if EndsWith(l, ".epub") { EndsWithLastChar(l, ".epub"); }
  }

  lemma StripsMd(name: string, l: string)
    requires |l| == |name| && EndsWith(l, ".md")
    ensures StripBySuffix(name, l) == name[..|name| - 3]
  {
    EndsWithLastChar(l, ".md");
    if EndsWith(l, ".epub") { EndsWithLastChar(l, ".epub"); }
    if EndsWith(l, ".pdf") { EndsWithLastChar(l, ".pdf"); }
  }

  lemma StripsMarkdown(name: string, l: string)
    requires |l| == |name| && EndsWith(l, ".markdown")
    ensures StripBySuffix(name, l) == name[..|name| - 9]
  {
    EndsWithLastChar(l, ".markdown");
    if EndsWith(l, ".epub") { EndsWithLastChar(l, ".epub"); }
    if EndsWith(l, ".pdf") { EndsWithLastChar(l, ".pdf"); }
    if EndsWith(l, ".md") { EndsWithLastChar(l, ".md"); }
  }

  lemma StripsSuffix(name: string, l: string, e: string)
    requires |l| == |name| && e in BookSuffixes && EndsWith(l, e)
    ensures StripBySuffix(name, l) == name[..|name| - |e|]
  {
    if e == ".epub" { StripsEpub(name, l); }
    else if e == ".pdf" { StripsPdf(name, l); }
    else if e == ".md" { StripsMd(name, l); }
    else { StripsMarkdown(name, l); }
  }

  /** Exactly one extension is removed: `Book.PDF` becomes `Book` and `a.pdf.pdf` becomes
      `a.pdf`. */
  lemma SuggestedTitleStripsOne(base: string, ext: string)
    requires Lower(ext) in BookSuffixes
    ensures SuggestedTitle(base + ext) == base
  {
    LowerAppend(base, ext);
    var l := Lower(base + ext);
    assert l[|base|..] == Lower(ext);
    StripsSuffix(base + ext, l, Lower(ext));
    assert (base + ext)[..|base|] == base;
  }

  // ---------------------------------------------------------------- the form

  /** The selected file, with the title suggested for it and its format. */
  datatype UploadedFile = UploadedFile(file: FileInfo, title: string, author: string, format: Format)

  /** A call of `onFileUpload(file, metadata)`. */
  datatype Submission = Submission(file: FileInfo, metadata: Metadata)

  /** The form's state: the selected file and the two text fields. */
  class UploadForm {
    var uploadedFile: Option<UploadedFile>
    var title: string
    var author: string

    constructor ()
      ensures uploadedFile == None && title == "" && author == ""
    {
      uploadedFile := None;
      title := "";
      author := "";
    }

    /** `handleFileSelection`: an unsupported file is rejected (the toast) and changes
        nothing; a supported one is selected with its suggested title and an empty author. */
    method SelectFile(file: FileInfo) returns (accepted: bool)
      modifies this
      ensures accepted <==> GetFileFormat(file).Some?
      ensures !accepted ==>
        uploadedFile == old(uploadedFile) && title == old(title) && author == old(author)
      ensures accepted ==>
        && uploadedFile == Some(UploadedFile(file, SuggestedTitle(file.name), "", GetFileFormat(file).value))
        && title == SuggestedTitle(file.name) && author == ""
    {
      var format := GetFileFormat(file);
      if format.None? {
        return false;
      }
      var fileName := SuggestedTitle(file.name);
      uploadedFile := Some(UploadedFile(file, fileName, "", format.value));
      title := fileName;
      author := "";
      accepted := true;
    }

    /** Typing in the title field. */
    method SetTitle(t: string)
      modifies this
      ensures title == t && uploadedFile == old(uploadedFile) && author == old(author)
    {
      title := t;
    }

    /** Typing in the author field. */
    method SetAuthor(a: string)
      modifies this
      ensures author == a && uploadedFile == old(uploadedFile) && title == old(title)
    {
      author := a;
    }

    /** The remove button: `setUploadedFile(null)`; the fields keep their text. */
    method RemoveFile()
      modifies this
      ensures uploadedFile == None && title == old(title) && author == old(author)
    {
      uploadedFile := None;
    }

    /** `handleSubmit`: forwards only with a file selected and a title that is not blank;
        the title is trimmed, and the author is trimmed or absent when blank. No content is
        forwarded. */
    method Submit() returns (s: Option<Submission>)
      ensures s.Some? <==> uploadedFile.Some? && !AllWs(title)
      ensures s.Some? ==>
        && s.value.file == uploadedFile.value.file
        && s.value.metadata.title == Trim(title) != ""
        && s.value.metadata.content == None
        && (AllWs(author) ==> s.value.metadata.author == None)
        && (!AllWs(author) ==> s.value.metadata.author == Some(Trim(author)))
    {
      var t := Trim(title);
      if uploadedFile.Some? && t != "" {
        var a := Trim(author);
        s := Some(Submission(uploadedFile.value.file, Metadata(t, if a == "" then None else Some(a), None)));
      } else {
        s := None;
      }
    }
  }
}
