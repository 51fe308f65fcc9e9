/** The page that owns the shelf: which view is showing, which book is open, and the
    handlers that add, update and delete books. */
module Index {
  import opened Wrappers
  import opened JsString
  import opened JsArray
  import opened Books
  import FileUpload

  /** `currentView`. */
  datatype View = LibraryView | ReaderView | UploadView

  // ---------------------------------------------------------------- record format

  /** The format a new record gets: `.epub` or `.pdf` at the end of the lower-cased name,
      anything else Markdown. */
  function RecordFormat(name: string): (f: Format)
    ensures f == Epub <==> EndsWith(Lower(name), ".epub")
    ensures f == Pdf <==> EndsWith(Lower(name), ".pdf")
    ensures f == Md <==> !EndsWith(Lower(name), ".epub") && !EndsWith(Lower(name), ".pdf")
  {
    EpubPdfExclusive(Lower(name));
    var l := Lower(name);
    if EndsWith(l, ".epub") then Epub else if EndsWith(l, ".pdf") then Pdf else Md
  }

  /** No name ends with both `.epub` and `.pdf`. */
  lemma EpubPdfExclusive(l: string)
    ensures !(EndsWith(l, ".epub") && EndsWith(l, ".pdf"))
  {
    if EndsWith(l, ".epub") && EndsWith(l, ".pdf") {
      EndsWithLastChar(l, ".epub");
      EndsWithLastChar(l, ".pdf");
    }
  }

  /** For a file the upload form accepted by its extension, the record gets the format the
      form detected. */
  lemma RecordFormatAgrees(file: FileInfo)
    requires FileUpload.AcceptedMime(file.mime) == None && '.' in file.name
    requires FileUpload.GetFileFormat(file).Some?
    ensures RecordFormat(file.name) == FileUpload.GetFileFormat(file).value
  {
    FileUpload.FormatBySuffix(file);
  }

  /** The form and the record disagree when the MIME type decides: a `.pdf` file that the
      browser calls `text/plain` is accepted as Markdown but recorded as a PDF. */
  lemma MimeAndRecordDisagree()
    ensures var file := FileInfo("a.pdf", "text/plain");
      FileUpload.GetFileFormat(file) == Some(Md) && RecordFormat(file.name) == Pdf
  {
    var l := Lower("a.pdf");
    assert l == "a.pdf";
    assert EndsWith(l, ".pdf");
  }

  /** The form and the record also disagree on a dot-free name: a file called `pdf` without
      a MIME type is accepted as a PDF but recorded as Markdown. */
  lemma DotlessNameDisagrees()
    ensures var file := FileInfo("pdf", "");
      FileUpload.GetFileFormat(file) == Some(Pdf) && RecordFormat(file.name) == Md
  {
    var l := Lower("pdf");
    assert l == "pdf";
    FileUpload.DotlessNameIsExtension(FileInfo("pdf", ""));
  }

  // ---------------------------------------------------------------- shelf updates

  /** `newBook`: the record built from the uploaded file and the form's metadata; the id, the
      time and the object URL are supplied by the caller. */
  function NewBook(file: FileInfo, meta: Metadata, id: string, now: Time, url: string): (r: Book)
    ensures r.id == id && r.title == meta.title && r.author == meta.author
    ensures r.progress == Some(0.0) && r.lastRead == Some(now) && r.coverUrl == None
    ensures r.content == meta.content && r.filePath == Some(url)
    ensures r.format == Epub <==> EndsWith(Lower(file.name), ".epub")
    ensures r.format == Pdf <==> EndsWith(Lower(file.name), ".pdf")
  {
    Book(id, meta.title, meta.author, RecordFormat(file.name), Some(now), Some(0.0), None,
      meta.content, Some(url))
  }

  /** `handleProgressUpdate`'s map: every book with the id gets the new progress and time,
      every other field and every other book stays as it was. */
  function WithProgress(books: seq<Book>, id: string, p: real, now: Time): (r: seq<Book>)
    ensures |r| == |books|
    ensures forall i :: 0 <= i < |books| && books[i].id != id ==> r[i] == books[i]
    ensures forall i :: 0 <= i < |books| && books[i].id == id ==>
      && r[i].progress == Some(p) && r[i].lastRead == Some(now)
      && r[i].(progress := books[i].progress, lastRead := books[i].lastRead) == books[i]
  {
    seq(|books|, i requires 0 <= i < |books| =>
      if books[i].id == id then books[i].(progress := Some(p), lastRead := Some(now)) else books[i])
  }

  /** The test `book.id !== bookId`. */
  function NotId(id: string): Book -> bool {
    (b: Book) => b.id != id
  }

  /** `handleDeleteBook`'s filter: every book with the id goes, the rest stay in order. */
  function WithoutBook(books: seq<Book>, id: string): (r: seq<Book>)
    ensures IsSubsequence(r, books)
    ensures forall i :: 0 <= i < |r| ==> r[i].id != id
    ensures forall i :: 0 <= i < |books| ==> (books[i] in r <==> books[i].id != id)
    ensures forall b :: multiset(r)[b] == if b.id != id then multiset(books)[b] else 0
  {
    FilterIsSubsequence(books, NotId(id));
    FilterMultiset(books, NotId(id));
    Filter(books, NotId(id))
  }

  /** No book carries the id. */
  predicate Absent(books: seq<Book>, id: string) {
    forall i :: 0 <= i < |books| ==> books[i].id != id
  }

  /** Updating the progress of an id no book carries changes nothing. */
  lemma WithProgressAbsent(books: seq<Book>, id: string, p: real, now: Time)
    requires Absent(books, id)
    ensures WithProgress(books, id, p, now) == books
  {
  }

  /** Deleting an id no book carries changes nothing. */
  lemma WithoutAbsent(books: seq<Book>, id: string)
    requires Absent(books, id)
    ensures WithoutBook(books, id) == books
  {
    FilterAll(books, NotId(id));
  }

  /** A later progress update of the same id overrides an earlier one. */
  lemma WithProgressOverrides(books: seq<Book>, id: string, p1: real, t1: Time, p2: real, t2: Time)
    ensures WithProgress(WithProgress(books, id, p1, t1), id, p2, t2) == WithProgress(books, id, p2, t2)
  {
  }

  /** After a delete the id is gone, and deleting it again changes nothing. */
  lemma WithoutBookIdempotent(books: seq<Book>, id: string)
    ensures Absent(WithoutBook(books, id), id)
    ensures WithoutBook(WithoutBook(books, id), id) == WithoutBook(books, id)
  {
    WithoutAbsent(WithoutBook(books, id), id);
  }

  /** Deleting a book discards any progress recorded for it. */
  lemma {:induction false} DeleteAfterUpdate(books: seq<Book>, id: string, p: real, now: Time)
    ensures WithoutBook(WithProgress(books, id, p, now), id) == WithoutBook(books, id)
    decreases |books|
  {
    if books != [] {
      DeleteAfterUpdate(books[1..], id, p, now);
      assert WithProgress(books, id, p, now)[1..] == WithProgress(books[1..], id, p, now);
    }
  }

  /** Every recorded progress is a percentage. */
  predicate ProgressBounded(books: seq<Book>) {
    forall i :: 0 <= i < |books| && books[i].progress.Some? ==>
      0.0 <= books[i].progress.value <= 100.0
  }

  /** Uploading, updating with a percentage and deleting keep every progress a percentage. */
  lemma ProgressStaysBounded(books: seq<Book>, b: Book, id: string, p: real, now: Time)
    requires ProgressBounded(books)
    requires b.progress == Some(0.0) && 0.0 <= p <= 100.0
    ensures ProgressBounded([b] + books)
    ensures ProgressBounded(WithProgress(books, id, p, now))
    ensures ProgressBounded(WithoutBook(books, id))
  {
    var r := WithoutBook(books, id);
    forall i | 0 <= i < |r| && r[i].progress.Some?
      ensures 0.0 <= r[i].progress.value <= 100.0
    {
      var j :| 0 <= j < |books| && books[j] == r[i];
    }
  }

  // ---------------------------------------------------------------- the page

  /** The page's state: the shelf, the view and the open book. */
  class IndexPage {
    var books: seq<Book>
    var currentView: View
    var selectedBook: Option<Book>

    /** The reader view always has a book to show. */
    ghost predicate Valid()
      reads this
    {
      currentView == ReaderView ==> selectedBook.Some?
    }

    /** The page opens on the library with no book selected. */
    constructor (initial: seq<Book>)
      ensures Valid()
      ensures books == initial && currentView == LibraryView && selectedBook == None
    {
      books := initial;
      currentView := LibraryView;
      selectedBook := None;
    }

    /** `handleBookSelect`: open the book in the reader. */
    method SelectBook(book: Book)
      modifies this
      ensures Valid()
      ensures selectedBook == Some(book) && currentView == ReaderView && books == old(books)
    {
      selectedBook := Some(book);
      currentView := ReaderView;
    }

    /** `handleAddBook`: show the upload form. */
    method AddBook()
      modifies this
      ensures Valid()
      ensures currentView == UploadView && books == old(books) && selectedBook == old(selectedBook)
    {
      currentView := UploadView;
    }

    /** `handleFileUpload`: put the new record first and return to the library. */
    method UploadBook(file: FileInfo, meta: Metadata, id: string, now: Time, url: string)
      modifies this
      ensures Valid()
      ensures books == [NewBook(file, meta, id, now, url)] + old(books)
      ensures books[0].title == meta.title && books[0].author == meta.author
      ensures books[0].progress == Some(0.0) && books[1..] == old(books)
      ensures currentView == LibraryView && selectedBook == old(selectedBook)
    {
      books := [NewBook(file, meta, id, now, url)] + books;
      currentView := LibraryView;
    }

    /** `handleProgressUpdate`: record the reader's progress; the view stays. */
    method UpdateProgress(id: string, p: real, now: Time)
      modifies this
      requires Valid()
      ensures Valid()
      ensures books == WithProgress(old(books), id, p, now)
      ensures currentView == old(currentView) && selectedBook == old(selectedBook)
    {
      books := WithProgress(books, id, p, now);
    }

    /** `handleBackToLibrary`: close the reader. */
    method BackToLibrary()
      modifies this
      ensures Valid()
      ensures currentView == LibraryView && selectedBook == None && books == old(books)
    {
      currentView := LibraryView;
      selectedBook := None;
    }

    /** `handleDeleteBook`: remove the book and return to the library. */
    method DeleteBook(id: string)
      modifies this
      ensures Valid()
      ensures books == WithoutBook(old(books), id)
      ensures currentView == LibraryView && selectedBook == None
    {
      books := WithoutBook(books, id);
      currentView := LibraryView;
      selectedBook := None;
    }

    /** `handleCloseUpload`: leave the upload form. */
    method CloseUpload()
      modifies this
      ensures Valid()
      ensures currentView == LibraryView && books == old(books) && selectedBook == old(selectedBook)
    {
      currentView := LibraryView;
    }
  }
}
