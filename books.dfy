/** The records the components pass between each other. */
module Books {
  import opened Wrappers
  import opened JsString

  /** The three formats a book record can have (`'epub' | 'pdf' | 'md'`). */
  datatype Format = Epub | Pdf | Md

  /** The string the components compare a format with. */
  function FormatName(f: Format): string {
    match f
    case Epub => "epub"
    case Pdf => "pdf"
    case Md => "md"
  }

  /** A file as the browser hands it over: its name and its declared MIME type (`file.type`,
      the empty string when the browser does not know it). */
  datatype FileInfo = FileInfo(name: string, mime: string)

  /** `name.toLowerCase().split('.').pop()`: the lower-cased text after the last dot, or the
      whole lower-cased name when it has no dot. */
  function Extension(name: string): (r: string)
    ensures '.' !in r && EndsWith(Lower(name), r)
    ensures '.' in name ==> EndsWith(Lower(name), "." + r)
    ensures '.' !in name ==> r == Lower(name)
  {
    ExtensionFacts(name);
    AfterLast(Lower(name), '.')
  }

  lemma ExtensionFacts(name: string)
    ensures var l, r := Lower(name), AfterLast(Lower(name), '.');
      && '.' !in r && EndsWith(l, r)
      && ('.' in name ==> EndsWith(l, "." + r))
      && ('.' !in name ==> r == l)
  {
    LowerKeepsDot(name);
    AfterDotFacts(Lower(name));
  }

  /** The text after the last dot of any string `l`. */
  lemma AfterDotFacts(l: string)
    ensures var r := AfterLast(l, '.');
      && '.' !in r && EndsWith(l, r)
      && ('.' in l ==> EndsWith(l, "." + r))
      && ('.' !in l ==> r == l)
  {
    AfterLastIsSuffix(l, '.');
    var r := AfterLast(l, '.');
    if '.' in l {
      assert l[|l| - |r| - 1..] == "." + r;
    } else {
      assert r == l[|l| - |r|..] == l;
    }
  }

  lemma LowerKeepsDot(s: string)
    ensures '.' in Lower(s) <==> '.' in s
  {
    var l := Lower(s);
    if '.' in s {
      var i :| 0 <= i < |s| && s[i] == '.';
      assert l[i] == '.';
    }
    if '.' in l {
      var i :| 0 <= i < |l| && l[i] == '.';
      assert s[i] == '.';
    }
  }

  /** The extension is the one suffix after a dot that holds no dot: any dot-free `e` that
      the lower-cased name ends with, after a dot, is the extension. */
  lemma ExtensionIs(name: string, e: string)
    requires '.' !in e
    ensures Extension(name) == e <==>
      EndsWith(Lower(name), "." + e) || ('.' !in name && Lower(name) == e)
  {
    LowerKeepsDot(name);
    AfterDotIs(Lower(name), e);
  }

  /** The text after the last dot of `l` is the dot-free `e` exactly when `l` ends with `.e`,
      or has no dot and is `e`. */
  lemma AfterDotIs(l: string, e: string)
    requires '.' !in e
    ensures AfterLast(l, '.') == e <==> EndsWith(l, "." + e) || ('.' !in l && l == e)
  {
    var r := AfterLast(l, '.');
    AfterLastIsSuffix(l, '.');
    if EndsWith(l, "." + e) {
      assert l[|l| - |e| - 1] == '.';
      assert r == l[|l| - |r|..] == e;
    }
  }

  /** A point in time, in milliseconds. */
  type Time = int

  /** A book record of the library; the optional fields of the record are `Option`s. */
  datatype Book = Book(
    id: string,
    title: string,
    author: Option<string>,
    format: Format,
    lastRead: Option<Time>,
    progress: Option<real>,
    coverUrl: Option<string>,
    content: Option<string>,
    filePath: Option<string>)

  /** What the upload form hands to the library together with the file. */
  datatype Metadata = Metadata(title: string, author: Option<string>, content: Option<string>)
}
