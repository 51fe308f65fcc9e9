/** The reading view: pagination of a book's text into 200-word pages, the mapping between
    the progress slider and the page number, the font-size buttons, and the line-by-line
    rendering of a page into headings, bold paragraphs, paragraphs and line breaks. */
module Reader {
  import opened Wrappers
  import opened JsString
  import opened Books

  const WordsPerPage: nat := 200

  // ---------------------------------------------------------------- the text of a book

  /** The text shown when a book has no content: its title as a heading, the author when
      there is one, and a notice that the content could not be loaded. */
  function Placeholder(title: string, author: Option<string>): string {
    "\n# " + title + "\n\n"
    + (if author.Some? && author.value != "" then "**Autor:** " + author.value else "")
    + MissingContentNotice
  }

  /** The end of the placeholder: a second-level heading saying the content is not available
      and a request to upload the file again. */
  const MissingContentNotice: string :=
    "\n\n## Obsah není k dispozici\n\nNepodařilo se načíst obsah této knihy. Zkuste soubor znovu nahrát.\n  "

  /** `book.content || placeholder`: the stored content when it is a non-empty string, the
      placeholder otherwise; never empty. */
  function BookText(book: Book): (r: string)
    ensures r != ""
    ensures book.content.Some? && book.content.value != "" ==> r == book.content.value
    ensures book.content.None? || book.content.value == "" ==> EndsWith(r, MissingContentNotice)
  {
    if book.content.Some? && book.content.value != "" then book.content.value
    else Placeholder(book.title, book.author)
  }

  // ---------------------------------------------------------------- pagination

  /** `bookContent.split(' ')`: always at least one word (the empty text is one empty word). */
  function Words(text: string): (r: seq<string>)
    ensures |r| >= 1
    ensures forall i :: 0 <= i < |r| ==> ' ' !in r[i]
  {
    Split(text, ' ')
  }

  /** `Math.ceil(wordCount / 200)`: the fewest pages of 200 words that hold every word. */
  function TotalPages(wordCount: nat): (r: nat)
    ensures r * WordsPerPage >= wordCount
    ensures r > 0 ==> (r - 1) * WordsPerPage < wordCount
    ensures wordCount >= 1 ==> r >= 1
  {
    (wordCount + WordsPerPage - 1) / WordsPerPage
  }

  /** The words of page `page` (1-based): `words.slice((page-1)*200, (page-1)*200 + 200)`.
      Every page holds between 1 and 200 words and every page before the last exactly 200. */
  function PageWords(words: seq<string>, page: int): (r: seq<string>)
    requires 1 <= page <= TotalPages(|words|)
    ensures 1 <= |r| <= WordsPerPage
    ensures page < TotalPages(|words|) ==> |r| == WordsPerPage
    ensures (page - 1) * WordsPerPage + |r| <= |words|
    ensures page == TotalPages(|words|) ==> (page - 1) * WordsPerPage + |r| == |words|
    ensures forall k :: 0 <= k < |r| ==> r[k] == words[(page - 1) * WordsPerPage + k]
  {
    var start := (page - 1) * WordsPerPage;
    var end := if start + WordsPerPage < |words| then start + WordsPerPage else |words|;
    words[start..end]
  }

  /** `getCurrentPageContent`: the words of the page rejoined with single spaces. */
  function PageContent(words: seq<string>, page: int): (r: string)
    requires 1 <= page <= TotalPages(|words|)
    ensures (forall i :: 0 <= i < |words| ==> ' ' !in words[i]) ==>
      Split(r, ' ') == PageWords(words, page)
  {
    var ws := PageWords(words, page);
    if forall i :: 0 <= i < |words| ==> ' ' !in words[i] then
      assert forall k :: 0 <= k < |ws| ==> ' ' !in ws[k];
      SplitJoin(ws, ' ');
      Join(ws, ' ')
    else Join(ws, ' ')
  }

  /** The contents of pages 1 to the last, in order. */
  function AllPages(words: seq<string>): (r: seq<string>)
    ensures |r| == TotalPages(|words|)
  {
    seq(TotalPages(|words|), i requires 0 <= i < TotalPages(|words|) => PageContent(words, i + 1))
  }

  /** The first pages of `words` are the pages of the words they hold. */
  lemma FrontPages(words: seq<string>, n: nat)
    requires n == TotalPages(|words|) >= 2
    ensures TotalPages((n - 1) * WordsPerPage) == n - 1
    ensures AllPages(words)[..n - 1] == AllPages(words[..(n - 1) * WordsPerPage])
  {
    var k := (n - 1) * WordsPerPage;
    var front := words[..k];
    assert TotalPages(|front|) == n - 1;
    forall p | 1 <= p <= n - 1
      ensures PageWords(front, p) == PageWords(words, p)
    {
      assert (p - 1) * WordsPerPage + WordsPerPage <= k;
    }
  }

  /** The last page holds the words after the full pages. */
  lemma LastPage(words: seq<string>, n: nat)
    requires n == TotalPages(|words|) >= 1
    ensures AllPages(words)[n - 1] == Join(words[(n - 1) * WordsPerPage..], ' ')
  {
    assert PageWords(words, n) == words[(n - 1) * WordsPerPage..];
  }

  /** Joining the pages with single spaces gives back the joined words: no word is lost or
      repeated at a page boundary. */
  lemma {:induction false} AllPagesJoin(words: seq<string>)
    requires |words| >= 1
    ensures Join(AllPages(words), ' ') == Join(words, ' ')
    decreases |words|
  {
    var n := TotalPages(|words|);
    var pages := AllPages(words);
    LastPage(words, n);
    if n == 1 {
      assert words[0..] == words;
    } else {
      var k := (n - 1) * WordsPerPage;
      var front, back := words[..k], words[k..];
      FrontPages(words, n);
      calc {
        Join(pages, ' ');
        { JoinLast(pages, ' '); }
        Join(pages[..n - 1], ' ') + " " + pages[n - 1];
        Join(AllPages(front), ' ') + " " + Join(back, ' ');
        { AllPagesJoin(front); }
        Join(front, ' ') + " " + Join(back, ' ');
        { JoinAppend(front, back, ' '); }
        Join(front + back, ' ');
        { Rejoin(words, k); }
        Join(words, ' ');
      }
    }
  }

  /** The pages of a book's text, joined with single spaces, are exactly that text. */
  lemma PagesRoundTrip(text: string)
    ensures Join(AllPages(Words(text)), ' ') == text
  {
    AllPagesJoin(Words(text));
    JoinSplit(text, ' ');
  }

  // ---------------------------------------------------------------- progress and pages

  /** `Math.min(Math.floor((progress / 100) * totalPages) + 1, totalPages)`. */
  function PageForProgress(progress: real, totalPages: nat): (r: int)
    ensures r <= totalPages
    ensures r < totalPages ==>
      (r - 1) as real <= progress / 100.0 * totalPages as real < r as real
  {
    var newPage := (progress / 100.0 * totalPages as real).Floor + 1;
    if newPage < totalPages then newPage else totalPages
  }

  /** `((page - 1) / totalPages) * 100`. */
  function ProgressForPage(page: int, totalPages: nat): (r: real)
    requires totalPages >= 1
    ensures r == 0.0 <==> page == 1
    ensures r > 0.0 <==> page > 1
  {
    ((page - 1) as real / totalPages as real) * 100.0
  }

  lemma ProductNonNegative(a: real, b: real)
    requires a >= 0.0 && b >= 0.0
    ensures a * b >= 0.0
  {
  }

  /** A slider value in range selects a page that exists. */
  lemma PageForProgressInRange(progress: real, totalPages: nat)
    requires 0.0 <= progress && totalPages >= 1
    ensures 1 <= PageForProgress(progress, totalPages) <= totalPages
  {
    ProductNonNegative(progress / 100.0, totalPages as real);
  }

  /** Moving the slider forward never moves to an earlier page. */
  lemma PageForProgressMonotone(p1: real, p2: real, totalPages: nat)
    requires 0.0 <= p1 <= p2
    ensures PageForProgress(p1, totalPages) <= PageForProgress(p2, totalPages)
  {
    ProductNonNegative(p2 / 100.0 - p1 / 100.0, totalPages as real);
    assert p1 / 100.0 * totalPages as real <= p2 / 100.0 * totalPages as real;
  }

  /** The end of the slider is the last page. */
  lemma PageForFullProgress(totalPages: nat)
    ensures PageForProgress(100.0, totalPages) == totalPages
  {
    assert 100.0 / 100.0 * totalPages as real == totalPages as real;
  }

  /** The progress of a page starts at 0 for the first page and stays below 100. */
  lemma ProgressForPageInRange(page: int, totalPages: nat)
    requires 1 <= page <= totalPages
    ensures 0.0 <= ProgressForPage(page, totalPages) < 100.0
    ensures page == 1 ==> ProgressForPage(page, totalPages) == 0.0
  {
    var q := (page - 1) as real / totalPages as real;
    assert q * totalPages as real == (page - 1) as real;
    assert q < 1.0;
  }

  /** Converting a page to progress and back gives the page again (in exact arithmetic). */
  lemma PageProgressRoundTrip(page: int, totalPages: nat)
    requires 1 <= page <= totalPages
    ensures PageForProgress(ProgressForPage(page, totalPages), totalPages) == page
  {
    var q := (page - 1) as real / totalPages as real;
    assert q * 100.0 / 100.0 == q;
    assert q * totalPages as real == (page - 1) as real;
  }

  /** A 650-word text has 4 pages, and the middle of the slider opens page 3. */
  lemma HalfwayThroughFourPages()
    ensures TotalPages(650) == 4
    ensures PageForProgress(50.0, 4) == 3
  {
    assert 50.0 / 100.0 * 4 as real == 2.0;
  }

  /** The other direction is not exact: a slider value is rounded down to the start of the
      page it falls in, so the page's progress is at most the value and the next page's
      progress is above it. */
  lemma ProgressWithinPage(progress: real, totalPages: nat)
    requires 0.0 <= progress <= 100.0 && totalPages >= 1
    ensures var page := PageForProgress(progress, totalPages);
      ProgressForPage(page, totalPages) <= progress
      && (progress < 100.0 ==> progress < ProgressForPage(page + 1, totalPages))
  {
    PageStartBelow(progress, totalPages);
    if progress < 100.0 {
      NextPageStartAbove(progress, totalPages);
    }
  }

  lemma PageStartBelow(progress: real, totalPages: nat)
    requires 0.0 <= progress && totalPages >= 1
    ensures ProgressForPage(PageForProgress(progress, totalPages), totalPages) <= progress
  {
    var t := totalPages as real;
    var x := progress / 100.0 * t;
    var page := PageForProgress(progress, totalPages);
    PageForProgressInRange(progress, totalPages);
    assert (page - 1) as real <= x by {
      assert x.Floor as real <= x;
    }
    DivideMonotone((page - 1) as real, x, t);
    ScaleBack(progress, t);
  }

  lemma NextPageStartAbove(progress: real, totalPages: nat)
    requires 0.0 <= progress < 100.0 && totalPages >= 1
    ensures progress < ProgressForPage(PageForProgress(progress, totalPages) + 1, totalPages)
  {
    var t := totalPages as real;
    var x := progress / 100.0 * t;
    var page := PageForProgress(progress, totalPages);
    BelowNextPage(progress, totalPages);
    DivideStrictMonotone(x, page as real, t);
    ScaleBack(progress, t);
  }

  /** The slider position, counted in pages, lies before the end of the page it selects. */
  lemma BelowNextPage(progress: real, totalPages: nat)
    requires 0.0 <= progress < 100.0 && totalPages >= 1
    ensures progress / 100.0 * totalPages as real < PageForProgress(progress, totalPages) as real
  {
    var t := totalPages as real;
    var x := progress / 100.0 * t;
    var page := PageForProgress(progress, totalPages);
    if page == totalPages {
      ScaleBelow(progress, t);
      BelowEqual(x, t, page as real);
    } else {
      assert page == x.Floor + 1;
      assert x < x.Floor as real + 1.0;
    }
  }

  lemma BelowEqual(x: real, t: real, p: real)
    requires x < t && p == t
    ensures x < p
  {
  }

  lemma ScaleBack(v: real, t: real)
    requires t > 0.0
    ensures v / 100.0 * t / t * 100.0 == v
  {
  }

  lemma ScaleBelow(v: real, t: real)
    requires v < 100.0 && t > 0.0
    ensures v / 100.0 * t < t
  {
  }

  lemma DivideMonotone(a: real, b: real, t: real)
    requires a <= b && t > 0.0
    ensures a / t * 100.0 <= b / t * 100.0
  {
  }

  lemma DivideStrictMonotone(a: real, b: real, t: real)
    requires a < b && t > 0.0
    ensures a / t * 100.0 < b / t * 100.0
  {
  }

  // ---------------------------------------------------------------- rendering a page

  /** What one line of a page becomes in the rendered page. */
  datatype Fragment =
    | Heading1(text: string)
    | Heading2(text: string)
    | BoldParagraph(text: string)
    | Paragraph(text: string)
    | LineBreak

  /** `line.slice(2, -2)`: the line without its first and last two characters, empty when
      the line is shorter than four characters. */
  function BoldInner(line: string): string {
    if |line| >= 4 then line[2..|line| - 2] else ""
  }

  /** The first rule that applies decides: `# ` heading, `## ` heading, a line between
      `**` and `**`, a line with some non-blank character, otherwise a line break. */
  function Classify(line: string): (r: Fragment)
    ensures r.LineBreak? ==> AllWs(line)
    ensures r.Paragraph? ==> r.text == line && !AllWs(line)
  {
    if StartsWith(line, "# ") then Heading1(line[2..])
    else if StartsWith(line, "## ") then Heading2(line[3..])
    else if StartsWith(line, "**") && EndsWith(line, "**") then BoldParagraph(BoldInner(line))
    else if Trim(line) != "" then Paragraph(line)
    else LineBreak
  }

  /** The markup a fragment is written with. */
  function LineOf(f: Fragment): string {
    match f
    case Heading1(t) => "# " + t
    case Heading2(t) => "## " + t
    case BoldParagraph(t) => "**" + t + "**"
    case Paragraph(t) => t
    case LineBreak => ""
  }

  /** A paragraph whose text no earlier rule would claim. */
  predicate WellFormed(f: Fragment) {
    f.Paragraph? ==>
      && !StartsWith(f.text, "# ") && !StartsWith(f.text, "## ")
      && !(StartsWith(f.text, "**") && EndsWith(f.text, "**"))
      && !AllWs(f.text)
  }

  /** Which fragment a line becomes, case by case. */
  lemma ClassifyCases(line: string)
    ensures Classify(line).Heading1? <==> StartsWith(line, "# ")
    ensures Classify(line).Heading2? <==> StartsWith(line, "## ")
    ensures Classify(line).BoldParagraph? <==> StartsWith(line, "**") && EndsWith(line, "**")
    ensures Classify(line).Paragraph? <==>
      !StartsWith(line, "# ") && !StartsWith(line, "## ")
      && !(StartsWith(line, "**") && EndsWith(line, "**")) && !AllWs(line)
    ensures Classify(line).LineBreak? <==>
      !StartsWith(line, "# ") && !StartsWith(line, "## ")
      && !(StartsWith(line, "**") && EndsWith(line, "**")) && AllWs(line)
  {
    if StartsWith(line, "## ") {
      assert line[1] == '#';
      assert !StartsWith(line, "# ");
    }
    if StartsWith(line, "**") {
      assert line[0] == '*';
    }
  }

  /** A fragment written out as markup is classified as that fragment again. */
  lemma ClassifyLineOf(f: Fragment)
    requires WellFormed(f)
    ensures Classify(LineOf(f)) == f
  {
    match f
    case Heading1(t) =>
      MarkerPrefix("# ", t);
    case Heading2(t) =>
      MarkerPrefix("## ", t);
      assert !StartsWith("## " + t, "# ") by {
        assert ("## " + t)[1] == '#';
      }
    case BoldParagraph(t) =>
      ClassifyBold(t);
    case Paragraph(t) =>
      ClassifyCases(t);
    case LineBreak =>
      assert AllWs("");
  }

  /** A line written as `p + t` starts with `p`, and dropping `p` gives `t` back. */
  lemma MarkerPrefix(p: string, t: string)
    ensures StartsWith(p + t, p) && (p + t)[|p|..] == t
  {
    assert (p + t)[..|p|] == p;
  }

  /** A line written as `**t**` is a bold paragraph of `t`. */
  lemma ClassifyBold(t: string)
    ensures Classify("**" + t + "**") == BoldParagraph(t)
  {
    var line := "**" + t + "**";
    assert line[0] == '*';
    assert !StartsWith(line, "# ") && !StartsWith(line, "## ");
    assert StartsWith(line, "**") && EndsWith(line, "**");
    assert line[2..|line| - 2] == t;
  }

  /** A line is recovered from its fragment, except a blank line (shown as a break) and the
      lines `**` and `***` (shown as an empty bold paragraph). */
  lemma LineOfClassify(line: string)
    ensures Classify(line).LineBreak? ==> AllWs(line)
    ensures Classify(line).BoldParagraph? && |line| < 4 ==>
      (line == "**" || line == "***") && Classify(line).text == ""
    ensures !Classify(line).LineBreak? && !(Classify(line).BoldParagraph? && |line| < 4) ==>
      LineOf(Classify(line)) == line
  {
    ClassifyCases(line);
    if StartsWith(line, "# ") {
      Rejoin(line, 2);
    } else if StartsWith(line, "## ") {
      Rejoin(line, 3);
    } else if StartsWith(line, "**") && EndsWith(line, "**") {
      if |line| >= 4 {
        assert line == line[..2] + line[2..|line| - 2] + line[|line| - 2..];
      } else {
        ShortBold(line);
      }
    }
  }

  /** A sequence is its first `n` elements followed by the rest. */
  lemma Rejoin<T>(line: seq<T>, n: nat)
    requires n <= |line|
    ensures line[..n] + line[n..] == line
  {
  }

  /** The only lines shorter than four characters that start and end with `**`. */
  lemma ShortBold(line: string)
    requires |line| < 4 && StartsWith(line, "**") && EndsWith(line, "**")
    ensures line == "**" || line == "***"
  {
    assert line[..2] == "**" && line[|line| - 2..] == "**";
    if |line| == 3 {
      assert line[1] == '*';
      assert line == "***";
    } else {
      assert line == "**";
    }
  }

  /** `content.split('\n').map(...)`: one fragment for every line of the page, in order. */
  function Render(content: string): (r: seq<Fragment>)
    ensures |r| == |Split(content, '\n')| >= 1
    ensures forall i :: 0 <= i < |r| ==> r[i] == Classify(Split(content, '\n')[i])
  {
    var lines := Split(content, '\n');
    seq(|lines|, i requires 0 <= i < |lines| => Classify(lines[i]))
  }

  // ---------------------------------------------------------------- the reading session

  const MinFontSize: int := 12
  const MaxFontSize: int := 24
  const DefaultFontSize: int := 16

  /** A call of `onProgressUpdate(bookId, progress)`. */
  datatype ProgressUpdate = ProgressUpdate(bookId: string, progress: real)

  /** The state of the reading view for one book. */
  class ReaderState {
    const book: Book
    const words: seq<string>
    const totalPages: nat
    var progress: real
    var fontSize: int
    var isDarkMode: bool
    var currentPage: int

    /** The words are those of the book's text and the page count is theirs. */
    ghost predicate Paged() {
      && words == Words(BookText(book))
      && totalPages == TotalPages(|words|)
    }

    /** The book is paged, the page exists, the progress lies on the slider, and the font
        size is an even size between the limits. */
    ghost predicate Valid()
      reads this
    {
      && Paged()
      && 1 <= currentPage <= totalPages
      && 0.0 <= progress <= 100.0
      && MinFontSize <= fontSize <= MaxFontSize && fontSize % 2 == 0
    }

    /** The view opens at page 1 with progress 0 and font size 16, in light mode. */
    constructor (book: Book)
      ensures Valid()
      ensures this.book == book
      ensures currentPage == 1 && progress == 0.0 && fontSize == DefaultFontSize && !isDarkMode
    {
      this.book := book;
      var w := Words(BookText(book));
      words := w;
      totalPages := TotalPages(|w|);
      progress := 0.0;
      fontSize := DefaultFontSize;
      isDarkMode := false;
      currentPage := 1;
    }

    /** The text of the page being shown. */
    function CurrentPageContent(): string
      reads this
      requires Valid()
    {
      PageContent(words, currentPage)
    }

    /** `handleProgressChange`: the slider value becomes the progress, is reported, and
        selects the page it falls in. */
    method ProgressChange(value: real) returns (update: ProgressUpdate)
      requires Valid()
      requires 0.0 <= value <= 100.0
      modifies this
      ensures Valid()
      ensures progress == value && currentPage == PageForProgress(value, totalPages)
      ensures update == ProgressUpdate(book.id, value)
      ensures fontSize == old(fontSize) && isDarkMode == old(isDarkMode)
    {
      progress := value;
      update := ProgressUpdate(book.id, value);
      PageForProgressInRange(value, totalPages);
      currentPage := PageForProgress(value, totalPages);
    }

    /** `handlePageChange`: a page that exists becomes the current page, its progress the
        progress, and that progress is reported; any other page number changes nothing and
        reports nothing. */
    method PageChange(newPage: int) returns (update: Option<ProgressUpdate>)
      requires Valid()
      modifies this
      ensures Valid()
      ensures 1 <= newPage <= totalPages ==>
        && currentPage == newPage
        && progress == ProgressForPage(newPage, totalPages)
        && update == Some(ProgressUpdate(book.id, progress))
      ensures !(1 <= newPage <= totalPages) ==>
        currentPage == old(currentPage) && progress == old(progress) && update == None
      ensures fontSize == old(fontSize) && isDarkMode == old(isDarkMode)
    {
      if newPage >= 1 && newPage <= totalPages {
        currentPage := newPage;
        var newProgress := ProgressForPage(newPage, totalPages);
        ProgressForPageInRange(newPage, totalPages);
        progress := newProgress;
        update := Some(ProgressUpdate(book.id, newProgress));
      } else {
        update := None;
      }
    }

    /** The "previous page" button: `handlePageChange(currentPage - 1)`; on page 1 nothing
        changes. */
    method PreviousPage() returns (update: Option<ProgressUpdate>)
      requires Valid()
      modifies this
      ensures Valid()
      ensures old(currentPage) > 1 ==>
        && currentPage == old(currentPage) - 1
        && progress == ProgressForPage(currentPage, totalPages)
        && update == Some(ProgressUpdate(book.id, progress))
      ensures old(currentPage) == 1 ==>
        currentPage == 1 && progress == old(progress) && update == None
      ensures fontSize == old(fontSize) && isDarkMode == old(isDarkMode)
    {
      update := PageChange(currentPage - 1);
    }

    /** The "next page" button: `handlePageChange(currentPage + 1)`; on the last page
        nothing changes. */
    method NextPage() returns (update: Option<ProgressUpdate>)
      requires Valid()
      modifies this
      ensures Valid()
      ensures old(currentPage) < totalPages ==>
        && currentPage == old(currentPage) + 1
        && progress == ProgressForPage(currentPage, totalPages)
        && update == Some(ProgressUpdate(book.id, progress))
      ensures old(currentPage) == totalPages ==>
        currentPage == totalPages && progress == old(progress) && update == None
      ensures fontSize == old(fontSize) && isDarkMode == old(isDarkMode)
    {
      update := PageChange(currentPage + 1);
    }

    /** The minus button: `Math.max(12, fontSize - 2)`. */
    method DecreaseFont()
      requires Valid()
      modifies this
      ensures Valid()
      ensures fontSize == if old(fontSize) - 2 < MinFontSize then MinFontSize else old(fontSize) - 2
      ensures fontSize <= old(fontSize)
      ensures currentPage == old(currentPage) && progress == old(progress)
      ensures isDarkMode == old(isDarkMode)
    {
      fontSize := if fontSize - 2 < MinFontSize then MinFontSize else fontSize - 2;
    }

    /** The plus button: `Math.min(24, fontSize + 2)`. */
    method IncreaseFont()
      requires Valid()
      modifies this
      ensures Valid()
      ensures fontSize == if old(fontSize) + 2 > MaxFontSize then MaxFontSize else old(fontSize) + 2
      ensures fontSize >= old(fontSize)
      ensures currentPage == old(currentPage) && progress == old(progress)
      ensures isDarkMode == old(isDarkMode)
    {
      fontSize := if fontSize + 2 > MaxFontSize then MaxFontSize else fontSize + 2;
    }

    /** The theme button switches between light and dark mode. */
    method ToggleDarkMode()
      requires Valid()
      modifies this
      ensures Valid()
      ensures isDarkMode == !old(isDarkMode)
      ensures fontSize == old(fontSize) && currentPage == old(currentPage) && progress == old(progress)
    {
      isDarkMode := !isDarkMode;
    }
  }
}
