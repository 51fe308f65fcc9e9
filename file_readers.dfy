/** The readers that turn a file into book content. The parsing libraries are outside the
    model: what they yield for a file (the EPUB metadata and section texts, the PDF page
    items, the file's text) comes in as data, with `None` where the library call fails. */
module FileReaders {
  import opened Wrappers
  import opened JsString
  import opened Books
  import FileUpload

  /** `BookContent`. */
  datatype BookContent = BookContent(content: string, title: Option<string>, author: Option<string>)

  const EpubError := "Nepodařilo se načíst EPUB soubor"
  const EpubFallback := "Nepodařilo se načíst obsah EPUB souboru."
  const PdfError := "Nepodařilo se načíst PDF soubor. Zkuste jiný soubor."
  const PdfFallback := "Nepodařilo se extrahovat text z PDF souboru."
  const MarkdownError := "Nepodařilo se načíst Markdown soubor"
  const TextError := "Nepodařilo se načíst textový soubor"

  /** The error for an extension no reader handles. */
  function UnsupportedError(ext: string): string {
    "Nepodporovaný formát souboru: " + ext
  }

  /** `content.trim() || fallback`: the trimmed text, or the fallback when nothing but
      whitespace was collected. */
  function ContentOr(raw: string, fallback: string): (r: string)
    ensures fallback != "" ==> r != ""
    ensures AllWs(raw) ==> r == fallback
    ensures !AllWs(raw) ==> r == Trim(raw) && NonWs(r) == NonWs(raw)
  {
    NonWsTrim(raw);
    var t := Trim(raw);
    if t != "" then t else fallback
  }

  /** `content.trim() || fallback`, written as the readers write it. */
  lemma ContentOrIsTrim(raw: string, fallback: string)
    ensures ContentOr(raw, fallback) == if Trim(raw) != "" then Trim(raw) else fallback
  {
  }

  // ---------------------------------------------------------------- EPUB

  /** What the EPUB library yields for a file it opens: the metadata and, for each spine
      item in order, the section's text, or `None` when loading the section throws. */
  datatype EpubDocument = EpubDocument(title: Option<string>, creator: Option<string>,
    sections: seq<Option<string>>)

  /** What one spine item adds: its text and a blank line, unless it failed or is blank. */
  function SectionPiece(section: Option<string>): string {
    if section.Some? && Trim(section.value) != "" then section.value + "\n\n" else ""
  }

  /** The `content` the section loop builds. */
  function EpubText(sections: seq<Option<string>>): string {
    Concat(sections, SectionPiece)
  }

  /** `readEpubFile`, given what the library yields (`None` when opening the file, waiting
      for the book or reading its metadata or spine throws). */
  function EpubResult(doc: Option<EpubDocument>): (r: Result<BookContent, string>)
    ensures doc.None? ==> r == Failure(EpubError)
    ensures doc.Some? ==> r.Success? && r.value.content != ""
    ensures doc.Some? ==> r.value.title == doc.value.title && r.value.author == doc.value.creator
    ensures doc.Some? && AllWs(EpubText(doc.value.sections)) ==> r.value.content == EpubFallback
    ensures doc.Some? && !AllWs(EpubText(doc.value.sections)) ==>
      NonWs(r.value.content) == NonWs(EpubText(doc.value.sections))
  {
    if doc.None? then Failure(EpubError)
    else Success(BookContent(ContentOr(EpubText(doc.value.sections), EpubFallback),
      doc.value.title, doc.value.creator))
  }

  /** The section loop of `readEpubFile`. */
  method ReadEpubFile(doc: Option<EpubDocument>) returns (r: Result<BookContent, string>)
    ensures r == EpubResult(doc)
  {
    if doc.None? {
      return Failure(EpubError);
    }
    var spine := doc.value.sections;
    var content := "";
    var i := 0;
    while i < |spine|
      invariant 0 <= i <= |spine|
      invariant content == EpubText(spine[..i])
    {
      EpubStep(spine, i, content);
      var section := spine[i];
      if section.Some? {
        var sectionText := section.value;
        if Trim(sectionText) != "" {
          content := content + sectionText + "\n\n";
        }
      }
      i := i + 1;
    }
    assert spine[..i] == spine;
    var trimmed := Trim(content);
    r := Success(BookContent(if trimmed != "" then trimmed else EpubFallback,
      doc.value.title, doc.value.creator));
    ContentOrIsTrim(content, EpubFallback);
  }

  /** One turn of the section loop. */
  lemma EpubStep(spine: seq<Option<string>>, i: nat, content: string)
    requires i < |spine| && content == EpubText(spine[..i])
    ensures EpubText(spine[..i + 1]) ==
      if spine[i].Some? && Trim(spine[i].value) != "" then content + spine[i].value + "\n\n"
      else content
  {
    ConcatStep(spine, i, SectionPiece);
  }

  /** A section that fails to load, or whose text is blank, adds nothing and does not stop
      the sections after it. */
  lemma EpubSkipsSection(before: seq<Option<string>>, section: Option<string>, after: seq<Option<string>>)
    requires section.None? || AllWs(section.value)
    ensures EpubText(before + [section] + after) == EpubText(before + after)
  {
    ConcatSkip(before, section, after, SectionPiece);
  }

  /** A usable section adds its text and a blank line, between what the sections before it
      and after it add. */
  lemma EpubKeepsSection(before: seq<Option<string>>, text: string, after: seq<Option<string>>)
    requires !AllWs(text)
    ensures EpubText(before + [Some(text)] + after) == EpubText(before) + text + "\n\n" + EpubText(after)
  {
    ConcatKeep(before, Some(text), after, SectionPiece);
  }

  /** A piece is blank exactly when it is empty. */
  lemma PieceBlank(text: string, piece: string)
    requires piece == "" || (!AllWs(text) && piece == text + "\n\n")
    ensures AllWs(piece) <==> piece == ""
  {
    assert piece != "" ==> forall i :: 0 <= i < |text| ==> text[i] == piece[i];
  }

  /** The section that makes the EPUB content more than the fallback. */
  predicate Usable(section: Option<string>) {
    section.Some? && !AllWs(section.value)
  }

  /** The EPUB content is never empty: the fallback message when no section is usable, and
      otherwise the trimmed concatenation, keeping every character of the sections' texts
      that is not whitespace. */
  lemma EpubContent(doc: EpubDocument)
    ensures EpubResult(Some(doc)).Success?
    ensures var c := EpubResult(Some(doc)).value.content;
      && c != ""
      && ((forall i :: 0 <= i < |doc.sections| ==> !Usable(doc.sections[i])) ==> c == EpubFallback)
      && ((exists i :: 0 <= i < |doc.sections| && Usable(doc.sections[i])) ==>
            c == Trim(EpubText(doc.sections)) && NonWs(c) == NonWs(EpubText(doc.sections)))
  {
    var s := doc.sections;
    ConcatAllWs(s, SectionPiece);
    forall i | 0 <= i < |s|
      ensures AllWs(SectionPiece(s[i])) <==> !Usable(s[i])
    {
      PieceBlank(if s[i].Some? then s[i].value else "", SectionPiece(s[i]));
    }
  }

  // ---------------------------------------------------------------- PDF

  /** An entry of a page's text content: a text item with its `str`, or a marked-content
      marker that has none. */
  datatype PdfItem = TextItem(str: string) | MarkedContent

  /** What a page yields: its items, or `None` when getting the page or its text throws. */
  type PdfPage = Option<seq<PdfItem>>

  /** The map over the items: `str` where there is one, the empty string otherwise. */
  function ItemTexts(items: seq<PdfItem>): (r: seq<string>)
    ensures |r| == |items|
    ensures forall i :: 0 <= i < |items| ==> r[i] == (if items[i].TextItem? then items[i].str else "")
  {
    seq(|items|, i requires 0 <= i < |items| =>
      if items[i].TextItem? then items[i].str else "")
  }

  /** A page's text: the item strings joined with spaces, every whitespace run made a single
      space, and trimmed. It neither starts nor ends with whitespace, holds no two
      whitespace characters in a row and no whitespace but the plain space, and keeps every
      other character of the items, in order. */
  function PageText(items: seq<PdfItem>): (r: string)
    ensures r == [] || (!IsWs(r[0]) && !IsWs(r[|r| - 1]))
    ensures NoWsPair(r) && OnlySpaces(r)
  {
    var joined := Join(ItemTexts(items), ' ');
    var collapsed := Collapse(joined);
    var r := Trim(collapsed);
    PageTextFacts(joined, collapsed, r);
    r
  }

  /** The page text keeps every character of the items that is not whitespace, in order. */
  lemma PageTextKeepsText(items: seq<PdfItem>)
    ensures NonWs(PageText(items)) == Concat(ItemTexts(items), NonWs)
  {
    var joined := Join(ItemTexts(items), ' ');
    PageTextFacts(joined, Collapse(joined), PageText(items));
    NonWsJoin(ItemTexts(items));
  }

  /** Items whose strings are words (non-empty, without whitespace) give those words
      separated by single spaces: neighbouring items never run together. */
  lemma PageTextOfWords(items: seq<PdfItem>)
    requires forall i :: 0 <= i < |items| ==>
      items[i].TextItem? && items[i].str != [] && NoWs(items[i].str)
    ensures PageText(items) == Join(ItemTexts(items), ' ')
  {
    var ws := ItemTexts(items);
    var j := Join(ws, ' ');
    CollapseJoinWords(ws);
    TrimKeepsWord(j);
  }

  /** A string that neither starts nor ends with whitespace is its own trim. */
  lemma TrimKeepsWord(j: string)
    requires j == [] || (!IsWs(j[0]) && !IsWs(j[|j| - 1]))
    ensures Trim(j) == j
  {
    TrimStartIdempotent(j);
    TrimEndIdempotent(j);
    assert Trim(j) == TrimEnd(TrimStart(j));
  }

  /** Two words from two items stay apart: `a` and `b` become `a b`. */
  lemma TwoItemsStayApart(a: string, b: string)
    requires a != [] && NoWs(a) && b != [] && NoWs(b)
    ensures PageText([TextItem(a), TextItem(b)]) == a + " " + b
  {
    var items := [TextItem(a), TextItem(b)];
    TwoWordItems(a, b);
    PageTextOfWords(items);
    JoinTwo(a, b, ' ');
  }

  lemma TwoWordItems(a: string, b: string)
    requires a != [] && NoWs(a) && b != [] && NoWs(b)
    ensures var items := [TextItem(a), TextItem(b)];
      && ItemTexts(items) == [a, b]
      && forall i :: 0 <= i < |items| ==> items[i].TextItem? && items[i].str != [] && NoWs(items[i].str)
  {
  }

  lemma PageTextFacts(joined: string, collapsed: string, r: string)
    requires collapsed == Collapse(joined) && r == Trim(collapsed)
    ensures NoWsPair(r) && OnlySpaces(r)
    ensures NonWs(r) == NonWs(joined)
  {
    var a, b := TrimIsSlice(collapsed);
    SliceKeepsSpacing(collapsed, a, b);
    NonWsTrim(collapsed);
  }

  /** What one page adds: its text and a blank line, unless it failed or has no text. */
  function PagePiece(page: PdfPage): string {
    if page.None? then "" else TextPiece(PageText(page.value))
  }

  /** A page text and a blank line, or nothing for an empty page text. */
  function TextPiece(text: string): string {
    if text != "" then text + "\n\n" else ""
  }

  /** The `content` the page loop builds. */
  function PdfText(pages: seq<PdfPage>): string {
    Concat(pages, PagePiece)
  }

  /** `readPdfFile`, given what the library yields (`None` when opening the document
      throws); it reports no title and no author. */
  function PdfResult(doc: Option<seq<PdfPage>>): (r: Result<BookContent, string>)
    ensures doc.None? ==> r == Failure(PdfError)
    ensures doc.Some? ==> r.Success? && r.value.content != ""
    ensures doc.Some? ==> r.value.title == None && r.value.author == None
    ensures doc.Some? && AllWs(PdfText(doc.value)) ==> r.value.content == PdfFallback
    ensures doc.Some? && !AllWs(PdfText(doc.value)) ==>
      NonWs(r.value.content) == NonWs(PdfText(doc.value))
  {
    if doc.None? then Failure(PdfError)
    else Success(BookContent(ContentOr(PdfText(doc.value), PdfFallback), None, None))
  }

  /** The page loop of `readPdfFile`, over page numbers 1 to `numPages`. */
  method ReadPdfFile(doc: Option<seq<PdfPage>>) returns (r: Result<BookContent, string>)
    ensures r == PdfResult(doc)
  {
    if doc.None? {
      return Failure(PdfError);
    }
    var pages := doc.value;
    var numPages := |pages|;
    var content := "";
    var pageNum := 1;
    while pageNum <= numPages
      invariant 1 <= pageNum <= numPages + 1
      invariant content == PdfText(pages[..pageNum - 1])
    {
      PdfStep(pages, pageNum - 1, content);
      var page := pages[pageNum - 1];
      if page.Some? {
        var pageText := PageText(page.value);
        if pageText != "" {
          content := content + pageText + "\n\n";
        }
      }
      pageNum := pageNum + 1;
    }
    assert pages[..numPages] == pages;
    var trimmed := Trim(content);
    r := Success(BookContent(if trimmed != "" then trimmed else PdfFallback, None, None));
    ContentOrIsTrim(content, PdfFallback);
  }

  /** One turn of the page loop. */
  lemma PdfStep(pages: seq<PdfPage>, i: nat, content: string)
    requires i < |pages| && content == PdfText(pages[..i])
    ensures PdfText(pages[..i + 1]) ==
      if pages[i].Some? && PageText(pages[i].value) != "" then content + PageText(pages[i].value) + "\n\n"
      else content
  {
    ConcatStep(pages, i, PagePiece);
    if pages[i].Some? && PageText(pages[i].value) != "" {
      AppendRegroup(content, PageText(pages[i].value), "\n\n", "");
      assert content + PageText(pages[i].value) + "\n\n" + "" == content + PageText(pages[i].value) + "\n\n";
    }
  }

  /** A page that fails, or has no text, adds nothing and does not stop the pages after
      it. */
  lemma PdfSkipsPage(before: seq<PdfPage>, page: PdfPage, after: seq<PdfPage>)
    requires page.None? || PageText(page.value) == ""
    ensures PdfText(before + [page] + after) == PdfText(before + after)
  {
    ConcatSkip(before, page, after, PagePiece);
  }

  /** A page with text adds that text and a blank line, between the pages before and after
      it. */
  lemma PdfKeepsPage(before: seq<PdfPage>, items: seq<PdfItem>, after: seq<PdfPage>)
    requires PageText(items) != ""
    ensures PdfText(before + [Some(items)] + after) ==
      PdfText(before) + PageText(items) + "\n\n" + PdfText(after)
  {
    ConcatKeep(before, Some(items), after, PagePiece);
    var x, t, y := PdfText(before), PageText(items), PdfText(after);
    assert PagePiece(Some(items)) == t + "\n\n";
    AppendRegroup(x, t, "\n\n", y);
  }

  /** The PDF content is never empty: the fallback message when no page has text, and
      otherwise the trimmed concatenation of the page texts. */
  lemma PdfContent(pages: seq<PdfPage>)
    ensures PdfResult(Some(pages)).Success?
    ensures var c := PdfResult(Some(pages)).value.content;
      && c != ""
      && ((forall i :: 0 <= i < |pages| ==> PagePiece(pages[i]) == "") ==> c == PdfFallback)
      && ((exists i :: 0 <= i < |pages| && PagePiece(pages[i]) != "") ==>
            c == Trim(PdfText(pages)) && NonWs(c) == NonWs(PdfText(pages)))
  {
    ConcatAllWs(pages, PagePiece);
    forall i | 0 <= i < |pages|
      ensures AllWs(PagePiece(pages[i])) <==> PagePiece(pages[i]) == ""
    {
      PagePieceBlank(pages[i]);
    }
  }

  lemma PagePieceBlank(page: PdfPage)
    ensures AllWs(PagePiece(page)) <==> PagePiece(page) == ""
  {
    var t := if page.Some? then PageText(page.value) else "";
    PieceBlank(t, PagePiece(page));
  }

  // ---------------------------------------------------------------- Markdown title

  /** Where the multiline `^` can match: at the start, or just after a line terminator. */
  predicate AtLineStart(s: string, p: nat) {
    p == 0 || (p <= |s| && IsLineTerminator(s[p - 1]))
  }

  /** `/^#\s+(.+)$/m` matches with `^` at `p`, `\s+` covering `s[p+1..k]` and the capture
      group covering `s[k..e]`. */
  predicate MatchesAt(s: string, p: nat, k: nat, e: nat) {
    && AtLineStart(s, p) && p < |s| && s[p] == '#'
    && p + 1 < k < e <= |s|
    && (forall i :: p + 1 <= i < k ==> IsWs(s[i]))
    && (forall i :: k <= i < e ==> !IsLineTerminator(s[i]))
    && (e == |s| || IsLineTerminator(s[e]))
  }

  /** The end of the whitespace run starting at `q`. */
  function WsRunEnd(s: string, q: nat): (r: nat)
    requires q <= |s|
    ensures q <= r <= |s|
    ensures forall i :: q <= i < r ==> IsWs(s[i])
    ensures r == |s| || !IsWs(s[r])
    decreases |s| - q
  {
    if q < |s| && IsWs(s[q]) then WsRunEnd(s, q + 1) else q
  }

  /** The end of the line holding position `q`. */
  function LineEnd(s: string, q: nat): (r: nat)
    requires q <= |s|
    ensures q <= r <= |s|
    ensures forall i :: q <= i < r ==> !IsLineTerminator(s[i])
    ensures r == |s| || IsLineTerminator(s[r])
    decreases |s| - q
  {
    if q < |s| && !IsLineTerminator(s[q]) then LineEnd(s, q + 1) else q
  }

  /** The last position in `[lo, hi)` that is not a line terminator. */
  function LastNonTerminator(s: string, lo: nat, hi: nat): (r: Option<nat>)
    requires lo <= hi <= |s|
    ensures r.Some? ==> lo <= r.value < hi && !IsLineTerminator(s[r.value])
    ensures r.Some? ==> forall i :: r.value < i < hi ==> IsLineTerminator(s[i])
    ensures r.None? ==> forall i :: lo <= i < hi ==> IsLineTerminator(s[i])
    decreases hi
  {
    if hi <= lo then None
    else if !IsLineTerminator(s[hi - 1]) then Some(hi - 1)
    else LastNonTerminator(s, lo, hi - 1)
  }

  /** The capture when the pattern is tried with `^` at `p`: the greedy `\s+` takes the
      whole whitespace run after the `#`; when that run reaches the end of the text it gives
      back characters until `(.+)` can take one that is not a line terminator. */
  function TitleAt(s: string, p: nat): Option<string>
    requires p < |s| && s[p] == '#'
  {
    var q := WsRunEnd(s, p + 1);
    if q == p + 1 then None
    else if q < |s| then Some(s[q..LineEnd(s, q)])
    else
      match LastNonTerminator(s, p + 2, |s|)
      case None => None
      case Some(k) => Some(s[k..LineEnd(s, k)])
  }

  /** A match ends its capture at the end of its line. */
  lemma MatchEnd(s: string, p: nat, k: nat, e: nat)
    requires MatchesAt(s, p, k, e)
    ensures e == LineEnd(s, k)
  {
    LineEndUnique(s, k, e);
  }

  /** The end of a line is the first line terminator from `k` on, or the end of the text. */
  lemma {:induction false} LineEndUnique(s: string, k: nat, e: nat)
    requires k <= e <= |s|
    requires forall i :: k <= i < e ==> !IsLineTerminator(s[i])
    requires e == |s| || IsLineTerminator(s[e])
    ensures e == LineEnd(s, k)
    decreases e - k
  {
    if k < e {
      LineEndUnique(s, k + 1, e);
    }
  }

  /** What `TitleAt` captures is a match, and the one with the longest `\s+`. */
  lemma TitleAtSound(s: string, p: nat) returns (k: nat, e: nat)
    requires AtLineStart(s, p) && p < |s| && s[p] == '#' && TitleAt(s, p).Some?
    ensures MatchesAt(s, p, k, e) && TitleAt(s, p).value == s[k..e]
    ensures forall k': nat, e': nat :: k < k' ==> !MatchesAt(s, p, k', e')
  {
    var q := WsRunEnd(s, p + 1);
    if q < |s| {
      k := q;
    } else {
      k := LastNonTerminator(s, p + 2, |s|).value;
    }
    e := LineEnd(s, k);
    forall k', e' | k < k' ensures !MatchesAt(s, p, k', e') {
      if q < |s| {
        assert !IsWs(s[q]);
      } else {
        assert k' < |s| ==> IsLineTerminator(s[k']);
      }
    }
  }

  /** When the pattern matches with `^` at `p`, `TitleAt` finds a capture. */
  lemma TitleAtComplete(s: string, p: nat, k: nat, e: nat)
    requires MatchesAt(s, p, k, e)
    ensures TitleAt(s, p).Some?
  {
    var q := WsRunEnd(s, p + 1);
    assert IsWs(s[p + 1]);
    if q == |s| {
      assert !IsLineTerminator(s[k]);
    }
  }

  /** The regex scan: the first position from `p` on where the pattern matches. */
  function TitleFrom(s: string, p: nat): Option<string>
    requires p <= |s|
    decreases |s| - p
  {
    if p == |s| then None
    else if AtLineStart(s, p) && s[p] == '#' && TitleAt(s, p).Some? then TitleAt(s, p)
    else TitleFrom(s, p + 1)
  }

  /** `text.match(/^#\s+(.+)$/m)`'s first group, or `None` without a match. */
  function MarkdownTitle(text: string): (r: Option<string>)
    ensures r.Some? ==> r.value != []
    ensures r.Some? ==> forall i :: 0 <= i < |r.value| ==> !IsLineTerminator(r.value[i])
  {
    if TitleFrom(text, 0).Some? then TitleFromOneLine(text); TitleFrom(text, 0) else None
  }

  /** A title found is a non-empty piece of one line. */
  lemma TitleFromOneLine(text: string)
    requires TitleFrom(text, 0).Some?
    ensures TitleFrom(text, 0).value != []
    ensures forall i :: 0 <= i < |TitleFrom(text, 0).value| ==>
      !IsLineTerminator(TitleFrom(text, 0).value[i])
  {
    var p, k, e := TitleFromSound(text, 0);
    assert TitleFrom(text, 0).value == text[k..e];
  }

  /** The title is the capture of the leftmost match, with the longest `\s+` there; it is
      never empty and stays on one line. */
  lemma {:induction false} TitleFromSound(s: string, p0: nat) returns (p: nat, k: nat, e: nat)
    requires p0 <= |s| && TitleFrom(s, p0).Some?
    ensures p0 <= p && MatchesAt(s, p, k, e) && TitleFrom(s, p0).value == s[k..e]
    ensures forall p': nat, k': nat, e': nat :: p0 <= p' < p ==> !MatchesAt(s, p', k', e')
    ensures forall k': nat, e': nat :: k < k' ==> !MatchesAt(s, p, k', e')
    decreases |s| - p0
  {
    if AtLineStart(s, p0) && s[p0] == '#' && TitleAt(s, p0).Some? {
      p := p0;
      k, e := TitleAtSound(s, p0);
    } else {
      p, k, e := TitleFromSound(s, p0 + 1);
      forall k': nat, e': nat ensures !MatchesAt(s, p0, k', e') {
        if MatchesAt(s, p0, k', e') {
          TitleAtComplete(s, p0, k', e');
        }
      }
    }
  }

  /** Without any match there is no title. */
  lemma {:induction false} TitleFromComplete(s: string, p0: nat, p: nat, k: nat, e: nat)
    requires p0 <= p && MatchesAt(s, p, k, e)
    ensures TitleFrom(s, p0).Some?
    decreases p - p0
  {
    if p0 < p && !(AtLineStart(s, p0) && s[p0] == '#' && TitleAt(s, p0).Some?) {
      TitleFromComplete(s, p0 + 1, p, k, e);
    } else if p0 == p {
      TitleAtComplete(s, p, k, e);
    }
  }

  /** The Markdown title is exactly the capture of the regex's first match. */
  lemma MarkdownTitleIsFirstMatch(text: string) returns (p: nat, k: nat, e: nat)
    requires MarkdownTitle(text).Some?
    ensures MatchesAt(text, p, k, e) && MarkdownTitle(text).value == text[k..e]
    ensures MarkdownTitle(text).value != [] && e == LineEnd(text, k)
    ensures forall p': nat, k': nat, e': nat :: p' < p ==> !MatchesAt(text, p', k', e')
    ensures forall k': nat, e': nat :: k < k' ==> !MatchesAt(text, p, k', e')
  {
    p, k, e := TitleFromSound(text, 0);
    MatchEnd(text, p, k, e);
  }

  /** There is no title exactly when the pattern matches nowhere. */
  lemma NoTitleNoMatch(text: string)
    ensures MarkdownTitle(text).None? <==>
      forall p: nat, k: nat, e: nat :: !MatchesAt(text, p, k, e)
  {
    if MarkdownTitle(text).Some? {
      var p, k, e := TitleFromSound(text, 0);
    }
    forall p, k, e | MatchesAt(text, p, k, e) ensures MarkdownTitle(text).Some? {
      TitleFromComplete(text, 0, p, k, e);
    }
  }

  /** A first line `# Title` gives `Title`. */
  lemma FirstLineHeading(t: string, rest: string)
    requires t != [] && !IsWs(t[0])
    requires forall i :: 0 <= i < |t| ==> !IsLineTerminator(t[i])
    requires rest == [] || IsLineTerminator(rest[0])
    ensures MarkdownTitle("# " + t + rest) == Some(t)
  {
    var s := "# " + t + rest;
    assert s[0] == '#' && s[1] == ' ' && s[2] == t[0];
    assert WsRunEnd(s, 2) == 2;
    var e := 2 + |t|;
    assert forall i :: 2 <= i < e ==> s[i] == t[i - 2];
    if rest != [] {
      assert s[e] == rest[0];
    }
    LineEndUnique(s, 2, e);
    assert s[2..e] == t;
  }

  /** A second-level heading is no title: the character after the `#` must be whitespace. */
  lemma SecondLevelHeadingNoTitle()
    ensures MarkdownTitle("## x") == None
  {
    var s := "## x";
    assert WsRunEnd(s, 1) == 1;
    assert !AtLineStart(s, 1) && !AtLineStart(s, 2) && !AtLineStart(s, 3);
    assert TitleFrom(s, 3) == None;
    assert TitleFrom(s, 2) == None;
    assert TitleFrom(s, 1) == None;
  }

  /** The whitespace after the `#` may run across a line break: `#` alone on a line takes
      the next line as the title. */
  lemma TitleAcrossLineBreak()
    ensures MarkdownTitle("#\nx") == Some("x")
  {
    var s := "#\nx";
    assert WsRunEnd(s, 2) == 2;
    assert WsRunEnd(s, 1) == 2;
    assert LineEnd(s, 3) == 3;
    assert LineEnd(s, 2) == 3;
    assert s[2..3] == "x";
  }

  /** When only whitespace follows the `#`, `\s+` gives back its last character and that
      becomes the title: `#` and two spaces give a one-space title. */
  lemma TitleFromTrailingSpaces()
    ensures MarkdownTitle("#  ") == Some(" ")
  {
    var s := "#  ";
    assert WsRunEnd(s, 3) == 3;
    assert WsRunEnd(s, 1) == 3;
    assert LastNonTerminator(s, 2, 3) == Some(2);
    assert LineEnd(s, 3) == 3;
    assert LineEnd(s, 2) == 3;
    assert s[2..3] == " ";
  }

  // ---------------------------------------------------------------- readers and dispatch

  /** `readMarkdownFile`: the text unchanged as content, the title from the first
      `# ` heading, no author; `None` stands for `file.text()` throwing. */
  function ReadMarkdownFile(text: Option<string>): (r: Result<BookContent, string>)
    ensures r.Failure? <==> text.None?
    ensures r.Failure? ==> r.error == MarkdownError
    ensures r.Success? ==>
      r.value.content == text.value && r.value.title == MarkdownTitle(text.value) && r.value.author == None
  {
    if text.None? then Failure(MarkdownError)
    else Success(BookContent(text.value, MarkdownTitle(text.value), None))
  }

  /** `readTextFile`: the text unchanged as content, with no title and no author. */
  function ReadTextFile(text: Option<string>): (r: Result<BookContent, string>)
    ensures r.Failure? <==> text.None?
    ensures r.Failure? ==> r.error == TextError
    ensures r.Success? ==> r.value == BookContent(text.value, None, None)
  {
    if text.None? then Failure(TextError) else Success(BookContent(text.value, None, None))
  }

  /** What the libraries yield for one file: its name, its text, and what the EPUB and the
      PDF library make of it. */
  datatype BookFile = BookFile(name: string, text: Option<string>, epub: Option<EpubDocument>,
    pdf: Option<seq<PdfPage>>)

  /** The extensions `readBookFile` has a reader for. */
  predicate Supported(ext: string) {
    ext == "epub" || ext == "pdf" || ext == "md" || ext == "markdown" || ext == "txt"
  }

  /** `readBookFile`: the reader is chosen by the lower-cased text after the last dot; any
      other extension is an error that names it. */
  function ReadBookFile(file: BookFile): (r: Result<BookContent, string>)
    ensures var ext := Extension(file.name);
      && (ext == "epub" ==> r == EpubResult(file.epub))
      && (ext == "pdf" ==> r == PdfResult(file.pdf))
      && (ext == "md" || ext == "markdown" ==> r == ReadMarkdownFile(file.text))
      && (ext == "txt" ==> r == ReadTextFile(file.text))
      && (r == Failure(UnsupportedError(ext)) <==> !Supported(ext))
  {
    var ext := Extension(file.name);
    ReaderErrorsDiffer(ext);
    if ext == "epub" then EpubResult(file.epub)
    else if ext == "pdf" then PdfResult(file.pdf)
    else if ext == "md" || ext == "markdown" then ReadMarkdownFile(file.text)
    else if ext == "txt" then ReadTextFile(file.text)
    else Failure(UnsupportedError(ext))
  }

  /** No reader's own error reads like the unsupported-format error. */
  lemma ReaderErrorsDiffer(ext: string)
    ensures UnsupportedError(ext) != EpubError && UnsupportedError(ext) != PdfError
    ensures UnsupportedError(ext) != MarkdownError && UnsupportedError(ext) != TextError
  {
    var u := UnsupportedError(ext);
    assert u[5] == 'p';
    assert EpubError[5] == 'a' && PdfError[5] == 'a';
    assert MarkdownError[5] == 'a' && TextError[5] == 'a';
  }

  /** EPUB and PDF files always yield content or a reader error, never empty content. */
  lemma ReadBookFileContent(file: BookFile)
    requires Extension(file.name) == "epub" || Extension(file.name) == "pdf"
    ensures ReadBookFile(file).Success? ==> ReadBookFile(file).value.content != ""
  {
    if Extension(file.name) == "epub" {
      if file.epub.Some? { EpubContent(file.epub.value); }
    } else if file.pdf.Some? {
      PdfContent(file.pdf.value);
    }
  }

  /** Without a recognised MIME type, a file the upload form accepts goes to the reader of
      the format the form detected. */
  lemma DispatchAgreesWithForm(file: BookFile, mime: string)
    requires FileUpload.AcceptedMime(mime) == None
    ensures var f := FileUpload.GetFileFormat(FileInfo(file.name, mime));
      && (f == Some(Epub) ==> ReadBookFile(file) == EpubResult(file.epub))
      && (f == Some(Pdf) ==> ReadBookFile(file) == PdfResult(file.pdf))
      && (f == Some(Md) ==> ReadBookFile(file) == ReadMarkdownFile(file.text))
  {
    var ext := Extension(file.name);
    assert FileUpload.GetFileFormat(FileInfo(file.name, mime)) == FileUpload.ExtensionFormat(ext);
  }

  /** A `.txt` file has a reader, but the upload form turns it away unless the browser
      reports a MIME type the form knows. */
  lemma TextFileReadButNotAccepted(name: string, text: string)
    requires Extension(name) == "txt"
    ensures FileUpload.GetFileFormat(FileInfo(name, "")) == None
    ensures ReadBookFile(BookFile(name, Some(text), None, None)) == Success(BookContent(text, None, None))
  {
  }
}
