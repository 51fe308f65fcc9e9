# div_ctecka in Dafny

A model of the logic of the DIV.cz e-book reader, a client-side app that keeps a
shelf of ePub, PDF and Markdown books, imports files, and shows a book as 200-word
pages with a progress slider, a font size and a dark mode. The model covers five
pieces:

- **Reader** (`reader.dfy`): the reading view. It covers the text of a book (its
  content, or a placeholder), splitting it into pages, mapping the slider to a page
  and back, the font-size and theme buttons, and sorting each line of a page into a
  heading, a bold paragraph, a paragraph or a line break. The view's state is the
  class `Reader.ReaderState`.
- **FileUpload** (`file_upload.dfy`): the upload form. It detects the format (MIME
  type first, then the extension), suggests a title from the file name, and builds
  the trimmed metadata sent on submit. The form's state is the class
  `FileUpload.UploadForm`.
- **Library** (`library.dfy`): the shelf view. It covers the search and format
  filter, the per-format counts, and the Czech label after the number of books.
- **Index** (`index.dfy`): the page that owns the shelf. It adds, updates and deletes
  books, gives each new record its format from the file name, and switches between
  the library, reader and upload views. The page's state is the class
  `Index.IndexPage`.
- **FileReaders** (`file_readers.dfy`): the readers that turn a file into book
  content. The EPUB section loop and the PDF page loop are methods proved against
  specification functions. The module also models the PDF page-text normalisation,
  the Markdown title (the regex `/^#\s+(.+)$/m`, modelled exactly), the plain-text
  reader and the dispatch on the extension.

Shared modules model the JavaScript built-ins the code relies on. `JsString` covers
`trim`, ASCII `toLowerCase`, `includes`, `split`, `join`, `split('.').pop()` and
`replace(/\s+/g, ' ')`. `JsArray` covers `filter`. `Books` holds the book record and
the file-name extension, and `Wrappers` holds `Option` and `Result`.

The parsing libraries (epubjs, pdf.js, DOMParser) are not modelled. What they produce
for a file comes in as data: the EPUB metadata and section texts, the PDF page items,
and the file's text. `None` stands for a library call that throws. Ids, timestamps
and object URLs are parameters.

What the code does:

- The EPUB and PDF readers put no chapter or page headings into the content.
- A PDF page without text is dropped.
- A reader whose file cannot be opened returns an error.
- The upload form rejects a `.txt` file unless the browser reports a MIME type the
  form knows, although `readBookFile` has a reader for `.txt`.
- Nothing clamps the progress stored on the shelf. `Index.ProgressStaysBounded`
  shows that the progress still stays in [0, 100] when every update is a percentage.

## Model

| member | source | states |
|---|---|---|
| JsString.Trim | src/components/FileUpload.tsx:112-115 | `trim` gives the empty string exactly for all-whitespace input; otherwise the result starts and ends with non-whitespace |
| JsString.TrimIsSlice | src/components/FileUpload.tsx:112-115 | `trim` keeps one contiguous slice and removes only whitespace around it |
| JsString.TrimIdempotent | src/components/FileUpload.tsx:112-115 | trimming twice is trimming once |
| JsString.Lower | src/components/Library.tsx:39-40 | `toLowerCase` keeps the length, lower-cases each character, and leaves no ASCII capital |
| JsString.LowerIdempotent | src/components/Library.tsx:39-40 | lower-casing twice is lower-casing once |
| JsString.IncludesIff | src/components/Library.tsx:39-40 | `includes` holds exactly when the query occurs at some position |
| JsString.IncludesEmpty | src/components/Library.tsx:39-41 | every string includes the empty query |
| JsString.Split | src/components/Reader.tsx:48 | `split` always gives at least one piece, and no piece contains the separator |
| JsString.JoinSplit | src/components/Reader.tsx:48-54 | joining the pieces of a split with the same separator gives back the text |
| JsString.SplitJoin | src/components/Reader.tsx:48-54 | splitting a join of separator-free pieces gives back the pieces |
| JsString.JoinAppend | src/components/Reader.tsx:54 | joining two non-empty lists puts one separator between their joins |
| JsString.AfterLastIsSuffix | src/components/FileUpload.tsx:44 | `split('.').pop()` is the dot-free suffix after the last dot, or all of the text when it has no dot |
| JsString.ConcatAppend | src/lib/fileReaders.ts:31-54 | appending in a loop keeps the order: the pieces of two runs concatenate |
| JsString.ConcatSkip | src/lib/fileReaders.ts:48-50 | an element that adds nothing can be dropped |
| JsString.ConcatKeep | src/lib/fileReaders.ts:48-50 | an element adds its piece between those of its neighbours |
| JsString.ConcatAllWs | src/lib/fileReaders.ts:57 | the accumulated text is blank exactly when every piece is blank |
| JsString.NonWsTrim | src/lib/fileReaders.ts:57 | trimming removes whitespace only |
| JsString.NonWsJoin | src/lib/fileReaders.ts:92 | joining with spaces adds whitespace only: the join's non-whitespace text is that of the pieces, in order |
| JsString.Collapse | src/lib/fileReaders.ts:93 | `replace(/\s+/g, ' ')` leaves no two whitespace characters in a row and no whitespace but the space; it keeps every other character in order, and a leading whitespace run becomes one space |
| JsString.CollapseWord | src/lib/fileReaders.ts:93 | text without whitespace is left unchanged |
| JsString.CollapseConcat | src/lib/fileReaders.ts:93 | collapsing a concatenation collapses the second part in the state the first part ends in (inside a whitespace run or not) |
| JsString.CollapseSeparates | src/lib/fileReaders.ts:93 | a whitespace run between two pieces becomes exactly one space, and each piece is collapsed on its own |
| JsString.CollapseJoinWords | src/lib/fileReaders.ts:92-93 | words without whitespace joined by single spaces are left unchanged by the collapse, and the join starts and ends with a non-whitespace character |
| JsString.JoinTwo | src/lib/fileReaders.ts:92 | two pieces are joined with one separator between them |
| JsString.CollapseIdempotent | src/lib/fileReaders.ts:93 | collapsing twice is collapsing once |
| JsArray.Filter | src/components/Library.tsx:38 | `filter` returns no more elements, only elements that pass, and every element that passes |
| JsArray.FilterMultiset | src/components/Library.tsx:38 | `filter` keeps every copy of an element that passes and no copy of one that fails |
| JsArray.FilterIsSubsequence | src/components/Library.tsx:38 | the result of `filter` is an order-preserving subsequence of its input |
| JsArray.FilterAppend | src/pages/Index.tsx:87 | filtering a concatenation filters each part |
| JsArray.FilterAll | src/components/Library.tsx:38 | when every element passes, `filter` returns its input |
| JsArray.FilterNone | src/components/Library.tsx:38 | when no element passes, `filter` returns nothing |
| JsArray.FilterCongruent | src/components/Library.tsx:38 | two tests that agree on every element filter alike |
| Books.Extension | src/lib/fileReaders.ts:142 | the extension has no dot and ends the lower-cased name, after a dot when the name has one; a dot-free name is its own extension |
| Books.ExtensionIs | src/components/FileUpload.tsx:44 | a dot-free `e` is the extension exactly when the lower-cased name ends with `.e`, or the name has no dot and is `e` |
| Reader.BookText | src/components/Reader.tsx:36-44 | the shown text is the content when it is non-empty and otherwise the placeholder; it is never empty |
| Reader.Words | src/components/Reader.tsx:48 | splitting the text on spaces gives at least one word, even for empty text |
| Reader.TotalPages | src/components/Reader.tsx:49 | the page count is the ceiling of words/200, and at least 1 when there is a word |
| Reader.PageWords | src/components/Reader.tsx:51-55 | page p holds words (p-1)*200 onward, 1 to 200 of them; exactly 200 on every page before the last, and the last page runs to the last word |
| Reader.PageContent | src/components/Reader.tsx:51-55 | when no word contains a space, splitting a page's text on spaces gives back exactly that page's words |
| Reader.AllPages | src/components/Reader.tsx:49-55 | there is one page content per page |
| Reader.AllPagesJoin | src/components/Reader.tsx:51-55 | the pages joined with spaces are the words joined with spaces |
| Reader.PagesRoundTrip | src/components/Reader.tsx:48-55 | joining all pages with spaces reproduces the book text exactly |
| Reader.PageForProgress | src/components/Reader.tsx:62-63 | the page never passes the last one, and unless capped it is the page whose span holds the slider position: (page-1) <= progress/100*totalPages < page |
| Reader.PageForProgressInRange | src/components/Reader.tsx:62-63 | a slider value from 0 up selects a page in [1, totalPages] |
| Reader.PageForProgressMonotone | src/components/Reader.tsx:62-63 | a larger slider value never selects an earlier page |
| Reader.PageForFullProgress | src/components/Reader.tsx:62-63 | progress 100 selects the last page |
| Reader.HalfwayThroughFourPages | src/components/Reader.tsx:49-63 | 650 words make 4 pages, and progress 50 selects page 3 |
| Reader.ProgressForPage | src/components/Reader.tsx:69 | a page's progress is 0 exactly for page 1 and positive exactly for later pages |
| Reader.ProgressForPageInRange | src/components/Reader.tsx:69 | a page's progress lies in [0, 100) and is 0 for page 1 |
| Reader.PageProgressRoundTrip | src/components/Reader.tsx:62-69 | turning a page into progress and back gives the same page |
| Reader.ProgressWithinPage | src/components/Reader.tsx:62-69 | a slider value falls between its page's progress and the next page's progress |
| Reader.Classify | src/components/Reader.tsx:207-218 | a line break comes only from a blank line, and a paragraph is the line itself and is not blank |
| Reader.ClassifyCases | src/components/Reader.tsx:207-218 | each line becomes exactly one kind of fragment, decided by the rules in order |
| Reader.ClassifyLineOf | src/components/Reader.tsx:207-218 | a fragment written back as markup is classified as the same fragment |
| Reader.LineOfClassify | src/components/Reader.tsx:207-218 | a line is recovered from its fragment, except blank lines and the lines `**` and `***` |
| Reader.Render | src/components/Reader.tsx:207-218 | one fragment per line of the page, in order |
| Reader.ReaderState.constructor | src/components/Reader.tsx:29-33 | the view opens on page 1 at progress 0 with font size 16, in light mode |
| Reader.ReaderState.ProgressChange | src/components/Reader.tsx:57-64 | the slider value becomes the progress and is reported, and the page becomes the one it selects |
| Reader.ReaderState.PageChange | src/components/Reader.tsx:66-73 | an existing page becomes current, and its progress is set and reported; any other page number changes nothing and reports nothing |
| Reader.ReaderState.PreviousPage | src/components/Reader.tsx:236-244 | goes back one page, sets the progress of the new page and reports it for the book; on page 1 it changes nothing and reports nothing; the font and theme are kept |
| Reader.ReaderState.NextPage | src/components/Reader.tsx:250-258 | goes forward one page, sets the progress of the new page and reports it for the book; on the last page it changes nothing and reports nothing; the font and theme are kept |
| Reader.ReaderState.DecreaseFont | src/components/Reader.tsx:128 | the font shrinks by 2 but not below 12, and stays even and within [12, 24] |
| Reader.ReaderState.IncreaseFont | src/components/Reader.tsx:137 | the font grows by 2 but not above 24, and stays even and within [12, 24] |
| Reader.ReaderState.ToggleDarkMode | src/components/Reader.tsx:151 | the theme flips, and nothing else changes |
| FileUpload.AcceptedMime | src/components/FileUpload.tsx:30-35 | exactly the four listed MIME types are recognised, and `text/markdown` and `text/plain` are the ones read as Markdown |
| FileUpload.ExtensionFormat | src/components/FileUpload.tsx:45-55 | exactly `epub`, `pdf`, `md` and `markdown` are recognised extensions |
| FileUpload.GetFileFormat | src/components/FileUpload.tsx:37-56 | a recognised MIME type decides the format whatever the file is called; otherwise a format is found exactly when the extension is recognised |
| FileUpload.FormatBySuffix | src/components/FileUpload.tsx:43-55 | with no recognised MIME type and a dot in the name, `.epub`, `.pdf`, and `.md` or `.markdown` (any case) decide the format, and anything else, `.txt` included, is rejected |
| FileUpload.DotlessNameIsExtension | src/components/FileUpload.tsx:44-55 | a name without a dot is matched as a whole, so a file called `pdf` is a PDF |
| FileUpload.FormatIgnoresCase | src/components/FileUpload.tsx:44 | the file name's letter case does not change the detected format |
| FileUpload.SuggestedTitle | src/components/FileUpload.tsx:92 | the suggested title is a prefix of the name; it drops one book suffix when the name has one and otherwise equals the name |
| FileUpload.StripBySuffix | src/components/FileUpload.tsx:92 | the suffix test runs on the lower-cased name and removes the matched suffix from the original |
| FileUpload.SuggestedTitleStripsOne | src/components/FileUpload.tsx:92 | exactly one extension goes, in any case: `Book.PDF` becomes `Book` and `a.pdf.pdf` becomes `a.pdf` |
| FileUpload.UploadForm.constructor | src/components/FileUpload.tsx:24-26 | the form starts with no file and empty fields |
| FileUpload.UploadForm.SelectFile | src/components/FileUpload.tsx:79-102 | an unsupported file is rejected and changes nothing; a supported one is selected with its suggested title and an empty author |
| FileUpload.UploadForm.SetTitle | src/components/FileUpload.tsx:201 | typing changes the title only |
| FileUpload.UploadForm.SetAuthor | src/components/FileUpload.tsx:214 | typing changes the author only |
| FileUpload.UploadForm.RemoveFile | src/components/FileUpload.tsx:225 | the file is deselected, and the fields keep their text |
| FileUpload.UploadForm.Submit | src/components/FileUpload.tsx:111-116 | submits only with a file and a non-blank title; sends the trimmed title, the trimmed author or none when it is blank, and no content |
| Library.FilteredBooks | src/components/Library.tsx:38-43 | the shown books are an ordered subsequence of the shelf; a book is shown exactly when its title or author contains the query (ignoring ASCII case) and the picked format is `all` or its own, and then as many times as it is on the shelf |
| Library.EmptyQueryKeepsAll | src/components/Library.tsx:38-41 | an empty query with `all` shows the whole shelf in order |
| Library.NoAuthorTitleOnly | src/components/Library.tsx:39-40 | a book without an author is found by its title alone |
| Library.SearchIgnoresCase | src/components/Library.tsx:39-40 | lower-casing the query does not change the result |
| Library.UnknownFormatKeepsNothing | src/components/Library.tsx:41 | a picked value that names no format shows nothing |
| Library.CountFormats | src/components/Library.tsx:45-50 | `all` is the shelf size and the three format counts add up to it |
| Library.CountMatchesPick | src/components/Library.tsx:41-50 | a format's count is the number of books shown when that format is picked and the query is empty |
| Library.CountLabel | src/components/Library.tsx:61 | `kniha` exactly for 1, `knih` exactly from 5 up, `knihy` for every other count, 0 included |
| Library.CzechCountLabel | src/components/Library.tsx:61 | Czech grammar: `kniha` for 1, `knihy` for 2 to 4, `knih` for 0 and from 5 up |
| Library.CountLabelZero | src/components/Library.tsx:61 | the label follows the grammar for every count except 0 |
| Index.RecordFormat | src/pages/Index.tsx:61-62 | a new record is `epub` exactly when the lower-cased name ends with `.epub`, `pdf` exactly when it ends with `.pdf`, and `md` otherwise |
| Index.EpubPdfExclusive | src/pages/Index.tsx:61-62 | no name ends with both `.epub` and `.pdf`, so the classification is unambiguous |
| Index.RecordFormatAgrees | src/pages/Index.tsx:61-62 | a file the form accepted by its extension gets the format the form detected |
| Index.MimeAndRecordDisagree | src/pages/Index.tsx:61-62 | `a.pdf` sent as `text/plain` is accepted as Markdown but recorded as a PDF |
| Index.DotlessNameDisagrees | src/pages/Index.tsx:61-62 | a file called `pdf` with no MIME type is accepted as a PDF but recorded as Markdown |
| Index.NewBook | src/pages/Index.tsx:57-67 | the new record takes the given id, the metadata's title, author and content, progress 0, the upload time and the object URL, no cover, and `epub` or `pdf` exactly when the lower-cased name ends with `.epub` or `.pdf` |
| Index.WithProgress | src/pages/Index.tsx:73-79 | books with the id get the new progress and time and keep every other field; all other books stay the same; length and order are kept |
| Index.WithoutBook | src/pages/Index.tsx:86-87 | every book with the id goes; the rest stay, in order, each as many times as before |
| Index.WithProgressAbsent | src/pages/Index.tsx:73-79 | an update for an id no book has changes nothing |
| Index.WithoutAbsent | src/pages/Index.tsx:86-87 | deleting an id no book has changes nothing |
| Index.WithProgressOverrides | src/pages/Index.tsx:73-79 | a later update of the same id overrides an earlier one |
| Index.WithoutBookIdempotent | src/pages/Index.tsx:86-87 | after a delete the id is gone, and deleting again changes nothing |
| Index.DeleteAfterUpdate | src/pages/Index.tsx:73-90 | deleting a book discards the progress recorded for it |
| Index.ProgressStaysBounded | src/pages/Index.tsx:56-87 | upload, updates with a percentage and delete keep every stored progress in [0, 100] |
| Index.IndexPage.constructor | src/pages/Index.tsx:19-21 | the page opens on the library with no book selected |
| Index.IndexPage.SelectBook | src/pages/Index.tsx:47-50 | opens the book in the reader |
| Index.IndexPage.AddBook | src/pages/Index.tsx:52-54 | shows the upload form |
| Index.IndexPage.UploadBook | src/pages/Index.tsx:56-71 | puts the new record first with the metadata's title and author and progress 0, keeps every old book in order, and returns to the library |
| Index.IndexPage.UpdateProgress | src/pages/Index.tsx:73-79 | the shelf becomes the progress update of the old shelf; the view stays |
| Index.IndexPage.BackToLibrary | src/pages/Index.tsx:81-84 | returns to the library and clears the selection |
| Index.IndexPage.DeleteBook | src/pages/Index.tsx:86-90 | the shelf loses the id's books; the library shows with nothing selected |
| Index.IndexPage.CloseUpload | src/pages/Index.tsx:92-94 | returns to the library |
| FileReaders.ContentOr | src/lib/fileReaders.ts:57 | the content is the trimmed text when there is any, with no non-whitespace character lost; otherwise it is the fallback, so it is never empty |
| FileReaders.EpubResult | src/lib/fileReaders.ts:15-64 | an EPUB that cannot be opened gives the EPUB error; otherwise the content is never empty, keeps the text's non-whitespace characters or is the fallback when the text is blank, and the title and author are the metadata's |
| FileReaders.ReadEpubFile | src/lib/fileReaders.ts:15-65 | the section loop builds exactly the specified EPUB content; a document that cannot be opened gives the EPUB error |
| FileReaders.EpubSkipsSection | src/lib/fileReaders.ts:31-54 | a section that fails or is blank adds nothing and does not stop the loop |
| FileReaders.EpubKeepsSection | src/lib/fileReaders.ts:48-50 | a usable section adds its text and a blank line in spine order |
| FileReaders.EpubContent | src/lib/fileReaders.ts:56-60 | EPUB content is never empty: the fallback exactly when no section is usable, otherwise the trimmed concatenation |
| FileReaders.ItemTexts | src/lib/fileReaders.ts:86-91 | each item gives its `str`, and a marker gives the empty string |
| FileReaders.PageText | src/lib/fileReaders.ts:85-94 | a page's text has no leading or trailing whitespace, no two whitespace characters in a row, and no whitespace but the space |
| FileReaders.PageTextOfWords | src/lib/fileReaders.ts:85-94 | for items that are all non-empty words without whitespace, the page text is the words joined by single spaces |
| FileReaders.TwoItemsStayApart | src/lib/fileReaders.ts:85-94 | two word items `a` and `b` give `a b`: the join keeps neighbouring items apart |
| FileReaders.PageTextKeepsText | src/lib/fileReaders.ts:85-94 | a page's text keeps every non-whitespace character of its items, in order |
| FileReaders.PdfResult | src/lib/fileReaders.ts:67-110 | a PDF that cannot be opened gives the PDF error; otherwise the content is never empty, keeps the text's non-whitespace characters or is the fallback when the text is blank, and there is no title or author |
| FileReaders.ReadPdfFile | src/lib/fileReaders.ts:67-111 | the loop over pages 1 to numPages builds exactly the specified PDF content; a document that cannot be opened gives the PDF error |
| FileReaders.PdfSkipsPage | src/lib/fileReaders.ts:80-102 | a page that fails or has no text adds nothing and does not stop the loop |
| FileReaders.PdfKeepsPage | src/lib/fileReaders.ts:96-98 | a page with text adds that text and a blank line, in page order |
| FileReaders.PdfContent | src/lib/fileReaders.ts:104-106 | PDF content is never empty: the fallback exactly when no page has text, otherwise the trimmed concatenation |
| FileReaders.LineEndUnique | src/lib/fileReaders.ts:118 | the `$` of a multiline match is the first line terminator, or the end of the text |
| FileReaders.TitleAtSound | src/lib/fileReaders.ts:118 | what is captured at a `#` is a match of the pattern there, and the one with the longest `\s+` |
| FileReaders.TitleAtComplete | src/lib/fileReaders.ts:118 | when the pattern matches at a `#`, a capture is found there |
| FileReaders.TitleFromSound | src/lib/fileReaders.ts:118 | the scan returns the capture of the leftmost match |
| FileReaders.MarkdownTitle | src/lib/fileReaders.ts:118-119 | a title, when there is one, is non-empty and lies within one line |
| FileReaders.MarkdownTitleIsFirstMatch | src/lib/fileReaders.ts:118-119 | the title is group 1 of the first match: non-empty, running to the end of its line, at the leftmost match and with the greediest `\s+` |
| FileReaders.NoTitleNoMatch | src/lib/fileReaders.ts:118-119 | the title is absent exactly when the pattern matches nowhere |
| FileReaders.FirstLineHeading | src/lib/fileReaders.ts:118-119 | a first line `# Title` gives the title `Title` |
| FileReaders.SecondLevelHeadingNoTitle | src/lib/fileReaders.ts:118-119 | `## x` gives no title |
| FileReaders.TitleAcrossLineBreak | src/lib/fileReaders.ts:118 | `\s+` may cross a line break: `#` followed by a line `x` gives the title `x` |
| FileReaders.TitleFromTrailingSpaces | src/lib/fileReaders.ts:118 | after `#` and only spaces, backtracking makes the last space the title |
| FileReaders.ReadMarkdownFile | src/lib/fileReaders.ts:113-129 | the content is the file text unchanged and the title is the regex title; a failed read gives the Markdown error |
| FileReaders.ReadTextFile | src/lib/fileReaders.ts:131-139 | the content is the file text unchanged, with no title; a failed read gives the text error |
| FileReaders.ReadBookFile | src/lib/fileReaders.ts:141-157 | the extension picks the EPUB, PDF, Markdown or text reader; the result is the unsupported-format error naming the extension exactly when no reader handles it |
| FileReaders.ReaderErrorsDiffer | src/lib/fileReaders.ts:155 | no reader's own error equals the unsupported-format error |
| FileReaders.ReadBookFileContent | src/lib/fileReaders.ts:141-148 | EPUB and PDF files yield either an error or non-empty content |
| FileReaders.DispatchAgreesWithForm | src/lib/fileReaders.ts:141-151 | without a recognised MIME type, a file the form accepts goes to the reader of the detected format |
| FileReaders.TextFileReadButNotAccepted | src/lib/fileReaders.ts:152-153 | a `.txt` file has a reader, but the form rejects it when the MIME type is unknown |

## Left out

- File I/O and async plumbing are not modelled: `file.arrayBuffer()`, `file.text()`, the awaits, the pdf.js worker URL, and `console.warn`/`console.error`. A failing read is the input `None`.
- The epubjs, pdf.js, DOMParser and marked calls are foreign libraries. Their outputs (section texts, page items, metadata) are inputs. How a section document becomes text (`textContent || innerText || ''`) is part of that input.
- React rendering is not modelled: JSX, the HTML strings built for each fragment, CSS classes, toasts, the popover and slider widgets, drag and drop, the hidden file input, the view mode, and the size display. `Reader.Render` yields fragments, not HTML.
- The `confirm()` dialog before deleting a book is left out, since it is browser UI. Its outcome is the call of `Index.IndexPage.DeleteBook`.
- Ids, timestamps and object URLs (`Date.now()`, `new Date()`, `URL.createObjectURL`) are parameters. The model does not claim ids are unique, because the code does not ensure it.
- Progress is a `real`, and `Math.floor` is `Floor`; IEEE rounding is not modelled. The slider's step of 1 is not modelled: `Reader.ReaderState.ProgressChange` accepts any value in [0, 100].
- JsString.Lower: lower-cases ASCII letters only. `toLowerCase` also maps other letters, some of which change length. The Kelvin sign, for one, becomes `k` and so could make a name end in `.markdown`. The case-insensitive suffix regex folds only ASCII for these letters, so `FileUpload.SuggestedTitle` is exact.
- Strings are sequences of characters; UTF-16 surrogate pairs are not modelled.
- FileUpload.AcceptedMime: models the MIME table as its four keys. The JavaScript `in` test also accepts inherited property names such as `constructor`, which no browser reports as a MIME type.
- The demo books of the initial shelf are data, not logic. `Index.IndexPage.constructor` takes the initial shelf as a parameter.
- `Reader.ReaderState.CurrentPageContent` has no contract of its own. The page text is `Reader.PageContent`, which `Reader.PageContent`, `Reader.PageWords` and `Reader.PagesRoundTrip` specify.
- The component loads with progress 0 and page 1, whatever progress the record holds. The model does the same and does not connect the record's progress to the view.
- `selectedBook` is not refreshed when the shelf changes, so the open book can be an older copy of its record. The model keeps the same behaviour.
- The `content` field of the upload metadata is always absent, because the form never sets it. `Index.NewBook` copies it anyway, as the code does.
- `readBookFile` is not called by any component modelled here: the form hands over only the file and its metadata.
- BookCard.tsx (display only) and capacitor.config.ts (configuration) are not part of this model.

## Findings

| source | as written | input that shows it | evidently intended | confidence | as-written member | corrected member |
|---|---|---|---|---|---|---|
| src/components/Library.tsx:61 | any count below 5 other than 1 is labelled `knihy` | an empty shelf shows `0 knihy` | Czech uses `knih` for zero, as for 5 and more (`0 knih`) | not executed; medium, since the empty-shelf text may have been left as is on purpose | Library.CountLabel, Library.CountLabelZero | Library.CzechCountLabel |
