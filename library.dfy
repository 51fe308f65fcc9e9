/** The library view: the search-and-format filter over the shelf, the per-format counts
    shown in the format picker, and the book-count label under the heading. */
module Library {
  import opened JsString
  import opened JsArray
  import opened Books

  /** The search test: the lower-cased title, or the lower-cased author when there is one,
      contains the lower-cased query. */
  predicate MatchesSearch(b: Book, query: string) {
    var q := Lower(query);
    Includes(Lower(b.title), q) || (b.author.Some? && Includes(Lower(b.author.value), q))
  }

  /** The format test: the picker shows `"all"` or the book's own format. */
  predicate MatchesFormat(b: Book, selected: string) {
    selected == "all" || FormatName(b.format) == selected
  }

  /** The callback given to `books.filter`. */
  function Keep(query: string, selected: string): Book -> bool {
    (b: Book) => MatchesSearch(b, query) && MatchesFormat(b, selected)
  }

  /** `filteredBooks`: the books that pass both tests, in shelf order. */
  function FilteredBooks(books: seq<Book>, query: string, selected: string): (r: seq<Book>)
    ensures IsSubsequence(r, books)
    ensures forall i :: 0 <= i < |r| ==>
      r[i] in books && MatchesSearch(r[i], query) && MatchesFormat(r[i], selected)
    ensures forall i :: 0 <= i < |books| ==>
      (books[i] in r <==> MatchesSearch(books[i], query) && MatchesFormat(books[i], selected))
    ensures forall b :: multiset(r)[b] ==
                        if MatchesSearch(b, query) && MatchesFormat(b, selected)
                        then multiset(books)[b] else 0
  {
    FilterIsSubsequence(books, Keep(query, selected));
    FilterMultiset(books, Keep(query, selected));
    Filter(books, Keep(query, selected))
  }

  /** With an empty query and `"all"` picked every book is shown, in order. */
  lemma EmptyQueryKeepsAll(books: seq<Book>)
    ensures FilteredBooks(books, "", "all") == books
  {
    forall i | 0 <= i < |books|
      ensures Keep("", "all")(books[i])
    {
      IncludesEmpty(Lower(books[i].title));
    }
    FilterAll(books, Keep("", "all"));
  }

  /** A book without an author is found by its title alone. */
  lemma NoAuthorTitleOnly(b: Book, query: string)
    requires b.author.None?
    ensures MatchesSearch(b, query) <==> Includes(Lower(b.title), Lower(query))
  {
  }

  /** The search is case-insensitive: lower-casing the query changes nothing. */
  lemma SearchIgnoresCase(books: seq<Book>, query: string, selected: string)
    ensures FilteredBooks(books, Lower(query), selected) == FilteredBooks(books, query, selected)
  {
    LowerIdempotent(query);
    FilterCongruent(books, Keep(Lower(query), selected), Keep(query, selected));
  }

  /** A selection that names no format shows nothing. */
  lemma UnknownFormatKeepsNothing(books: seq<Book>, query: string, selected: string)
    requires selected != "all" && selected != "epub" && selected != "pdf" && selected != "md"
    ensures FilteredBooks(books, query, selected) == []
  {
    FilterNone(books, Keep(query, selected));
  }

  // ---------------------------------------------------------------- counts

  /** The test `b.format === f`. */
  function OfFormat(f: Format): Book -> bool {
    (b: Book) => b.format == f
  }

  /** `formatCounts`: the number of books in all and of each format. */
  datatype FormatCounts = FormatCounts(all: nat, epub: nat, pdf: nat, md: nat)

  /** The counts shown in the picker; the three formats share out the whole shelf. */
  function CountFormats(books: seq<Book>): (c: FormatCounts)
    ensures c.all == |books|
    ensures c.epub + c.pdf + c.md == c.all
  {
    FormatCountsSum(books);
    FormatCounts(|books|, |Filter(books, OfFormat(Epub))|,
      |Filter(books, OfFormat(Pdf))|, |Filter(books, OfFormat(Md))|)
  }

  lemma {:induction false} FormatCountsSum(books: seq<Book>)
    ensures |Filter(books, OfFormat(Epub))| + |Filter(books, OfFormat(Pdf))|
      + |Filter(books, OfFormat(Md))| == |books|
    decreases |books|
  {
    if books != [] {
      FormatCountsSum(books[1..]);
    }
  }

  /** The number shown next to a format in the picker is the number of books that picking
      it shows while the search is empty. */
  lemma CountMatchesPick(books: seq<Book>, f: Format)
    ensures FilteredBooks(books, "", FormatName(f)) == Filter(books, OfFormat(f))
  {
    forall i | 0 <= i < |books|
      ensures Keep("", FormatName(f))(books[i]) == OfFormat(f)(books[i])
    {
      IncludesEmpty(Lower(books[i].title));
    }
    FilterCongruent(books, Keep("", FormatName(f)), OfFormat(f));
  }

  // ---------------------------------------------------------------- count label

  /** The noun after the number of books, as the library heading chooses it. */
  function CountLabel(n: nat): (r: string)
    ensures r == "kniha" <==> n == 1
    ensures r == "knihy" <==> n != 1 && n < 5
    ensures r == "knih" <==> n >= 5
  {
    if n == 1 then "kniha" else if n < 5 then "knihy" else "knih"
  }

  /** Czech grammar: one book "kniha", two to four "knihy", zero or five and more "knih". */
  function CzechCountLabel(n: nat): (r: string)
    ensures r == "kniha" <==> n == 1
    ensures r == "knihy" <==> 2 <= n <= 4
    ensures r == "knih" <==> n == 0 || n >= 5
  {
    if n == 1 then "kniha" else if 2 <= n <= 4 then "knihy" else "knih"
  }

  /** The heading's label agrees with Czech grammar for every count but zero, where it says
      "0 knihy" instead of "0 knih". */
  lemma CountLabelZero(n: nat)
    ensures CountLabel(n) == CzechCountLabel(n) <==> n != 0
  {
  }
}
