/** The catalog records (books, chapters, verse bounds, spans) and the three
    catalog lookups: FindBook, FindChapter and BookRange. */
module Types {

  datatype Option<T> = None | Some(value: T)

  /** Verse bounds of one chapter. The list of textual gaps the catalog also
      carries is never read by the resolution logic and is not modelled. */
  datatype VerseInfo = VerseInfo(first: int, last: int)

  datatype ChapterInfo = ChapterInfo(chapter: int, verses: VerseInfo)

  datatype BookInfo = BookInfo(division: string, name: string, chapters: seq<ChapterInfo>)

  /** An inclusive chapter/verse range anchored to one book. */
  datatype ScriptureBookChapter = ScriptureBookChapter(
    book: string,
    chapterStart: int,
    verseStart: int,
    chapterEnd: int,
    verseEnd: int)

  /** No two books of the catalog share a name. */
  predicate UniqueNames(books: seq<BookInfo>)
  {
    forall i, j | 0 <= i < j < |books| :: books[i].name != books[j].name
  }

  /** No two chapters of a book share a number. */
  predicate UniqueChapters(book: BookInfo)
  {
    forall p, q | 0 <= p < q < |book.chapters| :: book.chapters[p].chapter != book.chapters[q].chapter
  }

  /** Every book has at least one chapter: the expander reads a book's first
      and last chapter without checking that they exist. */
  predicate ChaptersPresent(books: seq<BookInfo>)
  {
    forall i | 0 <= i < |books| :: |books[i].chapters| > 0
  }

  /** A well-formed catalog: unique book names, and every book has at least
      one chapter, numbered without repeats. */
  predicate ValidCatalog(books: seq<BookInfo>)
  {
    && UniqueNames(books)
    && ChaptersPresent(books)
    && forall i | 0 <= i < |books| :: UniqueChapters(books[i])
  }

  /** Some book of the catalog carries the name. */
  predicate HasBook(books: seq<BookInfo>, name: string)
  {
    exists i | 0 <= i < |books| :: books[i].name == name
  }

  function LastChapter(book: BookInfo): ChapterInfo
    requires |book.chapters| > 0
  {
    book.chapters[|book.chapters| - 1]
  }

  /** The first book of the catalog with the given name, if any. */
  function FindBook(books: seq<BookInfo>, name: string): (r: Option<BookInfo>)
    ensures r.Some? ==> r.value.name == name
  {
    if |books| == 0 then None
    else if books[0].name == name then Some(books[0])
    else FindBook(books[1..], name)
  }

  /** The search finds a book of the catalog, and finds none exactly when
      no book carries the name. */
  lemma {:induction false} FindBookFound(books: seq<BookInfo>, name: string)
    ensures FindBook(books, name).Some? ==> FindBook(books, name).value in books
    ensures FindBook(books, name).None? <==> forall i | 0 <= i < |books| :: books[i].name != name
  {
    if |books| > 0 && books[0].name != name {
      FindBookFound(books[1..], name);
      assert forall i | 1 <= i < |books| :: books[1..][i - 1] == books[i];
    }
  }

  /** The first chapter of the book with the given number, if any. */
  function FindChapter(book: BookInfo, n: int): (r: Option<ChapterInfo>)
    ensures r.Some? ==> r.value.chapter == n
  {
    FirstChapter(book.chapters, n)
  }

  function FirstChapter(cs: seq<ChapterInfo>, n: int): (r: Option<ChapterInfo>)
    ensures r.Some? ==> r.value.chapter == n
  {
    if |cs| == 0 then None
    else if cs[0].chapter == n then Some(cs[0])
    else FirstChapter(cs[1..], n)
  }

  /** The search finds a chapter of the list, and finds none exactly when
      no chapter carries the number. */
  lemma {:induction false} FirstChapterFound(cs: seq<ChapterInfo>, n: int)
    ensures FirstChapter(cs, n).Some? ==> FirstChapter(cs, n).value in cs
    ensures FirstChapter(cs, n).None? <==> forall k | 0 <= k < |cs| :: cs[k].chapter != n
  {
    if |cs| > 0 && cs[0].chapter != n {
      FirstChapterFound(cs[1..], n);
      assert forall k | 1 <= k < |cs| :: cs[1..][k - 1] == cs[k];
    }
  }

  lemma FindChapterFound(book: BookInfo, n: int)
    ensures FindChapter(book, n).Some? ==> FindChapter(book, n).value in book.chapters
    ensures FindChapter(book, n).None? <==> forall k | 0 <= k < |book.chapters| :: book.chapters[k].chapter != n
  {
    FirstChapterFound(book.chapters, n);
  }

  /** The search returns the first book with the name. */
  lemma {:induction false} FindBookFirst(books: seq<BookInfo>, i: nat)
    requires i < |books| && forall k | 0 <= k < i :: books[k].name != books[i].name
    ensures FindBook(books, books[i].name) == Some(books[i])
  {
    if i > 0 {
      assert books[1..][i - 1] == books[i];
      FindBookFirst(books[1..], i - 1);
    }
  }

  /** The search returns the first chapter with the number. */
  lemma {:induction false} FirstChapterFirst(cs: seq<ChapterInfo>, k: nat)
    requires k < |cs| && forall p | 0 <= p < k :: cs[p].chapter != cs[k].chapter
    ensures FirstChapter(cs, cs[k].chapter) == Some(cs[k])
  {
    if k > 0 {
      assert cs[1..][k - 1] == cs[k];
      FirstChapterFirst(cs[1..], k - 1);
    }
  }

  lemma FindBookAt(books: seq<BookInfo>, i: nat)
    requires UniqueNames(books) && i < |books|
    ensures FindBook(books, books[i].name) == Some(books[i])
  {
    FindBookFirst(books, i);
  }

  lemma FindChapterAt(book: BookInfo, k: nat)
    requires UniqueChapters(book) && k < |book.chapters|
    ensures FindChapter(book, book.chapters[k].chapter) == Some(book.chapters[k])
  {
    FirstChapterFirst(book.chapters, k);
  }

  // ---------------------------------------------------------------------
  // BookRange: a scan over the catalog with an "in range" flag that is
  // raised by the start book and lowered after the end book.

  /** The matches and the flag after the scan has looked at books[..k]. */
  function ScanTo(books: seq<BookInfo>, fromBook: string, toBook: string, k: nat): (seq<BookInfo>, bool)
    requires k <= |books|
  {
    if k == 0 then ([], false)
    else
      var (matches, inRange) := ScanTo(books, fromBook, toBook, k - 1);
      var b := books[k - 1];
      var on := inRange || b.name == fromBook;
      (if on then matches + [b] else matches, on && b.name != toBook)
  }

  /** What BookRange returns: the matches once the whole catalog is scanned. */
  function BookRangeOf(books: seq<BookInfo>, fromBook: string, toBook: string): seq<BookInfo>
  {
    ScanTo(books, fromBook, toBook, |books|).0
  }

  method BookRange(books: seq<BookInfo>, fromBook: string, toBook: string) returns (matches: seq<BookInfo>)
    ensures matches == BookRangeOf(books, fromBook, toBook)
  {
    matches := [];
    var inRange := false;
    for i := 0 to |books|
      invariant (matches, inRange) == ScanTo(books, fromBook, toBook, i)
    {
      var book := books[i];
      if book.name == fromBook {
        inRange := true;
      }
      if inRange {
        matches := matches + [book];
      }
      if book.name == toBook {
        inRange := false;
      }
    }
  }

  /** The scan, once the start book at index i has been seen, collects the
      books from i up to and including the stop index s, where s is the first
      index from i on that carries the end book's name, or |books| if none does. */
  lemma {:induction false} ScanFrom(books: seq<BookInfo>, fromBook: string, toBook: string, i: nat, s: nat, k: nat)
    requires UniqueNames(books)
    requires i < |books| && books[i].name == fromBook
    requires i <= s <= |books| && k <= |books|
    requires forall q | i <= q < s :: books[q].name != toBook
    requires s < |books| ==> books[s].name == toBook
    ensures k <= i ==> ScanTo(books, fromBook, toBook, k) == ([], false)
    ensures i < k ==> ScanTo(books, fromBook, toBook, k) ==
                      (books[i..if k <= s then k else s + 1], k <= s)
  {
    if k > 0 {
      ScanFrom(books, fromBook, toBook, i, s, k - 1);
      if k <= i {
        ScanBeforeStart(books, fromBook, toBook, i, k);
      } else if k - 1 == i {
        ScanAtStart(books, fromBook, toBook, i, s);
      } else {
        ScanAfterStart(books, fromBook, toBook, i, s, k);
      }
    }
  }

  /** Before the start book the scan collects nothing. */
  lemma ScanBeforeStart(books: seq<BookInfo>, fromBook: string, toBook: string, i: nat, k: nat)
    requires UniqueNames(books)
    requires i < |books| && books[i].name == fromBook && 0 < k <= i
    requires ScanTo(books, fromBook, toBook, k - 1) == ([], false)
    ensures ScanTo(books, fromBook, toBook, k) == ([], false)
  {
    assert books[k - 1].name != fromBook;
  }

  /** The start book is collected, and the scan goes on unless it is also the end. */
  lemma ScanAtStart(books: seq<BookInfo>, fromBook: string, toBook: string, i: nat, s: nat)
    requires i < |books| && books[i].name == fromBook
    requires i <= s <= |books|
    requires forall q | i <= q < s :: books[q].name != toBook
    requires s < |books| ==> books[s].name == toBook
    requires ScanTo(books, fromBook, toBook, i) == ([], false)
    ensures ScanTo(books, fromBook, toBook, i + 1) == (books[i..i + 1], i + 1 <= s)
  {
    assert (i < s) == (books[i].name != toBook);
    assert [] + [books[i]] == books[i..i + 1];
  }

  /** After the start book, books are collected up to and including the end book. */
  lemma ScanAfterStart(books: seq<BookInfo>, fromBook: string, toBook: string, i: nat, s: nat, k: nat)
    requires UniqueNames(books)
    requires i < |books| && books[i].name == fromBook
    requires i <= s <= |books| && i < k - 1 && k <= |books|
    requires forall q | i <= q < s :: books[q].name != toBook
    requires s < |books| ==> books[s].name == toBook
    requires ScanTo(books, fromBook, toBook, k - 1) == (books[i..if k - 1 <= s then k - 1 else s + 1], k - 1 <= s)
    ensures ScanTo(books, fromBook, toBook, k) == (books[i..if k <= s then k else s + 1], k <= s)
  {
    if k - 1 <= s {
      assert (k - 1 < s) == (books[k - 1].name != toBook);
      assert books[i..k - 1] + [books[k - 1]] == books[i..k];
    } else {
      assert books[k - 1].name != fromBook;
    }
  }

  lemma BookRangeSlice(books: seq<BookInfo>, i: nat, j: nat)
    requires UniqueNames(books)
    requires i <= j < |books|
    ensures BookRangeOf(books, books[i].name, books[j].name) == books[i..j + 1]
  {
    ScanFrom(books, books[i].name, books[j].name, i, j, |books|);
  }

  /** When the end book is absent or comes before the start book, the range
      runs from the start book to the end of the catalog. */
  lemma BookRangeToEnd(books: seq<BookInfo>, i: nat, toBook: string)
    requires UniqueNames(books)
    requires i < |books|
    requires forall q | i <= q < |books| :: books[q].name != toBook
    ensures BookRangeOf(books, books[i].name, toBook) == books[i..]
  {
    ScanFrom(books, books[i].name, toBook, i, |books|, |books|);
  }

  lemma {:induction false} ScanWithoutStart(books: seq<BookInfo>, fromBook: string, toBook: string, k: nat)
    requires k <= |books|
    requires forall q | 0 <= q < |books| :: books[q].name != fromBook
    ensures ScanTo(books, fromBook, toBook, k) == ([], false)
  {
    if k > 0 {
      ScanWithoutStart(books, fromBook, toBook, k - 1);
    }
  }

  /** No start book, no books. */
  lemma BookRangeWithoutStart(books: seq<BookInfo>, fromBook: string, toBook: string)
    requires forall q | 0 <= q < |books| :: books[q].name != fromBook
    ensures BookRangeOf(books, fromBook, toBook) == []
  {
    ScanWithoutStart(books, fromBook, toBook, |books|);
  }

  /** Over a catalog with unique names the range is always one contiguous
      run of the catalog, in catalog order. */
  lemma BookRangeContiguous(books: seq<BookInfo>, fromBook: string, toBook: string)
    requires UniqueNames(books)
    ensures exists i, j | 0 <= i <= j <= |books| :: BookRangeOf(books, fromBook, toBook) == books[i..j]
  {
    if i :| 0 <= i < |books| && books[i].name == fromBook {
      if j :| i <= j < |books| && books[j].name == toBook {
        BookRangeSlice(books, i, j);
        assert BookRangeOf(books, fromBook, toBook) == books[i..j + 1];
      } else {
        BookRangeToEnd(books, i, toBook);
        assert BookRangeOf(books, fromBook, toBook) == books[i..|books|];
      }
    } else {
      BookRangeWithoutStart(books, fromBook, toBook);
      assert BookRangeOf(books, fromBook, toBook) == books[0..0];
    }
  }

  /** Every book the scan collects is a book of the catalog. */
  lemma {:induction false} ScanWithin(books: seq<BookInfo>, fromBook: string, toBook: string, k: nat)
    requires k <= |books|
    ensures forall q | 0 <= q < |ScanTo(books, fromBook, toBook, k).0| :: ScanTo(books, fromBook, toBook, k).0[q] in books
  {
    if k > 0 {
      ScanWithin(books, fromBook, toBook, k - 1);
    }
  }

  /** Every book of the range is a book of the catalog. */
  lemma BookRangeWithin(books: seq<BookInfo>, fromBook: string, toBook: string)
    ensures forall q | 0 <= q < |BookRangeOf(books, fromBook, toBook)| :: BookRangeOf(books, fromBook, toBook)[q] in books
  {
    ScanWithin(books, fromBook, toBook, |books|);
  }
}
